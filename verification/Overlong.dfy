/** What the stream parser does with frames that are longer than its buffer. */
module Overlong {
  import opened Crc
  import opened Codec
  import opened StreamParser

  /** The parser has taken the first k bytes of raw, whose length it knows modulo 65536. */
  predicate Within(p: Parser, raw: Bytes, k: nat)
    requires WellFormed(raw) && 1 <= k < |raw|
  {
    p.decode && p.content == raw[..k] && !p.escaped
    && (k == 1 ==> p.state == LengthHigh)
    && (k == 2 ==> p.state == LengthLow && p.frameLength == Number(raw[1], 0))
    && (k >= 3 ==> p.state == FrameData && p.framePos == k - 3 && p.frameLength == (|raw| - 3) % 65536)
  }

  /** How many bytes of a frame that does not fit come out: all that fit, or four where the length has wrapped to 1. */
  function Cut(raw: Bytes): nat
  {
    if |raw| == 65540 then 4 else 2048
  }

  lemma AdvanceLong(p: Parser, raw: Bytes, k: nat)
    requires WellFormed(raw) && |raw| > 2048 && 1 <= k < Cut(raw) && Within(p, raw, k)
    ensures
      var q := Advance(p, raw[k]);
      q.decode && q.content == p.content && InFrame(p.state)
      && (k == 1 ==> q.state == LengthLow && q.frameLength == Number(raw[1], 0))
      && (k == 2 ==> q.framePos == 0 && q.state == FrameData)
      && (k >= 3 ==> q.framePos == k - 2 && q.state == if |raw| == 65540 && k == 3 then FrameComplete else FrameData)
      && (k >= 2 ==> q.frameLength == (|raw| - 3) % 65536)
  {
    hide Number;
    NumberSum(raw[1], raw[2]);
  }

  /** One more byte of the frame: taken, or the last one that comes out. */
  lemma LongStep(p: Parser, raw: Bytes, k: nat)
    requires WellFormed(raw) && |raw| > 2048 && 1 <= k < Cut(raw) && Within(p, raw, k)
    ensures
      var r := Feed(p, StuffByte(raw[k]));
      r.parser.decode
      && if k + 1 < Cut(raw) then r.frames == [] && Within(r.parser, raw, k + 1)
         else r.frames == [raw[..k + 1]] && r.parser.state == NoData
  {
    hide Number, StuffByte, Feed, Advance;
    AdvanceLong(p, raw, k);
    assert raw[..k + 1] == raw[..k] + [raw[k]];
    StuffedByteStep(p, raw[k]);
  }

  /** From any state in decode mode the bytes of a long frame go into the buffer up to there. */
  lemma {:induction false} LongPrefix(p: Parser, raw: Bytes, k: nat)
    requires p.decode && WellFormed(raw) && |raw| > 2048 && 1 <= k <= Cut(raw)
    ensures
      var r := Feed(p, Escape(raw[..k]));
      r.parser.decode
      && if k < Cut(raw) then r.frames == [] && Within(r.parser, raw, k)
         else r.frames == [raw[..k]] && r.parser.state == NoData
  {
    hide StuffByte, Stuff, Step, Within, WellFormed, Feed;
    if k == 1 {
      LongStart(p, raw);
    } else {
      LongPrefix(p, raw, k - 1);
      assert raw[..k][1..] == raw[..k - 1][1..] + [raw[k - 1]];
      StuffAppend(raw[..k - 1][1..], raw[k - 1]);
      var done := Escape(raw[..k - 1]);
      assert Escape(raw[..k]) == done + StuffByte(raw[k - 1]);
      FeedConcat(p, done, StuffByte(raw[k - 1]));
      LongStep(Feed(p, done).parser, raw, k - 1);
    }
  }

  lemma LongStart(p: Parser, raw: Bytes)
    requires p.decode && WellFormed(raw) && |raw| > 2048
    ensures
      var r := Feed(p, Escape(raw[..1]));
      r.frames == [] && r.parser.decode && Within(r.parser, raw, 1)
  {
    StuffNothing();
    assert raw[..1] == [0xfd] && raw[..1][1..] == [];
    FeedOne(p, 0xfd);
    hide Feed, Stuff;
  }

  /** Outside a frame nothing comes out until a start byte does. */
  lemma {:induction false} IdleSkips(p: Parser, s: Bytes)
    requires p.decode && p.state == NoData && 0xfd !in s
    ensures
      var r := Feed(p, s);
      r.frames == [] && r.parser.state == NoData && r.parser.decode
  {
    if |s| > 0 {
      IdleSkips(p, s[..|s| - 1]);
    }
  }

  /** A frame longer than the buffer comes out once and cut off, and no parser of frames accepts the piece. */
  lemma OverlongFrame(p: Parser, raw: Bytes)
    requires p.decode && WellFormed(raw) && |raw| > 2048
    ensures
      var r := Feed(p, Escape(raw));
      r.frames == [raw[..Cut(raw)]] && r.parser.state == NoData && !Accepted(raw[..Cut(raw)])
  {
    hide *;
    CutInside(raw);
    var n := Cut(raw);
    var front, rest := raw[..n], raw[n..];
    EscapeSplits(raw, n);
    LongPrefix(p, raw, n);
    FeedConcat(p, Escape(front), Stuff(rest));
    StuffHasNoStart(rest);
    IdleSkips(Feed(p, Escape(front)).parser, Stuff(rest));
    PieceRefused(raw, n);
  }

  lemma CutInside(raw: Bytes)
    requires WellFormed(raw) && |raw| > 2048
    ensures 1 <= Cut(raw) < |raw| <= 65540
  {}

  lemma EscapeSplits(raw: Bytes, n: nat)
    requires 1 <= n <= |raw|
    ensures Escape(raw) == Escape(raw[..n]) + Stuff(raw[n..])
  {
    assert raw[1..] == raw[..n][1..] + raw[n..];
    StuffConcat(raw[..n][1..], raw[n..]);
    hide Stuff;
  }

  lemma PieceRefused(raw: Bytes, n: nat)
    requires WellFormed(raw) && n < |raw|
    ensures !Accepted(raw[..n])
  {
    hide Number, Pair, Checksum;
  }
}
