/** When the stream parser in raw mode leaves its buffer, told from the bytes it was given. */
module RawMode {
  import opened Crc
  import opened Codec
  import opened StreamParser

  /** The parser that the constructor makes when escape bytes are to be kept. */
  const IDLE: Parser := Parser([], 0, 0, NoData, false, false)

  /** The bytes from the last start byte on, or all of them when there is none. */
  function Recent(s: Bytes): (t: Bytes)
    ensures |t| <= |s|
  {
    if |s| == 0 then []
    else if s[|s| - 1] == 0xfd then [0xfd]
    else Recent(s[..|s| - 1]) + [s[|s| - 1]]
  }

  /** The bytes that are no escape bytes, each with the top bit that an escape byte before it stands for. */
  function Values(t: Bytes): (v: Bytes)
    ensures |v| <= |t|
  {
    if |t| == 0 then [] else
      var n := |t| - 1;
      if t[n] == 0xfc then Values(t[..n])
      else Values(t[..n]) + [if n > 0 && t[n - 1] == 0xfc then SetTop(t[n]) else t[n]]
  }

  /** How many values the frame that starts with these has: start byte, length, and what the length announces. */
  function FrameValues(v: Bytes): (n: nat)
    ensures n >= 3 && (|v| >= 3 ==> n > 3)
  {
    if |v| < 3 then 3 else
      var n := (Number(v[1], v[2]) + 2) % 65536;
      3 + if n == 0 then 65536 else n
  }

  predicate Started(t: Bytes)
  {
    |t| > 0 && t[0] == 0xfd
  }

  /** How many of the bytes are to be stored: every escape byte, and of the others those of the frame. */
  function Stored(t: Bytes): nat
  {
    var v := Values(t);
    |t| - |v| + if !Started(t) then 0 else if |v| <= FrameValues(v) then |v| else FrameValues(v)
  }

  /** The state after a value, told from the values so far. */
  predicate Reads(p: Parser, v: Bytes)
  {
    match p.state
    case LengthHigh => |v| == 1
    case LengthLow => |v| == 2 && p.frameLength == Number(v[1], 0)
    case FrameData =>
      3 <= |v| < FrameValues(v) && p.framePos == |v| - 3 && p.frameLength == (Number(v[1], v[2]) + 2) % 65536
    case FrameComplete => 3 < |v| == FrameValues(v)
    case NoData => false
  }

  /** In a frame everything since the start byte is in the buffer. */
  predicate Running(p: Parser, t: Bytes)
  {
    var v := Values(t);
    Started(t) && |t| == |p.content| < CAPACITY && (p.escaped <==> t[|t| - 1] == 0xfc)
    && Reads(p, v)
  }

  /** Outside a frame only escape bytes are added; a full buffer stays full. */
  predicate Waiting(p: Parser, t: Bytes)
  {
    var v := Values(t);
    if |p.content| < CAPACITY
      then |p.content| == Stored(t) && (Started(t) ==> 3 <= |v| && FrameValues(v) <= |v|)
      else Stored(t) >= CAPACITY
  }

  predicate Follows(p: Parser, t: Bytes)
  {
    !p.decode && p.state != FrameComplete && if InFrame(p.state) then Running(p, t) else Waiting(p, t)
  }

  lemma AppendValue(t: Bytes, b: bv8)
    ensures Started(t + [b]) <==> if |t| == 0 then b == 0xfd else Started(t)
    ensures b == 0xfc ==> Values(t + [b]) == Values(t)
    ensures b != 0xfc ==>
      Values(t + [b]) == Values(t) + [if |t| > 0 && t[|t| - 1] == 0xfc then SetTop(b) else b]
  {
    assert (t + [b])[..|t|] == t;
  }

  lemma StartFollows(p: Parser, t: Bytes)
    requires Follows(p, t)
    ensures Follows(Step(p, 0xfd).parser, [0xfd])
  {
    AppendValue([], 0xfd);
    assert [] + [0xfd] == [0xfd] && Values([]) == [];
    StartStep(p);
    hide Step, Values, FrameValues, Waiting, Number;
  }

  lemma EscapeFollows(p: Parser, t: Bytes)
    requires Follows(p, t)
    ensures Follows(Step(p, 0xfc).parser, t + [0xfc])
  {
    hide Step, Values, FrameValues, Number;
    AppendValue(t, 0xfc);
    EscapeCases(p);
  }

  /** A byte outside a frame is not stored. */
  lemma OutsideFollows(p: Parser, t: Bytes, b: bv8)
    requires Follows(p, t) && !Special(b) && !InFrame(p.state)
    ensures Follows(Step(p, b).parser, t + [b])
  {
    AppendValue(t, b);
    FrameCases(p, b, b);
    SameFrame(Values(t), if |t| > 0 && t[|t| - 1] == 0xfc then SetTop(b) else b);
    hide Step, Values, FrameValues, Number, SetTop, Special;
  }

  lemma SameFrame(v: Bytes, b: bv8)
    ensures |v| >= 3 ==> FrameValues(v + [b]) == FrameValues(v)
  {
    hide Number;
  }

  /** A byte of a frame is stored, and its value moves the state on. */
  lemma InsideFollows(p: Parser, t: Bytes, b: bv8)
    requires Follows(p, t) && !Special(b) && InFrame(p.state)
    ensures Follows(Step(p, b).parser, t + [b])
  {
    var v, value := Values(t), if p.escaped then SetTop(b) else b;
    AppendValue(t, b);
    FrameCases(p, b, b);
    ValueTaken(p, v, value);
    SameFrame(v, value);
    hide Step, Values, FrameValues, Advance, Number, SetTop, Special;
  }

  lemma ValueTaken(p: Parser, v: Bytes, b: bv8)
    requires InFrame(p.state) && Reads(p, v) && |v| < CAPACITY
    ensures Reads(Advance(p, b), v + [b])
  {
    hide Number;
    if p.state == LengthLow {
      NumberSum(v[1], b);
    }
    if p.state == FrameData {
      SameFrame(v, b);
      hide FrameValues;
    }
  }

  lemma {:induction false} FeedFollows(s: Bytes)
    ensures Follows(Feed(IDLE, s).parser, Recent(s))
  {
    assert Follows(IDLE, []);
    hide Follows, Step;
    if |s| > 0 {
      var n := |s| - 1;
      var p, t, b := Feed(IDLE, s[..n]).parser, Recent(s[..n]), s[n];
      FeedFollows(s[..n]);
      if b == 0xfd {
        StartFollows(p, t);
      } else if b == 0xfc {
        EscapeFollows(p, t);
      } else if InFrame(p.state) {
        InsideFollows(p, t, b);
      } else {
        OutsideFollows(p, t, b);
      }
    }
  }

  /** A step lacks room exactly at an escape byte when 2048 bytes were to be stored since the last start byte. */
  lemma RoomLeft(s: Bytes, b: bv8)
    ensures HasRoom(Feed(IDLE, s).parser, b) <==> b != 0xfc || Stored(Recent(s)) < CAPACITY
  {
    hide Feed, Recent;
    FeedFollows(s);
  }

  /** On a whole input: every store is inside the buffer exactly when no escape byte finds 2048 bytes stored. */
  lemma RawModeOverruns(s: Bytes)
    ensures (forall k | 0 <= k < |s| :: HasRoom(Feed(IDLE, s[..k]).parser, s[k]))
      <==> (forall k | 0 <= k < |s| && s[k] == 0xfc :: Stored(Recent(s[..k])) < CAPACITY)
  {
    hide Feed, Recent, Stored, HasRoom;
    forall k | 0 <= k < |s|
      ensures HasRoom(Feed(IDLE, s[..k]).parser, s[k]) <==> s[k] != 0xfc || Stored(Recent(s[..k])) < CAPACITY
    {
      RoomLeft(s[..k], s[k]);
    }
  }

  /** Recent is the end of the input from its last start byte on. */
  lemma {:induction false} RecentIsEnd(s: Bytes)
    ensures
      var t := Recent(s);
      t == s[|s| - |t|..] && (|t| == |s| || Started(t)) && forall i | 0 < i < |t| :: t[i] != 0xfd
  {
    if |s| > 0 {
      var n := |s| - 1;
      var u, t := Recent(s[..n]), Recent(s);
      RecentIsEnd(s[..n]);
      if s[n] == 0xfd {
        assert t == [0xfd];
        hide Recent;
        assert s[n..] == [s[n]];
      } else {
        assert t == u + [s[n]];
        hide Recent;
        assert s[n - |u|..] == s[..n][n - |u|..] + [s[n]];
        forall i | 0 < i < |t|
          ensures t[i] != 0xfd
        {
          assert t[i] == if i < |u| then u[i] else s[n];
        }
      }
    }
  }
}
