/** Frames stuffed by the kernel codec, read by the parser of the detection program. */
module CodecInterplay {
  import opened Crc
  import opened Codec
  import opened StreamParser
  import opened KernelFrame

  /** No start byte except at the front and at the place where the kernel codec stuffs it. */
  predicate NoInnerStart(s: Bytes)
  {
    forall i | 0 < i < |s| && i != |s| - 2 :: s[i] != 0xfd
  }

  /** The bytes of s that a parser in decode mode may store. */
  function Weight(s: Bytes): nat
  {
    if |s| == 0 then 0 else Weight(s[..|s| - 1]) + if s[|s| - 1] == 0xfc then 0 else 1
  }

  lemma {:induction false} WeightConcat(s: Bytes, t: Bytes)
    ensures Weight(s + t) == Weight(s) + Weight(t)
  {
    if |t| == 0 {
      assert s + t == s;
    } else {
      WeightConcat(s, t[..|t| - 1]);
      assert (s + t)[..|s| + |t| - 1] == s + t[..|t| - 1];
    }
  }

  /** No more bytes are kept or handed over than were stored. */
  lemma {:induction false} ContentBound(p: Parser, s: Bytes)
    requires p.decode
    ensures
      var r := Feed(p, s);
      r.parser.decode && |r.parser.content| <= |p.content| + Weight(s)
      && forall f | f in r.frames :: |f| <= |p.content| + Weight(s)
  {
    if |s| > 0 {
      var n := |s| - 1;
      ContentBound(p, s[..n]);
      StepBound(Feed(p, s[..n]).parser, s[n]);
      hide Step;
    }
  }

  lemma StepBound(p: Parser, b: bv8)
    requires p.decode
    ensures
      var r := Step(p, b);
      var room := |p.content| + if b == 0xfc then 0 else 1;
      r.parser.decode && |r.parser.content| <= room && forall f | f in r.frames :: |f| <= room
  {
    hide SetTop, Number;
  }

  /** After a start byte only the bytes from there on count. */
  lemma RestartBound(p: Parser, s: Bytes)
    requires p.decode && |s| > 0 && s[0] == 0xfd
    ensures Feed(p, s).parser.decode && forall f | f in Feed(p, s).frames :: |f| <= Weight(s)
  {
    var q := Step(p, 0xfd).parser;
    assert q.decode && q.content == [0xfd] && Step(p, 0xfd).frames == [];
    hide Step;
    assert s == [0xfd] + s[1..];
    FeedOne(p, 0xfd);
    FeedConcat(p, [0xfd], s[1..]);
    ContentBound(q, s[1..]);
    WeightConcat([0xfd], s[1..]);
    assert Weight([0xfd]) == 1 by { assert [0xfd as bv8][..0] == []; assert Weight([]) == 0; }
    hide Feed, Weight;
  }

  /** A kernel stuffing splits before any byte; every byte stored once in each part. */
  lemma {:induction false} StuffingSplits(s: Bytes, k: nat) returns (front: Bytes)
    requires k <= |s|
    ensures KernelStuff(s) == front + KernelStuff(s[k..]) && Weight(front) == k
    ensures 0 < k && s[0] == 0xfd && |s| != 2 ==> |front| > 0 && front[0] == 0xfd
  {
    if k == 0 {
      front := [];
      assert s[k..] == s && front + KernelStuff(s) == KernelStuff(s);
    } else {
      var f := KernelByte(s[0], |s| - 1);
      assert s[0] == 0xfd && |s| != 2 ==> f[0] == 0xfd;
      hide *;
      var t := s[1..];
      var tail := StuffingSplits(t, k - 1);
      var rest := KernelStuff(s[k..]);
      assert t[k - 1..] == s[k..];
      StoredOnce(s[0], |s| - 1);
      KernelStuffHead(s);
      WeightConcat(f, tail);
      front := f + tail;
      AppendAssoc(f, tail, rest);
    }
  }

  lemma StoredOnce(b: bv8, behind: nat)
    ensures Weight(KernelByte(b, behind)) == 1
  {
    assert Weight([]) == 0;
    if Stuffed(b, behind) {
      var c := ClearTop(b);
      assert c != 0xfc;
      hide ClearTop;
      assert [0xfc, c][..1] == [0xfc] && [0xfc as bv8][..0] == [];
      assert Weight([0xfc]) == 0;
    } else {
      assert [b][..0] == [];
    }
  }

  /** A start byte left inside a frame keeps the frame from arriving whole. */
  lemma InnerStartBreaks(p: Parser, raw: Bytes, i: nat)
    requires p.decode && |raw| >= 5 && raw[0] == 0xfd
    requires 0 < i < |raw| && i != |raw| - 2 && raw[i] == 0xfd
    ensures raw !in Feed(p, KernelStuff(raw)).frames
  {
    hide Feed, Weight;
    var front := StuffingSplits(raw, i);
    var rest := raw[i..];
    var all := StuffingSplits(rest, |rest|);
    var tail := KernelStuff(rest);
    KernelStuffHead(rest);
    assert tail[0] == 0xfd;
    assert Weight(tail) == |rest| by {
      assert rest[|rest|..] == [] && KernelStuff([]) == [];
      assert tail == all;
    }
    hide KernelStuff;
    RestartBound(p, front);
    FeedConcat(p, front, tail);
    RestartBound(Feed(p, front).parser, tail);
  }

  lemma {:induction false} StuffingsAgree(s: Bytes)
    requires forall i | 0 <= i < |s| && i != |s| - 2 :: s[i] != 0xfd
    ensures KernelStuff(s) == Stuff(s)
  {
    if |s| > 0 {
      var t := s[1..];
      assert forall i | 0 <= i < |t| && i != |t| - 2 :: t[i] == s[i + 1];
      StuffingsAgree(t);
    }
  }

  /** The parser delivers a kernel-stuffed frame, and it alone, exactly when no start byte is left inside. */
  lemma KernelFrameSurvives(p: Parser, raw: Bytes)
    requires p.decode && WellFormed(raw) && |raw| <= CAPACITY
    ensures Feed(p, KernelStuff(raw)).frames == [raw] <==> NoInnerStart(raw)
  {
    if NoInnerStart(raw) {
      var t := raw[1..];
      assert forall i | 0 <= i < |t| && i != |t| - 2 :: t[i] == raw[i + 1];
      StuffingsAgree(t);
      assert KernelStuff(raw) == Escape(raw) by { KernelStuffHead(raw); }
      FrameDelivered(p, raw);
    } else {
      var i :| 0 < i < |raw| && i != |raw| - 2 && raw[i] == 0xfd;
      InnerStartBreaks(p, raw, i);
    }
  }

  /** A frame that is lost: the command 2 with the counter 0xfd. */
  lemma FrameLost(p: Parser)
    requires p.decode
    ensures
      var raw := Wire([1, 0xfd, 2]);
      Accepted(raw) && Feed(p, KernelStuff(raw)).frames != [raw]
  {
    hide Checksum;
    var raw := Wire([1, 0xfd, 2]);
    assert raw[4] == 0xfd;
    assert !NoInnerStart(raw);
    WireAccepted([1, 0xfd, 2]);
    AcceptedMeans(raw);
    hide Wire, Feed, KernelStuff, Accepted, NoInnerStart;
    KernelFrameSurvives(p, raw);
  }
}
