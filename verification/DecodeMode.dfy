/** What the stream parser in decode mode delivers, told from the bytes it was given. */
module DecodeMode {
  import opened Crc
  import opened Codec
  import opened StreamParser
  import opened RawMode

  /** The parser that the constructor makes when escape bytes are to be resolved. */
  const FRESH: Parser := Parser([], 0, 0, NoData, false, true)

  /** How many values of a frame come out: all of them, or as many as the buffer holds. */
  function Enough(v: Bytes): nat
  {
    if FrameValues(v) <= CAPACITY then FrameValues(v) else CAPACITY
  }

  /** In a frame the buffer holds the values since the start byte; outside one there were enough, or there was none. */
  predicate Keeps(p: Parser, t: Bytes)
  {
    var v := Values(t);
    p.decode && p.state != FrameComplete
    && if InFrame(p.state)
       then Started(t) && Reads(p, v) && p.content == v && |v| < CAPACITY && (p.escaped <==> t[|t| - 1] == 0xfc)
       else Started(t) ==> |v| >= Enough(v)
  }

  /** The bytes t, the last of which has just come, complete a delivery. */
  predicate Completes(t: Bytes)
  {
    Started(t) && t[|t| - 1] != 0xfc && |Values(t)| == Enough(Values(t))
  }

  lemma StartKeeps(p: Parser, t: Bytes)
    requires Keeps(p, t)
    ensures Keeps(Step(p, 0xfd).parser, [0xfd]) && Step(p, 0xfd).frames == [] && !Completes([0xfd])
  {
    AppendValue([], 0xfd);
    assert [] + [0xfd] == [0xfd] && Values([]) == [];
    StartStep(p);
    hide Step, Values, FrameValues, Number;
  }

  lemma EscapeKeeps(p: Parser, t: Bytes)
    requires Keeps(p, t)
    ensures Keeps(Step(p, 0xfc).parser, t + [0xfc]) && Step(p, 0xfc).frames == [] && !Completes(t + [0xfc])
  {
    AppendValue(t, 0xfc);
    EscapeCases(p);
    hide Step, Values, FrameValues, Number;
  }

  lemma OutsideKeeps(p: Parser, t: Bytes, b: bv8)
    requires Keeps(p, t) && !Special(b) && !InFrame(p.state)
    ensures Keeps(Step(p, b).parser, t + [b]) && Step(p, b).frames == [] && !Completes(t + [b])
  {
    AppendValue(t, b);
    FrameCases(p, b, if p.escaped && p.decode then SetTop(b) else b);
    SameFrame(Values(t), if |t| > 0 && t[|t| - 1] == 0xfc then SetTop(b) else b);
    hide Step, Values, FrameValues, Number, SetTop, Special;
  }

  lemma InsideKeeps(p: Parser, t: Bytes, b: bv8)
    requires Keeps(p, t) && !Special(b) && InFrame(p.state)
    ensures
      var r := Step(p, b);
      Keeps(r.parser, t + [b]) && r.frames == if Completes(t + [b]) then [Values(t + [b])] else []
  {
    var v, value := Values(t), if p.escaped then SetTop(b) else b;
    AppendValue(t, b);
    FrameCases(p, b, value);
    SetTopTwice(b);
    ValueTaken(p, v, value);
    SameFrame(v, value);
    hide Step, Values, FrameValues, Advance, Number, SetTop, Special;
  }

  /** The bytes since the last start byte, one byte later. */
  lemma RecentNext(s: Bytes, b: bv8)
    ensures Recent(s + [b]) == if b == 0xfd then [0xfd] else Recent(s) + [b]
  {
    assert (s + [b])[..|s|] == s;
  }

  lemma {:induction false} FeedKeeps(s: Bytes)
    ensures Keeps(Feed(FRESH, s).parser, Recent(s))
  {
    assert Keeps(FRESH, []);
    hide Keeps, Step;
    if |s| > 0 {
      var n := |s| - 1;
      FeedKeeps(s[..n]);
      assert s == s[..n] + [s[n]];
      RecentNext(s[..n], s[n]);
      ByteKeeps(Feed(FRESH, s[..n]).parser, Recent(s[..n]), s[n]);
    }
  }

  lemma ByteKeeps(p: Parser, t: Bytes, b: bv8)
    requires Keeps(p, t)
    ensures
      var r, u := Step(p, b), if b == 0xfd then [0xfd] else t + [b];
      Keeps(r.parser, u) && r.frames == if Completes(u) then [Values(u)] else []
  {
    hide Keeps, Step, Completes, Values;
    if b == 0xfd {
      StartKeeps(p, t);
    } else if b == 0xfc {
      EscapeKeeps(p, t);
    } else if InFrame(p.state) {
      InsideKeeps(p, t, b);
    } else {
      OutsideKeeps(p, t, b);
    }
  }

  /** On every input: a byte completes a delivery exactly when the values since the last start byte are now those of the
      frame that they announce, or fill the buffer; and these values are what is delivered. */
  lemma DeliveryExact(s: Bytes, b: bv8)
    ensures
      var t := Recent(s + [b]);
      Step(Feed(FRESH, s).parser, b).frames == if Completes(t) then [Values(t)] else []
  {
    hide Keeps, Step, Feed, Completes, Values, Recent;
    FeedKeeps(s);
    RecentNext(s, b);
    ByteKeeps(Feed(FRESH, s).parser, Recent(s), b);
  }
}
