/** The byte-at-a-time parser of the detection program. */
module StreamParser {
  import opened Crc
  import opened Codec
  import opened Words

  datatype State = NoData | LengthHigh | LengthLow | FrameData | FrameComplete

  /** The parser as a value; content is the used part of the buffer. */
  datatype Parser = Parser(content: Bytes, framePos: nat, frameLength: nat, state: State, escaped: bool, decode: bool)

  /** A parser and the frames that it has handed to its callback. */
  datatype Run = Run(parser: Parser, frames: seq<Bytes>)

  const CAPACITY: nat := 2048

  /** The store at the end of a step, and what follows from it. */
  function Store(p: Parser, b: bv8): Run
  {
    var content := p.content + [b];
    if |content| == CAPACITY || p.state == FrameComplete then
      Run(p.(content := content, state := NoData), [content])
    else
      Run(p.(content := content), [])
  }

  /** The state after a byte of a frame with value v. */
  function Advance(p: Parser, v: bv8): Parser
  {
    match p.state
    case LengthHigh => p.(frameLength := Number(v, 0), state := LengthLow)
    case LengthLow =>
      p.(frameLength := (p.frameLength + Number(0, v) + 2) % 65536, framePos := 0, state := FrameData)
    case FrameData =>
      var pos := (p.framePos + 1) % 65536;
      p.(framePos := pos, state := if pos == p.frameLength then FrameComplete else FrameData)
    case _ => p
  }

  function Step(p: Parser, b: bv8): Run
  {
    if b == 0xfd then
      Store(p.(content := [], escaped := false, state := LengthHigh), b)
    else if b == 0xfc then
      if p.decode then Run(p.(escaped := true), []) else Store(p.(escaped := true), b)
    else if p.state == NoData || p.state == FrameComplete then
      Run(p, [])
    else
      var v := if p.escaped then SetTop(b) else b;
      Store(Advance(p, v).(escaped := false), if p.decode then v else b)
  }

  function Feed(p: Parser, s: Bytes): Run
  {
    if |s| == 0 then Run(p, []) else
      var before := Feed(p, s[..|s| - 1]);
      var last := Step(before.parser, s[|s| - 1]);
      Run(last.parser, before.frames + last.frames)
  }

  lemma {:induction false} FeedConcat(p: Parser, s: Bytes, t: Bytes)
    ensures Feed(p, s + t) ==
      var first := Feed(p, s);
      var second := Feed(first.parser, t);
      Run(second.parser, first.frames + second.frames)
  {
    hide Step;
    if |t| == 0 {
      assert s + t == s;
    } else {
      var n := |t| - 1;
      FeedConcat(p, s, t[..n]);
      assert (s + t)[..|s| + n] == s + t[..n];
    }
  }

  lemma FeedNothing(p: Parser, s: Bytes)
    ensures Feed(p, s[..0]) == Run(p, []) && s[..|s|] == s
  {}

  lemma FeedNext(p: Parser, s: Bytes, k: nat)
    requires k < |s|
    ensures
      var before := Feed(p, s[..k]);
      var last := Step(before.parser, s[k]);
      Feed(p, s[..k + 1]) == Run(last.parser, before.frames + last.frames)
  {
    hide Step;
    assert s[..k + 1][..k] == s[..k];
  }

  // ------------------------------------------------------------------ one frame

  /** A frame before stuffing whose length field is right; the checksum is not looked at. */
  predicate WellFormed(raw: Bytes)
  {
    |raw| >= 5 && raw[0] == 0xfd && Number(raw[1], raw[2]) + 5 == |raw|
  }

  /** What the parser keeps of the first k bytes of a frame. */
  function Kept(raw: Bytes, k: nat, decode: bool): Bytes
    requires 1 <= k <= |raw|
  {
    if decode then raw[..k] else Escape(raw[..k])
  }

  function Delivered(raw: Bytes, decode: bool): Bytes
    requires |raw| > 0
  {
    if decode then raw else Escape(raw)
  }

  /** The parser has taken the first k bytes of raw, stuffed. */
  predicate Inside(p: Parser, raw: Bytes, k: nat)
    requires WellFormed(raw) && 1 <= k < |raw|
  {
    p.content == Kept(raw, k, p.decode) && !p.escaped
    && (k == 1 ==> p.state == LengthHigh)
    && (k == 2 ==> p.state == LengthLow && p.frameLength == Number(raw[1], 0))
    && (k >= 3 ==> p.state == FrameData && p.framePos == k - 3 && p.frameLength == |raw| - 3)
  }

  predicate After(r: Run, raw: Bytes, k: nat, decode: bool)
    requires WellFormed(raw) && 1 <= k <= |raw|
  {
    r.parser.decode == decode
    && if k < |raw| then r.frames == [] && Inside(r.parser, raw, k)
       else r.frames == [Delivered(raw, decode)] && r.parser.state == NoData
  }

  lemma FrameStart(p: Parser, raw: Bytes)
    requires WellFormed(raw)
    ensures After(Step(p, raw[0]), raw, 1, p.decode)
  {
    assert raw[..1] == [raw[0]] && raw[..1][1..] == [];
    assert Escape(raw[..1]) == raw[..1];
  }

  /** What a stuffed byte with value b adds to the buffer. */
  function Added(b: bv8, decode: bool): Bytes
  {
    if decode then [b] else StuffByte(b)
  }

  predicate InFrame(s: State)
  {
    s == LengthHigh || s == LengthLow || s == FrameData
  }

  /** A byte with value b whose bytes in the buffer are content. */
  function Taken(p: Parser, b: bv8, content: Bytes): Run
  {
    var q := Advance(p, b).(content := content, escaped := false);
    if |content| == CAPACITY || q.state == FrameComplete then Run(q.(state := NoData), [content]) else Run(q, [])
  }

  lemma TakenIgnores(p: Parser, kept: Bytes, b: bv8, content: Bytes)
    ensures Taken(p.(content := kept, escaped := true), b, content) == Taken(p, b, content)
  {}

  lemma PlainByteStep(p: Parser, b: bv8)
    requires InFrame(p.state) && !p.escaped && !Special(b)
    ensures Step(p, b) == Taken(p, b, p.content + [b])
  {
    hide Number;
  }

  lemma EscapeStep(p: Parser)
    ensures p.decode ==> Step(p, 0xfc) == Run(p.(escaped := true), [])
    ensures !p.decode && |p.content| + 1 < CAPACITY && p.state != FrameComplete ==>
      Step(p, 0xfc) == Run(p.(escaped := true, content := p.content + [0xfc]), [])
  {}

  lemma EscapedByteStep(p: Parser, y: bv8, b: bv8)
    requires InFrame(p.state) && p.escaped && !Special(y) && SetTop(y) == b
    ensures Step(p, y) == Taken(p, b, p.content + [if p.decode then b else y])
  {
    hide Number;
  }

  /** The one or two bytes that stand for b act as b, on the state, and as themselves, on the buffer. */
  lemma StuffedByteStep(p: Parser, b: bv8)
    requires InFrame(p.state) && !p.escaped && |p.content + Added(b, p.decode)| <= CAPACITY
    ensures Feed(p, StuffByte(b)) == Taken(p, b, p.content + Added(b, p.decode))
  {
    hide Number, Step, StuffByte, Special, Feed, SetTop, Taken;
    StuffedByteIsClean(b);
    var f := StuffByte(b);
    if |f| == 1 {
      FeedOne(p, f[0]);
      PlainByteStep(p, b);
      assert f == [b];
    } else {
      FeedTwo(p, f[0], f[1]);
      assert f == [f[0], f[1]];
      EscapeStep(p);
      var q := Step(p, f[0]).parser;
      EscapedByteStep(q, f[1], b);
      TakenIgnores(p, q.content, b, p.content + Added(b, p.decode));
      assert p.content + f == p.content + [f[0]] + [f[1]];
    }
  }

  lemma FeedOne(p: Parser, x: bv8)
    ensures Feed(p, [x]) == Step(p, x)
  {
    hide Step;
    assert [x][..0] == [];
    assert Feed(p, []) == Run(p, []);
  }

  lemma FeedTwo(p: Parser, x: bv8, y: bv8)
    ensures Feed(p, [x, y]) ==
      var first := Step(p, x);
      var second := Step(first.parser, y);
      Run(second.parser, first.frames + second.frames)
  {
    hide Step;
    assert [x, y][..1] == [x];
    FeedOne(p, x);
  }

  lemma KeptStep(raw: Bytes, k: nat, decode: bool)
    requires 1 <= k < |raw|
    ensures Kept(raw, k + 1, decode) == Kept(raw, k, decode) + Added(raw[k], decode)
    ensures |Kept(raw, k + 1, decode)| <= |Delivered(raw, decode)|
    ensures k + 1 < |raw| ==> |Kept(raw, k + 1, decode)| < |Delivered(raw, decode)|
    ensures k + 1 == |raw| ==> Kept(raw, k + 1, decode) == Delivered(raw, decode)
  {
    hide Stuff, StuffByte;
    assert raw[..k + 1] == raw[..k] + [raw[k]];
    if !decode {
      assert raw[..k + 1][1..] == raw[1..k + 1] && raw[..k][1..] == raw[1..k];
      assert raw[1..k + 1] == raw[1..k] + [raw[k]];
      StuffAppend(raw[1..k], raw[k]);
      assert raw[1..] == raw[1..k + 1] + raw[k + 1..];
      StuffConcat(raw[1..k + 1], raw[k + 1..]);
      if k + 1 == |raw| {
        assert raw[..k + 1] == raw;
      }
    }
  }

  lemma AdvanceInside(p: Parser, raw: Bytes, k: nat)
    requires WellFormed(raw) && 1 <= k < |raw| <= CAPACITY && Inside(p, raw, k)
    ensures
      var q := Advance(p, raw[k]);
      q.decode == p.decode
      && (k == 1 ==> q.state == LengthLow && q.frameLength == Number(raw[1], 0))
      && (k == 2 ==> q.framePos == 0 && q.frameLength == |raw| - 3)
      && (k >= 3 ==> q.framePos == k - 2 && q.frameLength == |raw| - 3)
      && (k >= 2 ==> q.state == if k + 1 == |raw| then FrameComplete else FrameData)
  {
    hide Kept, Number;
    NumberSum(raw[1], raw[2]);
  }

  lemma NumberSum(hi: bv8, lo: bv8)
    ensures Number(hi, 0) + Number(0, lo) == Number(hi, lo)
  {}

  lemma FrameByte(p: Parser, raw: Bytes, k: nat)
    requires WellFormed(raw) && 1 <= k < |raw| && Inside(p, raw, k)
    requires |Delivered(raw, p.decode)| <= CAPACITY
    ensures After(Feed(p, StuffByte(raw[k])), raw, k + 1, p.decode)
  {
    hide Kept, Added, Delivered, Feed, StuffByte, Advance, Number;
    KeptStep(raw, k, p.decode);
    StuffedByteStep(p, raw[k]);
    DeliveredSize(raw, p.decode);
    AdvanceInside(p, raw, k);
  }

  lemma DeliveredSize(raw: Bytes, decode: bool)
    requires |raw| > 0
    ensures |raw| <= |Delivered(raw, decode)|
  {}

  /** A parser in any state delivers a stuffed frame that fits, once, and is idle afterwards. */
  lemma {:induction false} FramePrefix(p: Parser, raw: Bytes, k: nat)
    requires WellFormed(raw) && |Delivered(raw, p.decode)| <= CAPACITY && 1 <= k <= |raw|
    ensures After(Feed(p, Escape(raw[..k])), raw, k, p.decode)
    decreases k
  {
    hide StuffByte, Stuff, Delivered, Step, Inside, Kept, WellFormed;
    if k == 1 {
      FrameStart(p, raw);
      FeedOne(p, raw[0]);
      StuffNothing();
      assert raw[..1] == [raw[0]] && raw[..1][1..] == [];
    } else {
      FramePrefix(p, raw, k - 1);
      assert raw[..k][1..] == raw[..k - 1][1..] + [raw[k - 1]];
      StuffAppend(raw[..k - 1][1..], raw[k - 1]);
      var done := Escape(raw[..k - 1]);
      assert Escape(raw[..k]) == done + StuffByte(raw[k - 1]);
      FeedConcat(p, done, StuffByte(raw[k - 1]));
      FrameByte(Feed(p, done).parser, raw, k - 1);
    }
  }

  lemma StuffNothing()
    ensures Stuff([]) == []
  {}

  lemma FrameDelivered(p: Parser, raw: Bytes)
    requires WellFormed(raw) && |Delivered(raw, p.decode)| <= CAPACITY
    ensures
      var r := Feed(p, Escape(raw));
      r.frames == [Delivered(raw, p.decode)] && r.parser.state == NoData && r.parser.decode == p.decode
  {
    hide Feed, Delivered;
    FramePrefix(p, raw, |raw|);
    assert raw[..|raw|] == raw;
  }

  /** From any state: the frame of a payload comes out once, is accepted and carries the payload. */
  lemma FrameRecovered(p: Parser, payload: Bytes)
    requires p.decode && 3 <= |payload| && |payload| + 5 <= CAPACITY
    ensures
      var frames := Feed(p, Escape(Wire(payload))).frames;
      frames == [Wire(payload)] && Accepted(frames[0]) && Payload(frames[0]) == payload
  {
    hide Feed, Payload, Wire;
    WireAccepted(payload);
    assert WellFormed(Wire(payload)) && |Wire(payload)| <= CAPACITY by { WireSize(payload); }
    FrameDelivered(p, Wire(payload));
  }

  lemma WireSize(payload: Bytes)
    ensures |Wire(payload)| == |payload| + 5
  {}

  // --------------------------------------------------------------- many frames

  predicate Fit(frames: seq<Bytes>, decode: bool)
  {
    forall i | 0 <= i < |frames| :: WellFormed(frames[i]) && |Delivered(frames[i], decode)| <= CAPACITY
  }

  function Stream(frames: seq<Bytes>): Bytes
    requires forall i | 0 <= i < |frames| :: WellFormed(frames[i])
  {
    if |frames| == 0 then [] else
      assert WellFormed(frames[|frames| - 1]);
      Stream(frames[..|frames| - 1]) + Escape(frames[|frames| - 1])
  }

  function Deliveries(frames: seq<Bytes>, decode: bool): (d: seq<Bytes>)
    requires forall i | 0 <= i < |frames| :: WellFormed(frames[i])
    ensures |d| == |frames|
  {
    if |frames| == 0 then [] else
      assert WellFormed(frames[|frames| - 1]);
      Deliveries(frames[..|frames| - 1], decode) + [Delivered(frames[|frames| - 1], decode)]
  }

  lemma {:induction false} DeliveryAt(frames: seq<Bytes>, decode: bool, k: nat)
    requires k < |frames| && forall i | 0 <= i < |frames| :: WellFormed(frames[i])
    ensures |frames[k]| > 0 && Deliveries(frames, decode)[k] == Delivered(frames[k], decode)
  {
    assert WellFormed(frames[k]);
    hide WellFormed, Delivered;
    if k < |frames| - 1 {
      DeliveryAt(frames[..|frames| - 1], decode, k);
    }
  }

  /** Every frame of a stream is delivered once, in order. */
  lemma {:induction false} StreamDelivered(p: Parser, frames: seq<Bytes>)
    requires Fit(frames, p.decode)
    ensures
      var r := Feed(p, Stream(frames));
      r.parser.decode == p.decode && r.frames == Deliveries(frames, p.decode)
  {
    if |frames| > 0 {
      var init, last := frames[..|frames| - 1], frames[|frames| - 1];
      assert WellFormed(last) && |Delivered(last, p.decode)| <= CAPACITY;
      hide WellFormed, Delivered, Feed, Escape;
      StreamDelivered(p, init);
      EscapeAllowed(last);
      FrameDelivered(Feed(p, Stream(init)).parser, last);
      FeedConcat(p, Stream(init), Escape(last));
    }
  }

  lemma EscapeAllowed(raw: Bytes)
    requires WellFormed(raw)
    ensures |raw| > 0
  {}

  /** Undo the stuffing of a frame that was delivered raw. */
  function Unescape(s: Bytes): Bytes
    requires |s| > 0
  {
    [s[0]] + Unstuff(s[1..])
  }

  lemma UnescapeEscape(raw: Bytes)
    requires |raw| > 0
    ensures Unescape(Escape(raw)) == raw
  {
    UnstuffStuff(raw[1..]);
    assert Escape(raw)[1..] == Stuff(raw[1..]);
  }

  /** On frames that fit, unstuffing what raw mode delivers gives what decode mode delivers. */
  lemma ModesAgree(p: Parser, q: Parser, frames: seq<Bytes>)
    requires p.decode && !q.decode && Fit(frames, false)
    ensures
      var decoded, raw := Feed(p, Stream(frames)).frames, Feed(q, Stream(frames)).frames;
      |decoded| == |raw| == |frames|
      && forall i | 0 <= i < |raw| :: |raw[i]| > 0 && decoded[i] == Unescape(raw[i])
  {
    hide WellFormed, Feed, Stream, Unescape;
    assert Fit(frames, true) by { DeliveredSizes(frames); }
    StreamDelivered(p, frames);
    StreamDelivered(q, frames);
    forall i | 0 <= i < |frames|
      ensures var raw := Deliveries(frames, false)[i];
        |raw| > 0 && Deliveries(frames, true)[i] == Unescape(raw)
    {
      DeliveryAt(frames, false, i);
      DeliveryAt(frames, true, i);
      UnescapeEscape(frames[i]);
    }
  }

  lemma DeliveredSizes(frames: seq<Bytes>)
    requires Fit(frames, false)
    ensures Fit(frames, true)
  {
    forall i | 0 <= i < |frames|
      ensures WellFormed(frames[i]) && |Delivered(frames[i], true)| <= CAPACITY
    {
      assert WellFormed(frames[i]);
      DeliveredSize(frames[i], false);
    }
  }

  // ----------------------------------------------------------------- the object

  /** What holds between two calls. */
  predicate Sound(p: Parser)
  {
    |p.content| <= CAPACITY && (|p.content| == CAPACITY ==> p.state == NoData)
    && p.state != FrameComplete && p.framePos < 65536 && p.frameLength < 65536
    && (p.state == LengthLow ==> p.frameLength % 256 == 0)
  }

  /** The step has room for its byte: always in decode mode. */
  predicate HasRoom(p: Parser, b: bv8)
  {
    p.decode || b != 0xfc || |p.content| < CAPACITY
  }

  lemma StepSound(p: Parser, b: bv8)
    requires Sound(p)
    ensures HasRoom(p, b) <==> Sound(Step(p, b).parser)
    ensures HasRoom(p, b) ==> forall f | f in Step(p, b).frames :: 0 < |f| <= CAPACITY
  {
    hide Number;
    NumberMultiple(if p.escaped then SetTop(b) else b);
  }

  /** In decode mode every store, on every input, lies inside the buffer. */
  lemma {:induction false} DecodeModeSound(p: Parser, s: Bytes)
    requires Sound(p) && p.decode
    ensures
      var r := Feed(p, s);
      Sound(r.parser) && r.parser.decode && (forall b :: HasRoom(r.parser, b))
      && forall f | f in r.frames :: 0 < |f| <= CAPACITY
  {
    if |s| > 0 {
      var n := |s| - 1;
      DecodeModeSound(p, s[..n]);
      StepSound(Feed(p, s[..n]).parser, s[n]);
      DecodeKept(Feed(p, s[..n]).parser, s[n]);
      hide Step, Sound;
    }
  }

  /** Escape bytes fill the buffer of a new parser in raw mode, frame or not. */
  lemma {:induction false} EscapesFill(s: Bytes)
    requires |s| <= CAPACITY && forall i | 0 <= i < |s| :: s[i] == 0xfc
    ensures Feed(Parser([], 0, 0, NoData, false, false), s).parser == Parser(s, 0, 0, NoData, |s| > 0, false)
  {
    if |s| > 0 {
      var n := |s| - 1;
      EscapesFill(s[..n]);
      assert s == s[..n] + [0xfc];
    }
  }

  /** So a new parser in raw mode can come to a step without room: one escape byte more than the buffer holds. */
  lemma RawModeFillsUp(s: Bytes)
    requires |s| == CAPACITY && forall i | 0 <= i < |s| :: s[i] == 0xfc
    ensures
      var p := Feed(Parser([], 0, 0, NoData, false, false), s).parser;
      Sound(p) && !HasRoom(p, 0xfc) && !Sound(Step(p, 0xfc).parser)
  {
    hide Feed;
    EscapesFill(s);
  }

  lemma DecodeKept(p: Parser, b: bv8)
    ensures Step(p, b).parser.decode == p.decode
  {
    hide SetTop, Number;
  }

  lemma NumberMultiple(v: bv8)
    ensures Number(v, 0) % 256 == 0
  {
  }

  lemma SetTopTwice(b: bv8)
    ensures SetTop(SetTop(b)) == SetTop(b)
  {}

  lemma StartStep(p: Parser)
    ensures Step(p, 0xfd) == Store(p.(content := [], escaped := false, state := LengthHigh), 0xfd)
  {}

  lemma EscapeCases(p: Parser)
    ensures p.decode ==> Step(p, 0xfc) == Run(p.(escaped := true), [])
    ensures !p.decode ==> Step(p, 0xfc) == Store(p.(escaped := true), 0xfc)
  {}

  /** The reaction to any other byte, whose value is chr once an escape is resolved. */
  lemma FrameCases(p: Parser, b: bv8, chr: bv8)
    requires !Special(b) && chr == if p.escaped && p.decode then SetTop(b) else b
    ensures !InFrame(p.state) ==> Step(p, b) == Run(p, [])
    ensures InFrame(p.state) ==>
      Step(p, b) == Store(Advance(p, if p.escaped then SetTop(chr) else chr).(escaped := false), chr)
  {
    hide Store, Advance, SetTop;
    SetTopTwice(b);
  }

  /** What is known before a byte is taken. */
  lemma RoomFor(p: Parser, b: bv8)
    requires Sound(p)
    ensures InFrame(p.state) ==> |p.content| < CAPACITY
    ensures InFrame(p.state) <==> p.state != NoData && p.state != FrameComplete
    ensures p.state == LengthLow ==> p.frameLength % 256 == 0
    ensures Special(b) <==> b == 0xfd || b == 0xfc
    ensures HasRoom(p, b) <==> p.decode || b != 0xfc || |p.content| < CAPACITY
    ensures |p.content| <= CAPACITY && Sound(p.(escaped := true))
  {}

  /** The or of the upper length byte and a lower one, which do not overlap: it is their sum. */
  function WithLow(high: nat, v: bv8): (n: nat)
    requires high % 256 == 0
    ensures n == high + Number(0, v)
  {
    PowersOfTwo();
    OrDisjoint(v as int, high / 256, 8, 256);
    Or(high, v as int)
  }

  class StreamParser {
    const buffer: array<bv8>
    var bufferPos: nat
    var framePos: nat
    var frameLength: nat
    var state: State
    var isEscaped: bool
    var decodeEscaped: bool
    /** The calls of the processor: the buffers it was given. */
    var processed: seq<Bytes>

    ghost predicate Valid()
      reads this, buffer
    {
      buffer.Length == CAPACITY && bufferPos <= CAPACITY && Sound(Value())
    }

    ghost function Content(): Bytes
      reads this`bufferPos, buffer
      requires bufferPos <= buffer.Length
    {
      buffer[..bufferPos]
    }

    ghost function Value(): Parser
      reads this, buffer
      requires bufferPos <= buffer.Length
    {
      Parser(Content(), framePos, frameLength, state, isEscaped, decodeEscaped)
    }

    constructor (decode: bool)
      ensures Valid() && fresh(buffer)
      ensures Value() == Parser([], 0, 0, NoData, false, decode) && processed == []
    {
      buffer := new bv8[2048];
      bufferPos, framePos, frameLength := 0, 0, 0;
      state, isEscaped, decodeEscaped := NoData, false, decode;
      processed := [];
    }

    /** The reaction to one byte; inside tells that its store, if any, lies inside the buffer. */
    method AppendByte(byte: bv8) returns (inside: bool)
      requires Valid()
      modifies this, buffer
      ensures Valid() && (inside <==> HasRoom(old(Value()), byte))
      ensures inside ==>
        var r := Step(old(Value()), byte);
        Value() == r.parser && processed == old(processed) + r.frames
      ensures !inside ==> Value() == old(Value()).(escaped := true) && processed == old(processed)
    {
      hide Step, Store, Advance, Sound, HasRoom, InFrame, Number, SetTop, Special;
      ghost var p := Value();
      ghost var r := Step(p, byte);
      RoomFor(p, byte);
      inside := true;
      var chr := byte;
      if chr == 0xfd {
        Restart();
        StartStep(p);
        StoreByte(chr, Value());
      } else if chr == 0xfc {
        isEscaped := true;
        EscapeCases(p);
        if decodeEscaped {
          StepSound(p, byte);
          return;
        }
        if bufferPos == buffer.Length {
          return false;
        }
        StoreByte(chr, Value());
      } else {
        if isEscaped && decodeEscaped {
          chr := SetTop(chr);
        }
        FrameCases(p, byte, chr);
        if state == NoData || state == FrameComplete {
          return;
        }
        AdvanceState(chr);
        isEscaped := false;
        StoreByte(chr, Value());
      }
      StepSound(p, byte);
    }

    /** The start byte begins a new frame. */
    method Restart()
      requires bufferPos <= buffer.Length
      modifies this`bufferPos, this`isEscaped, this`state
      ensures bufferPos == 0 && Value() == old(Value()).(content := [], escaped := false, state := LengthHigh)
    {
      bufferPos := 0;
      isEscaped := false;
      state := LengthHigh;
      assert buffer[..0] == [];
    }

    /** A buffer of bytes, up to the first that finds no room. */
    method Append(data: array<bv8>, len: nat) returns (taken: nat)
      requires Valid() && data != buffer && len <= data.Length
      modifies this, buffer
      ensures Valid() && taken <= len
      ensures
        var p, s := old(Value()), old(data[..len]);
        (forall k | 0 <= k < taken :: HasRoom(Feed(p, s[..k]).parser, s[k]))
        && (taken < len ==> !HasRoom(Feed(p, s[..taken]).parser, s[taken]))
        && processed == old(processed) + Feed(p, s[..taken]).frames
        && (taken == len ==> Value() == Feed(p, s).parser)
    {
      hide HasRoom, Step, Sound, Feed, Content;
      ghost var p, before, s := Value(), processed, data[..len];
      FeedNothing(p, s);
      taken := 0;
      while taken < len
        invariant taken <= len && Valid() && data[..len] == s
        invariant forall k | 0 <= k < taken :: HasRoom(Feed(p, s[..k]).parser, s[k])
        invariant Value() == Feed(p, s[..taken]).parser
        invariant processed == before + Feed(p, s[..taken]).frames
      {
        ghost var r := Feed(p, s[..taken]);
        FeedNext(p, s, taken);
        assert data[taken] == s[taken];
        var inside := AppendByte(data[taken]);
        if !inside {
          return;
        }
        taken := taken + 1;
      }
      FeedNothing(p, s);
    }

    method Flush()
      requires Valid()
      modifies this
      ensures Valid() && processed == old(processed)
      ensures Value() == old(Value()).(content := [], state := NoData, escaped := false)
    {
      state := NoData;
      bufferPos := 0;
      isEscaped := false;
    }

    method SetDecodeEscaped(decode: bool)
      requires Valid()
      modifies this
      ensures Valid() && processed == old(processed)
      ensures Value() == old(Value()).(decode := decode)
    {
      decodeEscaped := decode;
    }

    /** The inner switch on the state, for a byte of a frame. */
    method AdvanceState(chr: bv8)
      requires buffer.Length == CAPACITY && bufferPos <= CAPACITY
      requires InFrame(state) && (state == LengthLow ==> frameLength % 256 == 0)
      modifies this`framePos, this`frameLength, this`state
      ensures Value() == Advance(old(Value()), if isEscaped then SetTop(chr) else chr)
    {
      hide Number, SetTop, WithLow;
      match state {
        case LengthHigh =>
          frameLength := Number(if isEscaped then SetTop(chr) else chr, 0);
          state := LengthLow;
        case LengthLow =>
          frameLength := WithLow(frameLength, if isEscaped then SetTop(chr) else chr);
          frameLength := (frameLength + 2) % 65536;
          framePos := 0;
          state := FrameData;
        case FrameData =>
          framePos := (framePos + 1) % 65536;
          state := if framePos == frameLength then FrameComplete else FrameData;
      }
    }

    /** The end of a step: keep the byte and hand over a complete frame. */
    method StoreByte(chr: bv8, ghost p: Parser)
      requires buffer.Length == CAPACITY && bufferPos < CAPACITY && Value() == p
      modifies this, buffer
      ensures bufferPos <= CAPACITY
      ensures
        var r := Store(p, chr);
        Value() == r.parser && processed == old(processed) + r.frames
    {
      ghost var content := buffer[..bufferPos];
      buffer[bufferPos] := chr;
      bufferPos := bufferPos + 1;
      assert buffer[..bufferPos] == content + [chr];
      if bufferPos == buffer.Length {
        state := FrameComplete;
      }
      if state == FrameComplete {
        processed := processed + [buffer[..bufferPos]];
        state := NoData;
      }
    }
  }
}
