/** The frame codec of the kernel modules. */
module KernelFrame {
  import opened Crc
  import opened Codec
  import opened Memory

  /** struct hm_frame; the command pointer is an array and an offset. */
  class HmFrameRecord {
    var dst: bv8
    var cnt: bv8
    var cmd: array<bv8>
    var offset: nat
    var cmdlen: int

    ghost predicate Valid()
      reads this
    {
      0 <= cmdlen && offset + cmdlen <= cmd.Length
    }

    /** The bytes that the pointer stands for. */
    ghost function Command(): (c: Bytes)
      reads this, cmd
      requires Valid()
    {
      cmd[offset..offset + cmdlen]
    }

    ghost function PayloadOf(): (p: Bytes)
      reads this, cmd
      requires Valid()
      ensures |p| == cmdlen + 2
    {
      [dst, cnt] + Command()
    }

    /** Take the header fields and the command from a frame of cmdlen + 7 bytes. */
    method PointAt(buf: array<bv8>, len: nat)
      requires 8 <= len <= buf.Length && cmdlen == len - 7
      modifies this
      ensures Valid() && cmd == buf && offset == 5 && cmdlen == len - 7
      ensures dst == buf[3] && cnt == buf[4]
      ensures PayloadOf() == Payload(buf[..len])
    {
      dst := buf[3];
      cnt := buf[4];
      cmd := buf;
      offset := 5;
      assert buf[..len][5..len - 2] == buf[5..len - 2];
      assert Payload(buf[..len]) == [buf[3], buf[4]] + buf[5..len - 2];
    }

    constructor ()
      ensures Valid() && cmdlen == 0
    {
      dst, cnt, offset, cmdlen := 0, 0, 0, 0;
      cmd := new bv8[0];
    }
  }

  method HmCrc(buf: array<bv8>, size: nat) returns (crc: bv16)
    requires size <= buf.Length
    ensures crc == Checksum(buf[..size])
  {
    ghost var s := buf[..size];
    assert s[..0] == [] && s[..size] == s && Fold(START, []) == START;
    crc := START.bits;
    var pos, len := 0, size;
    while len > 0
      invariant pos + len == size && Reg(crc) == Fold(START, s[..pos])
    {
      hide Fold, Update;
      FoldNext(START, s, pos);
      assert buf[pos] == s[pos];
      len := len - 1;
      crc := AddByte(crc, buf[pos]);
      pos := pos + 1;
    }
  }

  method TryParseFrame(buf: array<bv8>, len: nat, frame: HmFrameRecord) returns (ok: bool)
    requires len <= buf.Length
    modifies frame
    ensures ok == Accepted(buf[..len])
    ensures ok ==> frame.cmd == buf && frame.offset == 5 && frame.cmdlen == len - 7
    ensures ok ==> frame.dst == buf[3] && frame.cnt == buf[4]
    ensures ok ==> frame.Valid() && frame.PayloadOf() == Payload(buf[..len])
    ensures !ok ==> unchanged(frame`dst, frame`cnt, frame`cmd, frame`offset)
    ensures !ok ==> frame.cmdlen == (if len < 8 || buf[0] != 0xfd then old(frame.cmdlen)
        else Number(buf[1], buf[2]) - 2)
  {
    hide *;
    ghost var s := buf[..len];
    AcceptedMeans(s);
    if len < 8 {
      return false;
    }
    if buf[0] != 0xfd {
      return false;
    }
    assert s[1] == buf[1] && s[2] == buf[2];
    frame.cmdlen := NumberRead(buf[1], buf[2]) - 2;
    if frame.cmdlen + 7 != len {
      return false;
    }
    var crc := Pair(buf[len - 2], buf[len - 1]);
    var computed := HmCrc(buf, len - 2);
    assert s[..len - 2] == buf[..len - 2];
    assert s[len - 2] == buf[len - 2] && s[len - 1] == buf[len - 1];
    if crc != computed {
      return false;
    }
    frame.PointAt(buf, len);
    return true;
  }

  const EMSGSIZE: int := 90

  /** Fill buf with the frame; the length, or the negated error when len is too small. */
  method EncodeFrame(buf: array<bv8>, len: nat, frame: HmFrameRecord) returns (res: int)
    requires frame.Valid() && buf != frame.cmd && len <= buf.Length
    modifies buf
    ensures frame.cmdlen + 7 > len ==> res == -EMSGSIZE && buf[..] == old(buf[..])
    ensures frame.cmdlen + 7 <= len ==>
      var out := Wire(frame.PayloadOf());
      res == |out| && buf[..] == out + old(buf[res..])
      && buf[3] == frame.dst && buf[4] == frame.cnt
      && buf[5..5 + frame.cmdlen] == frame.cmd[frame.offset..frame.offset + frame.cmdlen]
  {
    hide Wire;
    if frame.cmdlen + 7 > len {
      return -EMSGSIZE;
    }
    Assemble(buf, frame.dst, frame.cnt, frame.cmd, frame.offset, frame.cmdlen, frame.PayloadOf());
    res := frame.cmdlen + 7;
  }

  /** The frame of n command bytes. */
  method Assemble(buf: array<bv8>, dst: bv8, cnt: bv8, cmd: array<bv8>, offset: nat, n: nat, ghost payload: Bytes)
    requires buf != cmd && n + 7 <= buf.Length && offset + n <= cmd.Length
    requires payload == [dst, cnt] + cmd[offset..offset + n]
    modifies buf
    ensures |Wire(payload)| == n + 7 && buf[..] == Wire(payload) + old(buf[n + 7..])
    ensures buf[3] == dst && buf[4] == cnt && buf[5..5 + n] == cmd[offset..offset + n]
  {
    hide *;
    ghost var was, d := buf[..], cmd[offset..offset + n];
    FrameParts(dst, cnt, d);
    ghost var header := FrameHeader(n + 2, dst, cnt);
    TailSlices(was, n);
    PutHeader(buf, n + 2, dst, cnt);
    Copy(cmd, offset, buf, 5, n, header, was[5..]);
    SealFrame(buf, n + 5, header + d, was[n + 5..]);
    WireFields(dst, cnt, d, was[n + 7..]);
  }

  method SealFrame(buf: array<bv8>, n: nat, ghost body: Bytes, ghost rest: Bytes)
    requires |body| == n && |rest| >= 2 && buf[..] == body + rest
    modifies buf
    ensures buf[..] == Sealed(body) + rest[2..]
  {
    hide *;
    assert buf[..n] == body;
    var crc := HmCrc(buf, n);
    PutChecksum(buf, n, crc, body, rest);
  }

  lemma FrameParts(dst: bv8, cnt: bv8, cmd: Bytes)
    ensures Wire([dst, cnt] + cmd) == Sealed(FrameHeader(|cmd| + 2, dst, cnt) + cmd)
    ensures |Wire([dst, cnt] + cmd)| == |cmd| + 7
  {
    hide Sealed, High8, Low8, FrameHeader;
    WireParts(dst, cnt, cmd);
  }

  lemma TailSlices(s: Bytes, n: nat)
    requires n + 7 <= |s|
    ensures s[5..][n..] == s[n + 5..] && s[n + 5..][2..] == s[n + 7..]
  {}

  // ------------------------------------------------------------------- stuffing

  /** Whether a byte is stuffed when so many bytes lie behind it. */
  predicate Stuffed(b: bv8, behind: nat)
  {
    b == 0xfc || (b == 0xfd && behind == 1)
  }

  function KernelByte(b: bv8, behind: nat): (r: Bytes)
    ensures |r| > 0
  {
    if Stuffed(b, behind) then [0xfc, ClearTop(b)] else [b]
  }

  /** The escape byte is stuffed everywhere, the start byte only with one byte behind it. */
  function KernelStuff(s: Bytes): Bytes
  {
    if |s| == 0 then [] else
      KernelByte(s[0], |s| - 1) + KernelStuff(s[1..])
  }

  /** No escape byte stands alone at the end. */
  predicate Complete(s: Bytes)
  {
    if |s| == 0 then true
    else if s[0] != 0xfc then Complete(s[1..])
    else |s| >= 2 && Complete(s[2..])
  }

  method EncodeFrameBuffer(src: array<bv8>, dst: array<bv8>, size: nat) returns (ret: nat)
    requires src != dst && size <= src.Length && |KernelStuff(src[..size])| <= dst.Length
    modifies dst
    ensures ret == |KernelStuff(src[..size])|
    ensures dst[..] == KernelStuff(src[..size]) + old(dst[ret..])
  {
    hide Encoding, Behind, KernelStuff, ClearTop;
    ghost var s, was, done, tail := src[..size], dst[..], [], dst[..];
    EncodingStarts(s);
    BehindAtStart(was);
    ret := 0;
    var pos, len := 0, size;
    while len > 0
      invariant pos + len == size && src[..size] == s && ret == |done| && |done| + |tail| == |was|
      invariant Encoding(s, pos, done) && Behind(was, done, tail) && dst[..] == done + tail
    {
      len := len - 1;
      var cur := src[pos];
      assert cur == s[pos];
      EncodingStep(s, pos, done);
      pos := pos + 1;
      if cur == 0xfc || (cur == 0xfd && len == 1) {
        Put(dst, ret, 0xfc, done, tail);
        BehindNext(was, done, tail, 0xfc);
        done, tail, ret := done + [0xfc], tail[1..], ret + 1;
        cur := ClearTop(cur);
      }
      Put(dst, ret, cur, done, tail);
      BehindNext(was, done, tail, cur);
      done, tail, ret := done + [cur], tail[1..], ret + 1;
    }
    EncodingEnds(s, done);
    BehindMeans(was, done, tail);
  }

  /** What is written is the stuffing of the first pos bytes, as far as the whole is concerned. */
  predicate Encoding(s: Bytes, pos: nat, done: Bytes)
  {
    pos <= |s| && done + KernelStuff(s[pos..]) == KernelStuff(s)
  }

  lemma EncodingStarts(s: Bytes)
    ensures Encoding(s, 0, [])
  {
    hide KernelStuff;
    assert s[0..] == s && [] + KernelStuff(s) == KernelStuff(s);
  }

  lemma EncodingEnds(s: Bytes, done: Bytes)
    requires Encoding(s, |s|, done)
    ensures done == KernelStuff(s)
  {
    assert s[|s|..] == [] && KernelStuff([]) == [];
    assert done + [] == done;
    hide KernelStuff;
  }

  lemma EncodingStep(s: Bytes, pos: nat, done: Bytes)
    requires pos < |s| && Encoding(s, pos, done)
    ensures Stuffed(s[pos], |s| - pos - 1) ==>
      |done| + 2 <= |KernelStuff(s)| && Encoding(s, pos + 1, done + [0xfc] + [ClearTop(s[pos])])
    ensures !Stuffed(s[pos], |s| - pos - 1) ==>
      |done| + 1 <= |KernelStuff(s)| && Encoding(s, pos + 1, done + [s[pos]])
  {
    hide KernelStuff, Stuffed, ClearTop;
    KernelStuffStep(s, pos, done);
  }

  lemma KernelStuffStep(s: Bytes, pos: nat, done: Bytes)
    requires pos < |s| && done + KernelStuff(s[pos..]) == KernelStuff(s)
    ensures Stuffed(s[pos], |s| - pos - 1) ==>
      |done| + 2 <= |KernelStuff(s)| && done + [0xfc] + [ClearTop(s[pos])] + KernelStuff(s[pos + 1..]) == KernelStuff(s)
    ensures !Stuffed(s[pos], |s| - pos - 1) ==>
      |done| + 1 <= |KernelStuff(s)| && done + [s[pos]] + KernelStuff(s[pos + 1..]) == KernelStuff(s)
  {
    var t, b, behind := s[pos..], s[pos], |s| - pos - 1;
    assert KernelByte(b, behind) == if Stuffed(b, behind) then [0xfc, ClearTop(b)] else [b];
    hide *;
    KernelStuffHead(t);
    assert t[0] == b && t[1..] == s[pos + 1..];
    var rest := KernelStuff(t[1..]);
    AppendAssoc(done, KernelByte(b, behind), rest);
    if Stuffed(b, behind) {
      assert done + [0xfc, ClearTop(b)] == done + [0xfc] + [ClearTop(b)];
    }
  }

  lemma KernelStuffHead(t: Bytes)
    requires |t| > 0
    ensures KernelStuff(t) == KernelByte(t[0], |t| - 1) + KernelStuff(t[1..])
  {}

  /** The decoding loop; overrun tells that it read past its input, where this method stops. */
  method DecodeFrameBuffer(src: array<bv8>, dst: array<bv8>, size: nat) returns (overrun: bool, ret: nat)
    requires src != dst && size <= src.Length && |Unstuff(src[..size])| <= dst.Length
    modifies dst
    ensures overrun <==> TrailingEscapes(src[..size]) % 2 == 1
    ensures ret == |Unstuff(src[..size])|
    ensures dst[..] == Unstuff(src[..size]) + old(dst[ret..])
  {
    hide *;
    ghost var s, was, done, tail := src[..size], dst[..], [], dst[..];
    CompleteExactly(s);
    DecodingStarts(s);
    BehindAtStart(was);
    ret := 0;
    var pos, len := 0, size;
    while len > 0
      invariant pos + len == size && src[..size] == s && ret == |done| && |done| + |tail| == |was|
      invariant Decoding(s, pos, done) && Behind(was, done, tail) && dst[..] == done + tail
    {
      len := len - 1;
      var cur := src[pos];
      assert cur == s[pos];
      DecodingStep(s, pos, done);
      pos := pos + 1;
      if cur == 0xfc {
        if len == 0 {
          BehindMeans(was, done, tail);
          return true, ret;
        }
        assert src[pos] == s[pos];
        cur := SetTop(src[pos]);
        pos := pos + 1;
        len := len - 1;
      }
      Put(dst, ret, cur, done, tail);
      BehindNext(was, done, tail, cur);
      done, tail, ret := done + [cur], tail[1..], ret + 1;
    }
    DecodingEnds(s, done);
    BehindMeans(was, done, tail);
    overrun := false;
  }

  /** What is written is the decoding of the first pos bytes, as far as the whole is concerned. */
  predicate Decoding(s: Bytes, pos: nat, done: Bytes)
  {
    pos <= |s| && done + Unstuff(s[pos..]) == Unstuff(s) && Complete(s) == Complete(s[pos..])
  }

  lemma DecodingStarts(s: Bytes)
    ensures Decoding(s, 0, [])
  {
    hide Unstuff, Complete;
    assert s[0..] == s && [] + Unstuff(s) == Unstuff(s);
  }

  lemma DecodingEnds(s: Bytes, done: Bytes)
    requires Decoding(s, |s|, done)
    ensures done == Unstuff(s) && Complete(s)
  {
    assert s[|s|..] == [] && Unstuff([]) == [];
    assert done + [] == done;
    hide Unstuff;
  }

  lemma DecodingStep(s: Bytes, pos: nat, done: Bytes)
    requires pos < |s| && Decoding(s, pos, done)
    ensures s[pos] == 0xfc && pos + 1 == |s| ==> !Complete(s) && done == Unstuff(s)
    ensures s[pos] == 0xfc && pos + 1 < |s| ==>
      |done| < |Unstuff(s)| && Decoding(s, pos + 2, done + [SetTop(s[pos + 1])])
    ensures s[pos] != 0xfc ==> |done| < |Unstuff(s)| && Decoding(s, pos + 1, done + [s[pos]])
  {
    hide Unstuff, Complete, SetTop;
    UnstuffStep(s, pos, done);
  }

  lemma UnstuffStep(s: Bytes, pos: nat, done: Bytes)
    requires pos < |s| && done + Unstuff(s[pos..]) == Unstuff(s)
    ensures s[pos] == 0xfc && pos + 1 == |s| ==> !Complete(s[pos..]) && done == Unstuff(s)
    ensures s[pos] == 0xfc && pos + 1 < |s| ==>
      |done| < |Unstuff(s)| && Complete(s[pos..]) == Complete(s[pos + 2..])
    ensures s[pos] == 0xfc && pos + 1 < |s| ==> done + [SetTop(s[pos + 1])] + Unstuff(s[pos + 2..]) == Unstuff(s)
    ensures s[pos] != 0xfc ==> |done| < |Unstuff(s)| && Complete(s[pos..]) == Complete(s[pos + 1..])
    ensures s[pos] != 0xfc ==> done + [s[pos]] + Unstuff(s[pos + 1..]) == Unstuff(s)
  {
    hide *;
    var t, total := s[pos..], Unstuff(s);
    UnstuffHead(t);
    assert t[0] == s[pos] && t[1..] == s[pos + 1..];
    if s[pos] != 0xfc {
      AppendAssoc(done, [s[pos]], Unstuff(t[1..]));
    } else if pos + 1 < |s| {
      assert t[1] == s[pos + 1] && t[2..] == s[pos + 2..];
      AppendAssoc(done, [SetTop(s[pos + 1])], Unstuff(t[2..]));
    } else {
      assert done + [] == done;
    }
  }

  lemma UnstuffHead(t: Bytes)
    requires |t| > 0
    ensures t[0] != 0xfc ==> Unstuff(t) == [t[0]] + Unstuff(t[1..]) && Complete(t) == Complete(t[1..])
    ensures t[0] == 0xfc && |t| == 1 ==> Unstuff(t) == [] && !Complete(t)
    ensures t[0] == 0xfc && |t| > 1 ==>
      Unstuff(t) == [SetTop(t[1])] + Unstuff(t[2..]) && Complete(t) == Complete(t[2..])
  {
    hide SetTop;
  }

  // ---------------------------------------------------------- input that ends in an escape

  /** How many escape bytes stand at the end. */
  function TrailingEscapes(s: Bytes): (n: nat)
    ensures n <= |s|
  {
    if |s| == 0 || s[|s| - 1] != 0xfc then 0 else 1 + TrailingEscapes(s[..|s| - 1])
  }

  /** Bytes in front count only when nothing but escape bytes follows. */
  lemma {:induction false} TrailingBehind(front: Bytes, s: Bytes)
    ensures TrailingEscapes(front + s)
      == if TrailingEscapes(s) < |s| then TrailingEscapes(s) else |s| + TrailingEscapes(front)
  {
    if |s| == 0 {
      assert front + s == front;
    } else {
      var n := |s| - 1;
      assert (front + s)[..|front| + n] == front + s[..n];
      TrailingBehind(front, s[..n]);
    }
  }

  /** An escape byte stands alone at the end exactly when an odd number of them ends the bytes. */
  lemma {:induction false} CompleteExactly(s: Bytes)
    ensures Complete(s) <==> TrailingEscapes(s) % 2 == 0
  {
    if |s| > 0 {
      UnstuffHead(s);
      TrailingFront(s);
      hide Complete, TrailingEscapes, Unstuff;
      if s[0] != 0xfc {
        CompleteExactly(s[1..]);
      } else if |s| > 1 {
        CompleteExactly(s[2..]);
      }
    }
  }

  /** What stands in front changes the number at the end by an even count, or not at all. */
  lemma TrailingFront(s: Bytes)
    requires |s| > 0
    ensures s[0] != 0xfc ==> TrailingEscapes(s) == TrailingEscapes(s[1..])
    ensures s[0] == 0xfc && |s| == 1 ==> TrailingEscapes(s) == 1
    ensures s[0] == 0xfc && |s| > 1 ==> TrailingEscapes(s) % 2 == TrailingEscapes(s[2..]) % 2
  {
    hide *;
    TrailingOne(s[0]);
    if s[0] != 0xfc {
      assert s == [s[0]] + s[1..];
      TrailingBehind([s[0]], s[1..]);
    } else if |s| > 1 {
      TrailingPair(s[0], s[1], s[2..]);
      assert s == ([s[0]] + [s[1]]) + s[2..];
    } else {
      assert s == [s[0]];
    }
  }

  lemma TrailingPair(a: bv8, b: bv8, s: Bytes)
    requires a == 0xfc
    ensures TrailingEscapes(([a] + [b]) + s) % 2 == TrailingEscapes(s) % 2
  {
    hide *;
    TrailingOne(a);
    TrailingOne(b);
    var two := [a] + [b];
    TrailingBehind([a], [b]);
    TrailingBehind(two, s);
    EvenCount(TrailingEscapes(two), |s|, TrailingEscapes(s));
  }

  lemma EvenCount(two: nat, n: nat, t: nat)
    requires (two == 0 || two == 2) && t <= n
    ensures (if t < n then t else n + two) % 2 == t % 2
  {}

  lemma TrailingOne(b: bv8)
    ensures TrailingEscapes([b]) == if b == 0xfc then 1 else 0
  {
    assert [b][..0] == [];
    assert TrailingEscapes([]) == 0;
  }

  /** The range of size_t. */
  const SIZE_T: nat := 0x1_0000_0000_0000_0000

  /** What the loop comes to: its output, or a read outside the memory that src points into. */
  datatype LoopResult = Decoded(output: Bytes) | OutOfMemory

  /** The loop as it runs: the remaining length wraps around below 0. */
  function DecodeLoop(memory: Bytes, pos: nat, len: nat, output: Bytes): LoopResult
    decreases |memory| - pos
  {
    if len == 0 then Decoded(output)
    else if pos >= |memory| then OutOfMemory
    else
      var rest := len - 1;
      if memory[pos] != 0xfc then DecodeLoop(memory, pos + 1, rest, output + [memory[pos]])
      else if pos + 1 >= |memory| then OutOfMemory
      else DecodeLoop(memory, pos + 2, (rest + SIZE_T - 1) % SIZE_T, output + [SetTop(memory[pos + 1])])
  }

  /** A remaining length beyond the memory never runs out inside it. */
  lemma {:induction false} LoopRunsAway(memory: Bytes, pos: nat, len: nat, output: Bytes)
    requires pos <= |memory| && |memory| - pos < len < SIZE_T
    ensures DecodeLoop(memory, pos, len, output) == OutOfMemory
    decreases |memory| - pos
  {
    hide SetTop;
    if pos < |memory| {
      if memory[pos] != 0xfc {
        LoopRunsAway(memory, pos + 1, len - 1, output + [memory[pos]]);
      } else if pos + 1 < |memory| {
        LoopRunsAway(memory, pos + 2, len - 2, output + [SetTop(memory[pos + 1])]);
      }
    }
  }

  lemma {:induction false} LoopDecodes(memory: Bytes, pos: nat, len: nat, output: Bytes)
    requires pos + len <= |memory| < SIZE_T
    ensures
      var s := memory[pos..pos + len];
      DecodeLoop(memory, pos, len, output) == if Complete(s) then Decoded(output + Unstuff(s)) else OutOfMemory
    decreases len
  {
    hide SetTop;
    var s := memory[pos..pos + len];
    if len == 0 {
      assert output + [] == output;
    } else if memory[pos] != 0xfc {
      LoopDecodes(memory, pos + 1, len - 1, output + [memory[pos]]);
      assert s[1..] == memory[pos + 1..pos + 1 + (len - 1)];
      AppendAssoc(output, [memory[pos]], Unstuff(s[1..]));
    } else if len == 1 {
      if pos + 1 < |memory| {
        LoopRunsAway(memory, pos + 2, SIZE_T - 1, output + [SetTop(memory[pos + 1])]);
      }
    } else {
      var b := SetTop(memory[pos + 1]);
      LoopDecodes(memory, pos + 2, len - 2, output + [b]);
      assert s[2..] == memory[pos + 2..pos + 2 + (len - 2)];
      AppendAssoc(output, [b], Unstuff(s[2..]));
    }
  }

  /** The loop leaves the memory exactly when an odd number of escape bytes ends its input. */
  lemma DecodeOutcome(memory: Bytes, size: nat)
    requires size <= |memory| < SIZE_T
    ensures DecodeLoop(memory, 0, size, []) == OutOfMemory <==> TrailingEscapes(memory[..size]) % 2 == 1
    ensures TrailingEscapes(memory[..size]) % 2 == 0 ==>
      DecodeLoop(memory, 0, size, []) == Decoded(Unstuff(memory[..size]))
  {
    hide DecodeLoop, Unstuff, Complete, TrailingEscapes;
    LoopDecodes(memory, 0, size, []);
    CompleteExactly(memory[..size]);
    assert memory[0..0 + size] == memory[..size];
    assert [] + Unstuff(memory[..size]) == Unstuff(memory[..size]);
  }

  /** One escape byte is enough. */
  lemma LoneEscapeRunsAway()
    ensures DecodeLoop([0xfc], 0, 1, []) == OutOfMemory
  {}

  lemma TopRestored()
    ensures SetTop(ClearTop(0xfc)) == 0xfc && SetTop(ClearTop(0xfd)) == 0xfd
  {}

  /** Decoding undoes encoding, on any bytes. */
  lemma {:induction false} DecodeEncode(s: Bytes)
    ensures Complete(KernelStuff(s)) && Unstuff(KernelStuff(s)) == s
  {
    if |s| > 0 {
      DecodeEncode(s[1..]);
      TopRestored();
      hide SetTop, ClearTop;
      var t, r := KernelStuff(s), KernelStuff(s[1..]);
      if Stuffed(s[0], |s| - 1) {
        assert t == [0xfc, ClearTop(s[0])] + r && t[2..] == r;
      } else {
        assert t == [s[0]] + r && t[1..] == r;
      }
    }
  }

  /** A frame comes back from its encoding exactly when the command has 1 to 65533 bytes. */
  lemma KernelRoundTrip(dst: bv8, cnt: bv8, cmd: Bytes)
    ensures
      var received := Unstuff(KernelStuff(Wire([dst, cnt] + cmd)));
      (Accepted(received) <==> 1 <= |cmd| <= 65533)
      && |received| >= 5 && Payload(received) == [dst, cnt] + cmd
  {
    hide Wire, KernelStuff, Unstuff, Accepted;
    var p := [dst, cnt] + cmd;
    var s := Wire(p);
    DecodeEncode(s);
    WirePayload(p);
    if 3 <= |p| <= 65535 {
      WireAccepted(p);
    }
    AcceptedIsWire(s);
  }

  lemma WirePayload(p: Bytes)
    ensures |Wire(p)| == |p| + 5 && Payload(Wire(p)) == p
  {
    hide High8, Low8, Sealed;
    var body := [0xfd, High8(|p|), Low8(|p|)] + p;
    assert Payload(Wire(p)) == Sealed(body)[..|body|][3..];
  }

  /** The kernel side reads the stuffed frames of the detection program. */
  lemma ReadsOtherCodec(destination: bv8, counter: bv8, command: bv8, data: Bytes)
    requires |data| + 8 < 65536
    ensures
      var received := Unstuff(Escape(Wire([destination, counter, command] + data)));
      Complete(Escape(Wire([destination, counter, command] + data)))
      && Accepted(received) && Payload(received) == [destination, counter] + ([command] + data)
  {
    hide Wire, Accepted, Payload;
    var p := [destination, counter, command] + data;
    var s := Wire(p);
    assert p == [destination, counter] + ([command] + data);
    WireAccepted(p);
    assert |s| > 0 && s[0] == 0xfd by { WireStarts(p); }
    UnstuffStuff(s[1..]);
    StuffComplete(s[1..]);
    assert Escape(s)[1..] == Stuff(s[1..]);
    assert [s[0]] + s[1..] == s;
  }

  lemma WireStarts(p: Bytes)
    ensures |Wire(p)| > 0 && Wire(p)[0] == 0xfd
  {}

  lemma {:induction false} StuffComplete(s: Bytes)
    ensures Complete(Stuff(s))
  {
    if |s| > 0 {
      StuffComplete(s[1..]);
      StuffedByteIsClean(s[0]);
      var f, t := StuffByte(s[0]), Stuff(s[1..]);
      hide StuffByte, Special;
      assert (f + t)[|f|..] == t && (f + t)[0] == f[0];
    }
  }
}
