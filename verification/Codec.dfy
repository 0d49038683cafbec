/** The wire format that both frame codecs share: framing, checksum and byte stuffing. */
module Codec {
  import opened Crc
  import CrcOrder

  // ------------------------------------------------------------------- lengths

  /** The number that two bytes stand for, the first one upper. */
  function Number(hi: bv8, lo: bv8): (n: int)
    ensures 0 <= n < 65536
  {
    256 * (hi as int) + lo as int
  }

  lemma PairIsNumber(hi: bv8, lo: bv8)
    ensures Pair(hi, lo) as int == Number(hi, lo)
  {
    PairBits(hi, lo);
  }

  lemma PairBits(hi: bv8, lo: bv8)
    ensures (((hi as bv16) << 8) | (lo as bv16)) as int == 256 * (hi as int) + lo as int
  {}

  /** The number that the shift and the or of two bytes make. */
  function NumberRead(hi: bv8, lo: bv8): (n: int)
    ensures n == Number(hi, lo)
  {
    PairIsNumber(hi, lo);
    Pair(hi, lo) as int
  }

  /** Bits 8 to 15 and bits 0 to 7 of a number. */
  function High8(n: nat): bv8 { ((n / 256) % 256) as bv8 }

  function Low8(n: nat): bv8 { (n % 256) as bv8 }

  lemma ByteOfInt(n: int)
    requires 0 <= n < 256
    ensures (n as bv8) as int == n
  {
    var b := ByteWith(n);
    assert (b as int) as bv8 == b;
  }

  lemma {:induction false} ByteWith(n: int) returns (b: bv8)
    requires 0 <= n < 256
    ensures b as int == n
  {
    if n == 0 {
      return 0;
    }
    var half := ByteWith(n / 2);
    var bit: bv8 := if n % 2 == 1 then 1 else 0;
    DoubleByte(half, bit);
    b := (half << 1) | bit;
  }

  lemma DoubleByte(x: bv8, bit: bv8)
    requires x as int < 128 && bit <= 1
    ensures ((x << 1) | bit) as int == 2 * (x as int) + bit as int
  {}

  lemma NumberOfBytes(n: nat)
    ensures Number(High8(n), Low8(n)) == n % 65536
  {
    ByteOfInt((n / 256) % 256);
    ByteOfInt(n % 256);
    assert n == 65536 * (n / 65536) + 256 * ((n / 256) % 256) + n % 256;
  }

  lemma NumberInjective(hi: bv8, lo: bv8, n: nat)
    requires Number(hi, lo) == n
    ensures hi == High8(n) && lo == Low8(n)
  {
    assert n / 256 == hi as int && n % 256 == lo as int;
  }

  // -------------------------------------------------------------------- frames

  lemma AppendAssoc(a: Bytes, b: Bytes, c: Bytes)
    ensures a + (b + c) == (a + b) + c
  {}

  /** A body followed by its checksum, upper byte first. */
  function Sealed(body: Bytes): (r: Bytes)
    ensures |r| == |body| + 2 && r[..|body|] == body
  {
    body + [UpperByte(Checksum(body)), LowerByte(Checksum(body))]
  }

  /** The frame that carries a payload: start byte, length, payload, checksum. */
  function Wire(payload: Bytes): (r: Bytes)
    ensures |r| == |payload| + 5 && r[0] == 0xfd
  {
    Sealed([0xfd, High8(|payload|), Low8(|payload|)] + payload)
  }

  /** The five bytes that start a frame with a payload of n bytes. */
  function FrameHeader(n: nat, destination: bv8, counter: bv8): (r: Bytes)
    ensures |r| == 5
  {
    [0xfd, High8(n), Low8(n), destination, counter]
  }

  lemma WireParts(destination: bv8, counter: bv8, rest: Bytes)
    ensures Wire([destination, counter] + rest) == Sealed(FrameHeader(|rest| + 2, destination, counter) + rest)
  {
    hide Sealed, High8, Low8;
    var p := [destination, counter] + rest;
    assert [0xfd, High8(|p|), Low8(|p|)] + p == FrameHeader(|rest| + 2, destination, counter) + rest;
  }

  /** Where a frame carries what: length, two header bytes, the rest of the payload, checksum. */
  lemma WireFields(first: bv8, second: bv8, rest: Bytes, tail: Bytes)
    ensures
      var n, s := |rest|, Wire([first, second] + rest) + tail;
      |s| == n + 7 + |tail| && s[0] == 0xfd && Number(s[1], s[2]) == (n + 2) % 65536
      && s[3] == first && s[4] == second && s[5..5 + n] == rest
      && Pair(s[n + 5], s[n + 6]) == Checksum(s[..n + 5])
  {
    hide Checksum, High8, Low8, Number, Pair, UpperByte, LowerByte, Sealed;
    var n := |rest|;
    var body := [0xfd, High8(n + 2), Low8(n + 2)] + ([first, second] + rest);
    var s := Sealed(body) + tail;
    assert s[..n + 5] == body;
    SealedEnds(body);
    PairOfHalves(Checksum(body));
    NumberOfBytes(n + 2);
    assert s[5..5 + n] == body[5..] == rest;
  }

  lemma SealedEnds(body: Bytes)
    ensures |Sealed(body)| == |body| + 2
    ensures Sealed(body)[|body|] == UpperByte(Checksum(body)) && Sealed(body)[|body| + 1] == LowerByte(Checksum(body))
  {
    hide Checksum, UpperByte, LowerByte;
  }

  /** What both parsers check. */
  predicate Accepted(s: Bytes)
  {
    |s| >= 8 && s[0] == 0xfd && Number(s[1], s[2]) + 5 == |s|
    && Pair(s[|s| - 2], s[|s| - 1]) == Checksum(s[..|s| - 2])
  }

  function Payload(s: Bytes): Bytes
    requires |s| >= 5
  {
    s[3..|s| - 2]
  }

  lemma AcceptedMeans(s: Bytes)
    ensures Accepted(s) <==>
      |s| >= 8 && s[0] == 0xfd && Number(s[1], s[2]) + 5 == |s|
      && Pair(s[|s| - 2], s[|s| - 1]) == Checksum(s[..|s| - 2])
  {}

  lemma SealedMatches(body: Bytes, hi: bv8, lo: bv8)
    ensures Pair(hi, lo) == Checksum(body) <==> body + [hi, lo] == Sealed(body)
  {
    hide Checksum;
    var c := Checksum(body);
    PairOfHalves(c);
    HalvesOfPair(hi, lo);
    var w := body + [hi, lo];
    assert w[|body|] == hi && w[|body| + 1] == lo;
    var r := Sealed(body);
    assert r[|body|] == UpperByte(c) && r[|body| + 1] == LowerByte(c);
    hide Pair, UpperByte, LowerByte;
  }

  /** The accepted buffers are exactly the frames of payloads of 3 to 65535 bytes. */
  lemma AcceptedIsWire(s: Bytes)
    ensures Accepted(s) <==> 8 <= |s| <= 65540 && s == Wire(Payload(s))
  {
    hide *;
    if Accepted(s) {
      AcceptedToWire(s);
    }
    if 8 <= |s| <= 65540 && s == Wire(Payload(s)) {
      assert |Payload(s)| == |s| - 5 by { hide Wire; }
      WireAccepted(Payload(s));
    }
  }

  lemma AcceptedToWire(s: Bytes)
    requires Accepted(s)
    ensures 8 <= |s| <= 65540 && s == Wire(Payload(s))
  {
    hide Checksum, Sealed, Pair, High8, Low8, Number;
    var p := Payload(s);
    var body := s[..|s| - 2];
    SealedMatches(body, s[|s| - 2], s[|s| - 1]);
    assert s == body + [s[|s| - 2], s[|s| - 1]];
    NumberInjective(s[1], s[2], |p|);
    assert body == [0xfd, High8(|p|), Low8(|p|)] + p;
  }

  lemma WireAccepted(p: Bytes)
    requires 3 <= |p| <= 65535
    ensures Accepted(Wire(p)) && Payload(Wire(p)) == p
  {
    hide Checksum, Sealed, Pair, High8, Low8, Number;
    var s := Wire(p);
    var body := [0xfd, High8(|p|), Low8(|p|)] + p;
    assert s[..|s| - 2] == body;
    assert s == body + [s[|s| - 2], s[|s| - 1]];
    SealedMatches(body, s[|s| - 2], s[|s| - 1]);
    NumberOfBytes(|p|);
    assert body[1] == High8(|p|) && body[2] == Low8(|p|);
    assert Payload(s) == body[3..];
  }

  // ---------------------------------------------------------- damage on the wire

  lemma AcceptedHasResidueZero(s: Bytes)
    requires Accepted(s)
    ensures Checksum(s) == 0
  {
    hide Checksum, Pair, Number;
    ResidueIsZero(s[..|s| - 2], s[|s| - 2], s[|s| - 1]);
    assert s == s[..|s| - 2] + [s[|s| - 2], s[|s| - 1]];
  }

  /** A frame damaged only within sixteen adjacent bits, wherever they lie, is not accepted. */
  lemma DamagedFrameRejected(s: Bytes, t: Bytes, at: nat, k: nat)
    requires Accepted(s) && Burst(s, t, at, k) && s != t
    ensures !Accepted(t)
  {
    hide *;
    if Accepted(t) {
      AcceptedHasResidueZero(s);
      AcceptedHasResidueZero(t);
      BurstDetected(s, t, at, k);
    }
  }

  /** So is a frame with an odd number of damaged bits. */
  lemma OddlyDamagedFrameRejected(s: Bytes, t: Bytes)
    requires Accepted(s) && |s| == |t| && IsOdd(DifferingBits(s, t))
    ensures !Accepted(t)
  {
    hide *;
    if Accepted(t) {
      AcceptedHasResidueZero(s);
      AcceptedHasResidueZero(t);
      OddDamageDetected(s, t);
    }
  }

  /** So is a frame with two damaged bits, wherever they lie, unless a multiple of 32767 places apart. */
  lemma TwiceDamagedFrameRejected(s: Bytes, a: nat, b: nat)
    requires Accepted(s) && a < b < 8 * |s| && (b - a) % 32767 != 0
    ensures !Accepted(CrcOrder.Flip(CrcOrder.Flip(s, a), b))
  {
    hide *;
    var t := CrcOrder.Flip(CrcOrder.Flip(s, a), b);
    if Accepted(t) {
      AcceptedHasResidueZero(s);
      AcceptedHasResidueZero(t);
      CrcOrder.TwoBitsDetected(s, a, b);
    }
  }

  // ------------------------------------------------------------------- stuffing

  predicate Special(b: bv8)
  {
    b == 0xfc || b == 0xfd
  }

  function SetTop(b: bv8): bv8 { b | 0x80 }

  function ClearTop(b: bv8): bv8 { b & 0x7f }

  function StuffByte(b: bv8): (r: Bytes)
    ensures 1 <= |r| <= 2
  {
    if Special(b) then [0xfc, ClearTop(b)] else [b]
  }

  /** The two pairs on the wire. */
  lemma StuffedPairs(b: bv8)
    ensures StuffByte(b) == if b == 0xfc then [0xfc, 0x7c] else if b == 0xfd then [0xfc, 0x7d] else [b]
    ensures SetTop(0x7c) == 0xfc && SetTop(0x7d) == 0xfd
  {
    assert ClearTop(0xfc) == 0x7c && ClearTop(0xfd) == 0x7d;
  }

  function Stuff(s: Bytes): (r: Bytes)
    ensures |s| <= |r| <= 2 * |s|
  {
    if |s| == 0 then [] else StuffByte(s[0]) + Stuff(s[1..])
  }

  /** Every byte but the first is stuffed. */
  function Escape(s: Bytes): (r: Bytes)
    requires |s| > 0
    ensures |s| <= |r|
  {
    [s[0]] + Stuff(s[1..])
  }

  /** After an escape byte the next byte gets its top bit back; a final lone escape is dropped. */
  function Unstuff(s: Bytes): (r: Bytes)
    ensures |r| <= |s|
  {
    if |s| == 0 then []
    else if s[0] != 0xfc then [s[0]] + Unstuff(s[1..])
    else if |s| == 1 then []
    else [SetTop(s[1])] + Unstuff(s[2..])
  }

  lemma StuffedByteIsClean(b: bv8)
    ensures StuffByte(b)[0] != 0xfd && |StuffByte(b)| == if Special(b) then 2 else 1
    ensures |StuffByte(b)| == 2 ==> StuffByte(b)[0] == 0xfc && !Special(StuffByte(b)[1]) && SetTop(StuffByte(b)[1]) == b
    ensures |StuffByte(b)| == 1 ==> StuffByte(b)[0] == b && !Special(b)
  {
    if Special(b) {
      assert b & 0x7f == 0x7c || b & 0x7f == 0x7d;
      assert (b & 0x7f) | 0x80 == b;
    }
  }

  lemma {:induction false} StuffConcat(s: Bytes, t: Bytes)
    ensures Stuff(s + t) == Stuff(s) + Stuff(t)
  {
    if |s| == 0 {
      assert s + t == t;
    } else {
      assert (s + t)[1..] == s[1..] + t;
      StuffConcat(s[1..], t);
    }
  }

  lemma StuffAppend(s: Bytes, b: bv8)
    ensures Stuff(s + [b]) == Stuff(s) + StuffByte(b)
  {
    StuffConcat(s, [b]);
    assert [b][1..] == [];
    assert Stuff([b]) == StuffByte(b) + Stuff([b][1..]);
  }

  /** The start byte never occurs in stuffed bytes, so it marks the start of a frame. */
  lemma {:induction false} StuffHasNoStart(s: Bytes)
    ensures 0xfd !in Stuff(s)
  {
    if |s| > 0 {
      StuffHasNoStart(s[1..]);
      StuffedByteIsClean(s[0]);
      hide StuffByte, Special;
      assert StuffByte(s[0]) == [StuffByte(s[0])[0]] || StuffByte(s[0]) == [StuffByte(s[0])[0], StuffByte(s[0])[1]];
    }
  }

  lemma {:induction false} UnstuffStuff(s: Bytes)
    ensures Unstuff(Stuff(s)) == s
  {
    if |s| > 0 {
      var f, t := StuffByte(s[0]), Stuff(s[1..]);
      UnstuffStuff(s[1..]);
      StuffedByteIsClean(s[0]);
      assert (f + t)[|f|..] == t;
      hide StuffByte, Special;
      assert (f + t)[0] == f[0];
      assert |f| == 2 ==> (f + t)[1] == f[1];
    }
  }
}
