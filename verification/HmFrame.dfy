/** The frame codec of the detection program. */
module HmFrame {
  import opened Crc
  import opened Codec
  import opened Memory

  /** One frame: header fields and a pointer to the data, an array and an offset. */
  class HMFrame {
    var counter: bv8
    var destination: bv8
    var command: bv8
    var data: array<bv8>
    var offset: nat
    var dataLen: nat

    /** The pointer is good for dataLen bytes, and the length fits sixteen bits. */
    ghost predicate Valid()
      reads this
    {
      dataLen < 65536 && offset + dataLen <= data.Length
    }

    /** The bytes that the pointer stands for. */
    ghost function Data(): (d: Bytes)
      reads this, data
      requires Valid()
    {
      data[offset..offset + dataLen]
    }

    ghost function PayloadOf(): (p: Bytes)
      reads this, data
      requires Valid()
      ensures |p| == dataLen + 3
    {
      [destination, counter, command] + Data()
    }

    constructor ()
      ensures Valid() && dataLen == 0
    {
      counter, destination, command := 0, 0, 0;
      data := new bv8[0];
      offset := 0;
      dataLen := 0;
    }

    static method ComputeCrc(buffer: array<bv8>, len: nat) returns (c: bv16)
      requires len <= buffer.Length
      ensures c == Checksum(buffer[..len])
    {
      ghost var s := buffer[..len];
      assert s[..0] == [] && s[..len] == s && Fold(START, []) == START;
      c := START.bits;
      var n := 0;
      while n < len
        invariant 0 <= n <= len && Reg(c) == Fold(START, s[..n])
      {
        hide Fold, Update;
        FoldNext(START, s, n);
        assert buffer[n] == s[n];
        c := AddByte(c, buffer[n]);
        n := n + 1;
      }
    }

    static method TryParse(buffer: array<bv8>, len: nat, frame: HMFrame) returns (ok: bool)
      requires len <= buffer.Length && len < 65536
      modifies frame
      ensures ok == Accepted(buffer[..len])
      ensures ok ==> frame.data == buffer && frame.offset == 6 && frame.dataLen == len - 8
      ensures ok ==> frame.destination == buffer[3] && frame.counter == buffer[4] && frame.command == buffer[5]
      ensures ok ==> frame.Valid() && frame.PayloadOf() == Payload(buffer[..len])
      ensures !ok ==> unchanged(frame`counter, frame`destination, frame`command, frame`data, frame`offset)
      ensures !ok ==> frame.dataLen == (if len < 8 || buffer[0] != 0xfd then old(frame.dataLen)
        else (Number(buffer[1], buffer[2]) - 3) % 65536)
    {
      hide *;
      ghost var s := buffer[..len];
      AcceptedMeans(s);
      if len < 8 {
        return false;
      }
      if buffer[0] != 0xfd {
        return false;
      }
      frame.dataLen := (NumberRead(buffer[1], buffer[2]) - 3) % 65536;
      assert s[1] == buffer[1] && s[2] == buffer[2];
      LengthTest(s);
      if frame.dataLen + 8 != len {
        return false;
      }
      var sum := Pair(buffer[len - 2], buffer[len - 1]);
      var computed := ComputeCrc(buffer, len - 2);
      assert s[..len - 2] == buffer[..len - 2];
      assert s[len - 2] == buffer[len - 2] && s[len - 1] == buffer[len - 1];
      if sum != computed {
        return false;
      }
      frame.PointAt(buffer, len);
      return true;
    }

    /** Take the header fields and the data from a frame of dataLen + 8 bytes. */
    method PointAt(buffer: array<bv8>, len: nat)
      requires 8 <= len <= buffer.Length && len < 65536 && dataLen == len - 8
      modifies this
      ensures Valid() && data == buffer && offset == 6 && dataLen == len - 8
      ensures destination == buffer[3] && counter == buffer[4] && command == buffer[5]
      ensures PayloadOf() == Payload(buffer[..len])
    {
      destination := buffer[3];
      counter := buffer[4];
      command := buffer[5];
      data := buffer;
      offset := 6;
      PayloadParts(buffer[..len]);
      assert buffer[..len][6..len - 2] == buffer[6..len - 2];
      hide Payload;
    }

    /** Fill buffer with the frame of this object, stuffed on request; 0 when len is too small.
        inside tells that no store left the buffer; at the first that would, this method stops. */
    method Encode(buffer: array<bv8>, len: nat, escaped: bool) returns (inside: bool, res: nat)
      requires Valid() && buffer != data && len <= buffer.Length && len < 65536
      modifies buffer
      ensures dataLen + 8 > len ==> inside && res == 0 && buffer[..] == old(buffer[..])
      ensures dataLen + 8 <= len && !escaped ==>
        inside && res == dataLen + 8 && buffer[..] == Wire(PayloadOf()) + old(buffer[res..])
        && buffer[3] == destination && buffer[4] == counter && buffer[5] == command
        && buffer[6..6 + dataLen] == data[offset..offset + dataLen]
      ensures dataLen + 8 <= len && escaped ==>
        (inside <==> StuffedFits(Wire(PayloadOf()), buffer.Length))
        && (inside ==> StuffedInto(buffer[..], Wire(PayloadOf()), res, old(buffer[..])))
    {
      hide Wire, StuffedFits, StuffedInto, Escape;
      ghost var payload := PayloadOf();
      if dataLen + 8 > len {
        return true, 0;
      }
      Assemble(buffer, destination, counter, command, data, offset, dataLen, payload);
      res := dataLen + 8;
      inside := true;
      if escaped {
        ghost var raw, frame := Wire(payload), buffer[..];
        assert frame[..res] == raw;
        inside, res := StuffInPlace(buffer, res, raw);
        SameTail(buffer[..], raw, res, frame, old(buffer[..]));
      }
    }
  }

  /** The stuffed frame fits the buffer, or the 16-bit length wraps before the buffer ends. */
  predicate StuffedFits(raw: Bytes, room: nat)
    requires |raw| > 0
  {
    |Escape(raw)| <= room || room >= 65536
  }

  /** A buffer that only just holds the frame holds its stuffing when there is nothing to stuff. */
  lemma FitsUnstuffed(raw: Bytes)
    requires 0 < |raw| < 65536
    ensures StuffedFits(raw, |raw|) <==> forall i | 0 < i < |raw| :: !Special(raw[i])
  {
    hide Special;
    StuffGrows(raw[1..]);
    assert forall i | 0 < i < |raw| :: raw[i] == raw[1..][i - 1];
  }

  lemma {:induction false} StuffGrows(s: Bytes)
    ensures |Stuff(s)| == |s| <==> forall i | 0 <= i < |s| :: !Special(s[i])
  {
    if |s| > 0 {
      StuffGrows(s[1..]);
      StuffedByteIsClean(s[0]);
      hide StuffByte, Special;
      assert forall i | 0 < i < |s| :: s[i] == s[1..][i - 1];
    }
  }

  /** A store leaves the buffer: a frame to destination 0xfd in a buffer of its own length. */
  lemma NoRoomForDestination()
    ensures |Wire([0xfd, 0, 0])| == 8 && !StuffedFits(Wire([0xfd, 0, 0]), 8)
  {
    hide Checksum;
    var raw := Wire([0xfd, 0, 0]);
    assert raw[3] == 0xfd;
    hide Wire;
    FitsUnstuffed(raw);
  }

  /** The buffer starts with the stuffed frame; 0 when the frame is longer than 16 bits can tell. */
  ghost predicate StuffedInto(s: Bytes, raw: Bytes, res: nat, was: Bytes)
    requires |raw| > 0
  {
    if |Escape(raw)| < 65536 then res == |Escape(raw)| <= |was| && s == Escape(raw) + was[res..] else res == 0
  }

  lemma SameTail(s: Bytes, raw: Bytes, res: nat, one: Bytes, two: Bytes)
    requires 0 < |raw| <= |one| == |two| && one[|raw|..] == two[|raw|..]
    ensures StuffedInto(s, raw, res, one) == StuffedInto(s, raw, res, two)
  {
    hide Stuff;
    if |raw| <= res <= |one| {
      assert one[res..] == one[|raw|..][res - |raw|..] == two[res..];
    }
  }

  /** The frame before stuffing. */
  method Assemble(buffer: array<bv8>, destination: bv8, counter: bv8, command: bv8,
                  data: array<bv8>, offset: nat, n: nat, ghost payload: Bytes)
    requires buffer != data && n + 8 <= buffer.Length && offset + n <= data.Length
    requires payload == [destination, counter, command] + data[offset..offset + n]
    modifies buffer
    ensures |Wire(payload)| == n + 8 && buffer[..] == Wire(payload) + old(buffer[n + 8..])
    ensures buffer[3] == destination && buffer[4] == counter && buffer[5] == command
    ensures buffer[6..6 + n] == data[offset..offset + n]
  {
    hide *;
    ghost var was, d := buffer[..], data[offset..offset + n];
    WirePayload(destination, counter, command, d);
    ghost var header, rest := FrameHeader(n + 3, destination, counter), was[n + 6..];
    TailSlices(was, n);
    PutHeader(buffer, n + 3, destination, counter);
    Put(buffer, 5, command, header, was[5..]);
    Copy(data, offset, buffer, 6, n, header + [command], was[5..][1..]);
    AppendAssoc(header, [command], d);
    ghost var body := header + ([command] + d);
    SealFrame(buffer, n + 6, body, rest);
    FieldsPlaced(buffer[..], destination, counter, command, d, payload, was[n + 8..]);
  }

  method SealFrame(buffer: array<bv8>, n: nat, ghost body: Bytes, ghost rest: Bytes)
    requires |body| == n && |rest| >= 2 && buffer[..] == body + rest
    modifies buffer
    ensures buffer[..] == Sealed(body) + rest[2..]
  {
    hide *;
    assert buffer[..n] == body;
    var c := HMFrame.ComputeCrc(buffer, n);
    PutChecksum(buffer, n, c, body, rest);
  }

  lemma WirePayload(destination: bv8, counter: bv8, command: bv8, data: Bytes)
    ensures Wire([destination, counter, command] + data)
         == Sealed(FrameHeader(|data| + 3, destination, counter) + ([command] + data))
    ensures |Wire([destination, counter, command] + data)| == |data| + 8
  {
    assert [destination, counter, command] + data == [destination, counter] + ([command] + data);
    WireParts(destination, counter, [command] + data);
    hide Sealed, High8, Low8, FrameHeader;
  }

  lemma FieldsPlaced(s: Bytes, destination: bv8, counter: bv8, command: bv8, d: Bytes, payload: Bytes, tail: Bytes)
    requires payload == [destination, counter, command] + d && s == Wire(payload) + tail
    ensures |s| >= |d| + 8 && s[3] == destination && s[4] == counter && s[5] == command && s[6..6 + |d|] == d
  {
    hide Wire, Pair, Checksum, Number;
    assert payload == [destination, counter] + ([command] + d);
    WireFields(destination, counter, [command] + d, tail);
    var rest := s[5..|d| + 6];
    assert rest[0] == s[5] && rest[1..] == s[6..6 + |d|];
  }

  lemma TailSlices(s: Bytes, n: nat)
    requires n + 8 <= |s|
    ensures s[5..][1..][n..] == s[n + 6..] && s[n + 6..][2..] == s[n + 8..]
  {}

  /** The test on the sixteen-bit data length is the test on the length of the frame. */
  lemma LengthTest(s: Bytes)
    requires 8 <= |s| < 65536
    ensures (Number(s[1], s[2]) - 3) % 65536 + 8 == |s| <==> Number(s[1], s[2]) + 5 == |s|
  {
    hide Number;
  }

  lemma PayloadParts(s: Bytes)
    requires |s| >= 8
    ensures Payload(s) == [s[3], s[4], s[5]] + s[6..|s| - 2]
  {}

  lemma EscapeStep(raw: Bytes, k: nat)
    requires 1 <= k < |raw|
    ensures Escape(raw[..k + 1]) == Escape(raw[..k]) + StuffByte(raw[k])
    ensures Stuff(raw[k..]) == StuffByte(raw[k]) + Stuff(raw[k + 1..])
  {
    hide StuffByte;
    assert raw[..k + 1][1..] == raw[..k][1..] + [raw[k]];
    StuffAppend(raw[..k][1..], raw[k]);
    assert raw[k..][1..] == raw[k + 1..];
  }

  /** What is stuffed, what is still to be looked at, and what lies behind. */
  function Three(done: Bytes, rest: Bytes, tail: Bytes): Bytes
  {
    done + rest + tail
  }

  /** One turn of the stuffing loop, on a buffer split at i and res. */
  method StuffOne(buffer: array<bv8>, i: nat, res: nat, ghost done: Bytes, ghost rest: Bytes, ghost tail: Bytes)
      returns (next: nat, size: nat)
    requires buffer[..] == Three(done, rest, tail) && |done| == i && |rest| == res - i > 0
    requires Special(rest[0]) ==> |tail| > 0
    modifies buffer
    ensures next == i + |StuffByte(rest[0])| && size == res + |StuffByte(rest[0])| - 1
    ensures buffer[..] == Three(done + StuffByte(rest[0]), rest[1..], tail[|StuffByte(rest[0])| - 1..])
  {
    next, size := i, res;
    ghost var s, b, others := buffer[..], rest[0], rest[1..];
    assert rest == [b] + others;
    assert buffer[i] == b by { assert s[i] == b; }
    StuffedByte(b);
    hide StuffByte, ClearTop, Special;
    if buffer[i] == 0xfc || buffer[i] == 0xfd {
      MovedBytes(done, b, others, tail, ClearTop(b));
      MoveUp(buffer, i, res - i);
      buffer[next] := 0xfc;
      next := next + 1;
      Mask(buffer, next);
      size := size + 1;
    }
    next := next + 1;
  }

  lemma ThreeParts(done: Bytes, rest: Bytes, tail: Bytes)
    ensures |Three(done, rest, tail)| == |done| + |rest| + |tail|
    ensures |rest| > 0 ==> Three(done, rest, tail)[|done|] == rest[0]
    ensures Three(done, [], tail) == done + tail
  {}

  lemma StuffedByte(b: bv8)
    ensures Special(b) <==> b == 0xfc || b == 0xfd
    ensures StuffByte(b) == if Special(b) then [0xfc, ClearTop(b)] else [b]
  {}

  /** What the move and the two stores that follow it leave. */
  lemma MovedBytes(done: Bytes, b: bv8, others: Bytes, tail: Bytes, v: bv8)
    requires |tail| > 0
    ensures
      var s, i, n := done + ([b] + others) + tail, |done|, 1 + |others|;
      var m := (s[..i + 1] + s[i..i + n] + s[i + n + 1..])[i := 0xfc];
      m[i + 1] == b && m[i + 1 := v] == (done + [0xfc, v]) + others + tail[1..]
  {}

  /** Clear the top bit of one byte. */
  method Mask(buffer: array<bv8>, at: nat)
    requires at < buffer.Length
    modifies buffer
    ensures buffer[..] == old(buffer[..][at := ClearTop(buffer[at])])
  {
    buffer[at] := buffer[at] & 0x7f;
  }

  /** The stuffing loop: every byte but the first is escaped where it lies. */
  method StuffInPlace(buffer: array<bv8>, size: nat, ghost raw: Bytes) returns (inside: bool, res: nat)
    requires 0 < size == |raw| < 65536 && size <= buffer.Length && buffer[..size] == raw
    modifies buffer
    ensures inside <==> StuffedFits(raw, buffer.Length)
    ensures inside ==> StuffedInto(buffer[..], raw, res, old(buffer[..]))
  {
    hide *;
    ghost var was := buffer[..];
    ghost var k, done, rest, tail := 1, raw[..1], raw[1..], was[size..];
    FirstStage(raw, was);
    res := size;
    var i := 1;
    while i < res
      invariant Stage(raw, was, k, done, rest, tail)
      invariant i == |done| && res == |done| + |rest| < 65536 && |done| + |rest| + |tail| == buffer.Length == |was|
      invariant buffer[..] == Three(done, rest, tail)
      decreases |rest|
    {
      ghost var b := rest[0];
      ThreeParts(done, rest, tail);
      assert buffer[i] == b by { assert buffer[..][i] == b; }
      StuffedByte(b);
      StuffedByteIsClean(b);
      if (buffer[i] == 0xfc || buffer[i] == 0xfd) && res == buffer.Length {
        NoRoomLeft(raw, was, k, done, rest, tail);
        return false, res;
      }
      NextStage(raw, was, k, done, rest, tail);
      i, res := StuffOne(buffer, i, res, done, rest, tail);
      k, done, rest, tail := k + 1, done + StuffByte(b), rest[1..], tail[|StuffByte(b)| - 1..];
      if res == 65536 {
        // the 16-bit length wraps to 0, which ends the loop
        WrapsAround(buffer[..], raw, was, k, done, rest, tail);
        return true, 0;
      }
    }
    LastStage(buffer[..], raw, was, k, done, rest, tail);
    inside := true;
  }

  /** The first k bytes of the frame are stuffed, the others follow, and behind them lies what was there. */
  ghost predicate Stage(raw: Bytes, was: Bytes, k: nat, done: Bytes, rest: Bytes, tail: Bytes)
  {
    1 <= k <= |raw| && done == Escape(raw[..k]) && rest == raw[k..]
    && |done| + |rest| <= |was| && tail == was[|done| + |rest|..]
  }

  lemma FirstStage(raw: Bytes, was: Bytes)
    requires 0 < |raw| <= |was| && was[..|raw|] == raw
    ensures Stage(raw, was, 1, raw[..1], raw[1..], was[|raw|..]) && was == Three(raw[..1], raw[1..], was[|raw|..])
  {
    hide Stuff, Escape;
    StartEscape(raw);
    assert raw == raw[..1] + raw[1..];
  }

  lemma NextStage(raw: Bytes, was: Bytes, k: nat, done: Bytes, rest: Bytes, tail: Bytes)
    requires Stage(raw, was, k, done, rest, tail) && |rest| > 0 && |StuffByte(rest[0])| - 1 <= |tail|
    ensures Stage(raw, was, k + 1, done + StuffByte(rest[0]), rest[1..], tail[|StuffByte(rest[0])| - 1..])
  {
    hide StuffByte, Stuff, Escape;
    EscapeStep(raw, k);
    var n := |done| + |rest|;
    assert was[n..][|StuffByte(rest[0])| - 1..] == was[n + |StuffByte(rest[0])| - 1..];
  }

  /** What is still to be stuffed takes at least its length, and more when its first byte is special. */
  lemma EscapeTakes(raw: Bytes, was: Bytes, k: nat, done: Bytes, rest: Bytes, tail: Bytes)
    requires Stage(raw, was, k, done, rest, tail)
    ensures |raw| > 0 && |done| + |rest| <= |Escape(raw)|
    ensures |rest| > 0 && Special(rest[0]) ==> |done| + |rest| < |Escape(raw)|
    ensures rest == [] ==> done == Escape(raw)
  {
    assert raw[..k][1..] + raw[k..] == raw[1..];
    StuffConcat(raw[..k][1..], raw[k..]);
    hide StuffByte;
    if |rest| > 0 {
      StuffedByteIsClean(rest[0]);
      assert |Stuff(rest)| == |StuffByte(rest[0])| + |Stuff(rest[1..])|;
    } else {
      assert raw[..k] == raw;
    }
  }

  lemma NoRoomLeft(raw: Bytes, was: Bytes, k: nat, done: Bytes, rest: Bytes, tail: Bytes)
    requires Stage(raw, was, k, done, rest, tail) && |rest| > 0 && Special(rest[0])
    requires |done| + |rest| == |was| < 65536
    ensures |raw| > 0 && !StuffedFits(raw, |was|)
  {
    hide Stage, Escape;
    EscapeTakes(raw, was, k, done, rest, tail);
  }

  lemma WrapsAround(s: Bytes, raw: Bytes, was: Bytes, k: nat, done: Bytes, rest: Bytes, tail: Bytes)
    requires Stage(raw, was, k, done, rest, tail) && 65536 == |done| + |rest| <= |was|
    ensures |raw| > 0 && StuffedFits(raw, |was|) && StuffedInto(s, raw, 0, was)
  {
    hide Stage, Escape;
    EscapeTakes(raw, was, k, done, rest, tail);
  }

  lemma LastStage(s: Bytes, raw: Bytes, was: Bytes, k: nat, done: Bytes, rest: Bytes, tail: Bytes)
    requires Stage(raw, was, k, done, rest, tail) && |rest| == 0 && |done| < 65536 && s == Three(done, rest, tail)
    ensures |raw| > 0 && StuffedFits(raw, |was|) && StuffedInto(s, raw, |done|, was)
  {
    hide Three, Escape;
    EscapeTakes(raw, was, k, done, rest, tail);
    ThreeParts(done, rest, tail);
  }

  lemma StartEscape(raw: Bytes)
    requires |raw| > 0
    ensures Escape(raw[..1]) == raw[..1] && |Escape(raw)| == 1 + |Stuff(raw[1..])|
  {
    assert raw[..1][1..] == [];
  }
}
