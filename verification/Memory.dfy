/** The stores into buffers that the codecs share. */
module Memory {
  import opened Crc
  import opened Codec

  /** memcpy between distinct arrays, behind the bytes already written. */
  method Copy(from: array<bv8>, at: nat, to: array<bv8>, pos: nat, n: nat, ghost done: Bytes, ghost tail: Bytes)
    requires from != to && at + n <= from.Length && |done| == pos && n <= |tail| && to[..] == done + tail
    modifies to
    ensures to[..] == (done + from[at..at + n]) + tail[n..]
  {
    forall i | 0 <= i < n {
      to[pos + i] := from[at + i];
    }
  }

  /** memmove of n bytes by one place to the right. */
  method MoveUp(buffer: array<bv8>, at: nat, n: nat)
    requires at + n < buffer.Length
    modifies buffer
    ensures buffer[..] == old(buffer[..at + 1]) + old(buffer[at..at + n]) + old(buffer[at + n + 1..])
  {
    forall i | 0 <= i < n {
      buffer[at + 1 + i] := buffer[at + i];
    }
  }

  /** Behind the bytes written lies what was there. */
  ghost predicate Behind(was: Bytes, done: Bytes, tail: Bytes)
  {
    |done| <= |was| && tail == was[|done|..]
  }

  lemma BehindAtStart(was: Bytes)
    ensures Behind(was, [], was) && [] + was == was
  {}

  lemma BehindNext(was: Bytes, done: Bytes, tail: Bytes, b: bv8)
    requires Behind(was, done, tail) && |tail| > 0
    ensures Behind(was, done + [b], tail[1..])
  {}

  lemma BehindMeans(was: Bytes, done: Bytes, tail: Bytes)
    requires Behind(was, done, tail)
    ensures |done| + |tail| == |was| && tail == was[|done|..]
  {}

  /** Store one byte behind the bytes already written. */
  method Put(buffer: array<bv8>, at: nat, b: bv8, ghost done: Bytes, ghost tail: Bytes)
    requires |done| == at && |tail| > 0 && buffer[..] == done + tail
    modifies buffer
    ensures buffer[..] == (done + [b]) + tail[1..]
  {
    buffer[at] := b;
  }

  /** The five bytes that start a frame with a payload of n bytes. */
  method PutHeader(buffer: array<bv8>, n: nat, destination: bv8, counter: bv8)
    requires buffer.Length >= 5
    modifies buffer
    ensures buffer[..] == FrameHeader(n, destination, counter) + old(buffer[5..])
  {
    hide High8, Low8;
    buffer[0] := 0xfd;
    buffer[1] := High8(n);
    buffer[2] := Low8(n);
    buffer[3] := destination;
    buffer[4] := counter;
  }

  /** Put the checksum of a body behind it. */
  method PutChecksum(buffer: array<bv8>, n: nat, c: bv16, ghost body: Bytes, ghost rest: Bytes)
    requires |body| == n && |rest| >= 2 && buffer[..] == body + rest && c == Checksum(body)
    modifies buffer
    ensures buffer[..] == Sealed(body) + rest[2..]
  {
    hide Checksum, UpperByte, LowerByte;
    buffer[n] := UpperByte(c);
    buffer[n + 1] := LowerByte(c);
  }
}
