/** Frames that one codec makes and the other one reads, field by field. */
module CodecPeers {
  import opened Crc
  import opened Codec
  import opened HmFrame
  import opened KernelFrame

  /** A frame of the detection program, stuffed, as the kernel side reads it back. */
  method DetectorToKernel(frame: HMFrame, buffer: array<bv8>, len: nat, raw: array<bv8>, record: HmFrameRecord)
    returns (ok: bool)
    requires frame.Valid() && 2 * (frame.dataLen + 8) <= len <= buffer.Length && len < 65536
    requires buffer != frame.data && raw != buffer && raw != frame.data && len <= raw.Length
    modifies buffer, raw, record
    ensures ok && record.dst == frame.destination && record.cnt == frame.counter
    ensures record.Valid() && record.cmdlen == frame.dataLen + 1 && record.cmd[record.offset] == frame.command
    ensures record.cmd[record.offset + 1..record.offset + record.cmdlen]
         == frame.data[frame.offset..frame.offset + frame.dataLen]
  {
    hide Wire, Escape, Unstuff, Accepted, Payload, TrailingEscapes, StuffedFits, StuffedInto;
    ghost var d := frame.data[frame.offset..frame.offset + frame.dataLen];
    ghost var p := [frame.destination, frame.counter, frame.command] + d;
    StuffedSize(frame.destination, frame.counter, frame.command, d, buffer.Length);
    var inside, res := frame.Encode(buffer, len, true);
    StuffedIntoMeans(buffer[..], Wire(p), res, old(buffer[..]));
    assert buffer[..res] == Escape(Wire(p));
    ReadsWire(p);
    var overrun, n := DecodeFrameBuffer(buffer, raw, res);
    assert raw[..n] == Wire(p);
    ok := TryParseFrame(raw, n, record);
    PeerFields(frame.destination, frame.counter, frame.command, d);
    assert raw[..n][3] == raw[3] && raw[..n][4] == raw[4] && raw[..n][5..n - 2] == raw[5..n - 2];
    assert raw[5] == raw[5..n - 2][0] && raw[6..n - 2] == raw[5..n - 2][1..];
  }

  /** A frame of the kernel side as the detection program parses it. */
  method KernelToDetector(record: HmFrameRecord, buf: array<bv8>, len: nat, frame: HMFrame) returns (ok: bool)
    requires record.Valid() && 1 <= record.cmdlen && record.cmdlen + 7 <= len <= buf.Length && buf != record.cmd
    requires record.cmdlen + 7 < 65536
    modifies buf, frame
    ensures ok && frame.destination == record.dst && frame.counter == record.cnt
    ensures frame.Valid() && frame.dataLen == record.cmdlen - 1 && frame.command == record.cmd[record.offset]
    ensures frame.data[frame.offset..frame.offset + frame.dataLen]
         == record.cmd[record.offset + 1..record.offset + record.cmdlen]
  {
    hide Wire, Accepted, Payload;
    ghost var c := record.Command();
    var n := EncodeFrame(buf, len, record);
    ghost var p := [record.dst, record.cnt] + c;
    assert buf[..n] == Wire(p);
    WireAccepted(p);
    ok := HMFrame.TryParse(buf, n, frame);
    assert buf[5..5 + record.cmdlen] == c;
    assert c[0] == buf[5] && c[1..] == buf[6..6 + frame.dataLen];
  }

  lemma StuffedSize(destination: bv8, counter: bv8, command: bv8, d: Bytes, room: nat)
    requires 2 * (|d| + 8) <= room
    ensures
      var raw := Wire([destination, counter, command] + d);
      |raw| == |d| + 8 && |Escape(raw)| <= 2 * |raw| && StuffedFits(raw, room)
  {
    hide Wire;
  }

  lemma StuffedIntoMeans(s: Bytes, raw: Bytes, res: nat, was: Bytes)
    requires |raw| > 0 && |Escape(raw)| < 65536 && StuffedInto(s, raw, res, was)
    ensures res == |Escape(raw)| <= |was| && s == Escape(raw) + was[res..]
  {
    hide Escape;
  }

  /** What the stuffed frame gives back. */
  lemma ReadsWire(p: Bytes)
    requires 3 <= |p| && |p| + 5 < 65536
    ensures
      var s := Escape(Wire(p));
      Unstuff(s) == Wire(p) && TrailingEscapes(s) % 2 == 0 && Accepted(Wire(p))
  {
    hide Wire, Accepted, Payload, TrailingEscapes, Complete;
    var s := Wire(p);
    WireAccepted(p);
    WireStarts(p);
    UnstuffStuff(s[1..]);
    StuffComplete(s[1..]);
    assert Escape(s)[1..] == Stuff(s[1..]);
    assert [s[0]] + s[1..] == s;
    ReadsOtherCodec(p[0], p[1], p[2], p[3..]);
    assert [p[0], p[1], p[2]] + p[3..] == p;
    CompleteExactly(Escape(s));
  }

  lemma PeerFields(destination: bv8, counter: bv8, command: bv8, d: Bytes)
    ensures
      var s := Wire([destination, counter, command] + d);
      var n := |d| + 8;
      |s| == n && s[3] == destination && s[4] == counter && s[5..n - 2] == [command] + d
  {
    hide Wire, Pair, Checksum, Number;
    assert [destination, counter, command] + d == [destination, counter] + ([command] + d);
    WireFields(destination, counter, [command] + d, []);
    assert Wire([destination, counter, command] + d) + [] == Wire([destination, counter, command] + d);
  }
}
