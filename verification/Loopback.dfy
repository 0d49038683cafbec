/** What writers put into the loop device comes out at the other side, whatever the sizes of the calls. */
module Loopback {
  import opened Words
  import opened Eq3Loop

  // ---------------------------------------------------------- one call, in bytes and counts

  /** The bytes on the way to one side: to the master, or to the slave. */
  function Held(c: Channel, toMaster: bool): seq<byte>
  {
    if toMaster then c.toMaster else c.toSlave
  }

  function ReadCall(toMaster: bool, count: nat): Op
  {
    if toMaster then ReadMaster(count) else ReadSlave(count)
  }

  function WriteCall(toMaster: bool, data: seq<byte>): Op
  {
    if toMaster then WriteSlave(data) else WriteMaster(data)
  }

  /** The channel with other bytes on the way to one side. */
  function With(c: Channel, toMaster: bool, q: seq<byte>): Channel
  {
    if toMaster then c.(toMaster := q) else c.(toSlave := q)
  }

  /** The reader of that side is served: the master while a slave is open, the slave while the device is there. */
  predicate Served(c: Channel, toMaster: bool)
  {
    if toMaster then c.slaves > 0 else c.created
  }

  /** A read of a filled ring gives the first bytes, as many as asked for or held, and removes just those. */
  lemma ReadsFirst(c: Channel, toMaster: bool, count: nat)
    requires Served(c, toMaster) && |Held(c, toMaster)| > 0
    ensures
      var q := Held(c, toMaster);
      var n := if count <= |q| then count else |q|;
      Call(c, ReadCall(toMaster, count)) == Reply(With(c, toMaster, q[n..]), Outcome.Bytes(q[..n]))
  {
    var q := Held(c, toMaster);
    assert q[..|q|] == q;
  }

  lemma ReadsMore(q: seq<byte>, a: nat, b: nat)
    ensures
      var m := if a <= |q| then a else |q|;
      var k := if b <= |q[m..]| then b else |q[m..]|;
      m + k == (if a + b <= |q| then a + b else |q|)
      && q[..m] + q[m..][..k] == q[..m + k] && q[m..][k..] == q[m + k..]
  {}

  /** An empty ring makes the reader wait; without a device the slave gets -19, without a slave the master nothing. */
  lemma ReadsNothing(c: Channel, toMaster: bool, count: nat)
    requires !Served(c, toMaster) || |Held(c, toMaster)| == 0
    ensures Call(c, ReadCall(toMaster, count)) == Reply(c,
      if Served(c, toMaster) then Failed(11) else if toMaster then Outcome.Bytes([]) else Failed(19))
  {}

  /** A write is taken in whole exactly when a byte is free, the slave's device is there, and it fits 1023 in all. */
  lemma WritesWhole(c: Channel, toMaster: bool, data: seq<byte>)
    ensures
      var q := Held(c, toMaster);
      var r := Call(c, WriteCall(toMaster, data));
      if |q| < 1023 && (toMaster ==> c.created) && |data| <= 1023 - |q|
      then r == Reply(With(c, toMaster, q + data), Count(|data|))
      else r == Reply(c, Failed(if |q| >= 1023 then 11 else if toMaster && !c.created then 19 else 14))
  {}

  /** A created channel without a slave is opened, and what was on the way to the slave is dropped. */
  lemma OpensOnce(c: Channel)
    ensures
      var r := Call(c, OpenSlave);
      if c.created && c.slaves == 0 then r == Reply(c.(slaves := 1, toSlave := []), Count(0))
      else r == Reply(c, Failed(if c.created then 16 else 19))
  {}

  /** The slave side closes, and so does the device; both ways keep their bytes. */
  lemma Closes(c: Channel)
    requires c.slaves <= 1
    ensures Call(c, CloseSlave) == Reply(c.(slaves := 0), Count(0))
    ensures Call(c, CloseMaster) == Reply(c.(created := false), Count(0))
  {}

  // --------------------------------------------------------------------- many calls

  function Total(counts: seq<nat>): nat
  {
    if |counts| == 0 then 0 else Total(counts[..|counts| - 1]) + counts[|counts| - 1]
  }

  function Joined(chunks: seq<seq<byte>>): seq<byte>
  {
    if |chunks| == 0 then [] else Joined(chunks[..|chunks| - 1]) + chunks[|chunks| - 1]
  }

  function Writes(toMaster: bool, chunks: seq<seq<byte>>): seq<Op>
  {
    if |chunks| == 0 then [] else
      Writes(toMaster, chunks[..|chunks| - 1]) + [WriteCall(toMaster, chunks[|chunks| - 1])]
  }

  function Reads(toMaster: bool, counts: seq<nat>): seq<Op>
  {
    if |counts| == 0 then [] else
      Reads(toMaster, counts[..|counts| - 1]) + [ReadCall(toMaster, counts[|counts| - 1])]
  }

  /** The bytes that the reads of one side have given. */
  function OutAt(toMaster: bool, es: seq<Event>): seq<byte>
  {
    if toMaster then OutAtMaster(es) else OutAtSlave(es)
  }

  lemma OutNext(toMaster: bool, es: seq<Event>, e: Event)
    requires !Opens(e)
    ensures OutAt(toMaster, es + [e]) == OutAt(toMaster, es) + if toMaster then MasterOut(e) else SlaveOut(e)
  {
    assert (es + [e])[..|es|] == es;
  }

  /** The last call of a run. */
  lemma RunNext(ops: seq<Op>, op: Op)
    ensures
      var before := Execute(ops);
      var r := Call(before.channel, op);
      Execute(ops + [op]) == Run(r.channel, before.events + [Event(op, r.outcome)])
  {
    hide Call;
    assert (ops + [op])[..|ops|] == ops;
  }

  /** Writes that fit together are all taken, one behind the other. */
  lemma {:induction false} WritesTaken(ops: seq<Op>, toMaster: bool, chunks: seq<seq<byte>>)
    requires
      var c := Execute(ops).channel;
      (toMaster ==> c.created) && |Held(c, toMaster)| + |Joined(chunks)| <= 1023
    requires forall i | 0 <= i < |chunks| :: |chunks[i]| > 0
    ensures
      var b, r := Execute(ops), Execute(ops + Writes(toMaster, chunks));
      r.channel == With(b.channel, toMaster, Held(b.channel, toMaster) + Joined(chunks))
      && OutAt(toMaster, r.events) == OutAt(toMaster, b.events)
  {
    hide Execute, Call, OutAt;
    if |chunks| == 0 {
      assert ops + Writes(toMaster, chunks) == ops;
    } else {
      var n := |chunks| - 1;
      var front := ops + Writes(toMaster, chunks[..n]);
      WritesTaken(ops, toMaster, chunks[..n]);
      var op := WriteCall(toMaster, chunks[n]);
      assert ops + Writes(toMaster, chunks) == front + [op];
      RunNext(front, op);
      var c := Execute(front).channel;
      WritesWhole(c, toMaster, chunks[n]);
      OutNext(toMaster, Execute(front).events, Event(op, Call(c, op).outcome));
    }
  }

  /** What one read gives and leaves, also when it finds nothing. */
  lemma ReadGives(c: Channel, toMaster: bool, count: nat)
    requires Served(c, toMaster)
    ensures
      var q := Held(c, toMaster);
      var n := if count <= |q| then count else |q|;
      var e := Event(ReadCall(toMaster, count), Call(c, ReadCall(toMaster, count)).outcome);
      Call(c, ReadCall(toMaster, count)).channel == With(c, toMaster, q[n..])
      && !Opens(e) && (if toMaster then MasterOut(e) else SlaveOut(e)) == q[..n]
  {
    hide Call;
    if |Held(c, toMaster)| > 0 {
      ReadsFirst(c, toMaster, count);
    } else {
      ReadsNothing(c, toMaster, count);
    }
  }

  lemma ReadsLast(ops: seq<Op>, toMaster: bool, counts: seq<nat>)
    ensures |counts| == 0 ==> Total(counts) == 0 && ops + Reads(toMaster, counts) == ops
    ensures |counts| > 0 ==>
      var m := |counts| - 1;
      Total(counts) == Total(counts[..m]) + counts[m]
      && ops + Reads(toMaster, counts) == (ops + Reads(toMaster, counts[..m])) + [ReadCall(toMaster, counts[m])]
  {
    hide ReadCall;
  }

  lemma WithSame(c: Channel, toMaster: bool)
    ensures With(c, toMaster, Held(c, toMaster)) == c
  {}

  lemma WithAgain(c: Channel, toMaster: bool, q: seq<byte>, r: seq<byte>)
    ensures
      var d := With(c, toMaster, q);
      Held(d, toMaster) == q && With(d, toMaster, r) == With(c, toMaster, r)
      && Served(d, toMaster) == Served(c, toMaster)
  {}

  /** Reads of any sizes give the bytes held from the front on, as far as the sizes go. */
  lemma {:induction false} ReadsDeliver(ops: seq<Op>, toMaster: bool, counts: seq<nat>)
    requires Served(Execute(ops).channel, toMaster)
    ensures
      var b, r := Execute(ops), Execute(ops + Reads(toMaster, counts));
      var q := Held(b.channel, toMaster);
      var n := if Total(counts) <= |q| then Total(counts) else |q|;
      r.channel == With(b.channel, toMaster, q[n..])
      && OutAt(toMaster, r.events) == OutAt(toMaster, b.events) + q[..n]
  {
    hide *;
    ReadsLast(ops, toMaster, counts);
    var b := Execute(ops);
    var q := Held(b.channel, toMaster);
    if |counts| == 0 {
      WithSame(b.channel, toMaster);
    } else {
      var m := |counts| - 1;
      var front, op := ops + Reads(toMaster, counts[..m]), ReadCall(toMaster, counts[m]);
      ReadsDeliver(ops, toMaster, counts[..m]);
      RunNext(front, op);
      var f, t := Execute(front), Total(counts[..m]);
      ReadsMore(q, t, counts[m]);
      var rest := q[if t <= |q| then t else |q|..];
      WithAgain(b.channel, toMaster, rest, rest[if counts[m] <= |rest| then counts[m] else |rest|..]);
      ReadGives(f.channel, toMaster, counts[m]);
      OutNext(toMaster, f.events, Event(op, Call(f.channel, op).outcome));
    }
  }

  /** After the creation a slave opens: both ways are empty, both readers are served. */
  lemma OpenedFirst(toMaster: bool)
    ensures
      var r := Execute([OpenSlave]);
      r.channel.created && Held(r.channel, toMaster) == [] && Served(r.channel, toMaster)
      && OutAt(toMaster, r.events) == []
  {
    assert Execute([]) == Run(CREATED, []);
    hide Execute, Call;
    RunNext([], OpenSlave);
    assert [] + [OpenSlave] == [OpenSlave];
    OpensOnce(CREATED);
  }

  /** From the creation on: a slave opens, one side writes, the other side reads the same bytes. */
  lemma Loops(toMaster: bool, chunks: seq<seq<byte>>, counts: seq<nat>)
    requires (forall i | 0 <= i < |chunks| :: |chunks[i]| > 0) && |Joined(chunks)| <= 1023
    ensures
      var r := Execute([OpenSlave] + Writes(toMaster, chunks) + Reads(toMaster, counts));
      var d := Joined(chunks);
      var n := if Total(counts) <= |d| then Total(counts) else |d|;
      OutAt(toMaster, r.events) == d[..n] && Held(r.channel, toMaster) == d[n..]
  {
    hide *;
    OpenedFirst(toMaster);
    WritesTaken([OpenSlave], toMaster, chunks);
    var c, d := Execute([OpenSlave]).channel, Joined(chunks);
    var n := if Total(counts) <= |d| then Total(counts) else |d|;
    assert [] + d == d && [] + d[..n] == d[..n];
    WithAgain(c, toMaster, d, d[n..]);
    WithAgain(c, toMaster, d[n..], []);
    ReadsDeliver([OpenSlave] + Writes(toMaster, chunks), toMaster, counts);
  }
}
