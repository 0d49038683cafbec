/** The loop device: two byte rings between a master and a slave, each call under one semaphore. */
module Eq3Loop {
  import opened Words
  import opened Circ

  const BUF_SIZE: nat := 1024

  const EAGAIN: int := 11
  const EFAULT: int := 14
  const EBUSY: int := 16
  const ENODEV: int := 19

  // -------------------------------------------------------- the channel as a value

  datatype Channel = Channel(toSlave: seq<byte>, toMaster: seq<byte>, created: bool, slaves: nat)

  datatype Op =
    | ReadSlave(count: nat) | ReadMaster(count: nat)
    | WriteSlave(data: seq<byte>) | WriteMaster(data: seq<byte>)
    | OpenSlave | CloseSlave | CloseMaster

  /** What a call gives back; EAGAIN stands for a call that has to wait and leaves everything as it is. */
  datatype Outcome = Bytes(bytes: seq<byte>) | Count(n: nat) | Failed(errno: int)

  datatype Reply = Reply(channel: Channel, outcome: Outcome)

  function Take(q: seq<byte>, count: nat): (r: seq<byte>)
  {
    if count < |q| then q[..count] else q
  }

  function Call(c: Channel, op: Op): Reply
  {
    match op
    case ReadSlave(count) =>
      if !c.created then Reply(c, Failed(ENODEV))
      else if c.toSlave == [] then Reply(c, Failed(EAGAIN))
      else
        var got := Take(c.toSlave, count);
        Reply(c.(toSlave := c.toSlave[|got|..]), Bytes(got))
    case ReadMaster(count) =>
      if c.slaves == 0 then Reply(c, Bytes([]))
      else if c.toMaster == [] then Reply(c, Failed(EAGAIN))
      else
        var got := Take(c.toMaster, count);
        Reply(c.(toMaster := c.toMaster[|got|..]), Bytes(got))
    case WriteSlave(data) =>
      if |c.toMaster| >= BUF_SIZE - 1 then Reply(c, Failed(EAGAIN))
      else if !c.created then Reply(c, Failed(ENODEV))
      else if BUF_SIZE - 1 - |c.toMaster| < |data| then Reply(c, Failed(EFAULT))
      else Reply(c.(toMaster := c.toMaster + data), Count(|data|))
    case WriteMaster(data) =>
      if |c.toSlave| >= BUF_SIZE - 1 then Reply(c, Failed(EAGAIN))
      else if BUF_SIZE - 1 - |c.toSlave| < |data| then Reply(c, Failed(EFAULT))
      else Reply(c.(toSlave := c.toSlave + data), Count(|data|))
    case OpenSlave =>
      if !c.created then Reply(c, Failed(ENODEV))
      else if c.slaves != 0 then Reply(c, Failed(EBUSY))
      else Reply(c.(slaves := c.slaves + 1, toSlave := []), Count(0))
    case CloseSlave =>
      Reply(c.(slaves := if c.slaves > 0 then c.slaves - 1 else 0), Count(0))
    case CloseMaster =>
      Reply(c.(created := false), Count(0))
  }

  // ------------------------------------------------------------------------- runs

  datatype Event = Event(op: Op, outcome: Outcome)

  datatype Run = Run(channel: Channel, events: seq<Event>)

  const CREATED: Channel := Channel([], [], true, 0)

  function Execute(ops: seq<Op>): Run
  {
    if |ops| == 0 then Run(CREATED, []) else
      var before := Execute(ops[..|ops| - 1]);
      var r := Call(before.channel, ops[|ops| - 1]);
      Run(r.channel, before.events + [Event(ops[|ops| - 1], r.outcome)])
  }

  /** The bytes that one event put into a queue or took out of it. */
  function SlaveIn(e: Event): seq<byte>
  {
    if e.op.WriteSlave? && e.outcome.Count? then e.op.data else []
  }

  function MasterOut(e: Event): seq<byte>
  {
    if e.op.ReadMaster? && e.outcome.Bytes? then e.outcome.bytes else []
  }

  function MasterIn(e: Event): seq<byte>
  {
    if e.op.WriteMaster? && e.outcome.Count? then e.op.data else []
  }

  function SlaveOut(e: Event): seq<byte>
  {
    if e.op.ReadSlave? && e.outcome.Bytes? then e.outcome.bytes else []
  }

  /** The slave was opened. */
  predicate Opens(e: Event)
  {
    e.op.OpenSlave? && e.outcome.Count?
  }

  /** The bytes that went in at the slave side, and came out at the master side, over a run. */
  function InAtSlave(es: seq<Event>): seq<byte>
  {
    if |es| == 0 then [] else InAtSlave(es[..|es| - 1]) + SlaveIn(es[|es| - 1])
  }

  function OutAtMaster(es: seq<Event>): seq<byte>
  {
    if |es| == 0 then [] else OutAtMaster(es[..|es| - 1]) + MasterOut(es[|es| - 1])
  }

  /** The bytes written by the master, and read by the slave, since the slave was last opened. */
  function InAtMaster(es: seq<Event>): seq<byte>
  {
    if |es| == 0 || Opens(es[|es| - 1]) then [] else InAtMaster(es[..|es| - 1]) + MasterIn(es[|es| - 1])
  }

  function OutAtSlave(es: seq<Event>): seq<byte>
  {
    if |es| == 0 || Opens(es[|es| - 1]) then [] else OutAtSlave(es[..|es| - 1]) + SlaveOut(es[|es| - 1])
  }

  predicate Sound(c: Channel)
  {
    |c.toMaster| < BUF_SIZE && |c.toSlave| < BUF_SIZE && c.slaves <= 1
  }

  /** Over every run no byte is lost, doubled or reordered, but for those that opening the slave discards. */
  lemma {:induction false} BytesConserved(ops: seq<Op>)
    ensures
      var r := Execute(ops);
      Sound(r.channel)
      && InAtSlave(r.events) == OutAtMaster(r.events) + r.channel.toMaster
      && InAtMaster(r.events) == OutAtSlave(r.events) + r.channel.toSlave
  {
    if |ops| > 0 {
      var init, op := ops[..|ops| - 1], ops[|ops| - 1];
      BytesConserved(init);
      var before := Execute(init);
      var reply := Call(before.channel, op);
      var e := Event(op, reply.outcome);
      var es := before.events + [e];
      assert es[..|es| - 1] == before.events;
      hide Call, SlaveIn, MasterOut, MasterIn, SlaveOut, Opens;
      CallConserves(before.channel, op);
      QueueLaw(InAtSlave(before.events), OutAtMaster(before.events), before.channel.toMaster,
        SlaveIn(e), MasterOut(e), reply.channel.toMaster);
      if !Opens(e) {
        QueueLaw(InAtMaster(before.events), OutAtSlave(before.events), before.channel.toSlave,
          MasterIn(e), SlaveOut(e), reply.channel.toSlave);
      }
    }
  }

  /** What one call adds to each queue and takes from it. */
  lemma CallConserves(c: Channel, op: Op)
    requires Sound(c)
    ensures
      var r := Call(c, op);
      var e := Event(op, r.outcome);
      Sound(r.channel) && (e.outcome.Failed? ==> r.channel == c)
      && c.toMaster + SlaveIn(e) == MasterOut(e) + r.channel.toMaster
      && (if Opens(e) then r.channel.toSlave == []
          else c.toSlave + MasterIn(e) == SlaveOut(e) + r.channel.toSlave)
  {
    Nothing(c.toMaster);
    Nothing(c.toSlave);
    match op
    case ReadSlave(count) => TakeSplits(c.toSlave, count);
    case ReadMaster(count) => TakeSplits(c.toMaster, count);
    case _ =>
  }

  lemma Nothing(q: seq<byte>)
    ensures q + [] == q && [] + q == q
  {}

  lemma TakeSplits(q: seq<byte>, count: nat)
    ensures Take(q, count) + q[|Take(q, count)|..] == q
  {}

  lemma QueueLaw(enter: seq<byte>, leave: seq<byte>, q: seq<byte>, more: seq<byte>, gone: seq<byte>, rest: seq<byte>)
    requires enter == leave + q && q + more == gone + rest
    ensures enter + more == (leave + gone) + rest
  {
    assert enter + more == leave + (q + more);
  }

  // ------------------------------------------------------------------ blocking calls

  /** What a blocking call that found nothing to do waits for. */
  predicate Woken(c: Channel, op: Op)
  {
    match op
    case ReadSlave(_) => !c.created || c.toSlave != []
    case ReadMaster(_) => c.slaves == 0 || c.toMaster != []
    case WriteSlave(_) => !c.created || |c.toMaster| < BUF_SIZE - 1
    case WriteMaster(_) => c.slaves == 0 || |c.toSlave| < BUF_SIZE - 1
    case _ => true
  }

  predicate HasToWait(c: Channel, op: Op)
  {
    Call(c, op).outcome == Failed(EAGAIN)
  }

  /** A call that has to wait sleeps, but for a write to a full ring whose other side is gone: that one turns round. */
  lemma WaitsOrSpins(c: Channel, op: Op)
    requires HasToWait(c, op)
    ensures Woken(c, op) <==> (op.WriteSlave? && !c.created) || (op.WriteMaster? && c.slaves == 0)
  {}

  /** A write of the slave that turns round does so until the master, which is gone, would read. */
  lemma SlaveSpinsOn(c: Channel, data: seq<byte>, other: Op)
    requires !c.created && HasToWait(c, WriteSlave(data)) && !other.ReadMaster?
    ensures
      var r := Call(c, other).channel;
      !r.created && HasToWait(r, WriteSlave(data)) && Woken(r, WriteSlave(data))
  {}

  /** A write of the master that turns round does so until a slave is opened or reads. */
  lemma MasterSpinsOn(c: Channel, data: seq<byte>, other: Op)
    requires c.slaves == 0 && HasToWait(c, WriteMaster(data)) && !other.ReadSlave? && !other.OpenSlave?
    ensures
      var r := Call(c, other).channel;
      r.slaves == 0 && HasToWait(r, WriteMaster(data)) && Woken(r, WriteMaster(data))
  {}

  /** A write that has to wait, and whose wait ends at once. */
  predicate TurnsRound(c: Channel, op: Op)
  {
    HasToWait(c, op) && Woken(c, op)
  }

  lemma ExecuteNext(ops: seq<Op>, op: Op)
    ensures Execute(ops + [op]).channel == Call(Execute(ops).channel, op).channel
  {
    hide Call;
    assert (ops + [op])[..|ops|] == ops;
  }

  /** A run from the start comes there: the master fills the ring before any slave is open. */
  lemma MasterCanTurn(full: seq<byte>, data: seq<byte>)
    requires |full| == BUF_SIZE - 1
    ensures TurnsRound(Execute([WriteMaster(full)]).channel, WriteMaster(data))
  {
    assert Execute([]).channel == CREATED;
    hide Execute;
    ExecuteNext([], WriteMaster(full));
    assert [] + [WriteMaster(full)] == [WriteMaster(full)];
    assert Call(CREATED, WriteMaster(full)).channel == Channel(full, [], true, 0);
  }

  /** And so does one in which the slave fills the ring and the master closes. */
  lemma SlaveCanTurn(full: seq<byte>, data: seq<byte>)
    requires |full| == BUF_SIZE - 1
    ensures TurnsRound(Execute([OpenSlave, WriteSlave(full), CloseMaster]).channel, WriteSlave(data))
  {
    assert Execute([]).channel == CREATED;
    hide Execute;
    ExecuteNext([], OpenSlave);
    ExecuteNext([OpenSlave], WriteSlave(full));
    ExecuteNext([OpenSlave, WriteSlave(full)], CloseMaster);
    assert [] + [OpenSlave] == [OpenSlave] && [OpenSlave] + [WriteSlave(full)] == [OpenSlave, WriteSlave(full)];
    assert [OpenSlave, WriteSlave(full)] + [CloseMaster] == [OpenSlave, WriteSlave(full), CloseMaster];
  }

  /** From there on the write of the slave turns round over every run in which the master does not read. */
  lemma {:induction false} SlaveTurnsOn(ops: seq<Op>, more: seq<Op>, data: seq<byte>)
    requires var c := Execute(ops).channel; !c.created && HasToWait(c, WriteSlave(data))
    requires forall i | 0 <= i < |more| :: !more[i].ReadMaster?
    ensures
      var c := Execute(ops + more).channel;
      !c.created && TurnsRound(c, WriteSlave(data))
  {
    hide Execute, Call;
    WaitsOrSpins(Execute(ops).channel, WriteSlave(data));
    if |more| == 0 {
      assert ops + more == ops;
    } else {
      var n := |more| - 1;
      SlaveTurnsOn(ops, more[..n], data);
      SlaveSpinsOn(Execute(ops + more[..n]).channel, data, more[n]);
      ExecuteNext(ops + more[..n], more[n]);
      assert ops + more == ops + more[..n] + [more[n]];
    }
  }

  /** The write of the master turns round over every run in which no slave is opened and none reads. */
  lemma {:induction false} MasterTurnsOn(ops: seq<Op>, more: seq<Op>, data: seq<byte>)
    requires var c := Execute(ops).channel; c.slaves == 0 && HasToWait(c, WriteMaster(data))
    requires forall i | 0 <= i < |more| :: !more[i].ReadSlave? && !more[i].OpenSlave?
    ensures
      var c := Execute(ops + more).channel;
      c.slaves == 0 && TurnsRound(c, WriteMaster(data))
  {
    hide Execute, Call;
    WaitsOrSpins(Execute(ops).channel, WriteMaster(data));
    if |more| == 0 {
      assert ops + more == ops;
    } else {
      var n := |more| - 1;
      MasterTurnsOn(ops, more[..n], data);
      MasterSpinsOn(Execute(ops + more[..n]).channel, data, more[n]);
      ExecuteNext(ops + more[..n], more[n]);
      assert ops + more == ops + more[..n] + [more[n]];
    }
  }

  // -------------------------------------------------------------------- the objects

  /** A ring of the kernel: struct circ_buf. */
  class CircBuf {
    const buf: array<byte>
    var head: nat
    var tail: nat

    ghost predicate Valid()
      reads this
    {
      buf.Length == BUF_SIZE && head < BUF_SIZE && tail < BUF_SIZE
    }

    ghost function Queue(): (q: seq<byte>)
      reads this, buf
      requires Valid()
      ensures |q| < BUF_SIZE
    {
      Contents(buf[..], head, tail)
    }

    constructor ()
      ensures Valid() && Queue() == [] && fresh(buf)
    {
      buf := new byte[BUF_SIZE];
      head, tail := 0, 0;
    }

    /** The copies and the new tail of both read calls. */
    method Read(user: array<byte>, limit: nat) returns (count: nat)
      requires Valid() && user != buf && limit <= user.Length
      modifies this`tail, user
      ensures count == Min(limit, |old(Queue())|)
      ensures Valid() && Queue() == old(Queue())[count..]
      ensures user[..] == old(Queue())[..count] + old(user[count..])
    {
      ghost var data, was, queue := buf[..], user[..], Queue();
      ReadFacts(data, head, tail, limit, was);
      hide *;
      var t := tail;
      count := Min(limit, Cnt(head, t, 1024));
      var countToEnd := Min(count, CntToEnd(head, t, 1024));
      CopyBytes(buf, t, user, 0, countToEnd);
      t := (t + countToEnd) % 1024;
      CopyBytes(buf, t, user, countToEnd, count - countToEnd);
      tail := (t + (count - countToEnd)) % 1024;
    }

    /** The copies and the new head of both write calls. */
    method Write(user: array<byte>, count: nat)
      requires Valid() && user != buf && count <= user.Length && |Queue()| + count < BUF_SIZE
      modifies this`head, buf
      ensures Valid() && Queue() == old(Queue()) + user[..count]
    {
      ghost var data, given := buf[..], user[..];
      ghost var first, next, last := WriteFacts(data, head, tail, given, count);
      hide *;
      var countToEnd := Min(count, SpaceToEnd(head, tail, 1024));
      var h := (head + countToEnd) % 1024;
      CopyTwoPieces(user, count, buf, head, countToEnd, h);
      head := (h + (count - countToEnd)) % 1024;
    }
  }

  method CopyTwoPieces(user: array<byte>, count: nat, buf: array<byte>, head: nat, first: nat, next: nat)
    requires user != buf && first <= count <= user.Length
    requires head + first <= buf.Length && next + (count - first) <= buf.Length
    modifies buf
    ensures buf[..]
         == Splice(Splice(old(buf[..]), head, user[0..0 + first]), next, user[first..first + (count - first)])
  {
    hide *;
    CopyBytes(user, 0, buf, head, first);
    CopyBytes(user, first, buf, next, count - first);
  }

  /** The two copies of a read, on sequences. */
  lemma ReadFacts(data: seq<byte>, head: nat, tail: nat, limit: nat, user: seq<byte>)
    requires |data| == 1024 && head < 1024 && tail < 1024 && limit <= |user|
    ensures
      var queue := Contents(data, head, tail);
      var count := Min(limit, Cnt(head, tail, 1024));
      var first := Min(count, CntToEnd(head, tail, 1024));
      var next := (tail + first) % 1024;
      var last := (next + (count - first)) % 1024;
      count == Min(limit, |queue|) && 0 <= first <= count && tail + first <= 1024
      && 0 <= next && next + (count - first) <= 1024 && 0 <= last < 1024
      && Splice(Splice(user, 0, data[tail..tail + first]), first, data[next..next + (count - first)])
         == queue[..count] + user[count..]
      && Contents(data, head, last) == queue[count..]
  {
    Counts(1024, head, tail);
    var count := Min(limit, Cnt(head, tail, 1024));
    ReadIndices(1024, head, tail, count);
    var first := Min(count, CntToEnd(head, tail, 1024));
    var next := (tail + first) % 1024;
    var last := (next + (count - first)) % 1024;
    assert TwoPieces(1024, tail, count, first, next, last);
    PiecesFit(1024, tail, count, first, next, last);
    assert |Contents(data, head, tail)| == Length(1024, head, tail) && count == Min(limit, Length(1024, head, tail));
    assert 0 <= count <= Length(1024, head, tail);
    hide *;
    TwoPieceRead(data, head, tail, count, first, next, last);
    TwoSplices(user, data[tail..tail + first], data[next..next + (count - first)]);
  }

  /** The two copies of a write, on sequences. */
  lemma WriteFacts(data: seq<byte>, head: nat, tail: nat, user: seq<byte>, count: nat)
    returns (first: nat, next: nat, last: nat)
    requires |data| == 1024 && head < 1024 && tail < 1024 && count <= |user|
    requires Length(1024, head, tail) + count < 1024
    ensures first == Min(count, SpaceToEnd(head, tail, 1024)) <= count
    ensures next == (head + first) % 1024 && last == (next + (count - first)) % 1024
    ensures head + first <= 1024 && next + (count - first) <= 1024 && last < 1024
    ensures Contents(Splice(Splice(data, head, user[0..0 + first]), next, user[first..first + (count - first)]),
                     last, tail)
         == Contents(data, head, tail) + user[..count]
  {
    Counts(1024, head, tail);
    WriteIndices(1024, head, tail, count);
    first := Min(count, SpaceToEnd(head, tail, 1024));
    next := (head + first) % 1024;
    last := (next + (count - first)) % 1024;
    assert TwoPieces(1024, head, count, first, next, last);
    PiecesFit(1024, head, count, first, next, last);
    hide *;
    var given := user[..count];
    TwoPieceWrite(data, head, tail, given, first, next, last);
    assert given[..first] == user[0..0 + first] && given[first..] == user[first..first + (count - first)];
  }

  /** struct eq3loop_channel_data. */
  class ChannelData {
    const master2slave: CircBuf
    const slave2master: CircBuf
    var created: bool
    var slaveOpenCount: nat

    ghost predicate Valid()
      reads this, master2slave, slave2master
    {
      master2slave.Valid() && slave2master.Valid() && slaveOpenCount <= 1
      && master2slave != slave2master && master2slave.buf != slave2master.buf
    }

    ghost function Value(): (c: Channel)
      reads this, master2slave, master2slave.buf, slave2master, slave2master.buf
      requires Valid()
      ensures Sound(c)
    {
      Channel(master2slave.Queue(), slave2master.Queue(), created, slaveOpenCount)
    }

    constructor ()
      ensures Valid() && Value() == CREATED
      ensures fresh(master2slave) && fresh(slave2master) && fresh(master2slave.buf) && fresh(slave2master.buf)
    {
      master2slave := new CircBuf();
      slave2master := new CircBuf();
      created, slaveOpenCount := true, 0;
    }

    /** read_slave, from the last time it takes the semaphore: the count, or a negated error. */
    method ReadSlave(user: array<byte>, count: nat) returns (ret: int)
      requires Valid() && count <= user.Length && user != master2slave.buf && user != slave2master.buf
      modifies master2slave`tail, user
      ensures Valid()
      ensures
        var r := Call(old(Value()), Op.ReadSlave(count));
        Value() == r.channel
        && match r.outcome
           case Failed(e) => ret == -e && user[..] == old(user[..])
           case Bytes(got) => ret == |got| && user[..] == got + old(user[|got|..])
           case Count(_) => false
    {
      Counts(BUF_SIZE, master2slave.head, master2slave.tail);
      if !created {
        return -ENODEV;
      }
      if Cnt(master2slave.head, master2slave.tail, BUF_SIZE) == 0 {
        assert master2slave.Queue() == [];
        return -EAGAIN;
      }
      ret := master2slave.Read(user, count);
    }

    method ReadMaster(user: array<byte>, count: nat) returns (ret: int)
      requires Valid() && count <= user.Length && user != master2slave.buf && user != slave2master.buf
      modifies slave2master`tail, user
      ensures Valid()
      ensures
        var r := Call(old(Value()), Op.ReadMaster(count));
        Value() == r.channel
        && match r.outcome
           case Failed(e) => ret == -e && user[..] == old(user[..])
           case Bytes(got) => ret == |got| && user[..] == got + old(user[|got|..])
           case Count(_) => false
    {
      Counts(BUF_SIZE, slave2master.head, slave2master.tail);
      if slaveOpenCount > 0 && Cnt(slave2master.head, slave2master.tail, BUF_SIZE) == 0 {
        assert slave2master.Queue() == [];
        return -EAGAIN;
      }
      ret := 0;
      if slaveOpenCount > 0 {
        ret := slave2master.Read(user, count);
      }
    }

    method WriteSlave(user: array<byte>, count: nat) returns (ret: int)
      requires Valid() && count <= user.Length && user != master2slave.buf && user != slave2master.buf
      modifies slave2master`head, slave2master.buf
      ensures Valid()
      ensures
        var r := Call(old(Value()), Op.WriteSlave(user[..count]));
        Value() == r.channel && ret == match r.outcome case Failed(e) => -e case Count(n) => n case Bytes(_) => 0
    {
      Counts(BUF_SIZE, slave2master.head, slave2master.tail);
      if Space(slave2master.head, slave2master.tail, BUF_SIZE) == 0 {
        return -EAGAIN;
      }
      if !created {
        return -ENODEV;
      }
      if Space(slave2master.head, slave2master.tail, BUF_SIZE) < count {
        return -EFAULT;
      }
      slave2master.Write(user, count);
      ret := count;
    }

    method WriteMaster(user: array<byte>, count: nat) returns (ret: int)
      requires Valid() && count <= user.Length && user != master2slave.buf && user != slave2master.buf
      modifies master2slave`head, master2slave.buf
      ensures Valid()
      ensures
        var r := Call(old(Value()), Op.WriteMaster(user[..count]));
        Value() == r.channel && ret == match r.outcome case Failed(e) => -e case Count(n) => n case Bytes(_) => 0
    {
      Counts(BUF_SIZE, master2slave.head, master2slave.tail);
      if Space(master2slave.head, master2slave.tail, BUF_SIZE) == 0 {
        return -EAGAIN;
      }
      if Space(master2slave.head, master2slave.tail, BUF_SIZE) < count {
        return -EFAULT;
      }
      master2slave.Write(user, count);
      ret := count;
    }

    method OpenSlave() returns (ret: int)
      requires Valid()
      modifies this, master2slave
      ensures Valid()
      ensures
        var r := Call(old(Value()), Op.OpenSlave);
        Value() == r.channel && ret == if r.outcome.Failed? then -r.outcome.errno else 0
    {
      if !created {
        return -ENODEV;
      }
      if slaveOpenCount > 0 {
        return -EBUSY;
      }
      slaveOpenCount := slaveOpenCount + 1;
      master2slave.head := 0;
      master2slave.tail := 0;
      ret := 0;
    }

    method CloseSlave()
      requires Valid()
      modifies this
      ensures Valid() && Value() == Call(old(Value()), Op.CloseSlave).channel
    {
      if slaveOpenCount > 0 {
        slaveOpenCount := slaveOpenCount - 1;
      }
    }

    method CloseMaster()
      requires Valid()
      modifies this
      ensures Valid() && Value() == Call(old(Value()), Op.CloseMaster).channel
    {
      created := false;
    }

    /** TIOCINQ and TIOCOUTQ on the slave side report the lengths of the two queues. */
    method QueueLengths() returns (inq: nat, outq: nat)
      requires Valid()
      ensures inq == |Value().toSlave| && outq == |Value().toMaster|
    {
      Counts(BUF_SIZE, master2slave.head, master2slave.tail);
      Counts(BUF_SIZE, slave2master.head, slave2master.tail);
      inq := Cnt(master2slave.head, master2slave.tail, BUF_SIZE);
      outq := Cnt(slave2master.head, slave2master.tail, BUF_SIZE);
    }
  }

  lemma TwoSplices(s: seq<byte>, one: seq<byte>, two: seq<byte>)
    requires |one| + |two| <= |s|
    ensures Splice(Splice(s, 0, one), |one|, two) == one + two + s[|one| + |two|..]
  {}

  method CopyBytes(from: array<byte>, at: nat, to: array<byte>, pos: nat, n: nat)
    requires from != to && at + n <= from.Length && pos + n <= to.Length
    modifies to
    ensures to[..] == Splice(old(to[..]), pos, from[at..at + n])
  {
    forall i | 0 <= i < n {
      to[pos + i] := from[at + i];
    }
  }
}
