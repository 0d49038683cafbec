/** The send queue of the Ethernet driver: many producers under a lock, one consumer without it. */
module EthQueue {
  import opened Crc
  import opened Codec
  import opened Circ
  import opened Option

  /** A queued message: its command and data; the counter and the checksum are put in when it is sent. */
  datatype Entry = Entry(cmd: bv8, data: Bytes)

  const GPIO: bv8 := 3

  // --------------------------------------------------------- the steps of both sides

  /** Where the holder of the write lock stands in queue_msg. */
  datatype Producer = Free | Checking(e: Entry) | Writing(e: Entry) | Publishing(e: Entry)

  /** Where the send thread stands. */
  datatype Consumer = Waiting | Stamping | Sending | Releasing

  datatype State = State(entries: seq<Entry>, head: nat, tail: nat, gpio: bv8, producer: Producer, consumer: Consumer,
                         gpioBusy: bool, gpioQueued: bool, accepted: seq<Entry>, released: nat, sent: seq<Entry>)

  /** SetGpio changes the value under its own lock, which BeginGpio's message keeps until it is queued or dropped. */
  datatype Step = SetGpio(value: bv8) | BeginGpio | Begin(e: Entry) | Check | Write | Publish
                | Load | Stamp | Send | Release

  predicate Init(s: State)
  {
    |s.entries| == 32 && s.head == 0 && s.tail == 0 && s.producer == Free && s.consumer == Waiting
    && !s.gpioBusy && !s.gpioQueued && s.accepted == [] && s.released == 0 && s.sent == []
  }

  predicate Shape(s: State)
  {
    |s.entries| == 32 && s.head < 32 && s.tail < 32
  }

  /** The value of a gpio message is the one that holds when it is sent. */
  function Stamped(e: Entry, gpio: bv8): Entry
  {
    if e.cmd == GPIO && |e.data| > 0 then e.(data := e.data[0 := gpio]) else e
  }

  function Do(s: State, step: Step): (r: State)
    requires Shape(s)
    ensures Shape(r)
  {
    match step
    case SetGpio(value) =>
      if s.gpioBusy then s else s.(gpio := value, gpioBusy := true, gpioQueued := false)
    case BeginGpio =>
      if !s.gpioBusy || s.producer != Free then s else s.(producer := Checking(Entry(GPIO, [s.gpio])))
    case Begin(e) =>
      if s.producer != Free || e.cmd == GPIO then s else s.(producer := Checking(e))
    case Check =>
      if !s.producer.Checking? then s
      else if Space(s.head, s.tail, 32) >= 1 then s.(producer := Writing(s.producer.e))
      else s.(producer := Free, gpioBusy := s.gpioBusy && s.producer.e.cmd != GPIO)
    case Write =>
      if !s.producer.Writing? then s
      else s.(entries := s.entries[s.head := s.producer.e], producer := Publishing(s.producer.e))
    case Publish =>
      if !s.producer.Publishing? then s
      else
        var isGpio := s.producer.e.cmd == GPIO;
        s.(head := (s.head + 1) % 32, producer := Free, accepted := s.accepted + [s.producer.e],
           gpioBusy := s.gpioBusy && !isGpio, gpioQueued := s.gpioQueued || isGpio)
    case Load =>
      if s.consumer != Waiting || Cnt(s.head, s.tail, 32) < 1 then s else s.(consumer := Stamping)
    case Stamp =>
      if s.consumer != Stamping then s
      else s.(entries := s.entries[s.tail := Stamped(s.entries[s.tail], s.gpio)], consumer := Sending)
    case Send =>
      if s.consumer != Sending then s
      else s.(sent := s.sent + [s.entries[s.tail]], consumer := Releasing)
    case Release =>
      if s.consumer != Releasing then s
      else s.(tail := (s.tail + 1) % 32, released := s.released + 1, consumer := Waiting)
  }

  // ----------------------------------------------------------------------- invariant

  /** The same message but for the value of a gpio message. */
  predicate Matches(a: Entry, b: Entry)
  {
    a.cmd == b.cmd && |a.data| == |b.data| && (a.cmd == GPIO ==> |a.data| > 0 && a.data[1..] == b.data[1..])
    && (a.cmd != GPIO ==> a == b)
  }

  function Slot(k: nat): (i: nat)
    ensures i < 32
  {
    k % 32
  }

  /** The entries that are accepted and not yet released lie in the ring. */
  ghost predicate Stored(entries: seq<Entry>, accepted: seq<Entry>, t: nat)
    requires |entries| == 32
  {
    forall k | t <= k < |accepted| :: Matches(accepted[k], entries[Slot(k)])
  }

  /** What has been sent are the accepted entries, each once, in order. */
  ghost predicate SentInOrder(sent: seq<Entry>, accepted: seq<Entry>)
  {
    |sent| <= |accepted| && forall i | 0 <= i < |sent| :: Matches(accepted[i], sent[i])
  }

  predicate ProducerInv(s: State)
  {
    match s.producer
    case Free => true
    case Checking(e) => GpioShape(e, s.gpioBusy)
    case Writing(e) => GpioShape(e, s.gpioBusy) && |s.accepted| < s.released + 31
    case Publishing(e) =>
      GpioShape(e, s.gpioBusy) && |s.accepted| < s.released + 31 && |s.entries| == 32
          && s.entries[Slot(|s.accepted|)] == e
  }

  predicate GpioShape(e: Entry, busy: bool)
  {
    e.cmd == GPIO ==> busy && |e.data| == 1
  }

  /** How many entries have their final value. */
  function Fixed(s: State): nat
  {
    s.released + if s.consumer == Sending || s.consumer == Releasing then 1 else 0
  }

  predicate ConsumerInv(s: State)
  {
    |s.sent| == s.released + (if s.consumer == Releasing then 1 else 0)
    && (s.consumer != Waiting ==> s.released < |s.accepted|)
  }

  /** The value of the last gpio message that has been sent. */
  function LastGpio(sent: seq<Entry>): Option<bv8>
  {
    if |sent| == 0 then None
    else
      var e := sent[|sent| - 1];
      if e.cmd == GPIO && |e.data| > 0 then Some(e.data[0]) else LastGpio(sent[..|sent| - 1])
  }

  /** The value of the last gpio message whose value is final. */
  function LastFixed(s: State): Option<bv8>
    requires Shape(s)
  {
    var e := s.entries[s.tail];
    if s.consumer == Sending && e.cmd == GPIO && |e.data| > 0 then Some(e.data[0]) else LastGpio(s.sent)
  }

  ghost predicate GpioPending(accepted: seq<Entry>, from: nat)
  {
    exists k :: from <= k < |accepted| && accepted[k].cmd == GPIO
  }

  /** Once the last change of the value is queued, a gpio message is still to get its value or has got the present
      one. */
  ghost predicate GpioFresh(s: State)
    requires Shape(s)
  {
    (s.gpioQueued ==> !s.gpioBusy)
    && (s.gpioQueued ==> GpioPending(s.accepted, Fixed(s)) || LastFixed(s) == Some(s.gpio))
  }

  ghost predicate Inv(s: State)
  {
    Shape(s) && s.released <= |s.accepted| <= s.released + 31
    && s.head == Slot(|s.accepted|) && s.tail == Slot(s.released)
    && Stored(s.entries, s.accepted, s.released) && SentInOrder(s.sent, s.accepted)
    && ProducerInv(s) && ConsumerInv(s) && GpioFresh(s)
  }

  lemma SlotFacts(k: nat, n: nat)
    requires n < 32
    ensures Slot(k + 1) == (Slot(k) + 1) % 32
    ensures n > 0 ==> Slot(k + n) != Slot(k)
  {}

  /** The ring macros give the true numbers. */
  lemma MacrosExact(s: State)
    requires Inv(s)
    ensures Cnt(s.head, s.tail, 32) == |s.accepted| - s.released
    ensures Space(s.head, s.tail, 32) == 31 - (|s.accepted| - s.released)
  {
    hide Cnt, Space;
    MacroValues(32, s.head, s.tail, |s.accepted|, s.released);
  }

  lemma InitInv(s: State)
    requires Init(s)
    ensures Inv(s)
  {}

  lemma BeginInv(s: State, step: Step)
    requires Inv(s) && (step.SetGpio? || step.BeginGpio? || step.Begin?)
    ensures Inv(Do(s, step))
  {
    hide Slot, Stored, SentInOrder, Cnt, Space, GpioPending, LastGpio;
  }

  lemma CheckInv(s: State)
    requires Inv(s)
    ensures Inv(Do(s, Check))
  {
    if s.producer.Checking? {
      MacrosExact(s);
      var p := if Space(s.head, s.tail, 32) >= 1 then Writing(s.producer.e) else Free;
      var busy := s.gpioBusy && (p.Writing? || s.producer.e.cmd != GPIO);
      assert Do(s, Check) == s.(producer := p, gpioBusy := busy);
      FreshSame(s, p, busy);
      hide Do, GpioFresh, Slot, Stored, SentInOrder, Cnt, Space;
    }
  }

  lemma FreshSame(s: State, p: Producer, busy: bool)
    requires Shape(s) && GpioFresh(s) && (busy ==> s.gpioBusy)
    ensures GpioFresh(s.(producer := p, gpioBusy := busy))
  {
    hide GpioPending, LastGpio;
  }

  /** Writing the next free slot touches no entry that is still held. */
  lemma WriteInv(s: State)
    requires Inv(s)
    ensures Inv(Do(s, Write))
  {
    if s.producer.Writing? {
      var h, t := |s.accepted|, s.released;
      forall k | t <= k < h
        ensures Slot(k) != Slot(h)
      {
        SlotFacts(k, h - k);
      }
      hide Slot, SentInOrder, GpioPending, LastGpio, Matches;
    }
  }

  lemma PublishInv(s: State)
    requires Inv(s)
    ensures Inv(Do(s, Publish))
  {
    if s.producer.Publishing? {
      var e, h := s.producer.e, |s.accepted|;
      SlotFacts(h, 1);
      StoredAppend(s.entries, s.accepted, s.released, e);
      SentExtends(s.sent, s.accepted, e);
      PendingAppend(s.accepted, Fixed(s), e);
      hide Slot, Stored, SentInOrder, GpioPending, LastGpio;
    }
  }

  lemma StoredAppend(entries: seq<Entry>, accepted: seq<Entry>, t: nat, e: Entry)
    requires |entries| == 32 && t <= |accepted| && Stored(entries, accepted, t) && entries[Slot(|accepted|)] == e
    requires e.cmd == GPIO ==> |e.data| > 0
    ensures Stored(entries, accepted + [e], t)
  {
    hide Slot;
  }

  lemma SentExtends(sent: seq<Entry>, accepted: seq<Entry>, e: Entry)
    requires SentInOrder(sent, accepted)
    ensures SentInOrder(sent, accepted + [e])
  {
    hide Matches;
  }

  lemma PendingAppend(accepted: seq<Entry>, from: nat, e: Entry)
    requires from <= |accepted|
    ensures GpioPending(accepted + [e], from) <==> GpioPending(accepted, from) || e.cmd == GPIO
  {
    var more := accepted + [e];
    if GpioPending(accepted, from) {
      var k :| from <= k < |accepted| && accepted[k].cmd == GPIO;
      assert more[k].cmd == GPIO;
    }
    if e.cmd == GPIO {
      assert more[|accepted|].cmd == GPIO;
    }
  }

  lemma LoadInv(s: State)
    requires Inv(s)
    ensures Inv(Do(s, Load))
  {
    hide Slot, Stored, SentInOrder, Cnt, Space, GpioPending;
    MacrosExact(s);
  }

  lemma StampInv(s: State)
    requires Inv(s)
    ensures Inv(Do(s, Stamp))
  {
    if s.consumer == Stamping {
      var h, t := |s.accepted|, s.released;
      var e := s.entries[s.tail];
      assert Matches(s.accepted[t], e);
      forall k | t < k <= h && k < t + 32
        ensures Slot(k) != Slot(t)
      {
        SlotFacts(t, k - t);
      }
      hide Slot, LastGpio;
      assert Matches(s.accepted[t], Stamped(e, s.gpio));
      if s.gpioQueued && GpioPending(s.accepted, t) && e.cmd != GPIO {
        var k :| t <= k < h && s.accepted[k].cmd == GPIO;
        assert k != t;
        assert GpioPending(s.accepted, t + 1);
      }
    }
  }

  lemma SendInv(s: State)
    requires Inv(s)
    ensures Inv(Do(s, Send))
  {
    if s.consumer == Sending {
      var e := s.entries[s.tail];
      assert Matches(s.accepted[s.released], e);
      assert (s.sent + [e])[..|s.sent|] == s.sent;
      hide Slot, GpioPending, Stored, Matches;
    }
  }

  lemma ReleaseInv(s: State)
    requires Inv(s)
    ensures Inv(Do(s, Release))
  {
    if s.consumer == Releasing {
      SlotFacts(s.released, 1);
      hide Slot, GpioPending, SentInOrder, LastGpio, Matches;
    }
  }

  lemma StepInv(s: State, step: Step)
    requires Inv(s)
    ensures Inv(Do(s, step))
  {
    match step
    case Check => CheckInv(s);
    case Write => WriteInv(s);
    case Publish => PublishInv(s);
    case Load => LoadInv(s);
    case Stamp => StampInv(s);
    case Send => SendInv(s);
    case Release => ReleaseInv(s);
    case _ => BeginInv(s, step);
  }

  // ------------------------------------------------------------------------ every run

  function Execute(s: State, steps: seq<Step>): (r: State)
    requires Shape(s)
    ensures Shape(r)
  {
    if |steps| == 0 then s else Do(Execute(s, steps[..|steps| - 1]), steps[|steps| - 1])
  }

  /** In every interleaving the accepted entries are sent once each, in order; at most 31 wait. */
  lemma {:induction false} RunSafe(s: State, steps: seq<Step>)
    requires Init(s)
    ensures
      var r := Execute(s, steps);
      Inv(r) && SentInOrder(r.sent, r.accepted) && |r.accepted| <= |r.sent| + 31
      && (r.consumer == Waiting && r.released == |r.accepted| ==> |r.sent| == |r.accepted|)
  {
    if |steps| == 0 {
      InitInv(s);
    } else {
      RunSafe(s, steps[..|steps| - 1]);
      StepInv(Execute(s, steps[..|steps| - 1]), steps[|steps| - 1]);
      hide Do, Init, Stored, SentInOrder, GpioFresh, Slot;
    }
  }

  /** A producer never writes the entry that the consumer holds. */
  lemma SentEntryUntouched(s: State)
    requires Inv(s) && s.consumer != Waiting
    ensures s.producer.Writing? ==> s.head != s.tail
    ensures Do(s, Write).entries[s.tail] == s.entries[s.tail]
  {
    if s.producer.Writing? {
      SlotFacts(s.released, |s.accepted| - s.released);
    }
  }

  /** An entry is refused exactly when 31 are held. */
  lemma RefusedWhenFull(s: State)
    requires Inv(s) && s.producer.Checking?
    ensures Do(s, Check).producer.Writing? <==> |s.accepted| - s.released < 31
  {
    hide Slot, Cnt, Space;
    MacrosExact(s);
  }

  /** Once the queue is drained and the last change of the value was accepted, the last gpio message carries it. */
  lemma DrainedGpioCurrent(s: State)
    requires Inv(s) && s.consumer == Waiting && s.released == |s.accepted| && s.gpioQueued
    ensures LastGpio(s.sent) == Some(s.gpio)
  {
    hide Slot, Stored, SentInOrder, LastGpio;
  }

  // ---------------------------------------------------------------- one call as a run

  /** The steps of one call: of queue_msg, of a change of the value with its message, and of one turn of the thread. */
  function QueueSteps(e: Entry): seq<Step> { [Begin(e), Check, Write, Publish] }

  function GpioSteps(value: bv8): seq<Step> { [SetGpio(value), BeginGpio, Check, Write, Publish] }

  function SendSteps(): seq<Step> { [Load, Stamp, Send, Release] }

  lemma ExecuteNext(s: State, steps: seq<Step>, step: Step)
    requires Shape(s)
    ensures Execute(s, steps + [step]) == Do(Execute(s, steps), step)
  {
    hide Do, Shape;
    assert (steps + [step])[..|steps|] == steps;
  }

  lemma ExecuteFour(s: State, first: seq<Step>, a: Step, b: Step, c: Step)
    requires Shape(s)
    ensures Execute(s, first + [a, b, c]) == Do(Do(Do(Execute(s, first), a), b), c)
  {
    hide Do, Execute, Shape;
    ExecuteNext(s, first, a);
    ExecuteNext(s, first + [a], b);
    ExecuteNext(s, first + [a, b], c);
    assert first + [a] + [b] == first + [a, b] && first + [a, b] + [c] == first + [a, b, c];
  }

  lemma ExecuteOne(s: State, a: Step)
    requires Shape(s)
    ensures Execute(s, [a]) == Do(s, a)
  {
    hide Do, Shape;
    assert [a][..0] == [];
    assert Execute(s, []) == s;
  }

  /** What the call does with a free lock: one entry more and the next place, or nothing. */
  function Queued(s: State, e: Entry): State
    requires Shape(s)
  {
    if Space(s.head, s.tail, 32) < 1 then s
    else s.(entries := s.entries[s.head := e], head := (s.head + 1) % 32, accepted := s.accepted + [e],
            gpioQueued := s.gpioQueued || e.cmd == GPIO)
  }

  lemma CheckedRun(s: State, e: Entry)
    requires Shape(s) && s.producer == Checking(e)
    ensures Do(Do(Do(s, Check), Write), Publish)
      == Queued(s, e).(producer := Free, gpioBusy := s.gpioBusy && e.cmd != GPIO)
  {
    hide Space;
    if Space(s.head, s.tail, 32) < 1 {
      var r := s.(producer := Free, gpioBusy := s.gpioBusy && e.cmd != GPIO);
      assert Do(s, Check) == r;
      assert Do(r, Write) == r && Do(r, Publish) == r;
    } else {
      var writing := s.(producer := Writing(e));
      assert Do(s, Check) == writing;
      var publishing := s.(entries := s.entries[s.head := e], producer := Publishing(e));
      assert Do(writing, Write) == publishing;
    }
  }

  lemma QueueRun(s: State, e: Entry)
    requires Shape(s) && s.producer == Free && e.cmd != GPIO
    ensures Execute(s, QueueSteps(e)) == Queued(s, e)
  {
    assert Do(s, Begin(e)) == s.(producer := Checking(e));
    assert [Begin(e)] + [Check, Write, Publish] == QueueSteps(e);
    CheckedRun(s.(producer := Checking(e)), e);
    hide Do, Execute, Space;
    ExecuteOne(s, Begin(e));
    ExecuteFour(s, [Begin(e)], Check, Write, Publish);
  }

  lemma GpioRun(s: State, value: bv8)
    requires Shape(s) && s.producer == Free && !s.gpioBusy
    ensures Execute(s, GpioSteps(value)) == Queued(s.(gpio := value, gpioQueued := false), Entry(GPIO, [value]))
  {
    var e := Entry(GPIO, [value]);
    var first := [SetGpio(value)] + [BeginGpio];
    var changed := s.(gpio := value, gpioBusy := true, gpioQueued := false);
    var checking := changed.(producer := Checking(e));
    assert Do(s, SetGpio(value)) == changed && Do(changed, BeginGpio) == checking;
    QueuedSame(s.(gpio := value, gpioQueued := false), e);
    assert first + [Check, Write, Publish] == GpioSteps(value);
    hide *;
    CheckedRun(checking, e);
    ExecuteOne(s, SetGpio(value));
    ExecuteNext(s, [SetGpio(value)], BeginGpio);
    ExecuteFour(s, first, Check, Write, Publish);
  }

  lemma QueuedSame(s: State, e: Entry)
    requires Shape(s) && s.producer == Free && !s.gpioBusy && e.cmd == GPIO
    ensures
      var r := Queued(s.(gpioBusy := true, producer := Checking(e)), e);
      r.(producer := Free, gpioBusy := false) == Queued(s, e)
  {
    hide Space;
  }

  lemma SendRun(s: State)
    requires Shape(s) && s.consumer == Waiting
    ensures Execute(s, SendSteps()) ==
      if Cnt(s.head, s.tail, 32) < 1 then s
      else
        var e := Stamped(s.entries[s.tail], s.gpio);
        s.(entries := s.entries[s.tail := e], tail := (s.tail + 1) % 32, released := s.released + 1,
            sent := s.sent + [e])
  {
    assert [Load] + [Stamp, Send, Release] == SendSteps();
    ThreadTurn(s);
    hide Do, Execute, Cnt;
    ExecuteOne(s, Load);
    ExecuteFour(s, [Load], Stamp, Send, Release);
  }

  lemma ThreadTurn(s: State)
    requires Shape(s) && s.consumer == Waiting
    ensures Do(Do(Do(Do(s, Load), Stamp), Send), Release) ==
      if Cnt(s.head, s.tail, 32) < 1 then s
      else
        var e := Stamped(s.entries[s.tail], s.gpio);
        s.(entries := s.entries[s.tail := e], tail := (s.tail + 1) % 32, released := s.released + 1,
            sent := s.sent + [e])
  {
    hide Cnt, Stamped;
  }

  // --------------------------------------------------------------------- the packets

  /** What goes out for an entry: command, counter, data and checksum. */
  function Packet(e: Entry, counter: bv8): Bytes
  {
    Sealed([e.cmd, counter] + e.data)
  }

  /** The receiver's test of the checksum. */
  predicate ChecksumRight(packet: Bytes)
  {
    |packet| >= 4 && Pair(packet[|packet| - 2], packet[|packet| - 1]) == Checksum(packet[..|packet| - 2])
  }

  lemma PacketChecks(e: Entry, counter: bv8)
    ensures ChecksumRight(Packet(e, counter)) && |Packet(e, counter)| == |e.data| + 4
    ensures Packet(e, counter)[0] == e.cmd && Packet(e, counter)[1] == counter
    ensures Packet(e, counter)[2..|e.data| + 2] == e.data
  {
    hide Checksum, Pair;
    var body := [e.cmd, counter] + e.data;
    SealedMatches(body, UpperByte(Checksum(body)), LowerByte(Checksum(body)));
    assert Packet(e, counter)[..|body|] == body;
    assert body[0] == e.cmd && body[1] == counter && body[2..] == e.data;
  }

  lemma PacketIs(e: Entry, counter: bv8, s: Bytes)
    requires |s| == |e.data| + 4 && s[..|s| - 2] == [e.cmd, counter] + e.data
    requires s[|s| - 2] == UpperByte(Checksum(s[..|s| - 2])) && s[|s| - 1] == LowerByte(Checksum(s[..|s| - 2]))
    ensures s == Packet(e, counter)
  {
    hide Checksum, UpperByte, LowerByte;
  }

  /** A packet damaged only within sixteen adjacent bits is refused by the receiver. */
  lemma DamagedPacketRefused(e: Entry, counter: bv8, received: Bytes, at: nat, k: nat)
    requires Burst(Packet(e, counter), received, at, k) && received != Packet(e, counter)
    ensures !ChecksumRight(received)
  {
    hide *;
    var packet := Packet(e, counter);
    PacketChecks(e, counter);
    if ChecksumRight(received) {
      ResidueZero(packet);
      ResidueZero(received);
      BurstDetected(packet, received, at, k);
    }
  }

  lemma ResidueZero(packet: Bytes)
    requires ChecksumRight(packet)
    ensures Checksum(packet) == 0
  {
    hide Checksum, Pair;
    var n := |packet|;
    ResidueIsZero(packet[..n - 2], packet[n - 2], packet[n - 1]);
    assert packet == packet[..n - 2] + [packet[n - 2], packet[n - 1]];
  }

  // ----------------------------------------------------------------------- the object

  /** The queue, the gpio value and the counter, with what has been put on the socket. */
  class SendQueue {
    const entries: array<Entry>
    var head: nat
    var tail: nat
    var gpioValue: bv8
    var msgCnt: bv8
    var socket: seq<Bytes>

    ghost predicate Valid()
      reads this
    {
      entries.Length == 32 && head < 32 && tail < 32
    }

    ghost function Queue(): (q: seq<Entry>)
      reads this, entries
      requires Valid()
      ensures |q| <= 31
    {
      Contents(entries[..], head, tail)
    }

    /** The object is the queue of a state in which no call is under way. */
    ghost predicate Shows(s: State)
      reads this, entries
    {
      s.entries == entries[..] && s.head == head && s.tail == tail && s.gpio == gpioValue
      && s.producer == Free && s.consumer == Waiting && !s.gpioBusy
    }

    constructor ()
      ensures Valid() && Queue() == [] && fresh(entries) && gpioValue == 0 && socket == []
    {
      entries := new Entry[32](_ => Entry(0, []));
      head, tail, gpioValue, msgCnt, socket := 0, 0, 0, 0, [];
    }

    static method CalcCrc(buf: array<bv8>, size: nat) returns (crc: bv16)
      requires size <= buf.Length
      ensures crc == Checksum(buf[..size])
    {
      ghost var s := buf[..size];
      assert s[..0] == [] && s[..size] == s && Fold(START, []) == START;
      crc := START.bits;
      var pos, len := 0, size;
      while len > 0
        invariant pos + len == size && Reg(crc) == Fold(START, s[..pos])
      {
        hide Fold, Update;
        FoldNext(START, s, pos);
        assert buf[pos] == s[pos];
        len := len - 1;
        crc := AddByte(crc, buf[pos]);
        pos := pos + 1;
      }
    }

    /** Append a message, or drop it when no place is free. */
    method QueueMsg(cmd: bv8, data: Bytes)
      requires Valid() && |data| <= 1496
      modifies this`head, entries
      ensures Valid()
      ensures Queue() == if |old(Queue())| < 31 then old(Queue()) + [Entry(cmd, data)] else old(Queue())
      ensures cmd != GPIO ==> forall s | old(Shows(s)) :: Shows(Execute(s, QueueSteps(Entry(cmd, data))))
      ensures forall s | old(Shows(s)) :: Shows(Queued(s, Entry(cmd, data)))
    {
      hide Execute, Do, Length, Place, Contents;
      ghost var was, e, h, t := entries[..], Entry(cmd, data), head, tail;
      Counts(32, head, tail);
      if Space(head, tail, 32) >= 1 {
        OnePlaceWrite(was, head, tail, e);
        entries[head] := Entry(cmd, data);
        head := (head + 1) % 32;
      }
      hide Space;
      forall s | old(Shows(s))
        ensures Shows(Queued(s, e)) && (cmd != GPIO ==> Shows(Execute(s, QueueSteps(e))))
      {
        assert s.entries == was && s.head == h && s.tail == t;
        if cmd != GPIO {
          QueueRun(s, e);
        }
      }
    }

    /** One turn of the send thread on a filled queue; false when the queue is empty. */
    method SendNext() returns (filled: bool)
      requires Valid()
      modifies this, entries
      ensures Valid() && gpioValue == old(gpioValue) && filled == (old(Queue()) != [])
      ensures !filled ==> Queue() == [] && socket == old(socket)
      ensures filled ==>
        Queue() == old(Queue())[1..]
        && socket == old(socket) + [Packet(Stamped(old(Queue())[0], gpioValue), msgCnt)]
        && msgCnt == old(msgCnt) + 1
      ensures forall s | old(Shows(s)) :: Shows(Execute(s, SendSteps()))
    {
      hide Execute, Do, Length, Place, Contents, Stamped, Packet, SendSteps;
      ghost var was, h, t, g := entries[..], head, tail, gpioValue;
      Counts(32, head, tail);
      filled := Cnt(head, tail, 32) >= 1;
      if filled {
        OnePlaceRead(was, head, tail, Stamped(was[tail], gpioValue));
        entries[tail] := Stamped(entries[tail], gpioValue);
        SendMsg(entries[tail]);
        tail := (tail + 1) % 32;
      }
      hide Cnt;
      forall s | old(Shows(s))
        ensures Shows(Execute(s, SendSteps()))
      {
        assert s.entries == was && s.head == h && s.tail == t && s.gpio == g;
        SendRun(s);
      }
    }

    /** Put the counter and the checksum into the buffer of a message and give it to the socket. */
    method SendMsg(e: Entry)
      modifies this`msgCnt, this`socket
      ensures msgCnt == old(msgCnt) + 1 && socket == old(socket) + [Packet(e, msgCnt)]
    {
      hide *;
      var len := |e.data| + 4;
      var buffer := new bv8[len];
      buffer[0], buffer[1] := e.cmd, 0;
      forall i | 0 <= i < |e.data| {
        buffer[2 + i] := e.data[i];
      }
      msgCnt := msgCnt + 1;
      buffer[1] := msgCnt;
      var crc := CalcCrc(buffer, len - 2);
      buffer[len - 2], buffer[len - 1] := UpperByte(crc), LowerByte(crc);
      assert buffer[..][2..len - 2] == e.data && buffer[0] == e.cmd && buffer[1] == msgCnt;
      assert buffer[..len - 2] == [e.cmd, msgCnt] + e.data;
      PacketIs(e, msgCnt, buffer[..]);
      socket := socket + [buffer[..]];
    }

    /** Set or clear one bit of the value and queue a message with it. */
    method GpioSet(gpio: nat, value: bool)
      requires Valid() && gpio < 8
      modifies this, entries
      ensures Valid() && gpioValue == WithBit(old(gpioValue), gpio, value) && socket == old(socket)
      ensures Queue() ==
        if |old(Queue())| < 31 then old(Queue()) + [Entry(GPIO, [gpioValue])] else old(Queue())
      ensures forall s | old(Shows(s)) :: Shows(Execute(s, GpioSteps(gpioValue)))
    {
      gpioValue := WithBit(gpioValue, gpio, value);
      ghost var value := gpioValue;
      label changed:
      QueueMsg(GPIO, [gpioValue]);
      forall s | old(Shows(s))
        ensures Shows(Execute(s, GpioSteps(value)))
      {
        hide Execute, Queued, Space;
        assert old@changed(Shows(s.(gpio := value, gpioQueued := false)));
        GpioRun(s, value);
      }
    }

    /** Replace the bits under the mask and queue a message with the value. */
    method GpioSetMultiple(mask: bv8, bits: bv8)
      requires Valid()
      modifies this, entries
      ensures Valid() && gpioValue == Merged(old(gpioValue), mask, bits) && socket == old(socket)
      ensures Queue() ==
        if |old(Queue())| < 31 then old(Queue()) + [Entry(GPIO, [gpioValue])] else old(Queue())
      ensures forall s | old(Shows(s)) :: Shows(Execute(s, GpioSteps(gpioValue)))
    {
      gpioValue := Merged(gpioValue, mask, bits);
      ghost var value := gpioValue;
      label changed:
      QueueMsg(GPIO, [gpioValue]);
      forall s | old(Shows(s))
        ensures Shows(Execute(s, GpioSteps(value)))
      {
        hide Execute, Queued, Space;
        assert old@changed(Shows(s.(gpio := value, gpioQueued := false)));
        GpioRun(s, value);
      }
    }
  }

  function Merged(v: bv8, mask: bv8, bits: bv8): bv8 { (v & !mask) | (bits & mask) }

  function WithBit(v: bv8, bit: nat, on: bool): (r: bv8)
    requires bit < 8
  {
    var mask: bv8 := (1 as bv8) << bit;
    if on then v | mask else v & !mask
  }

  /** Setting a bit sets it and leaves the others. */
  lemma BitSet(v: bv8, bit: nat, on: bool, other: nat)
    requires bit < 8 && other < 8
    ensures (WithBit(v, bit, on) >> other) & 1 == if other == bit then (if on then 1 else 0) else (v >> other) & 1
  {}

  /** Every bit comes from the new bits under the mask and from the old value elsewhere. */
  lemma BitsMerged(v: bv8, mask: bv8, bits: bv8)
    ensures Merged(v, mask, bits) & mask == bits & mask && Merged(v, mask, bits) & !mask == v & !mask
  {}

  lemma OnePlaceWrite(entries: seq<Entry>, head: nat, tail: nat, e: Entry)
    requires |entries| == 32 && head < 32 && tail < 32 && Space(head, tail, 32) >= 1
    ensures
      var queue := Contents(entries, head, tail);
      |queue| < 31 && Contents(entries[head := e], (head + 1) % 32, tail) == queue + [e]
  {
    Counts(32, head, tail);
    WriteIndices(32, head, tail, 1);
    var first := Min(1, SpaceToEnd(head, tail, 32));
    var next := (head + first) % 32;
    TwoPieceWrite(entries, head, tail, [e], first, next, (next + (1 - first)) % 32);
    assert Splice(Splice(entries, head, [e]), next, []) == entries[head := e];
    hide Length, Place, Cnt, Contents, Splice;
  }

  lemma OnePlaceRead(entries: seq<Entry>, head: nat, tail: nat, e: Entry)
    requires |entries| == 32 && head < 32 && tail < 32 && Cnt(head, tail, 32) >= 1
    ensures
      var queue := Contents(entries, head, tail);
      |queue| > 0 && queue[0] == entries[tail] && Contents(entries[tail := e], head, (tail + 1) % 32) == queue[1..]
  {
    Counts(32, head, tail);
  }
}
