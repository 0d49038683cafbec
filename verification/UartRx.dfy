/** The receive ring of the raw UART: one producer and one reader, without a common lock. */
module UartRx {
  import opened Words
  import opened Circ

  const SIZE: nat := 1024

  // ------------------------------------------------- the steps of both sides

  /** Where handle_rx_char stands between two statements. */
  datatype Producer = Idle | Checking(data: byte) | Storing(data: byte) | Bumping(data: byte) | WrappingHead

  /** Where read stands, holding its semaphore. */
  datatype Reader = Outside | Limiting(want: nat) | Copying(count: nat) | Advancing(got: seq<byte>) | WrappingTail

  /** The shared ring, both program counters, and what has been accepted and read so far. */
  datatype State = State(buf: seq<byte>, head: nat, tail: nat, producer: Producer, reader: Reader,
                         accepted: seq<byte>, delivered: seq<byte>)

  datatype Step = Receive(data: byte) | Check | Store | Bump | WrapHead
                | Poll(want: nat) | Limit | Copy | Advance | WrapTail

  predicate Init(s: State)
  {
    |s.buf| == SIZE && s.head == 0 && s.tail == 0 && s.producer == Idle && s.reader == Outside
    && s.accepted == [] && s.delivered == []
  }

  /** One statement of either side; a step that is not next leaves the state as it is. */
  function Do(s: State, step: Step): (r: State)
    requires |s.buf| == SIZE
    ensures |r.buf| == SIZE
  {
    match step
    case Receive(data) =>
      if s.producer == Idle then s.(producer := Checking(data)) else s
    case Check =>
      if !s.producer.Checking? then s
      else if Space(s.head, s.tail, SIZE) != 0 then s.(producer := Storing(s.producer.data))
      else s.(producer := Idle)
    case Store =>
      if !s.producer.Storing? || s.head >= SIZE then s
      else s.(buf := s.buf[s.head := s.producer.data], producer := Bumping(s.producer.data))
    case Bump =>
      if !s.producer.Bumping? then s
      else s.(head := s.head + 1, producer := if s.head + 1 >= SIZE then WrappingHead else Idle,
              accepted := s.accepted + [s.producer.data])
    case WrapHead =>
      if s.producer != WrappingHead then s else s.(head := 0, producer := Idle)
    case Poll(want) =>
      if s.reader != Outside || Cnt(s.head, s.tail, SIZE) == 0 then s else s.(reader := Limiting(want))
    case Limit =>
      if !s.reader.Limiting? then s
      else
        var count := Min(s.reader.want, CntToEnd(s.head, s.tail, SIZE));
        s.(reader := Copying(if count < 0 then 0 else count))
    case Copy =>
      if !s.reader.Copying? || s.tail + s.reader.count > SIZE then s
      else s.(reader := Advancing(s.buf[s.tail..s.tail + s.reader.count]))
    case Advance =>
      if !s.reader.Advancing? then s
      else
        var tail := s.tail + |s.reader.got|;
        s.(tail := tail, reader := if tail >= SIZE then WrappingTail else Outside,
           delivered := s.delivered + s.reader.got)
    case WrapTail =>
      if s.reader != WrappingTail then s else s.(tail := if s.tail >= SIZE then s.tail - SIZE else 0, reader := Outside)
  }

  /** The bytes that are accepted and not yet read. */
  function Fifo(s: State): seq<byte>
    requires |s.delivered| <= |s.accepted|
  {
    s.accepted[|s.delivered|..]
  }

  function Slot(k: nat): (i: nat)
    ensures i < 1024
  {
    k % 1024
  }

  /** The bytes that are accepted and not yet read lie in the ring. */
  ghost predicate Stored(buf: seq<byte>, accepted: seq<byte>, t: nat)
    requires |buf| == SIZE
  {
    forall k | t <= k < |accepted| :: buf[Slot(k)] == accepted[k]
  }

  /** An index is its count modulo the size, but for the moment before it wraps. */
  predicate IndexOf(index: nat, count: nat, wrapping: bool)
  {
    if wrapping then index == 1024 && Slot(count) == 0 else index == Slot(count)
  }

  predicate ProducerInv(s: State)
    requires |s.buf| == SIZE
  {
    var h, t := |s.accepted|, |s.delivered|;
    IndexOf(s.head, h, s.producer == WrappingHead)
    && (s.producer.Storing? || s.producer.Bumping? ==> h < t + 1023)
    && (s.producer.Bumping? ==> s.buf[Slot(h)] == s.producer.data)
  }

  predicate ReaderInv(s: State)
  {
    var h, t := |s.accepted|, |s.delivered|;
    IndexOf(s.tail, t, s.reader == WrappingTail)
    && (s.reader.Limiting? ==> t < h)
    && (s.reader.Copying? ==> t + s.reader.count <= h && s.tail + s.reader.count <= 1024)
    && (s.reader.Advancing? ==>
          t + |s.reader.got| <= h && s.tail + |s.reader.got| <= 1024
              && s.reader.got == s.accepted[t..t + |s.reader.got|])
  }

  ghost predicate Inv(s: State)
  {
    |s.buf| == SIZE && |s.delivered| <= |s.accepted| <= |s.delivered| + 1023
    && s.delivered == s.accepted[..|s.delivered|]
    && Stored(s.buf, s.accepted, |s.delivered|) && ProducerInv(s) && ReaderInv(s)
  }

  lemma SlotFacts(k: nat, n: nat)
    ensures n < 1024 && Slot(k) + n < 1024 ==> Slot(k + n) == Slot(k) + n
    ensures n < 1024 && Slot(k) + n == 1024 ==> Slot(k + n) == 0
    ensures 0 < n < 1024 ==> Slot(k + n) != Slot(k)
  {}

  lemma IndexMod(index: nat, count: nat, wrapping: bool)
    requires IndexOf(index, count, wrapping)
    ensures index % 1024 == count % 1024 && index <= 1024
  {}

  /** The ring macros see the true numbers, also while an index stands at 1024. */
  lemma MacrosExact(s: State)
    requires Inv(s)
    ensures Cnt(s.head, s.tail, SIZE) == |Fifo(s)|
    ensures Space(s.head, s.tail, SIZE) == 1023 - |Fifo(s)|
  {
    hide Cnt, Space;
    var h, t := |s.accepted|, |s.delivered|;
    IndexMod(s.head, h, s.producer == WrappingHead);
    IndexMod(s.tail, t, s.reader == WrappingTail);
    MacroValues(1024, s.head, s.tail, h, t);
  }

  lemma InitInv(s: State)
    requires Init(s)
    ensures Inv(s)
  {}

  lemma StoreInv(s: State)
    requires Inv(s)
    ensures Inv(Do(s, Store))
  {
    var h, t := |s.accepted|, |s.delivered|;
    if s.producer.Storing? {
      assert s.head == Slot(h);
      forall k | t <= k < h
        ensures Slot(k) != Slot(h)
      {
        SlotFacts(k, h - k);
      }
      hide Slot;
    }
  }

  lemma StoredAppend(buf: seq<byte>, accepted: seq<byte>, t: nat, data: byte)
    requires |buf| == SIZE && t <= |accepted| && Stored(buf, accepted, t) && buf[Slot(|accepted|)] == data
    ensures Stored(buf, accepted + [data], t)
  {
    hide Slot;
  }

  /** The reader does not mind further bytes. */
  lemma ReaderUnmoved(s: State, r: State)
    requires ReaderInv(s) && |s.delivered| <= |s.accepted| && s.accepted <= r.accepted
    requires r.tail == s.tail && r.reader == s.reader && r.delivered == s.delivered
    ensures ReaderInv(r)
  {
    hide IndexOf;
  }

  lemma BumpInv(s: State)
    requires Inv(s)
    ensures Inv(Do(s, Bump))
  {
    if s.producer.Bumping? {
      var h, t := |s.accepted|, |s.delivered|;
      SlotFacts(h, 1);
      StoredAppend(s.buf, s.accepted, t, s.producer.data);
      hide Slot, Stored, ReaderInv, Cnt, Space, CntToEnd;
      var more := s.accepted + [s.producer.data];
      assert more[..t] == s.accepted[..t];
      ReaderUnmoved(s, Do(s, Bump));
    }
  }

  lemma ProducerStepInv(s: State, step: Step)
    requires Inv(s) && (step.Receive? || step.Check? || step.WrapHead?)
    ensures Inv(Do(s, step))
  {
    hide Slot, Cnt, Space;
    MacrosExact(s);
  }

  lemma ReaderStepInv(s: State, step: Step)
    requires Inv(s) && (step.Poll? || step.Limit? || step.WrapTail?)
    ensures Inv(Do(s, step))
  {
    hide Slot, Cnt, Space;
    MacrosExact(s);
  }

  /** What lies in the ring from tail on are the oldest bytes that are not yet read. */
  lemma StoredSlice(buf: seq<byte>, accepted: seq<byte>, t: nat, tail: nat, n: nat)
    requires |buf| == SIZE && Stored(buf, accepted, t) && t + n <= |accepted| && tail == Slot(t) && tail + n <= 1024
    ensures buf[tail..tail + n] == accepted[t..t + n]
  {
    forall k | t <= k < t + n
      ensures buf[tail + (k - t)] == accepted[k]
    {
      SlotFacts(t, k - t);
    }
    hide Slot, Stored;
    var got := buf[tail..tail + n];
    assert forall k | t <= k < t + n :: got[k - t] == accepted[k];
  }

  lemma CopyInv(s: State)
    requires Inv(s)
    ensures Inv(Do(s, Copy))
  {
    if s.reader.Copying? {
      StoredSlice(s.buf, s.accepted, |s.delivered|, s.tail, s.reader.count);
      hide Slot, Stored, Cnt, Space;
    }
  }

  lemma AdvanceInv(s: State)
    requires Inv(s)
    ensures Inv(Do(s, Advance))
  {
    if s.reader.Advancing? {
      var t, n := |s.delivered|, |s.reader.got|;
      SlotFacts(t, n);
      hide Slot;
      assert s.accepted[..t] + s.accepted[t..t + n] == s.accepted[..t + n];
    }
  }

  lemma StepInv(s: State, step: Step)
    requires Inv(s)
    ensures Inv(Do(s, step))
  {
    match step
    case Store => StoreInv(s);
    case Bump => BumpInv(s);
    case Copy => CopyInv(s);
    case Advance => AdvanceInv(s);
    case Poll(_) => ReaderStepInv(s, step);
    case Limit => ReaderStepInv(s, step);
    case WrapTail => ReaderStepInv(s, step);
    case _ => ProducerStepInv(s, step);
  }

  // ------------------------------------------------------------------ every run

  function Execute(s: State, steps: seq<Step>): (r: State)
    requires |s.buf| == SIZE
    ensures |r.buf| == SIZE
  {
    if |steps| == 0 then s else Do(Execute(s, steps[..|steps| - 1]), steps[|steps| - 1])
  }

  /** In every interleaving the reader has got a prefix of the accepted bytes, at most 1023 behind. */
  lemma {:induction false} RunSafe(s: State, steps: seq<Step>)
    requires Init(s)
    ensures
      var r := Execute(s, steps);
      Inv(r) && |r.delivered| <= |r.accepted| <= |r.delivered| + 1023 && r.delivered == r.accepted[..|r.delivered|]
  {
    if |steps| == 0 {
      InitInv(s);
    } else {
      RunSafe(s, steps[..|steps| - 1]);
      StepInv(Execute(s, steps[..|steps| - 1]), steps[|steps| - 1]);
      hide Do, Init;
    }
  }

  /** Every step is a step of a queue of 1023 places, or leaves that queue alone. */
  lemma StepRefines(s: State, step: Step)
    requires Inv(s)
    ensures
      var r := Do(s, step);
      Inv(r) &&
      if step.Bump? && s.producer.Bumping? then
        |Fifo(s)| < 1023 && Fifo(r) == Fifo(s) + [s.producer.data]
      else if step.Advance? && s.reader.Advancing? then
        s.reader.got <= Fifo(s) && Fifo(r) == Fifo(s)[|s.reader.got|..]
      else Fifo(r) == Fifo(s)
  {
    hide Do, Slot, Stored;
    StepInv(s, step);
    LogsAfter(s, step);
    var t := |s.delivered|;
    if step.Bump? && s.producer.Bumping? {
      assert (s.accepted + [s.producer.data])[t..] == s.accepted[t..] + [s.producer.data];
    } else if step.Advance? && s.reader.Advancing? {
      var n := |s.reader.got|;
      assert s.accepted[t..][..n] == s.accepted[t..t + n] && s.accepted[t..][n..] == s.accepted[t + n..];
    }
  }

  lemma LogsAfter(s: State, step: Step)
    requires |s.buf| == SIZE
    ensures
      var r := Do(s, step);
      r.accepted == (if step.Bump? && s.producer.Bumping? then s.accepted + [s.producer.data] else s.accepted)
      && r.delivered == (if step.Advance? && s.reader.Advancing? then s.delivered + s.reader.got else s.delivered)
  {
    hide Cnt, Space, CntToEnd;
  }

  /** A byte is dropped exactly when the queue is full, and a read gets at least one byte it asks for. */
  lemma DecisionsExact(s: State)
    requires Inv(s)
    ensures s.producer.Checking? ==> (Do(s, Check).producer.Storing? <==> |Fifo(s)| < 1023)
    ensures s.reader == Outside ==> forall want :: Do(s, Poll(want)).reader.Limiting? <==> Fifo(s) != []
    ensures s.reader.Limiting? ==>
      Do(s, Limit).reader == Copying(Min(s.reader.want, Min(|Fifo(s)|, 1024 - s.tail)))
      && (s.reader.want > 0 ==> Do(s, Limit).reader.count > 0)
  {
    hide Slot, Cnt, Space, Stored;
    MacrosExact(s);
  }

  /** The store and the copy stay inside the buffer: their guards never hold them up. */
  lemma AccessesInRange(s: State)
    requires Inv(s)
    ensures s.producer.Storing? ==> s.head < SIZE && Do(s, Store).producer.Bumping?
    ensures s.reader.Copying? ==> s.tail + s.reader.count <= SIZE && Do(s, Copy).reader.Advancing?
  {
    hide Cnt, Space, Stored;
  }

  // ------------------------------------------------------------- one call as a run

  /** The statements of one call of handle_rx_char, and of one call of read; those that are not next do nothing. */
  function ReceiveSteps(data: byte): seq<Step> { [Receive(data)] + [Check] + [Store] + [Bump] + [WrapHead] }

  function ReadSteps(want: nat): seq<Step> { [Poll(want)] + [Limit] + [Copy] + [Advance] + [WrapTail] }

  lemma ExecuteNext(s: State, steps: seq<Step>, step: Step)
    requires |s.buf| == SIZE
    ensures Execute(s, steps + [step]) == Do(Execute(s, steps), step)
  {
    hide Do;
    assert (steps + [step])[..|steps|] == steps;
  }

  lemma ExecuteFive(s: State, a: Step, b: Step, c: Step, d: Step, e: Step)
    requires |s.buf| == SIZE
    ensures Execute(s, [a] + [b] + [c] + [d] + [e]) == Do(Do(Do(Do(Do(s, a), b), c), d), e)
  {
    assert Execute(s, []) == s;
    hide *;
    ExecuteNext(s, [], a);
    assert [] + [a] == [a];
    ExecuteNext(s, [a], b);
    ExecuteNext(s, [a] + [b], c);
    ExecuteNext(s, [a] + [b] + [c], d);
    ExecuteNext(s, [a] + [b] + [c] + [d], e);
  }

  lemma ReceiveRun(s: State, data: byte)
    requires |s.buf| == SIZE && s.head < SIZE && s.producer == Idle
    ensures Execute(s, ReceiveSteps(data)) ==
      if Space(s.head, s.tail, SIZE) == 0 then s
      else s.(buf := s.buf[s.head := data], head := if s.head + 1 >= SIZE then 0 else s.head + 1,
              accepted := s.accepted + [data])
  {
    hide Space, Execute;
    ExecuteFive(s, Receive(data), Check, Store, Bump, WrapHead);
  }

  lemma ReadRun(s: State, want: nat)
    requires |s.buf| == SIZE && s.tail < SIZE && s.head < SIZE && s.reader == Outside
    ensures
      var count := Min(want, CntToEnd(s.head, s.tail, SIZE));
      0 <= count && s.tail + count <= SIZE
      && Execute(s, ReadSteps(want)) ==
           s.(tail := if s.tail + count >= SIZE then s.tail + count - SIZE else s.tail + count,
              delivered := s.delivered + s.buf[s.tail..s.tail + count])
  {
    var count := Min(want, CntToEnd(s.head, s.tail, SIZE));
    Counts(SIZE, s.head, s.tail);
    if Cnt(s.head, s.tail, SIZE) == 0 {
      EmptyRun(s, want);
      assert s.buf[s.tail..s.tail + 0] == [];
      hide Execute, Do, Cnt;
      ExecuteFive(s, Poll(want), Limit, Copy, Advance, WrapTail);
    } else {
      var got := s.buf[s.tail..s.tail + count];
      CopyRun(s, want, count);
      hide *;
      FinishRun(s, got);
      ExecuteFive(s, Poll(want), Limit, Copy, Advance, WrapTail);
    }
  }

  lemma EmptyRun(s: State, want: nat)
    requires |s.buf| == SIZE && s.reader == Outside && Cnt(s.head, s.tail, SIZE) == 0
    ensures Do(Do(Do(Do(Do(s, Poll(want)), Limit), Copy), Advance), WrapTail) == s
  {
    hide Cnt, Space;
  }

  lemma CopyRun(s: State, want: nat, count: nat)
    requires |s.buf| == SIZE && s.tail < SIZE && s.reader == Outside && Cnt(s.head, s.tail, SIZE) != 0
    requires count == Min(want, CntToEnd(s.head, s.tail, SIZE)) && s.tail + count <= SIZE
    ensures Do(Do(Do(s, Poll(want)), Limit), Copy) == s.(reader := Advancing(s.buf[s.tail..s.tail + count]))
  {
    hide Cnt, Space;
    assert Do(s, Poll(want)) == s.(reader := Limiting(want));
    assert Do(s.(reader := Limiting(want)), Limit) == s.(reader := Copying(count));
  }

  lemma FinishRun(s: State, got: seq<byte>)
    requires |s.buf| == SIZE && s.tail < SIZE && s.tail + |got| <= SIZE && s.reader == Outside
    ensures Do(Do(s.(reader := Advancing(got)), Advance), WrapTail) ==
      s.(tail := if s.tail + |got| >= SIZE then s.tail + |got| - SIZE else s.tail + |got|,
          delivered := s.delivered + got)
  {
    hide Cnt, Space;
  }

  // ------------------------------------------------------------------ the object

  class RxRing {
    const buf: array<byte>
    var head: nat
    var tail: nat

    ghost predicate Valid()
      reads this
    {
      buf.Length == SIZE && head < SIZE && tail < SIZE
    }

    ghost function Queue(): (q: seq<byte>)
      reads this, buf
      requires Valid()
      ensures |q| < SIZE
    {
      Contents(buf[..], head, tail)
    }

    /** The object is the ring of a state in which no call is under way. */
    ghost predicate Shows(s: State)
      reads this, buf
    {
      s.buf == buf[..] && s.head == head && s.tail == tail && s.producer == Idle && s.reader == Outside
    }

    constructor ()
      ensures Valid() && Queue() == [] && fresh(buf)
    {
      buf := new byte[SIZE];
      head, tail := 0, 0;
    }

    method HandleRxChar(data: byte)
      requires Valid()
      modifies this`head, buf
      ensures Valid()
      ensures Queue() == if |old(Queue())| < 1023 then old(Queue()) + [data] else old(Queue())
      ensures forall s | old(Shows(s)) :: Shows(Execute(s, ReceiveSteps(data)))
    {
      ghost var from, h, t := buf[..], head, tail;
      OnePlaceWrite(from, head, tail, data);
      hide *;
      if Space(head, tail, 1024) != 0 {
        buf[head] := data;
        head := head + 1;
        if head >= 1024 {
          head := 0;
        }
      }
      forall s | old(Shows(s))
        ensures Shows(Execute(s, ReceiveSteps(data)))
      {
        assert s.buf == from && s.head == h && s.tail == t;
        ReceiveRun(s, data);
      }
    }

    /** One read that finds data: the part up to the end of the buffer at most. */
    method Read(user: array<byte>, limit: nat) returns (count: nat)
      requires Valid() && user != buf && limit <= user.Length
      modifies this`tail, user
      ensures count <= limit && count <= |old(Queue())| && (limit > 0 && old(Queue()) != [] ==> count > 0)
      ensures Valid() && Queue() == old(Queue())[count..]
      ensures user[..] == old(Queue())[..count] + old(user[count..])
      ensures forall s | old(Shows(s)) ::
        var r := Execute(s, ReadSteps(limit));
        Shows(r) && r.delivered == s.delivered + user[..count]
    {
      ghost var data, given, h, t := buf[..], user[..], head, tail;
      OnePieceRead(data, head, tail, limit);
      count := Min(limit, CntToEnd(head, tail, SIZE));
      ghost var got := data[tail..tail + count];
      forall s | old(Shows(s))
        ensures Reads(s, limit, got, if tail + count >= 1024 then tail + count - 1024 else tail + count)
      {
        ReadRun(s, limit);
      }
      hide *;
      CopyOut(user, tail, count, got);
      tail := tail + count;
      if tail >= 1024 {
        tail := tail - 1024;
      }
      assert user[..count] == got;
      forall s | old(Shows(s))
        ensures
          var r := Execute(s, ReadSteps(limit));
          Shows(r) && r.delivered == s.delivered + user[..count]
      {
        ReadsMeans(s, limit, got, tail);
      }
    }

    /** copy_to_user of count bytes from at on. */
    method CopyOut(user: array<byte>, at: nat, count: nat, ghost got: seq<byte>)
      requires user != buf && at + count <= buf.Length && count <= user.Length && got == buf[at..at + count]
      modifies user
      ensures user[..] == got + old(user[count..])
    {
      forall i | 0 <= i < count {
        user[i] := buf[at + i];
      }
    }
  }

  /** The run of a read call delivers the bytes and moves the tail, and nothing else of the ring. */
  predicate Reads(s: State, limit: nat, got: seq<byte>, tail: nat)
    requires |s.buf| == SIZE
  {
    var r := Execute(s, ReadSteps(limit));
    r.buf == s.buf && r.head == s.head && r.producer == s.producer && r.reader == s.reader
    && r.tail == tail && r.delivered == s.delivered + got
  }

  lemma ReadsMeans(s: State, limit: nat, got: seq<byte>, tail: nat)
    requires |s.buf| == SIZE && Reads(s, limit, got, tail)
    ensures
      var r := Execute(s, ReadSteps(limit));
      r.buf == s.buf && r.head == s.head && r.producer == s.producer && r.reader == s.reader
      && r.tail == tail && r.delivered == s.delivered + got
  {
    hide Execute, ReadSteps;
  }

  lemma OnePlaceWrite(s: seq<byte>, head: nat, tail: nat, data: byte)
    requires |s| == 1024 && head < 1024 && tail < 1024
    ensures Space(head, tail, 1024) != 0 <==> |Contents(s, head, tail)| < 1023
    ensures Space(head, tail, 1024) != 0 ==>
      Contents(s[head := data], if head + 1 >= 1024 then 0 else head + 1, tail) == Contents(s, head, tail) + [data]
  {
    Counts(1024, head, tail);
    assert |Contents(s, head, tail)| == Length(1024, head, tail);
    if Space(head, tail, 1024) != 0 {
      WriteIndices(1024, head, tail, 1);
      var first := Min(1, SpaceToEnd(head, tail, 1024));
      var next := (head + first) % 1024;
      var last := (next + (1 - first)) % 1024;
      assert TwoPieces(1024, head, 1, first, next, last);
      assert first == 1 && last == next == if head + 1 >= 1024 then 0 else head + 1;
      SpliceOne(s, head, data, next);
      hide *;
      TwoPieceWrite(s, head, tail, [data], first, next, last);
      assert [data][..1] == [data] && [data][1..] == [];
    }
  }

  lemma SpliceOne(s: seq<byte>, at: nat, data: byte, next: nat)
    requires at < |s| && next < |s|
    ensures Splice(Splice(s, at, [data]), next, []) == s[at := data]
  {}

  /** Reading up to the end of the buffer at most. */
  lemma OnePieceRead(data: seq<byte>, head: nat, tail: nat, limit: nat)
    requires |data| == SIZE == 1024 && head < SIZE && tail < SIZE
    ensures
      var queue := Contents(data, head, tail);
      var count := Min(limit, CntToEnd(head, tail, SIZE));
      0 <= count <= |queue| && tail + count <= 1024 && (limit > 0 && queue != [] ==> count > 0)
      && data[tail..tail + count] == queue[..count]
      && Contents(data, head, if tail + count >= 1024 then tail + count - 1024 else tail + count) == queue[count..]
  {
    Counts(SIZE, head, tail);
    var count := Min(limit, CntToEnd(head, tail, SIZE));
    ReadIndices(SIZE, head, tail, count);
    var next := (tail + count) % SIZE;
    TwoPieceRead(data, head, tail, count, count, next, next);
    assert data[next..next + 0] == [];
    hide Length, Place, Cnt, Contents;
  }
}
