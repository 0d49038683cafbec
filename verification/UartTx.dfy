/** The transmitter of the raw UART: writers compete by priority for one sender. */
module UartTx {
  import opened Words
  import opened Option
  import opened Circ

  const BUFFER_SIZE: nat := 4096

  // -------------------------------------------------------------- the state of a run

  /** A write call on a connection: none, waiting for the sender, or the k-th acquisition. */
  datatype Phase = Idle | Waiting | Sending(k: nat)

  datatype Conn = Conn(priority: int, data: seq<byte>, index: nat, phase: Phase)

  /** One acquisition of the sender: by whom, with what, whether from idle, how far it came, what write returned. */
  datatype Acquired = Acquired(conn: nat, data: seq<byte>, priority: int, fromIdle: bool, sent: nat,
      result: Option<nat>)

  datatype State = State(conns: seq<Conn>, sender: Option<nat>, wire: seq<byte>, countTx: nat, log: seq<Acquired>)

  /** The atomic sections; n is how many bytes the driver was ready for. */
  datatype Step =
    | SetPriority(c: nat, priority: int)
    | Begin(c: nat, data: seq<byte>)
    | Acquire(c: nat, n: nat)
    | TxQueued(n: nat)
    | Finish(c: nat)

  predicate Init(s: State)
  {
    (forall c | 0 <= c < |s.conns| :: s.conns[c].phase == Idle && s.conns[c].data == [] && s.conns[c].index == 0)
    && s.sender == None && s.wire == [] && s.countTx == 0 && s.log == []
  }

  function SetConn(s: State, c: nat, conn: Conn): State
    requires c < |s.conns|
  {
    s.(conns := s.conns[c := conn])
  }

  /** Send n bytes of the sender, and free it when its buffer is empty. */
  function Transfer(s: State, n: nat): State
  {
    if s.sender == None || s.sender.value >= |s.conns| || |s.log| == 0 then s else
      var c := s.sender.value;
      var conn := s.conns[c];
      if conn.index > |conn.data| || n > |conn.data| - conn.index then s else
        var k := |s.log| - 1;
        s.(conns := s.conns[c := conn.(index := conn.index + n)],
           wire := s.wire + conn.data[conn.index..conn.index + n],
           countTx := s.countTx + n,
           log := s.log[k := s.log[k].(sent := s.log[k].sent + n)],
           sender := if conn.index + n >= |conn.data| then None else s.sender)
  }

  /** The sender may be taken when it is idle or serves a strictly lower priority. */
  predicate MayTake(s: State, c: nat)
    requires c < |s.conns|
  {
    s.sender == None
    || (s.sender.value < |s.conns| && s.conns[s.sender.value].priority < s.conns[c].priority)
  }

  function Take(s: State, c: nat): State
    requires c < |s.conns|
  {
    var conn := s.conns[c];
    s.(conns := s.conns[c := conn.(phase := Sending(|s.log|))],
       sender := Some(c),
       log := s.log + [Acquired(c, conn.data, conn.priority, s.sender == None, 0, None)])
  }

  /** One atomic section; one that is not possible leaves the state as it is. */
  function Do(s: State, step: Step): State
  {
    match step
    case SetPriority(c, priority) =>
      if c >= |s.conns| || s.conns[c].phase != Idle then s else SetConn(s, c, s.conns[c].(priority := priority))
    case Begin(c, data) =>
      if c >= |s.conns| || s.conns[c].phase != Idle || |data| > BUFFER_SIZE then s
      else SetConn(s, c, s.conns[c].(data := data, index := 0, phase := Waiting))
    case Acquire(c, n) =>
      if c >= |s.conns| || s.conns[c].phase != Waiting || !MayTake(s, c) then s
      else if s.sender == None then Transfer(Take(s, c), n)
      else Take(s, c)
    case TxQueued(n) => Transfer(s, n)
    case Finish(c) =>
      if c >= |s.conns| || !s.conns[c].phase.Sending? || s.sender == Some(c) || s.conns[c].phase.k >= |s.log| then s
      else
        var k := s.conns[c].phase.k;
        s.(conns := s.conns[c := s.conns[c].(phase := Idle)],
           log := s.log[k := s.log[k].(result := Some(s.conns[c].index))])
  }

  // -------------------------------------------------------------------- invariant

  /** The bytes that went out: of each acquisition, in order, the part that was sent. */
  function Prefixes(log: seq<Acquired>): seq<byte>
    requires forall i | 0 <= i < |log| :: log[i].sent <= |log[i].data|
  {
    if |log| == 0 then [] else
      var a := log[|log| - 1];
      Prefixes(log[..|log| - 1]) + a.data[..a.sent]
  }

  predicate Done(a: Acquired)
  {
    a.sent == |a.data|
  }

  /** An acquisition and the next: either the first was done, or it lost to a strictly higher priority. */
  predicate Follows(a: Acquired, b: Acquired)
  {
    if b.fromIdle then Done(a) else a.priority < b.priority
  }

  predicate LogInv(log: seq<Acquired>)
  {
    (forall i | 0 <= i < |log| :: log[i].sent <= |log[i].data|)
    && (forall i | 0 <= i < |log| - 1 :: Follows(log[i], log[i + 1]))
    && (forall i | 0 <= i < |log| :: log[i].result.Some? ==> log[i].result.value == log[i].sent)
  }

  /** The acquisition k is the running write of its connection. */
  predicate Running(s: State, k: nat)
    requires k < |s.log|
  {
    var a := s.log[k];
    a.conn < |s.conns| && s.conns[a.conn].phase == Sending(k)
  }

  predicate ConnInv(s: State, c: nat)
    requires c < |s.conns|
  {
    var conn := s.conns[c];
    |conn.data| <= BUFFER_SIZE && conn.index <= |conn.data|
    && (conn.phase == Waiting ==> conn.index == 0)
    && (conn.phase.Sending? ==>
          var k := conn.phase.k;
          k < |s.log| && s.log[k].conn == c && s.log[k].result == None
          && s.log[k].data == conn.data && s.log[k].sent == conn.index && s.log[k].priority == conn.priority)
  }

  predicate SenderInv(s: State)
  {
    if s.sender == None then |s.log| > 0 ==> Done(s.log[|s.log| - 1])
    else |s.log| > 0 && s.sender.value < |s.conns| && s.conns[s.sender.value].phase == Sending(|s.log| - 1)
  }

  predicate Inv(s: State)
  {
    LogInv(s.log) && s.wire == Prefixes(s.log) && s.countTx == |s.wire|
    && (forall c | 0 <= c < |s.conns| :: ConnInv(s, c))
    && (forall k | 0 <= k < |s.log| :: s.log[k].result == None ==> Running(s, k))
    && SenderInv(s)
  }

  lemma {:induction false} PrefixesAppend(log: seq<Acquired>, a: Acquired)
    requires (forall i | 0 <= i < |log| :: log[i].sent <= |log[i].data|) && a.sent == 0
    ensures Prefixes(log + [a]) == Prefixes(log)
  {
    assert (log + [a])[..|log|] == log;
  }

  /** What the last acquisition sends is appended to the wire. */
  lemma PrefixesGrow(log: seq<Acquired>, n: nat)
    requires |log| > 0 && (forall i | 0 <= i < |log| :: log[i].sent <= |log[i].data|)
    requires log[|log| - 1].sent + n <= |log[|log| - 1].data|
    ensures
      var k := |log| - 1;
      var a := log[k];
      Prefixes(log[k := a.(sent := a.sent + n)]) == Prefixes(log) + a.data[a.sent..a.sent + n]
  {
    var k := |log| - 1;
    var a := log[k];
    var b := a.(sent := a.sent + n);
    assert log[k := b][..k] == log[..k];
    assert a.data[..a.sent + n] == a.data[..a.sent] + a.data[a.sent..a.sent + n];
  }

  /** Only the sent parts matter. */
  lemma {:induction false} PrefixesResult(log: seq<Acquired>, k: nat, result: Option<nat>)
    requires k < |log| && forall i | 0 <= i < |log| :: log[i].sent <= |log[i].data|
    ensures Prefixes(log[k := log[k].(result := result)]) == Prefixes(log)
  {
    var n := |log| - 1;
    var other := log[k := log[k].(result := result)];
    if k < n {
      PrefixesResult(log[..n], k, result);
      assert other[..n] == log[..n][k := log[k].(result := result)];
    } else {
      assert other[..n] == log[..n];
    }
  }

  /** The sender and its acquisition. */
  lemma SenderFacts(s: State)
    requires Inv(s) && s.sender.Some?
    ensures
      var k := |s.log| - 1;
      0 <= k && s.sender.value < |s.conns|
      && var conn := s.conns[s.sender.value];
         conn.phase == Sending(k) && conn.index <= |conn.data| <= BUFFER_SIZE
         && s.log[k].conn == s.sender.value && s.log[k].result == None && s.log[k].data == conn.data
         && s.log[k].sent == conn.index && s.log[k].priority == conn.priority
  {
    assert ConnInv(s, s.sender.value);
    hide Prefixes, LogInv, Running;
  }

  lemma LogSends(log: seq<Acquired>, n: nat)
    requires LogInv(log) && |log| > 0 && log[|log| - 1].result == None
    requires log[|log| - 1].sent + n <= |log[|log| - 1].data|
    ensures LogInv(log[|log| - 1 := log[|log| - 1].(sent := log[|log| - 1].sent + n)])
  {}

  lemma ConnsSend(s: State, r: State, c: nat, k: nat, n: nat)
    requires c < |s.conns| && k < |s.log| && s.conns[c].phase == Sending(k) && s.log[k].conn == c
    requires s.conns[c].index + n <= |s.conns[c].data|
    requires r.conns == s.conns[c := s.conns[c].(index := s.conns[c].index + n)]
    requires r.log == s.log[k := s.log[k].(sent := s.log[k].sent + n)]
    requires forall d | 0 <= d < |s.conns| :: ConnInv(s, d)
    requires forall j | 0 <= j < |s.log| :: s.log[j].result == None ==> Running(s, j)
    ensures forall d | 0 <= d < |r.conns| :: ConnInv(r, d)
    ensures forall j | 0 <= j < |r.log| :: r.log[j].result == None ==> Running(r, j)
  {
    forall d | 0 <= d < |r.conns| ensures ConnInv(r, d) {
      assert ConnInv(s, d);
    }
    forall j | 0 <= j < |r.log| && r.log[j].result == None ensures Running(r, j) {
      assert Running(s, j);
    }
  }

  lemma TransferInv(s: State, n: nat)
    requires Inv(s)
    ensures Inv(Transfer(s, n))
  {
    var r := Transfer(s, n);
    if r != s {
      var c := s.sender.value;
      var k := |s.log| - 1;
      SenderFacts(s);
      LogSends(s.log, n);
      PrefixesGrow(s.log, n);
      ConnsSend(s, r, c, k, n);
      hide Prefixes, LogInv, ConnInv, Running;
    }
  }

  lemma LogTakes(log: seq<Acquired>, a: Acquired)
    requires LogInv(log) && a.sent == 0 && a.result == None
    requires |log| > 0 ==> Follows(log[|log| - 1], a)
    ensures LogInv(log + [a])
  {}

  lemma ConnsTake(s: State, r: State, c: nat)
    requires c < |s.conns| && s.conns[c].phase == Waiting
    requires r.conns == s.conns[c := s.conns[c].(phase := Sending(|s.log|))]
    requires |r.log| == |s.log| + 1 && r.log[..|s.log|] == s.log
    requires var a, conn := r.log[|s.log|], s.conns[c];
      a.conn == c && a.result == None && a.data == conn.data && a.sent == conn.index == 0 && a.priority == conn.priority
    requires forall d | 0 <= d < |s.conns| :: ConnInv(s, d)
    requires forall j | 0 <= j < |s.log| :: s.log[j].result == None ==> Running(s, j)
    ensures forall d | 0 <= d < |r.conns| :: ConnInv(r, d)
    ensures forall j | 0 <= j < |r.log| :: r.log[j].result == None ==> Running(r, j)
  {
    var k := |s.log|;
    assert forall j | 0 <= j < k :: r.log[j] == s.log[j] by {
      assert forall j | 0 <= j < k :: r.log[..k][j] == r.log[j];
    }
    forall d | 0 <= d < |r.conns| ensures ConnInv(r, d) {
      assert ConnInv(s, d);
    }
    forall j | 0 <= j < |r.log| && r.log[j].result == None ensures Running(r, j) {
      assert j < k ==> Running(s, j);
    }
  }

  lemma TakeInv(s: State, c: nat)
    requires Inv(s) && c < |s.conns| && s.conns[c].phase == Waiting && MayTake(s, c)
    ensures Inv(Take(s, c))
  {
    var r := Take(s, c);
    var k := |s.log|;
    assert ConnInv(s, c);
    if s.sender.Some? {
      SenderFacts(s);
    }
    LogTakes(s.log, r.log[k]);
    PrefixesAppend(s.log, r.log[k]);
    ConnsTake(s, r, c);
    hide Prefixes, LogInv, ConnInv, Running;
  }

  lemma LogReturns(log: seq<Acquired>, k: nat)
    requires LogInv(log) && k < |log|
    ensures LogInv(log[k := log[k].(result := Some(log[k].sent))])
  {}

  lemma ConnsFinish(s: State, r: State, c: nat, k: nat, n: nat)
    requires c < |s.conns| && k < |s.log| && s.conns[c].phase == Sending(k) && s.log[k].conn == c
    requires r.conns == s.conns[c := s.conns[c].(phase := Idle)] && r.log == s.log[k := s.log[k].(result := Some(n))]
    requires forall d | 0 <= d < |s.conns| :: ConnInv(s, d)
    requires forall j | 0 <= j < |s.log| :: s.log[j].result == None ==> Running(s, j)
    ensures forall d | 0 <= d < |r.conns| :: ConnInv(r, d)
    ensures forall j | 0 <= j < |r.log| :: r.log[j].result == None ==> Running(r, j)
  {
    forall d | 0 <= d < |r.conns| ensures ConnInv(r, d) {
      assert ConnInv(s, d);
    }
    forall j | 0 <= j < |r.log| && r.log[j].result == None ensures Running(r, j) {
      assert Running(s, j);
    }
  }

  lemma FinishInv(s: State, c: nat)
    requires Inv(s)
    ensures Inv(Do(s, Finish(c)))
  {
    var r := Do(s, Finish(c));
    if r != s {
      var k := s.conns[c].phase.k;
      assert ConnInv(s, c);
      LogReturns(s.log, k);
      PrefixesResult(s.log, k, Some(s.conns[c].index));
      ConnsFinish(s, r, c, k, s.conns[c].index);
      hide Prefixes, LogInv, Running;
    }
  }

  lemma IdleStepInv(s: State, step: Step)
    requires Inv(s) && (step.SetPriority? || step.Begin?)
    ensures Inv(Do(s, step))
  {
    hide Prefixes;
    var r := Do(s, step);
    forall d | 0 <= d < |r.conns| ensures ConnInv(r, d) {
      assert ConnInv(s, d);
    }
    forall j | 0 <= j < |r.log| && r.log[j].result == None ensures Running(r, j) {
      assert Running(s, j);
    }
  }

  lemma StepInv(s: State, step: Step)
    requires Inv(s)
    ensures Inv(Do(s, step))
  {
    hide Inv, Take, Transfer, MayTake;
    match step
    case SetPriority(_, _) => IdleStepInv(s, step);
    case Begin(_, _) => IdleStepInv(s, step);
    case Acquire(c, n) =>
      if c < |s.conns| && s.conns[c].phase == Waiting && MayTake(s, c) {
        TakeInv(s, c);
        TransferInv(Take(s, c), n);
      }
    case TxQueued(n) => TransferInv(s, n);
    case Finish(c) => FinishInv(s, c);
  }

  lemma InitInv(s: State)
    requires Init(s)
    ensures Inv(s)
  {}

  // ------------------------------------------------------------------- every run

  function Execute(s: State, steps: seq<Step>): State
  {
    if |steps| == 0 then s else Do(Execute(s, steps[..|steps| - 1]), steps[|steps| - 1])
  }

  /** In every interleaving the wire carries one prefix of each write, in the order of acquisition. */
  lemma {:induction false} RunSafe(s: State, steps: seq<Step>)
    requires Init(s)
    ensures
      var r := Execute(s, steps);
      Inv(r) && r.wire == Prefixes(r.log) && r.countTx == |r.wire|
  {
    if |steps| == 0 {
      InitInv(s);
    } else {
      RunSafe(s, steps[..|steps| - 1]);
      StepInv(Execute(s, steps[..|steps| - 1]), steps[|steps| - 1]);
      hide Do, Init;
    }
  }

  /** The bytes of the last write that connection c was given: count bytes or fewer, while no other one was running. */
  function Given(s: State, steps: seq<Step>, c: nat): Option<seq<byte>>
  {
    if |steps| == 0 then None else
      var n := |steps| - 1;
      var before := Execute(s, steps[..n]);
      if steps[n].Begin? && steps[n].c == c < |before.conns| && before.conns[c].phase == Idle && |steps[n].data| <= 4096
      then Some(steps[n].data)
      else Given(s, steps[..n], c)
  }

  /** Step m made the acquisition k, for the bytes that its connection was given last. */
  ghost predicate Stems(s: State, steps: seq<Step>, k: nat, m: nat)
    requires k < |Execute(s, steps).log|
  {
    var a := Execute(s, steps).log[k];
    m < |steps| && steps[m].Acquire? && steps[m].c == a.conn && |Execute(s, steps[..m]).log| == k
    && Given(s, steps[..m], a.conn) == Some(a.data)
  }

  /** A connection that is writing holds the bytes it was given. */
  ghost predicate Holds(s: State, given: Option<seq<byte>>, c: nat)
  {
    c < |s.conns| && s.conns[c].phase != Idle ==> given == Some(s.conns[c].data)
  }

  /** What a step does to the bytes of a connection, and to the log. */
  lemma StepData(s: State, step: Step, c: nat)
    ensures
      var r := Do(s, step);
      |r.conns| == |s.conns| && |s.log| <= |r.log| <= |s.log| + 1
      && (forall k | 0 <= k < |s.log| :: r.log[k].data == s.log[k].data && r.log[k].conn == s.log[k].conn)
      && (|r.log| > |s.log| ==>
        (step.Acquire? && step.c < |s.conns| && s.conns[step.c].phase == Waiting
         && r.log[|s.log|].conn == step.c && r.log[|s.log|].data == s.conns[step.c].data))
      && (c < |s.conns| && r.conns[c].phase != Idle ==>
        (if step.Begin? && step.c == c && s.conns[c].phase == Idle && |step.data| <= 4096
         then r.conns[c].data == step.data
         else s.conns[c].phase != Idle && r.conns[c].data == s.conns[c].data))
  {}

  lemma {:induction false} RunHolds(s: State, steps: seq<Step>, c: nat)
    requires Init(s)
    ensures Holds(Execute(s, steps), Given(s, steps, c), c)
  {
    if |steps| > 0 {
      var n := |steps| - 1;
      RunHolds(s, steps[..n], c);
      StepData(Execute(s, steps[..n]), steps[n], c);
      hide Do, Init;
    }
  }

  /** In every run each acquisition sends the bytes that its connection was given by its last write. */
  lemma {:induction false} SendsGiven(s: State, steps: seq<Step>, k: nat) returns (m: nat)
    requires Init(s) && k < |Execute(s, steps).log|
    ensures Stems(s, steps, k, m)
  {
    assert |steps| > 0;
    var n := |steps| - 1;
    var front := steps[..n];
    var before := Execute(s, front);
    StepData(before, steps[n], 0);
    hide Do, Init;
    if k < |before.log| {
      m := SendsGiven(s, front, k);
      assert steps[..m] == front[..m];
    } else {
      m := n;
      RunHolds(s, front, steps[n].c);
    }
  }

  /** A write returns what it sent; it returns less than it was given only when a strictly higher priority came next. */
  lemma ReturnedCounts(s: State, k: nat)
    requires Inv(s) && k < |s.log| && s.log[k].result.Some?
    ensures s.log[k].result.value == s.log[k].sent <= |s.log[k].data|
    ensures s.log[k].sent < |s.log[k].data| ==>
      k + 1 < |s.log| && !s.log[k + 1].fromIdle && s.log[k].priority < s.log[k + 1].priority
  {
    hide Prefixes;
    assert s.sender.Some? ==> ConnInv(s, s.sender.value);
    if k + 1 < |s.log| {
      assert Follows(s.log[k], s.log[k + 1]);
    }
  }

  /** While the sender stays busy each takeover raises the priority. */
  lemma {:induction false} PriorityRises(s: State, i: nat, j: nat)
    requires Inv(s) && i < j < |s.log|
    requires forall m | i < m <= j :: !s.log[m].fromIdle
    ensures s.log[i].priority < s.log[j].priority
    decreases j - i
  {
    assert Follows(s.log[j - 1], s.log[j]);
    if i < j - 1 {
      PriorityRises(s, i, j - 1);
    }
  }

  /** The sum of the counts that finished writes returned. */
  function Returned(log: seq<Acquired>): nat
  {
    if |log| == 0 then 0 else
      var a := log[|log| - 1];
      Returned(log[..|log| - 1]) + if a.result.Some? then a.result.value else 0
  }

  /** The sum of the buffer indices of the writes that have not returned. */
  function InFlight(log: seq<Acquired>, conns: seq<Conn>): nat
  {
    if |log| == 0 then 0 else
      var a := log[|log| - 1];
      InFlight(log[..|log| - 1], conns) + if a.result == None && a.conn < |conns| then conns[a.conn].index else 0
  }

  lemma CountTxSplits(s: State)
    requires Inv(s)
    ensures s.countTx == Returned(s.log) + InFlight(s.log, s.conns)
  {
    CountSplits(s, |s.log|);
    assert s.log[..|s.log|] == s.log;
  }

  lemma {:induction false} CountSplits(s: State, m: nat)
    requires Inv(s) && m <= |s.log|
    ensures |Prefixes(s.log[..m])| == Returned(s.log[..m]) + InFlight(s.log[..m], s.conns)
  {
    if m > 0 {
      CountSplits(s, m - 1);
      assert s.log[..m][..m - 1] == s.log[..m - 1];
      var a := s.log[m - 1];
      if a.result == None {
        assert Running(s, m - 1) && ConnInv(s, a.conn);
      }
    }
  }

  /** What is on the wire stays, and what a write has returned stays. */
  lemma StepKeeps(s: State, step: Step)
    requires Inv(s)
    ensures
      var r := Do(s, step);
      s.wire <= r.wire && |s.log| <= |r.log|
      && forall k | 0 <= k < |s.log| && s.log[k].result.Some? :: r.log[k] == s.log[k]
  {
    assert forall c | 0 <= c < |s.conns| && s.conns[c].phase.Sending? :: ConnInv(s, c);
    assert s.sender.Some? ==> ConnInv(s, s.sender.value);
    hide Prefixes;
  }

  // ------------------------------------------------------------------- the objects

  /** How many bytes one pass of the transmit loop moves, given the answers of the driver about readiness. */
  function Moved(remaining: nat, done: nat, chunk: nat, bulk: nat, ready: seq<bool>): (n: nat)
    requires bulk > 0
    ensures n <= remaining
    decreases remaining, |ready|
  {
    if done < chunk && |ready| > 0 && ready[0] && remaining > 0 then
      var b := Min(bulk, remaining);
      b + Moved(remaining - b, done + b, chunk, bulk, ready[1..])
    else 0
  }

  lemma MovedStep(remaining: nat, done: nat, chunk: nat, bulk: nat, ready: seq<bool>)
    requires bulk > 0 && done < chunk && |ready| > 0 && ready[0] && remaining > 0
    ensures
      var b := Min(bulk, remaining);
      0 < b <= remaining
      && Moved(remaining, done, chunk, bulk, ready) == b + Moved(remaining - b, done + b, chunk, bulk, ready[1..])
  {}

  lemma MovedEnd(remaining: nat, done: nat, chunk: nat, bulk: nat, ready: seq<bool>)
    requires bulk > 0 && !(done < chunk && |ready| > 0 && ready[0] && remaining > 0)
    ensures Moved(remaining, done, chunk, bulk, ready) == 0
  {}

  /** A pass moves everything when the driver stays ready and the chunk is large enough. */
  lemma {:induction false} MovedAll(remaining: nat, done: nat, chunk: nat, bulk: nat, ready: seq<bool>)
    requires bulk > 0 && done + remaining <= chunk && remaining <= |ready|
    requires forall i | 0 <= i < remaining :: ready[i]
    ensures Moved(remaining, done, chunk, bulk, ready) == remaining
    decreases remaining
  {
    if remaining > 0 {
      var b := Min(bulk, remaining);
      MovedAll(remaining - b, done + b, chunk, bulk, ready[1..]);
    }
  }

  /** A pass hands over whole bulks while the driver is ready, the chunk not full and bytes are left. */
  lemma {:induction false} MovedBulks(remaining: nat, done: nat, chunk: nat, bulk: nat, ready: seq<bool>)
      returns (j: nat)
    requires bulk > 0
    ensures
      var n := Moved(remaining, done, chunk, bulk, ready);
      j <= |ready| && (forall i | 0 <= i < j :: ready[i]) && n == Min(remaining, j * bulk)
      && (j > 0 ==> done + (j - 1) * bulk < chunk && (j - 1) * bulk < remaining)
      && (n == remaining || done + n >= chunk || j == |ready| || !ready[j])
    decreases |ready|
  {
    if done < chunk && |ready| > 0 && ready[0] && remaining > 0 {
      var b := Min(bulk, remaining);
      var i := MovedBulks(remaining - b, done + b, chunk, bulk, ready[1..]);
      j := i + 1;
      assert j * bulk == i * bulk + bulk && (i > 0 ==> (i - 1) * bulk == i * bulk - bulk);
      assert i == 0 ==> i * bulk == 0;
    } else {
      j := 0;
    }
  }

  /** The driver was given the bytes of data from first up to index, after what it had before. */
  ghost predicate SentSoFar(wire: seq<byte>, sent: seq<byte>, data: seq<byte>, first: nat, index: nat)
  {
    first <= index <= |data| && wire == sent + data[first..index]
  }

  lemma SentNothing(wire: seq<byte>, data: seq<byte>, first: nat)
    requires first <= |data|
    ensures SentSoFar(wire, wire, data, first, first)
  {
    assert data[first..first] == [];
  }

  lemma SentMeans(wire: seq<byte>, sent: seq<byte>, data: seq<byte>, first: nat, index: nat)
    requires SentSoFar(wire, sent, data, first, index)
    ensures first <= index <= |data| && wire == sent + data[first..index]
  {}

  class Connection {
    var priority: int
    const txbuf: array<byte>
    var txBufIndex: nat
    var txBufLength: nat

    ghost predicate Valid()
      reads this
    {
      txbuf.Length == BUFFER_SIZE && txBufIndex <= txBufLength <= BUFFER_SIZE
    }

    ghost function Data(): (d: seq<byte>)
      reads this, txbuf
      requires Valid()
      ensures |d| == txBufLength
    {
      txbuf[..txBufLength]
    }

    constructor ()
      ensures Valid() && fresh(txbuf) && txBufLength == 0 && priority == 0
    {
      txbuf := new byte[BUFFER_SIZE];
      priority, txBufIndex, txBufLength := 0, 0, 0;
    }

    /** The ioctl that sets the priority. */
    method SetPriority(p: int)
      requires Valid()
      modifies this`priority
      ensures Valid() && priority == p && Data() == old(Data())
    {
      priority := p;
    }

    /** The start of write: take the bytes of the caller, or refuse them. */
    method BeginWrite(user: array<byte>, count: nat) returns (ok: bool)
      requires Valid() && count <= user.Length && user != txbuf
      modifies this, txbuf
      ensures Valid() && ok == (count <= BUFFER_SIZE) && priority == old(priority)
      ensures ok ==> Data() == user[..count] && txBufIndex == 0
      ensures !ok ==> Data() == old(Data()) && txBufIndex == old(txBufIndex)
    {
      if count > BUFFER_SIZE {
        return false;
      }
      forall i | 0 <= i < count {
        txbuf[i] := user[i];
      }
      txBufIndex := 0;
      txBufLength := count;
      ok := true;
    }
  }

  class Instance {
    var txConnection: Connection?
    var countTx: nat
    const txChunkSize: nat
    const txBulktransferSize: nat
    /** What the driver was given to send. */
    var wire: seq<byte>

    ghost predicate Valid()
      reads this, txConnection
    {
      txBulktransferSize > 0 && (txConnection != null ==> txConnection.Valid())
    }

    constructor (chunk: nat, bulk: nat)
      requires bulk > 0
      ensures Valid() && txConnection == null && countTx == 0 && wire == []
    {
      txConnection, countTx, wire := null, 0, [];
      txChunkSize, txBulktransferSize := chunk, bulk;
    }

    method TxQueuedUnlocked(ready: seq<bool>)
      requires Valid()
      modifies this, txConnection
      ensures Valid()
      ensures old(txConnection) == null ==>
        txConnection == null && wire == old(wire) && countTx == old(countTx)
      ensures old(txConnection) != null ==>
        var conn := old(txConnection);
        var first := old(txConnection.txBufIndex);
        var n := Moved(old(txConnection.txBufLength) - first, 0, txChunkSize, txBulktransferSize, ready);
        conn.Valid() && conn.txBufLength == old(txConnection.txBufLength)
        && conn.priority == old(txConnection.priority)
        && conn.txBufIndex == first + n
        && wire == old(wire) + conn.Data()[first..first + n]
        && countTx == old(countTx) + n
        && txConnection == if first + n >= conn.txBufLength then null else conn
    {
      if txConnection != null {
        Transmit(ready);
        if txConnection.txBufIndex >= txConnection.txBufLength {
          txConnection := null;
        }
      }
    }

    /** The transmit loop, which does not change the sender. */
    method Transmit(ready: seq<bool>)
      requires Valid() && txConnection != null
      modifies this`wire, this`countTx, txConnection`txBufIndex
      ensures Valid()
      ensures
        var conn := txConnection;
        var first := old(txConnection.txBufIndex);
        var n := Moved(conn.txBufLength - first, 0, txChunkSize, txBulktransferSize, ready);
        conn.txBufIndex == first + n && wire == old(wire) + conn.Data()[first..first + n]
        && countTx == old(countTx) + n
    {
      hide Moved, Min, Connection.Data, SentSoFar;
      var txCount: nat := 0;
      var answers := ready;
      ghost var data, first, sent, count := txConnection.Data(), txConnection.txBufIndex, wire, countTx;
      ghost var all := Moved(|data| - first, 0, txChunkSize, txBulktransferSize, ready);
      SentNothing(wire, data, first);
      while txCount < txChunkSize && |answers| > 0 && answers[0]
        && txConnection.txBufIndex < txConnection.txBufLength
        invariant Valid() && txConnection.Data() == data
        invariant txConnection.txBufIndex <= txConnection.txBufLength == |data|
        invariant first <= txConnection.txBufIndex && countTx == count + (txConnection.txBufIndex - first)
        invariant SentSoFar(wire, sent, data, first, txConnection.txBufIndex)
        invariant all == txConnection.txBufIndex - first
          + Moved(|data| - txConnection.txBufIndex, txCount, txChunkSize, txBulktransferSize, answers)
        decreases |answers|
      {
        ghost var index, left, before := txConnection.txBufIndex, |data| - txConnection.txBufIndex, answers;
        answers := answers[1..];
        var bulksize := Min(txBulktransferSize, txConnection.txBufLength - txConnection.txBufIndex);
        MovedStep(left, txCount, txChunkSize, txBulktransferSize, before);
        TxChars(bulksize, data, first, sent);
        txCount := txCount + bulksize;
        assert txConnection.txBufIndex == index + bulksize && |data| - txConnection.txBufIndex == left - bulksize;
      }
      MovedEnd(|data| - txConnection.txBufIndex, txCount, txChunkSize, txBulktransferSize, answers);
      SentMeans(wire, sent, data, first, txConnection.txBufIndex);
    }

    /** Hand the next bytes of the sender to the driver and count them. */
    method TxChars(bulksize: nat, ghost data: seq<byte>, ghost first: nat, ghost sent: seq<byte>)
      requires Valid() && txConnection != null && txConnection.Data() == data
      requires first <= txConnection.txBufIndex
      requires txConnection.txBufIndex + bulksize <= txConnection.txBufLength
      requires SentSoFar(wire, sent, data, first, txConnection.txBufIndex)
      modifies this`wire, this`countTx, txConnection`txBufIndex
      ensures Valid() && txConnection.txBufIndex == old(txConnection.txBufIndex) + bulksize
      ensures countTx == old(countTx) + bulksize && txConnection.Data() == data
      ensures SentSoFar(wire, sent, data, first, txConnection.txBufIndex)
    {
      var index := txConnection.txBufIndex;
      wire := wire + txConnection.txbuf[index..index + bulksize];
      txConnection.txBufIndex := index + bulksize;
      countTx := countTx + bulksize;
      assert txConnection.txbuf[index..index + bulksize] == data[index..index + bulksize];
      assert data[first..index + bulksize] == data[first..index] + data[index..index + bulksize];
    }

    method AcquireSender(conn: Connection, ready: seq<bool>) returns (ret: bool)
      requires Valid() && conn.Valid() && conn.txBufIndex == 0
      modifies this, conn
      ensures Valid() && conn.Valid()
      ensures ret <==> old(txConnection) == null || old(txConnection.priority) < old(conn.priority)
      ensures conn.txBufLength == old(conn.txBufLength) && conn.priority == old(conn.priority)
      ensures !ret ==>
        txConnection == old(txConnection) && wire == old(wire) && countTx == old(countTx) && conn.txBufIndex == 0
      ensures ret && old(txConnection) != null ==>
        txConnection == conn && conn.txBufIndex == 0 && wire == old(wire) && countTx == old(countTx)
      ensures ret && old(txConnection) == null ==>
        var n := Moved(conn.txBufLength, 0, txChunkSize, txBulktransferSize, ready);
        conn.txBufIndex == n && wire == old(wire) + conn.Data()[..n] && countTx == old(countTx) + n
        && txConnection == if n >= conn.txBufLength then null else conn
    {
      ret := false;
      var senderIdle := txConnection == null;
      if senderIdle || txConnection.priority < conn.priority {
        txConnection := conn;
        ret := true;
        if senderIdle {
          TxQueuedUnlocked(ready);
        }
      }
    }

    method SendCompleted(conn: Connection) returns (ret: bool)
      ensures ret <==> txConnection != conn
    {
      ret := txConnection != conn;
    }
  }

  // -------------------------------------------------------------- the calls as steps

  /** A connection of the run is the object, its phase apart. */
  ghost predicate Same(conn: Conn, o: Connection)
    reads o, o.txbuf
  {
    o.Valid() && conn.priority == o.priority && conn.data == o.Data() && conn.index == o.txBufIndex
  }

  ghost predicate Apart(cs: seq<Connection>)
  {
    forall i, j | 0 <= i < j < |cs| :: cs[i] != cs[j] && cs[i].txbuf != cs[j].txbuf
  }

  /** The objects are in the state of the run. */
  ghost predicate Shows(inst: Instance, cs: seq<Connection>, s: State)
    reads inst, cs, set c | c in cs :: c.txbuf
  {
    Apart(cs) && |cs| == |s.conns| && (forall i | 0 <= i < |cs| :: Same(s.conns[i], cs[i]))
    && s.wire == inst.wire && s.countTx == inst.countTx
    && match s.sender
       case None => inst.txConnection == null
       case Some(c) => c < |cs| && inst.txConnection == cs[c] && |s.log| > 0
  }

  /** The start of a write is one step, and is accepted exactly for at most 4096 bytes. */
  method BeginIsStep(inst: Instance, conn: Connection, c: nat, user: array<byte>, count: nat, ghost cs: seq<Connection>,
                     ghost s: State)
    returns (ok: bool)
    requires inst.Valid() && Shows(inst, cs, s) && c < |cs| && cs[c] == conn
    requires s.conns[c].phase == Idle
    requires count <= user.Length && forall d | d in cs :: user != d.txbuf
    modifies conn, conn.txbuf
    ensures inst.Valid() && Shows(inst, cs, Do(s, Begin(c, user[..count])))
    ensures ok <==> count <= 4096
    ensures ok <==> Do(s, Begin(c, user[..count])).conns[c].phase == Waiting
  {
    assert Same(s.conns[c], conn);
    ghost var r := Do(s, Begin(c, user[..count]));
    ok := conn.BeginWrite(user, count);
    forall i | 0 <= i < |cs|
      ensures Same(r.conns[i], cs[i])
    {
      assert i != c ==> Same(s.conns[i], cs[i]);
    }
  }

  /** So is a change of the priority between two writes. */
  method PriorityIsStep(inst: Instance, conn: Connection, c: nat, p: int, ghost cs: seq<Connection>, ghost s: State)
    requires inst.Valid() && Shows(inst, cs, s) && c < |cs| && cs[c] == conn && s.conns[c].phase == Idle
    modifies conn`priority
    ensures inst.Valid() && Shows(inst, cs, Do(s, SetPriority(c, p)))
  {
    assert Same(s.conns[c], conn);
    ghost var r := Do(s, SetPriority(c, p));
    conn.SetPriority(p);
    forall i | 0 <= i < |cs|
      ensures Same(r.conns[i], cs[i])
    {
      assert i != c ==> Same(s.conns[i], cs[i]);
    }
  }

  /** One pass of the transmit loop is one step of the run. */
  method PassIsStep(inst: Instance, ready: seq<bool>, ghost cs: seq<Connection>, ghost s: State) returns (ghost n: nat)
    requires inst.Valid() && Shows(inst, cs, s)
    modifies inst, inst.txConnection
    ensures inst.Valid() && Shows(inst, cs, Do(s, TxQueued(n)))
  {
    n := 0;
    ghost var sender := inst.txConnection;
    if sender != null {
      n := Moved(sender.txBufLength - sender.txBufIndex, 0, inst.txChunkSize, inst.txBulktransferSize, ready);
      assert Same(s.conns[s.sender.value], sender);
    }
    hide Moved;
    inst.TxQueuedUnlocked(ready);
    ghost var r := Do(s, TxQueued(n));
    forall i | 0 <= i < |cs|
      ensures Same(r.conns[i], cs[i])
    {
      assert Same(s.conns[i], cs[i]) || cs[i] == sender;
    }
  }

  /** One try for the sender is one step, and succeeds exactly when the step takes it. */
  method AcquireIsStep(inst: Instance, conn: Connection, c: nat, ready: seq<bool>, ghost cs: seq<Connection>,
      ghost s: State)
    returns (ret: bool, ghost n: nat)
    requires inst.Valid() && Shows(inst, cs, s) && c < |cs| && cs[c] == conn
    requires s.conns[c].phase == Waiting && s.conns[c].index == 0
    modifies inst, conn
    ensures inst.Valid() && Shows(inst, cs, Do(s, Acquire(c, n)))
    ensures ret <==> Do(s, Acquire(c, n)).conns[c].phase != Waiting
  {
    assert Same(s.conns[c], conn);
    ghost var sender := inst.txConnection;
    if s.sender.Some? {
      assert Same(s.conns[s.sender.value], sender);
    }
    n := Moved(conn.txBufLength, 0, inst.txChunkSize, inst.txBulktransferSize, ready);
    hide Moved;
    ret := inst.AcquireSender(conn, ready);
    ghost var r := Do(s, Acquire(c, n));
    forall i | 0 <= i < |cs|
      ensures Same(r.conns[i], cs[i])
    {
      assert Same(s.conns[i], cs[i]) || cs[i] == conn;
    }
  }

  /** A write goes on to return exactly when its step to the end is possible. */
  method CompletedIsStep(inst: Instance, conn: Connection, c: nat, ghost cs: seq<Connection>, ghost s: State)
    returns (ret: bool)
    requires Shows(inst, cs, s) && c < |cs| && cs[c] == conn
    requires s.conns[c].phase.Sending? && s.conns[c].phase.k < |s.log|
    ensures ret <==> Do(s, Finish(c)).conns[c].phase == Idle
    ensures ret ==> Do(s, Finish(c)).log[s.conns[c].phase.k].result == Some(conn.txBufIndex)
    ensures Shows(inst, cs, Do(s, Finish(c)))
  {
    ret := inst.SendCompleted(conn);
    assert Same(s.conns[c], conn);
    ghost var r := Do(s, Finish(c));
    forall i | 0 <= i < |cs|
      ensures Same(r.conns[i], cs[i])
    {
      assert Same(s.conns[i], cs[i]);
    }
  }
}
