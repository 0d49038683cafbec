/** Runs of the detection: the sender loop, statement by statement, beside the frame handler of the reader thread. */
module DetectorRuns {
  import opened Crc
  import opened Detector

  /** Where detectRadioModule stands; the first two loops are alike but for the reset of the type. */
  datatype Main =
    | Test(first: bool) | Reset
    | AskCommon(first: bool) | WaitCommon(first: bool) | AskSystem(first: bool) | WaitSystem(first: bool)
    | Switch | Act(read: DetectState) | Verify | WaitMain | Stopped

  /** Where handleFrame stands: outside, past the read of the state, or before it gives the semaphore. */
  datatype Handler = Quiet | Entered(f: Frame, read: DetectState) | Posting

  /** The detector, both program counters, the last state that the handler has set, and what has been counted. */
  datatype System = System(d: Detector, main: Main, handler: Handler, reached: DetectState, retry: nat,
                           takes: nat, retries: nat, refusals: nat, mainFrames: nat, mainSteps: nat)

  /** MainStep runs one statement of the sender, or takes the semaphore; Timeout ends a wait in vain.
      A frame arrives and has its state read, acts, and gives the semaphore. */
  datatype Step = MainStep | Timeout | FrameArrives(f: Frame) | HandlerActs | HandlerPosts

  predicate Init(s: System)
  {
    s.d.state == StartBl && s.d.sem == 0 && s.d.counter == 0 && s.d.sent == []
    && s.main == Test(true) && s.handler == Quiet && s.reached == StartBl && s.retry == 0
    && s.takes == 0 && s.retries == 0 && s.refusals == 0 && s.mainFrames == 0 && s.mainSteps == 0
  }

  function Ask(s: System, destination: bv8, command: bv8, next: Main): System
  {
    s.(d := Send(s.d, destination, command), mainFrames := s.mainFrames + 1, main := next)
  }

  function TakeSem(s: System, next: Main): System
    requires s.d.sem > 0
  {
    s.(d := s.d.(sem := s.d.sem - 1), takes := s.takes + 1, main := next)
  }

  /** A statement of the sender that can run. */
  predicate MainCanStep(s: System)
  {
    s.main != Stopped && (s.main.WaitCommon? || s.main.WaitSystem? || s.main.WaitMain? ==> s.d.sem > 0)
  }

  function MainEffect(s: System): System
    requires MainCanStep(s)
  {
    match s.main
    case Test(first) =>
      if s.d.state == (if first then StartBl else StartApp) && s.retry < 3 then
        s.(main := if first then Reset else AskCommon(first))
      else if first then s.(retry := 0, main := Test(false))
      else s.(main := Switch)
    case Reset => s.(d := s.d.(moduleType := MODULE_NONE), main := AskCommon(true))
    case AskCommon(first) => Ask(s, COMMON, 0x01, WaitCommon(first))
    case WaitCommon(first) => TakeSem(s, Test(first))
    case AskSystem(first) => Ask(s, HM_SYSTEM, 0x00, WaitSystem(first))
    case WaitSystem(first) => TakeSem(s, Test(first))
    case Switch => s.(main := Act(s.d.state))
    case Act(read) =>
      if read == StartBl || read == StartApp then s.(d := s.d.(state := Finished), main := Verify)
      else if read == Finished then s.(main := Verify)
      else Ask(s, Request(read).0, Request(read).1, Verify)
    case Verify => s.(main := if s.d.state == Finished then Stopped else WaitMain)
    case WaitMain => TakeSem(s, Switch)
  }

  function Do(s: System, step: Step): System
  {
    match step
    case MainStep =>
      if !MainCanStep(s) then s else
        var r := MainEffect(s);
        r.(mainSteps := s.mainSteps + 1)
    case Timeout =>
      if s.d.sem > 0 then s else
        (match s.main
         case WaitCommon(first) => s.(main := AskSystem(first), mainSteps := s.mainSteps + 1)
         case WaitSystem(first) =>
           s.(retry := s.retry + 1, retries := s.retries + 1, main := Test(first), mainSteps := s.mainSteps + 1)
         case WaitMain => s.(main := Stopped, mainSteps := s.mainSteps + 1)
         case _ => s)
    case FrameArrives(f) =>
      if s.main == Stopped || s.handler != Quiet then s else s.(handler := Entered(f, s.d.state))
    case HandlerActs =>
      if !s.handler.Entered? then s else HandlerEffect(s)
    case HandlerPosts =>
      if s.handler != Posting then s else s.(d := s.d.(sem := s.d.sem + 1), handler := Quiet)
  }

  /** What the handler does to the detector, by the state that it has read. */
  function HandlerEffect(s: System): System
    requires s.handler.Entered?
  {
    var read := s.handler.read;
    var d := s.d.(state := read);
    var e := Handle(d, s.handler.f);
    var state := if e.state != read then e.state else s.d.state;
    s.(d := e.(state := state, sem := s.d.sem),
       handler := if e.sem != d.sem then Posting else Quiet,
       reached := if e.state != read then e.state else s.reached,
       refusals := s.refusals + if Refusal(d, s.handler.f) then 1 else 0)
  }

  /** The frames that this turn of a loop has sent, and the statements it has run. */
  function TurnFrames(m: Main): nat
  {
    match m
    case WaitCommon(_) => 1
    case AskSystem(_) => 1
    case WaitSystem(_) => 2
    case Verify => 1
    case WaitMain => 1
    case Stopped => 1
    case _ => 0
  }

  function TurnSteps(m: Main): nat
  {
    match m
    case Test(first) => if first then 0 else 1
    case Reset => 1
    case AskCommon(_) => 2
    case WaitCommon(_) => 3
    case AskSystem(_) => 4
    case WaitSystem(_) => 5
    case Switch => 2
    case Act(_) => 3
    case Verify => 4
    case WaitMain => 5
    case Stopped => 6
  }

  /** Which loop a turn belongs to: 1, 2, or 3 for the last one. */
  function LoopOf(m: Main): nat
  {
    match m
    case Test(first) => if first then 1 else 2
    case Reset => 1
    case AskCommon(first) => if first then 1 else 2
    case WaitCommon(first) => if first then 1 else 2
    case AskSystem(first) => if first then 1 else 2
    case WaitSystem(first) => if first then 1 else 2
    case _ => 3
  }

  predicate RetryInv(s: System)
  {
    var loop := LoopOf(s.main);
    s.retry <= 3 && (loop < 3 && !s.main.Test? ==> s.retry < 3)
    && s.retries <= (if loop == 1 then s.retry else 3 + s.retry)
  }

  predicate CountInv(s: System)
  {
    s.d.sem + s.takes + (if s.handler == Posting then 1 else 0) <= Depth(s.reached) + s.refusals
    && s.mainFrames <= 2 * (s.takes + s.retries) + TurnFrames(s.main)
    && s.mainSteps <= 6 * (s.takes + s.retries) + TurnSteps(s.main)
  }

  predicate CounterInv(d: Detector)
  {
    d.counter == |d.sent| && forall i | 0 <= i < |d.sent| :: d.sent[i].counter == i
  }

  /** The state is the last one that the handler set, unless the sender gave up. */
  predicate StateInv(s: System)
  {
    (s.d.state == s.reached || s.d.state == Finished)
    && (s.handler.Entered? ==> s.handler.read == s.reached || s.handler.read == Finished)
  }

  /** The address is usable where the handler got to, and once it has finished. */
  predicate AddressInv(s: System)
  {
    MacInv(s.d.(state := s.reached)) && (s.reached == Finished && Derives(s.d) ==> Usable(s.d.bidCosMac))
  }

  predicate Inv(s: System)
  {
    RetryInv(s) && CountInv(s) && CounterInv(s.d) && StateInv(s) && AddressInv(s)
  }

  lemma InitInv(s: System)
    requires Init(s)
    ensures Inv(s)
  {}

  lemma MainStepCounts(s: System)
    requires RetryInv(s) && CountInv(s)
    ensures RetryInv(Do(s, MainStep)) && CountInv(Do(s, MainStep))
  {
    hide Request, Depth;
  }

  lemma MainStepState(s: System)
    requires StateInv(s)
    ensures StateInv(Do(s, MainStep))
  {
    var r := Do(s, MainStep);
    assert r.reached == s.reached && r.handler == s.handler && (r.d.state == s.d.state || r.d.state == Finished) by {
      hide Request;
    }
    hide Do;
  }

  /** The sender only ever clears the type and overwrites the state. */
  lemma MainStepAddress(s: System)
    requires AddressInv(s)
    ensures AddressInv(Do(s, MainStep))
  {
    var d, e := s.d, Do(s, MainStep).d;
    assert Do(s, MainStep).reached == s.reached;
    assert e.bidCosMac == d.bidCosMac && e.firmware == d.firmware
      && (e.moduleType == d.moduleType || e.moduleType == MODULE_NONE) by
    {
      hide Request;
    }
    hide Do, Usable;
  }

  lemma MainStepCounters(s: System)
    requires CounterInv(s.d)
    ensures CounterInv(Do(s, MainStep).d)
  {
    hide Request;
  }

  lemma MainStepInv(s: System)
    requires Inv(s)
    ensures Inv(Do(s, MainStep))
  {
    hide Do, RetryInv, CountInv, StateInv, AddressInv, CounterInv;
    MainStepCounts(s);
    MainStepState(s);
    MainStepAddress(s);
    MainStepCounters(s);
  }

  lemma TimeoutInv(s: System)
    requires Inv(s)
    ensures Inv(Do(s, Timeout))
  {
    hide Usable, Depth;
  }

  lemma HandleCounters(d: Detector, f: Frame)
    requires CounterInv(d)
    ensures CounterInv(Handle(d, f))
  {
    hide Identifies, Acks, Mac, DerivedMac, Usable;
  }

  /** Nothing is handled any more once the state read is the final one. */
  lemma FinishedIgnores(d: Detector, f: Frame)
    requires d.state == Finished
    ensures Handle(d, f) == d && !Refusal(d, f)
  {}

  lemma ActsInv(s: System)
    requires Inv(s)
    ensures Inv(Do(s, HandlerActs))
  {
    if s.handler.Entered? {
      var d, f := s.d.(state := s.handler.read), s.handler.f;
      HandleCounters(d, f);
      if s.handler.read == s.reached {
        HandleRaises(d, f);
        HandleKeepsMac(d, f);
      } else {
        FinishedIgnores(d, f);
      }
      hide Handle, Usable, Refusal, Depth, Code, CounterInv, RetryInv, TurnFrames, TurnSteps;
    }
  }

  lemma HandlerStepInv(s: System, step: Step)
    requires Inv(s) && (step.FrameArrives? || step.HandlerPosts?)
    ensures Inv(Do(s, step))
  {
    hide Usable, Depth, TurnFrames, TurnSteps;
  }

  lemma StepInv(s: System, step: Step)
    requires Inv(s)
    ensures Inv(Do(s, step))
  {
    hide Do, Inv;
    match step
    case MainStep => MainStepInv(s);
    case Timeout => TimeoutInv(s);
    case HandlerActs => ActsInv(s);
    case _ => HandlerStepInv(s, step);
  }

  /** The number of the state falls exactly when the sender gave up while a frame was handled that leads on. */
  lemma StateFalls(s: System, step: Step)
    requires Inv(s)
    ensures Code(Do(s, step).d.state) < Code(s.d.state) <==>
      step == HandlerActs && s.handler.Entered? && s.handler.read != s.d.state
      && var r := Handle(s.d.(state := s.handler.read), s.handler.f).state;
         r != s.handler.read && r != Finished
  {
    if step == HandlerActs && s.handler.Entered? {
      HandleRaises(s.d.(state := s.handler.read), s.handler.f);
      FinishedIgnores(s.d.(state := Finished), s.handler.f);
      hide Handle, Refusal, Depth;
    } else {
      hide Handle, Refusal, Request;
    }
  }

  // -------------------------------------------------------------------------- every run

  function Execute(s: System, steps: seq<Step>): System
  {
    if |steps| == 0 then s else Do(Execute(s, steps[..|steps| - 1]), steps[|steps| - 1])
  }

  lemma {:induction false} RunInv(s: System, steps: seq<Step>)
    requires Init(s)
    ensures Inv(Execute(s, steps))
  {
    if |steps| == 0 {
      InitInv(s);
    } else {
      RunInv(s, steps[..|steps| - 1]);
      StepInv(Execute(s, steps[..|steps| - 1]), steps[|steps| - 1]);
      hide Do, Inv;
    }
  }

  /** In every run the sender makes a bounded number of steps and sends a bounded number of frames, but for refusals. */
  lemma DetectionBounded(s: System, steps: seq<Step>)
    requires Init(s)
    ensures
      var r := Execute(s, steps);
      r.mainFrames <= 29 + 2 * r.refusals && r.mainSteps <= 90 + 6 * r.refusals
  {
    hide Execute, CounterInv, StateInv, AddressInv;
    RunInv(s, steps);
  }

  /** The sender is never stuck: it can step, or time out, or has stopped. */
  lemma SenderProceeds(s: System)
    ensures s.main == Stopped || Do(s, MainStep).mainSteps > s.mainSteps || Do(s, Timeout).mainSteps > s.mainSteps
  {}

  /** When the handler has finished the detection of a module with a derived address, that address is usable. */
  lemma FinishedMacUsable(s: System, steps: seq<Step>)
    requires Init(s)
    ensures
      var r := Execute(s, steps);
      r.reached == Finished ==> r.d.state == Finished && (Derives(r.d) ==> Usable(r.d.bidCosMac))
  {
    hide Execute, RetryInv, CountInv, CounterInv, Usable;
    RunInv(s, steps);
  }

  // ---------------------------------------------------------------------- particular runs

  lemma {:induction false} ExecuteConcat(s: System, one: seq<Step>, two: seq<Step>)
    ensures Execute(s, one + two) == Execute(Execute(s, one), two)
  {
    hide Do;
    if |two| == 0 {
      assert one + two == one;
    } else {
      var n := |two| - 1;
      ExecuteConcat(s, one, two[..n]);
      assert (one + two)[..|one| + n] == one + two[..n];
    }
  }

  /** One more step at the end of a run. */
  lemma Then(s: System, steps: seq<Step>, step: Step) returns (more: seq<Step>)
    ensures more == steps + [step] && Execute(s, more) == Do(Execute(s, steps), step)
  {
    hide Do;
    more := steps + [step];
    assert more[..|steps|] == steps;
  }

  /** A frame that arrives, acts and posts without the sender in between. */
  function Handled(s: System, f: Frame): System
  {
    var e := Handle(s.d, f);
    s.(d := e, reached := if e.state != s.d.state then e.state else s.reached,
       refusals := s.refusals + if Refusal(s.d, f) then 1 else 0)
  }

  lemma ThenFrame(s: System, steps: seq<Step>, f: Frame) returns (more: seq<Step>)
    requires var r := Execute(s, steps); r.main != Stopped && r.handler == Quiet
    ensures Execute(s, more) == Handled(Execute(s, steps), f)
  {
    hide Execute, Handle, Refusal, Code, Depth;
    var r := Execute(s, steps);
    HandleRaises(r.d, f);
    var one := Then(s, steps, FrameArrives(f));
    var two := Then(s, one, HandlerActs);
    more := Then(s, two, HandlerPosts);
  }

  /** The sender waits in the last loop for the answer to an address request, which a module of another type refuses. */
  predicate AtRefusal(s: System)
  {
    s.main == WaitMain && s.d.state == s.reached == GetBidCosRfAddress && s.d.moduleType == RPI_PCB
        && s.handler == Quiet
  }

  /** The sender takes the semaphore and comes round to the same wait. */
  lemma ComeRound(s: System, steps: seq<Step>) returns (more: seq<Step>)
    requires var r := Execute(s, steps); AtRefusal(r) && r.d.sem > 0
    ensures
      var r, t := Execute(s, steps), Execute(s, more);
      AtRefusal(t) && t.d.sem == r.d.sem - 1 && t.mainFrames == r.mainFrames + 1 && t.refusals == r.refusals
  {
    hide Execute;
    var one := Then(s, steps, MainStep);
    var two := Then(s, one, MainStep);
    var three := Then(s, two, MainStep);
    more := Then(s, three, MainStep);
  }

  lemma {:induction false} ComeRoundAll(s: System, steps: seq<Step>) returns (more: seq<Step>)
    requires AtRefusal(Execute(s, steps))
    ensures
      var r, t := Execute(s, steps), Execute(s, more);
      AtRefusal(t) && t.d.sem == 0 && t.refusals == r.refusals && t.mainFrames >= r.mainFrames
    decreases Execute(s, steps).d.sem
  {
    hide Execute, AtRefusal;
    more := steps;
    if Execute(s, steps).d.sem > 0 {
      var one := ComeRound(s, steps);
      more := ComeRoundAll(s, one);
    }
  }

  /** The frames that lead a module of the type RPI-PCB, in the boot loader, to the address request. */
  function Hello(text: Bytes): Frame { Frame(COMMON, 0, 0, text) }

  function Ack(destination: bv8, command: bv8, data: Bytes): Frame { Frame(destination, 0, command, data) }

  lemma LoaderAnswers(d: Detector)
    requires d.state == StartBl
    ensures Handle(d, Hello(TRX_BOOTLOADER)) == Post(d.(moduleType := MODULE_UNKNOWN), StartApp)
  {}

  lemma AppAnswers(d: Detector)
    requires d.state == StartApp
    ensures Handle(d, Hello(DUAL_APP)) == Post(d, GetMcuType)
  {}

  lemma AnswersInOrder(d: Detector)
    requires d.state == GetMcuType
    ensures
      var e := Handle(d, Ack(TRX, TRX_ACK, [1, RPI_PCB]));
      var g := Handle(e, Ack(TRX, TRX_ACK, [1, 0, 0, 0, 0, 0, 0, 0, 0, 0]));
      var h := Handle(g, Ack(HMIP, HMIP_ACK, [1, 0, 0, 0]));
      var i := Handle(h, Ack(COMMON, COMMON_ACK, [1, 0, 0, 0, 0, 0, 0, 0, 0, 0, 0, 0, 0]));
      e.state == GetVersion && g.state == GetHmIpRfAddress && h.state == GetSgtin && i.state == GetBidCosRfAddress
      && i.moduleType == RPI_PCB
  {
    hide Mac, DerivedMac, Usable, Identifies;
  }

  /** From the start the sender can come to a wait that a refusal ends. */
  lemma RefusalReachable(s: System) returns (steps: seq<Step>)
    requires Init(s)
    ensures var r := Execute(s, steps); AtRefusal(r) && r.d.sem == 0
  {
    assert Execute(s, []) == s;
    LoaderAnswers(s.d);
    var d1 := Handle(s.d, Hello(TRX_BOOTLOADER));
    AppAnswers(d1);
    AnswersInOrder(Handle(d1, Hello(DUAL_APP)));
    hide Execute, Handle, Refusal, Do, Init;
    var a := ThenFrame(s, [], Hello(TRX_BOOTLOADER));
    var b := ThenFrame(s, a, Hello(DUAL_APP));
    var c := ThenFrame(s, b, Ack(TRX, TRX_ACK, [1, RPI_PCB]));
    var e := ThenFrame(s, c, Ack(TRX, TRX_ACK, [1, 0, 0, 0, 0, 0, 0, 0, 0, 0]));
    var f := ThenFrame(s, e, Ack(HMIP, HMIP_ACK, [1, 0, 0, 0]));
    var g := ThenFrame(s, f, Ack(COMMON, COMMON_ACK, [1, 0, 0, 0, 0, 0, 0, 0, 0, 0, 0, 0, 0]));
    var h := EnterMainLoop(s, g);
    steps := ComeRoundAll(s, h);
  }

  lemma EnterMainLoop(s: System, steps: seq<Step>) returns (more: seq<Step>)
    requires
      var r := Execute(s, steps);
      r.main == Test(true) && r.d.state == r.reached == GetBidCosRfAddress && r.d.moduleType == RPI_PCB
          && r.handler == Quiet
    ensures AtRefusal(Execute(s, more))
  {
    hide Execute;
    var a := Then(s, steps, MainStep);
    var b := Then(s, a, MainStep);
    more := AskOnce(s, b);
  }

  lemma AskOnce(s: System, steps: seq<Step>) returns (more: seq<Step>)
    requires
      var r := Execute(s, steps);
      r.main == Switch && r.d.state == r.reached == GetBidCosRfAddress
      && r.d.moduleType == RPI_PCB && r.handler == Quiet
    ensures AtRefusal(Execute(s, more))
  {
    hide Execute;
    var a := Then(s, steps, MainStep);
    var b := Then(s, a, MainStep);
    more := Then(s, b, MainStep);
  }

  lemma RefusalHandled(d: Detector)
    requires d.state == GetBidCosRfAddress && d.moduleType == RPI_PCB
    ensures var f := Ack(LLMAC, LLMAC_ACK, [0]); Refusal(d, f) && Handle(d, f) == d.(sem := d.sem + 1)
  {
    hide Mac, Usable;
  }

  /** The refusals in the bounds are needed: a run can have any number of them, and a frame of the sender for each. */
  lemma {:induction false} RefusalsUnbounded(s: System, n: nat) returns (steps: seq<Step>)
    requires Init(s)
    ensures
      var r := Execute(s, steps);
      AtRefusal(r) && r.d.sem == 0 && r.refusals >= n && r.mainFrames >= n
    decreases n
  {
    if n == 0 {
      steps := RefusalReachable(s);
    } else {
      var before := RefusalsUnbounded(s, n - 1);
      RefusalHandled(Execute(s, before).d);
      hide Execute, Handle, Refusal;
      var woken := ThenFrame(s, before, Ack(LLMAC, LLMAC_ACK, [0]));
      steps := ComeRound(s, woken);
    }
  }

  /** The sender asks twice and waits twice in vain. */
  lemma AskInVain(s: System, steps: seq<Step>) returns (more: seq<Step>)
    requires
      var r := Execute(s, steps);
      r.main == Test(false) && r.d.state == StartApp && r.d.sem == 0 && r.retry < 3
    ensures
      var r, t := Execute(s, steps), Execute(s, more);
      t.main == Test(false) && t.d.state == StartApp && t.d.sem == 0 && t.retry == r.retry + 1
      && t.handler == r.handler && t.reached == r.reached
  {
    hide Execute;
    var a := Then(s, steps, MainStep);
    var b := Then(s, a, MainStep);
    assert SameAsk(Execute(s, steps), Execute(s, b)) && Execute(s, b).main == WaitCommon(false);
    more := WaitTwice(s, steps, b);
  }

  predicate SameAsk(r: System, t: System)
  {
    t.d.state == r.d.state && t.d.sem == r.d.sem && t.retry == r.retry
    && t.handler == r.handler && t.reached == r.reached
  }

  lemma WaitTwice(s: System, steps: seq<Step>, b: seq<Step>) returns (more: seq<Step>)
    requires
      var r, t := Execute(s, steps), Execute(s, b);
      SameAsk(r, t) && t.main == WaitCommon(false) && t.d.sem == 0
    ensures
      var r, t := Execute(s, steps), Execute(s, more);
      SameAsk(r, t.(retry := r.retry)) && t.main == Test(false) && t.retry == r.retry + 1
  {
    hide Execute;
    var c := Then(s, b, Timeout);
    var d := Then(s, c, MainStep);
    more := Then(s, d, Timeout);
  }

  /** So the number of the state does fall in some run: the sender gives up while the answer it waits for is handled. */
  lemma StateCanFall(s: System) returns (steps: seq<Step>)
    requires Init(s)
    ensures
      var r := Execute(s, steps);
      r.d.state == Finished && Do(r, HandlerActs).d.state == GetMcuType
  {
    assert Execute(s, []) == s;
    LoaderAnswers(s.d);
    hide Execute, Handle, Refusal, Do;
    var a := ThenFrame(s, [], Hello(TRX_BOOTLOADER));
    var e := AskAndTake(s, a);
    var f := AskInVain(s, e);
    var g := AskInVain(s, f);
    var h := AskInVain(s, g);
    steps := GiveUpLate(s, h);
  }

  lemma AskAndTake(s: System, steps: seq<Step>) returns (more: seq<Step>)
    requires
      var r := Execute(s, steps);
      r.main == Test(true) && r.d.state == StartApp && r.d.sem == 1
    ensures
      var r, t := Execute(s, steps), Execute(s, more);
      t.main == Test(false) && t.d.state == StartApp && t.d.sem == 0 && t.retry == 0
      && t.handler == r.handler && t.reached == r.reached
  {
    hide Execute;
    var a := Then(s, steps, MainStep);
    var b := Then(s, a, MainStep);
    var c := Then(s, b, MainStep);
    more := Then(s, c, MainStep);
  }

  lemma GiveUpLate(s: System, steps: seq<Step>) returns (more: seq<Step>)
    requires
      var r := Execute(s, steps);
      r.main == Test(false) && r.d.state == r.reached == StartApp && r.retry == 3 && r.handler == Quiet
    ensures
      var r := Execute(s, more);
      r.d.state == Finished && Do(r, HandlerActs).d.state == GetMcuType
  {
    hide Execute;
    var a := Then(s, steps, MainStep);
    var b := Then(s, a, MainStep);
    var c := Then(s, b, FrameArrives(Hello(DUAL_APP)));
    more := Then(s, c, MainStep);
    var r := Execute(s, more);
    AppAnswers(r.d.(state := StartApp));
    hide Handle;
  }
}
