/** Radio modules that answer, and what the detection makes of them. */
module Devices {
  import opened Crc
  import opened Codec
  import opened Detector
  import opened DetectorRuns

  // ---------------------------------------------------------------------- what a device is

  /** A radio module: its kind, the name of its application, and what it tells when it is asked. */
  datatype Device = Device(legacy: bool, kind: bv8, name: Bytes, version: Version, hmIp: nat, bidCos: nat,
                           sgtin: Bytes, serial: Bytes, other: Other)

  /** Six bytes of no interest here. */
  type Other = b: Bytes | |b| == 6 witness [0, 0, 0, 0, 0, 0]

  datatype Mode = Loader | App

  /** A text as bytes. */
  predicate Spells(b: Bytes, s: string)
  {
    |b| == |s| && forall i | 0 <= i < |s| :: b[i] as int == s[i] as int
  }

  lemma SpellsOnce(b: Bytes, c: Bytes, s: string)
    requires Spells(b, s) && Spells(c, s)
    ensures b == c
  {
    forall i | 0 <= i < |b|
      ensures b[i] == c[i]
    {
      assert (b[i] as int) as bv8 == b[i] && (c[i] as int) as bv8 == c[i];
    }
  }

  /** What the two kinds of loaders call themselves. */
  function LoaderName(legacy: bool): (b: Bytes)
    ensures Spells(b, if legacy then "Co_CPU_BL" else "HMIP_TRX_Bl")
  {
    if legacy then [0x43, 0x6f, 0x5f, 0x43, 0x50, 0x55, 0x5f, 0x42, 0x4c]
    else [0x48, 0x4d, 0x49, 0x50, 0x5f, 0x54, 0x52, 0x58, 0x5f, 0x42, 0x6c]
  }

  /** The three bytes of an address, uppermost first. */
  function AddressBytes(n: nat): (a: Bytes)
    ensures |a| == 3
  {
    [((n / 65536) % 256) as bv8, ((n / 256) % 256) as bv8, (n % 256) as bv8]
  }

  predicate Proper(dev: Device)
  {
    dev.hmIp < 0x100_0000 && dev.bidCos < 0x100_0000
    && |dev.sgtin| == 12 && |dev.serial| == 10
    && if dev.legacy then Spells(dev.name, "Co_CPU_App")
       else Spells(dev.name, "DualCoPro_App") || Spells(dev.name, "HMIP_TRX_App")
  }

  /** A request with its destination, its command and its counter, and the frame that answers it. */
  function Answer(dev: Device, mode: Mode, destination: bv8, command: bv8, counter: bv8): seq<Frame>
  {
    if !dev.legacy && destination == 0xfe && command == 0x01 then
      [Frame(0xfe, counter, 0x05, [1] + if mode == Loader then LoaderName(false) else dev.name)]
    else if dev.legacy && destination == 0x00 && command == 0x00 then
      [Frame(0x00, counter, 0x04, [2] + if mode == Loader then LoaderName(true) else dev.name)]
    else if mode == Loader then []
    else if dev.legacy then
      if destination == 0x00 && command == 0x02 then
        [Frame(0x00, counter, 0x04, [2] + dev.other[..3] + dev.version)]
      else if destination == 0x01 && command == 0x10 then
        [Frame(0x01, counter, 0x04, dev.other[..3] + AddressBytes(dev.bidCos))]
      else if destination == 0x00 && command == 0x0b then [Frame(0x00, counter, 0x04, [2] + dev.serial)]
      else []
    else
      if destination == 0x01 && command == 0x09 then [Frame(0x01, counter, 0x04, [1, dev.kind])]
      else if destination == 0x01 && command == 0x02 then
        [Frame(0x01, counter, 0x04, [1] + dev.version + dev.other)]
      else if destination == 0x02 && command == 0x01 then
        [Frame(0x02, counter, 0x06, [1] + AddressBytes(dev.hmIp))]
      else if destination == 0xfe && command == 0x04 then [Frame(0xfe, counter, 0x05, [1] + dev.sgtin)]
      else if destination == 0x03 && command == 0x08 then
        [Frame(0x03, counter, 0x01, [1] + AddressBytes(dev.bidCos))]
      else if destination == 0x03 && command == 0x07 then [Frame(0x03, counter, 0x01, [1] + dev.serial)]
      else []
  }

  /** The commands that start the application or the loader, and the name that the device then sends unasked. */
  predicate Switches(dev: Device, mode: Mode, destination: bv8, command: bv8)
  {
    if dev.legacy then destination == 0x00 && command == 0x03
    else destination == 0xfe && command == if mode == Loader then 0x03 else 0x02
  }

  function Toggled(mode: Mode): Mode
  {
    if mode == Loader then App else Loader
  }

  function Hello(dev: Device, mode: Mode): Frame
  {
    Frame(if dev.legacy then 0x00 else 0xfe, 0, 0x00, if mode == Loader then LoaderName(dev.legacy) else dev.name)
  }

  // ------------------------------------------------------------- the two of them together

  /** The detection, the device, how many requests it has heard, and what it has sent that has not arrived. */
  datatype World = World(s: System, mode: Mode, heard: nat, air: seq<Frame>)

  /** The device takes the next request that was sent. */
  function Hear(dev: Device, w: World): World
  {
    if w.heard >= |w.s.d.sent| then w else
      var r := w.s.d.sent[w.heard];
      if Switches(dev, w.mode, r.destination, r.command) then
        w.(mode := Toggled(w.mode), heard := w.heard + 1, air := w.air + [Hello(dev, Toggled(w.mode))])
      else
        w.(heard := w.heard + 1, air := w.air + Answer(dev, w.mode, r.destination, r.command, Low8(r.counter)))
  }

  /** What happens next: the handler goes on, a frame arrives, the sender goes on, or a wait ends in vain. */
  function Next(w: World): Step
  {
    if w.s.handler.Entered? then HandlerActs
    else if w.s.handler.Posting? then HandlerPosts
    else if |w.air| > 0 then FrameArrives(w.air[0])
    else if MainCanStep(w.s) then MainStep
    else Timeout
  }

  function Tick(dev: Device, w: World): World
  {
    var air := if Next(w).FrameArrives? then w.air[1..] else w.air;
    Hear(dev, w.(s := Do(w.s, Next(w)), air := air))
  }

  function Ticks(dev: Device, w: World, n: nat): World
    decreases n
  {
    if n == 0 then w else Ticks(dev, Tick(dev, w), n - 1)
  }

  lemma {:induction false} TicksAdd(dev: Device, w: World, m: nat, n: nat)
    ensures Ticks(dev, w, m + n) == Ticks(dev, Ticks(dev, w, m), n)
    decreases m
  {
    hide Tick;
    if m > 0 {
      TicksAdd(dev, Tick(dev, w), m - 1, n);
    }
  }

  /** Everything is quiet: nothing on the air, nothing unheard, no semaphore. */
  predicate Calm(w: World)
  {
    w.s.handler == Quiet && w.air == [] && w.heard == |w.s.d.sent| && w.s.d.sem == 0
  }

  /** The detector after it has sent a request. */
  function Asking(d: Detector, state: DetectState): Detector
  {
    Send(d, Request(state).0, Request(state).1)
  }

  /** The sender takes one statement that sends nothing. */
  lemma SenderTick(dev: Device, w: World)
    requires w.s.handler == Quiet && w.air == [] && w.heard == |w.s.d.sent| && MainCanStep(w.s)
    ensures
      var s := Do(w.s, MainStep);
      s.d.sent == w.s.d.sent ==> Tick(dev, w) == w.(s := s)
  {
    hide Do, MainCanStep;
  }

  /** A frame arrives, is handled, and gives the semaphore. */
  lemma FrameTicks(dev: Device, w: World, f: Frame, h: Detector)
    requires w.s.handler == Quiet && w.air == [f] && w.heard == |w.s.d.sent| && w.s.main != Stopped
    requires h == Handle(w.s.d, f) && h.sem == w.s.d.sem + 1 && h.sent == w.s.d.sent
    ensures
      var r := Ticks(dev, w, 3);
      r.s.d == h && r.s.main == w.s.main && r.s.retry == w.s.retry && r.s.handler == Quiet
      && r.air == [] && r.heard == w.heard && r.mode == w.mode
  {
    hide Handle, Refusal, Answer, Switches, Hello, MainEffect;
    var a := Tick(dev, w);
    assert a.s == w.s.(handler := Entered(f, w.s.d.state)) && a.air == [];
    var b := Tick(dev, a);
    assert b.s.handler == Posting && b.s.d == h.(sem := w.s.d.sem) && b.air == [];
    var c := Tick(dev, b);
    assert c.s.handler == Quiet && c.s.d == h && c.air == [];
    hide Tick;
    assert Ticks(dev, c, 0) == c && Ticks(dev, b, 1) == c && Ticks(dev, a, 2) == c;
  }

  /** The sender sends a request, and the device puts what it sends then on the air. */
  lemma AskTick(dev: Device, w: World, destination: bv8, command: bv8)
    requires w.s.handler == Quiet && w.air == [] && w.heard == |w.s.d.sent| && MainCanStep(w.s)
    requires Do(w.s, MainStep).d == Send(w.s.d, destination, command)
    ensures
      var r := Tick(dev, w);
      r.s == Do(w.s, MainStep) && r.heard == |r.s.d.sent|
      && if Switches(dev, w.mode, destination, command)
         then r.mode == Toggled(w.mode) && r.air == [Hello(dev, r.mode)]
         else r.mode == w.mode && r.air == Answer(dev, w.mode, destination, command, Low8(w.s.d.counter))
  {
    hide Do, MainCanStep, Answer, Switches, Hello, Low8;
    var s := Do(w.s, MainStep);
    assert s.d.sent[w.heard] == Sent(w.s.d.counter, destination, command);
    assert [] + [Hello(dev, Toggled(w.mode))] == [Hello(dev, Toggled(w.mode))];
    var answer := Answer(dev, w.mode, destination, command, Low8(w.s.d.counter));
    assert [] + answer == answer;
  }

  /** The first statements of a turn of the last loop: the request goes out, and its answer is on the air. */
  lemma AskTurn(dev: Device, w: World)
    requires Calm(w) && w.s.main == Switch && Asks(w.s.d.state)
    requires !Switches(dev, w.mode, Request(w.s.d.state).0, Request(w.s.d.state).1)
    ensures
      var b := Tick(dev, Tick(dev, w));
      b.s.handler == Quiet && b.heard == |b.s.d.sent| && b.s.main == Verify && b.s.d == Asking(w.s.d, w.s.d.state)
      && b.mode == w.mode
      && b.air == Answer(dev, w.mode, Request(w.s.d.state).0, Request(w.s.d.state).1, Low8(w.s.d.counter))
  {
    hide Answer, Switches, Request, Low8, Hello, Tick;
    SenderTick(dev, w);
    AskTick(dev, Tick(dev, w), Request(w.s.d.state).0, Request(w.s.d.state).1);
  }

  /** The sender looks at the state after its request. */
  lemma VerifyTick(dev: Device, w: World)
    requires w.s.handler == Quiet && w.air == [] && w.heard == |w.s.d.sent| && w.s.main == Verify
    ensures
      var r := Tick(dev, w);
      r.s.handler == Quiet && r.air == [] && r.heard == w.heard && r.mode == w.mode && r.s.d == w.s.d
      && r.s.main == if w.s.d.state == Finished then Stopped else WaitMain
  {
    hide Tick;
    SenderTick(dev, w);
  }

  lemma TakeMainTick(dev: Device, w: World)
    requires w.s.handler == Quiet && w.air == [] && w.heard == |w.s.d.sent| && w.s.main == WaitMain && w.s.d.sem == 1
    ensures
      var r := Tick(dev, w);
      Calm(r) && r.mode == w.mode && r.s.d == w.s.d.(sem := 0) && r.s.main == Switch
  {
    hide Tick;
    SenderTick(dev, w);
  }

  /** Ticks put together: two, three, one, and one more or none. */
  lemma Links(dev: Device, w: World)
    ensures
      var b := Tick(dev, Tick(dev, w));
      var e := Tick(dev, Ticks(dev, b, 3));
      Ticks(dev, w, 6) == e && Ticks(dev, w, 7) == Tick(dev, e)
  {
    hide Tick;
    var b := Tick(dev, Tick(dev, w));
    TicksAdd(dev, w, 2, 4);
    TicksAdd(dev, w, 2, 5);
    TicksAdd(dev, b, 3, 1);
    TicksAdd(dev, b, 3, 2);
    var c := Ticks(dev, b, 3);
    assert Ticks(dev, w, 2) == b && Ticks(dev, c, 1) == Tick(dev, c) && Ticks(dev, c, 2) == Tick(dev, Tick(dev, c));
  }

  /** One round of the last loop: the request, its answer, and what the handler makes of it. */
  lemma Round(dev: Device, w: World, f: Frame, h: Detector) returns (n: nat)
    requires Calm(w) && w.s.main == Switch && Asks(w.s.d.state)
    requires
      var state, d := w.s.d.state, w.s.d;
      !Switches(dev, w.mode, Request(state).0, Request(state).1)
      && Answer(dev, w.mode, Request(state).0, Request(state).1, Low8(d.counter)) == [f]
      && h == Handle(Asking(d, state), f) && h.state != state && h.sem == 1 && h.sent == Asking(d, state).sent
    ensures
      var r := Ticks(dev, w, n);
      r.mode == w.mode && r.s.d == h.(sem := r.s.d.sem)
      && if h.state == Finished then r.s.main == Stopped else Calm(r) && r.s.main == Switch
  {
    hide Handle, Answer, Switches, Request, Low8, Hello, Tick, Ticks, Asks;
    AskTurn(dev, w);
    var b := Tick(dev, Tick(dev, w));
    FrameTicks(dev, b, f, h);
    var c := Ticks(dev, b, 3);
    VerifyTick(dev, c);
    Links(dev, w);
    n := 6;
    if h.state != Finished {
      TakeMainTick(dev, Tick(dev, c));
      n := 7;
    }
  }

  /** The states in which the last loop sends a request. */
  predicate Asks(state: DetectState)
  {
    state != StartBl && state != StartApp && state != Finished
  }

  // ------------------------------------------------------------------- what is learned

  lemma ThreeBytes(n: nat)
    requires n < 0x100_0000
    ensures n == 65536 * (n / 65536) + n % 65536 && n / 65536 % 256 == n / 65536 < 256
  {}

  lemma MacValue(a: bv8, b: bv8, c: bv8, upper: int, lower: int)
    requires a as int == upper && Number(b, c) == lower
    ensures Mac(a, b, c) == 65536 * upper + lower
  {
    hide Number;
  }

  lemma AddressParts(n: nat)
    ensures AddressBytes(n) == [(n / 65536 % 256) as bv8, High8(n), Low8(n)]
  {}

  /** Every address below 2^24 is read from its three bytes. */
  lemma AddressRead(n: nat)
    requires n < 0x100_0000
    ensures var a := AddressBytes(n); Mac(a[0], a[1], a[2]) == n
  {
    hide *;
    AddressParts(n);
    ThreeBytes(n);
    NumberOfBytes(n);
    ByteOfInt(n / 65536 % 256);
    var a := AddressBytes(n);
    MacValue(a[0], a[1], a[2], n / 65536, n % 65536);
  }

  /** The acknowledge that carries an address stores it, in each of the three states that ask for one. */
  lemma AddressStored(d: Detector, counter: bv8, x: Bytes, n: nat)
    requires n < 0x100_0000 && |x| == 3
    ensures d.state == GetHmIpRfAddress ==>
      Handle(d, Frame(0x02, counter, 0x06, [1] + AddressBytes(n))) == Post(d.(hmIpMac := n), GetSgtin)
    ensures d.state == GetBidCosRfAddress ==>
      Handle(d, Frame(0x03, counter, 0x01, [1] + AddressBytes(n)))
      == Post(d.(bidCosMac := if n == 0 || n % 65536 == 65535 then d.bidCosMac else n),
              if d.moduleType == 3 then GetSerial else Finished)
    ensures d.state == LegacyGetBidCosRfAddress ==>
      Handle(d, Frame(0x01, counter, 0x04, x + AddressBytes(n))) == Post(d.(bidCosMac := n), LegacyGetSerial)
  {
    AddressRead(n);
    var a := AddressBytes(n);
    hide AddressBytes, Mac;
    assert ([1] + a)[1] == a[0] && ([1] + a)[2] == a[1] && ([1] + a)[3] == a[2];
    assert (x + a)[3] == a[0] && (x + a)[4] == a[1] && (x + a)[5] == a[2];
  }

  // ------------------------------------------------------------------ finding the device

  function NameOf(dev: Device, mode: Mode): Bytes
  {
    if mode == Loader then LoaderName(dev.legacy) else dev.name
  }

  /** The device says its name, asked or not. */
  predicate SaysName(dev: Device, mode: Mode, f: Frame)
  {
    f == Hello(dev, mode)
    || f == Frame(if dev.legacy then 0x00 else 0xfe, f.counter, if dev.legacy then 0x04 else 0x05,
                  [if dev.legacy then 2 else 1] + NameOf(dev, mode))
  }

  lemma LoadersSpelled()
    ensures Spells(TRX_BOOTLOADER, "HMIP_TRX_Bl") && Spells(LEGACY_BOOTLOADER, "Co_CPU_BL")
  {}

  lemma AppsSpelled()
    ensures Spells(DUAL_APP, "DualCoPro_App") && Spells(TRX_APP, "HMIP_TRX_App")
  {}

  lemma LegacySpelled()
    ensures Spells(LEGACY_APP, "Co_CPU_App")
  {}

  lemma NamesKnown(dev: Device)
    requires Proper(dev)
    ensures LoaderName(dev.legacy) == if dev.legacy then LEGACY_BOOTLOADER else TRX_BOOTLOADER
    ensures if dev.legacy then dev.name == LEGACY_APP else dev.name == DUAL_APP || dev.name == TRX_APP
  {
    hide Spells, LoaderName, TRX_BOOTLOADER, LEGACY_BOOTLOADER, DUAL_APP, TRX_APP, LEGACY_APP;
    LoadersSpelled();
    AppsSpelled();
    LegacySpelled();
    if dev.legacy {
      SpellsOnce(LoaderName(true), LEGACY_BOOTLOADER, "Co_CPU_BL");
      SpellsOnce(dev.name, LEGACY_APP, "Co_CPU_App");
    } else {
      SpellsOnce(LoaderName(false), TRX_BOOTLOADER, "HMIP_TRX_Bl");
      if Spells(dev.name, "DualCoPro_App") {
        SpellsOnce(dev.name, DUAL_APP, "DualCoPro_App");
      } else {
        SpellsOnce(dev.name, TRX_APP, "HMIP_TRX_App");
      }
    }
  }

  /** What the handler makes of a name, before the loader has been seen and after it. */
  lemma NameTaken(dev: Device, mode: Mode, d: Detector, f: Frame)
    requires Proper(dev) && SaysName(dev, mode, f)
    ensures d.state == StartBl ==>
      Handle(d, f) ==
        (if mode == Loader then Post(d.(moduleType := 255), StartApp)
         else if dev.legacy then Send(d.(moduleType := 255), 0x00, 0x03)
         else Send(d.(moduleType := 255), 0xfe, 0x02))
    ensures d.state == StartApp ==>
      Handle(d, f) ==
        (if mode == Loader then Send(d, if dev.legacy then 0x00 else 0xfe, 0x03)
         else if dev.legacy then Post(d.(sgtin := NotAvailable, hmIpMac := 0, moduleType := 3), LegacyGetVersion)
         else Post(d, GetMcuType))
  {
    NamesKnown(dev);
    var name := NameOf(dev, mode);
    assert name == if mode == Loader then (if dev.legacy then LEGACY_BOOTLOADER else TRX_BOOTLOADER) else dev.name;
    assert f.data == name || f.data[1..] == name;
    hide NameOf, LoaderName, Spells, Proper, Post, Send;
  }

  /** A frame arrives whose handling sends a command instead of giving the semaphore. */
  lemma SendTicks(dev: Device, w: World, f: Frame, destination: bv8, command: bv8)
    requires w.s.handler == Quiet && w.air == [f] && w.heard == |w.s.d.sent| && w.s.main != Stopped
    requires Switches(dev, w.mode, destination, command)
    requires
      var h := Handle(w.s.d, f);
      h == Send(w.s.d.(moduleType := h.moduleType), destination, command)
    ensures
      var r := Ticks(dev, w, 2);
      r.s.d == Handle(w.s.d, f) && r.s.main == w.s.main && r.s.retry == w.s.retry && r.s.handler == Quiet
      && r.mode == Toggled(w.mode) && r.air == [Hello(dev, r.mode)] && r.heard == |r.s.d.sent|
  {
    hide Handle, Refusal, Answer, Switches, Hello, MainEffect;
    var h := Handle(w.s.d, f);
    var a := Tick(dev, w);
    assert a.s == w.s.(handler := Entered(f, w.s.d.state)) && a.air == [];
    assert h.sent[a.heard] == Sent(w.s.d.counter, destination, command);
    var b := Tick(dev, a);
    assert b.s.handler == Quiet && b.s.d == h && b.s.main == w.s.main;
    assert [] + [Hello(dev, Toggled(w.mode))] == [Hello(dev, Toggled(w.mode))];
    hide Tick;
    assert Ticks(dev, b, 0) == b && Ticks(dev, a, 1) == b;
  }

  /** A wait ends in vain. */
  lemma VainTick(dev: Device, w: World)
    requires Calm(w) && w.s.main.WaitCommon?
    ensures
      var r := Tick(dev, w);
      Calm(r) && r.s.main == AskSystem(w.s.main.first) && r.s.d == w.s.d && r.s.retry == w.s.retry && r.mode == w.mode
  {}

  /** The sender, about to identify the module, asks, and asks again when a legacy module did not understand. */
  lemma Identify(dev: Device, w: World) returns (n: nat, f: Frame)
    requires Proper(dev) && Calm(w) && w.s.main.AskCommon?
    ensures
      var r := Ticks(dev, w, n);
      r.s.handler == Quiet && r.air == [f] && SaysName(dev, w.mode, f) && r.mode == w.mode
      && r.heard == |r.s.d.sent| && r.s.d.sem == 0 && r.s.retry == w.s.retry
      && r.s.main == (if dev.legacy then WaitSystem(w.s.main.first) else WaitCommon(w.s.main.first))
      && r.s.d == w.s.d.(sent := r.s.d.sent, counter := r.s.d.counter)
  {
    hide LoaderName, Handle, Refusal, Low8, Spells;
    AskTick(dev, w, 0xfe, 0x01);
    var a := Tick(dev, w);
    if !dev.legacy {
      n := 1;
      f := a.air[0];
      assert Ticks(dev, a, 0) == a;
    } else {
      assert Answer(dev, w.mode, 0xfe, 0x01, Low8(w.s.d.counter)) == [];
      assert Calm(a) && a.s.main == WaitCommon(w.s.main.first);
      VainTick(dev, a);
      var b := Tick(dev, a);
      AskTick(dev, b, 0x00, 0x00);
      var c := Tick(dev, b);
      n := 3;
      f := c.air[0];
      assert Ticks(dev, c, 0) == c && Ticks(dev, b, 1) == c && Ticks(dev, a, 2) == c;
    }
  }

  /** The detector, but for its state, its type, and what it has sent. */
  predicate Kept(d: Detector, e: Detector)
  {
    e == d.(state := e.state, moduleType := e.moduleType, counter := e.counter, sent := e.sent)
  }

  /** The first statements of a turn of the first loop. */
  lemma FirstTurn(dev: Device, w: World)
    requires Calm(w) && w.s.main == Test(true) && w.s.d.state == StartBl && w.s.retry < 3
    ensures
      var b := Tick(dev, Tick(dev, w));
      Calm(b) && b.s.main == AskCommon(true) && b.s.d == w.s.d.(moduleType := MODULE_NONE)
      && b.s.retry == w.s.retry && b.mode == w.mode
  {
    SenderTick(dev, w);
    SenderTick(dev, Tick(dev, w));
    hide Tick;
  }

  /** The sender takes the semaphore and goes back to the test of its loop. */
  lemma TakeTick(dev: Device, w: World)
    requires w.s.handler == Quiet && w.air == [] && w.heard == |w.s.d.sent| && w.s.d.sem == 1
    requires w.s.main.WaitCommon? || w.s.main.WaitSystem?
    ensures
      var r := Tick(dev, w);
      Calm(r) && r.s.main == Test(w.s.main.first) && r.s.d == w.s.d.(sem := 0) && r.s.retry == w.s.retry
      && r.mode == w.mode
  {
    SenderTick(dev, w);
    hide Tick;
  }

  /** A name that the handler answers with a command. */
  lemma NameSends(dev: Device, w: World, f: Frame)
    requires Proper(dev) && w.s.handler == Quiet && w.air == [f] && w.heard == |w.s.d.sent| && w.s.main != Stopped
    requires SaysName(dev, w.mode, f) && w.s.d.state == (if w.mode == App then StartBl else StartApp)
    ensures
      var r := Ticks(dev, w, 2);
      r.s.handler == Quiet && r.air == [Hello(dev, r.mode)] && r.mode == Toggled(w.mode) && r.heard == |r.s.d.sent|
      && r.s.main == w.s.main && r.s.retry == w.s.retry && Kept(w.s.d, r.s.d) && r.s.d.state == w.s.d.state
  {
    hide Handle, Hello, LoaderName, Proper, SaysName, Ticks;
    NameTaken(dev, w.mode, w.s.d, f);
    SendTicks(dev, w, f, if dev.legacy then 0x00 else 0xfe, if dev.legacy || w.mode == Loader then 0x03 else 0x02);
  }

  /** A name that leads on. */
  lemma NamePosts(dev: Device, w: World, f: Frame)
    requires Proper(dev) && w.s.handler == Quiet && w.air == [f] && w.heard == |w.s.d.sent| && w.s.main != Stopped
    requires SaysName(dev, w.mode, f) && w.s.d.state == (if w.mode == App then StartApp else StartBl)
    requires w.s.d.sem == 0
    ensures
      var r := Ticks(dev, w, 3);
      r.s.handler == Quiet && r.air == [] && r.mode == w.mode && r.heard == |r.s.d.sent|
      && r.s.main == w.s.main && r.s.retry == w.s.retry && r.s.d.sem == 1 && r.s.d == Handle(w.s.d, f)
  {
    hide Handle, Hello, LoaderName, Proper, SaysName, Ticks;
    NameTaken(dev, w.mode, w.s.d, f);
    FrameTicks(dev, w, f, Handle(w.s.d, f));
  }

  /** The first loop finds the loader, which it has the device start when the application runs. */
  lemma LoaderFound(dev: Device, w: World) returns (n: nat)
    requires Proper(dev) && Calm(w) && w.s.main == Test(true) && w.s.d.state == StartBl && w.s.retry == 0
    ensures
      var r := Ticks(dev, w, n);
      Calm(r) && r.s.main == Test(true) && r.s.d.state == StartApp && r.mode == Loader && Kept(w.s.d, r.s.d)
  {
    hide Handle, Hello, LoaderName, Proper, SaysName, Ticks, Tick;
    FirstTurn(dev, w);
    var b := Tick(dev, Tick(dev, w));
    var i, f := Identify(dev, b);
    var c := Ticks(dev, b, i);
    var k := if w.mode == App then 2 else 0;
    var e := Ticks(dev, c, k);
    if w.mode == App {
      NameSends(dev, c, f);
      f := Hello(dev, Loader);
      NameIsName(dev, Loader);
    } else {
      NoTicks(dev, c);
    }
    NameTaken(dev, Loader, e.s.d, f);
    NamePosts(dev, e, f);
    TakeTick(dev, Ticks(dev, e, 3));
    n := 2 + i + k + 4;
    Chain(dev, w, b, c, e, i, k);
  }

  lemma NoTicks(dev: Device, w: World)
    ensures Ticks(dev, w, 0) == w
  {}

  /** The second loop has the device start its application. */
  lemma AppFound(dev: Device, w: World) returns (n: nat)
    requires Proper(dev) && Calm(w) && w.s.main == Test(true) && w.s.d.state == StartApp && w.mode == Loader
    ensures
      var r := Ticks(dev, w, n);
      Calm(r) && r.s.main == Switch && r.mode == App
      && if dev.legacy
         then r.s.d == w.s.d.(state := LegacyGetVersion, sgtin := NotAvailable, hmIpMac := 0, moduleType := 3,
                              counter := r.s.d.counter, sent := r.s.d.sent)
         else r.s.d == w.s.d.(state := GetMcuType, moduleType := r.s.d.moduleType,
                              counter := r.s.d.counter, sent := r.s.d.sent)
  {
    hide Handle, Hello, LoaderName, Proper, SaysName, Ticks, Tick;
    SecondTurn(dev, w);
    var b := Tick(dev, Tick(dev, w));
    var i, f := Identify(dev, b);
    var c := Ticks(dev, b, i);
    NameSends(dev, c, f);
    var e := Ticks(dev, c, 2);
    NameIsName(dev, App);
    NameTaken(dev, App, e.s.d, Hello(dev, App));
    NamePosts(dev, e, Hello(dev, App));
    var g := Ticks(dev, e, 3);
    TakeTick(dev, g);
    var h := Tick(dev, g);
    LeaveTick(dev, h);
    Chain(dev, w, b, c, e, i, 2);
    n := 2 + i + 2 + 4 + 1;
    TicksAdd(dev, w, 2 + i + 2 + 4, 1);
    TickOnce(dev, h);
  }

  lemma TickOnce(dev: Device, w: World)
    ensures Ticks(dev, w, 1) == Tick(dev, w)
  {
    hide Tick;
    NoTicks(dev, Tick(dev, w));
  }

  /** The sender passes on to the second loop and into it. */
  lemma SecondTurn(dev: Device, w: World)
    requires Calm(w) && w.s.main == Test(true) && w.s.d.state == StartApp
    ensures
      var b := Tick(dev, Tick(dev, w));
      Calm(b) && b.s.main == AskCommon(false) && b.s.d == w.s.d && b.mode == w.mode
  {
    SenderTick(dev, w);
    SenderTick(dev, Tick(dev, w));
    hide Tick;
  }

  /** The second loop is over. */
  lemma LeaveTick(dev: Device, w: World)
    requires Calm(w) && w.s.main == Test(false) && w.s.d.state != StartApp
    ensures
      var r := Tick(dev, w);
      Calm(r) && r.s.main == Switch && r.s.d == w.s.d && r.mode == w.mode
  {
    SenderTick(dev, w);
    hide Tick;
  }

  lemma NameIsName(dev: Device, mode: Mode)
    ensures SaysName(dev, mode, Hello(dev, mode))
  {}

  /** Ticks put together: two, i, k, three and one. */
  lemma Chain(dev: Device, w: World, b: World, c: World, e: World, i: nat, k: nat)
    requires b == Tick(dev, Tick(dev, w)) && c == Ticks(dev, b, i) && e == Ticks(dev, c, k)
    ensures Ticks(dev, w, 2 + i + k + 4) == Tick(dev, Ticks(dev, e, 3))
  {
    hide Tick;
    TicksAdd(dev, w, 2, i + k + 4);
    TicksAdd(dev, b, i, k + 4);
    TicksAdd(dev, c, k, 4);
    TicksAdd(dev, e, 3, 1);
    assert Ticks(dev, w, 2) == b;
    assert Ticks(dev, Ticks(dev, e, 3), 1) == Tick(dev, Ticks(dev, e, 3));
  }

  // -------------------------------------------------------------- what the detection ends with

  /** The BidCos address that a device with an SGTIN falls back on. */
  function Fallback(dev: Device): nat
    requires Proper(dev)
  {
    var low := Number(dev.sgtin[10], dev.sgtin[11]);
    if low == 0xffff then 0xfffffe else 0xff0000 + low
  }

  /** The serial number: text from the legacy module and the RPI-PCB, the end of the SGTIN of the two RF modules. */
  predicate SerialFound(dev: Device, was: Text, serial: Text)
    requires Proper(dev)
  {
    serial ==
      if dev.legacy || dev.kind == 3 then Raw(dev.serial)
      else if dev.kind == 4 || dev.kind == 1 then Hex(dev.sgtin[7..12])
      else was
  }

  predicate BidCosFound(dev: Device, was: nat, mac: nat)
    requires Proper(dev)
  {
    mac ==
      if dev.legacy then dev.bidCos
      else if dev.kind == 1 && dev.version[0] < 4 then 0
      else if dev.bidCos != 0 && dev.bidCos % 65536 != 65535 then dev.bidCos
      else if dev.kind == 4 || dev.kind == 1 then Fallback(dev)
      else was
  }

  /** What is reported is what the device told. */
  predicate Found(dev: Device, was: Detector, d: Detector)
    requires Proper(dev)
  {
    d.moduleType == (if dev.legacy then 3 else dev.kind) && d.firmware == dev.version
    && d.hmIpMac == (if dev.legacy then 0 else dev.hmIp)
    && d.sgtin == (if dev.legacy then NotAvailable else Hex(dev.sgtin))
    && SerialFound(dev, was.serial, d.serial) && BidCosFound(dev, was.bidCosMac, d.bidCosMac)
  }

  /** What is known in each state of the last loop. */
  predicate Progress(dev: Device, was: Detector, d: Detector)
    requires Proper(dev)
  {
    var rf := dev.kind == 4 || dev.kind == 1;
    (dev.legacy <==> Legacy(d.state)) && Asks(d.state)
    && (if dev.legacy then d.moduleType == 3 && d.hmIpMac == 0 && d.sgtin == NotAvailable
        else
          (d.state != GetMcuType ==> d.moduleType == dev.kind)
          && (Code(d.state) >= 50 ==> d.hmIpMac == dev.hmIp) && (Code(d.state) >= 60 ==> d.sgtin == Hex(dev.sgtin)))
    && (Code(d.state) >= 40 ==> d.firmware == dev.version)
    && match d.state
       case GetBidCosRfAddress =>
         !(dev.kind == 1 && dev.version[0] < 4)
         && d.serial == (if rf then Hex(dev.sgtin[7..12]) else was.serial)
         && d.bidCosMac == (if rf then Fallback(dev) else was.bidCosMac)
       case GetSerial => dev.kind == 3 && BidCosFound(dev, was.bidCosMac, d.bidCosMac)
       case LegacyGetSerial => BidCosFound(dev, was.bidCosMac, d.bidCosMac)
       case _ => d.serial == was.serial && d.bidCosMac == was.bidCosMac
  }

  /** The frame answers the request of the state, and leads on with what it tells. */
  predicate Tells(dev: Device, was: Detector, d: Detector, f: Frame)
    requires Proper(dev)
  {
    var e := Asking(d, d.state);
    var h := Handle(e, f);
    !Switches(dev, App, Request(d.state).0, Request(d.state).1)
    && Answer(dev, App, Request(d.state).0, Request(d.state).1, Low8(d.counter)) == [f]
    && h.sem == 1 && h.sent == e.sent && Depth(h.state) > Depth(d.state)
    && if h.state == Finished then Found(dev, was, h) else Progress(dev, was, h)
  }

  lemma ToldKind(dev: Device, was: Detector, d: Detector) returns (f: Frame)
    requires Proper(dev) && Progress(dev, was, d) && d.sem == 0 && d.state == GetMcuType
    ensures Tells(dev, was, d, f)
  {
    f := Frame(0x01, Low8(d.counter), 0x04, [1, dev.kind]);
    hide AddressBytes, Mac, Low8, LoaderName, Spells, Fallback, BidCosFound, SerialFound;
  }

  lemma ToldVersion(dev: Device, was: Detector, d: Detector) returns (f: Frame)
    requires Proper(dev) && Progress(dev, was, d) && d.sem == 0 && d.state == GetVersion
    ensures Tells(dev, was, d, f)
  {
    f := Frame(0x01, Low8(d.counter), 0x04, [1] + dev.version + dev.other);
    assert ([1] + dev.version + dev.other)[1..4] == dev.version;
    hide AddressBytes, Mac, Low8, LoaderName, Spells, Fallback, BidCosFound, SerialFound;
  }

  lemma ToldHmIp(dev: Device, was: Detector, d: Detector) returns (f: Frame)
    requires Proper(dev) && Progress(dev, was, d) && d.sem == 0 && d.state == GetHmIpRfAddress
    ensures Tells(dev, was, d, f)
  {
    hide AddressBytes, Mac, Low8, LoaderName, Spells, Handle, Fallback, BidCosFound, SerialFound;
    f := Frame(0x02, Low8(d.counter), 0x06, [1] + AddressBytes(dev.hmIp));
    AddressStored(Asking(d, d.state), Low8(d.counter), dev.other[..3], dev.hmIp);
  }

  /** The fallback is what the handler derives from the SGTIN. */
  lemma DerivesFallback(dev: Device)
    requires Proper(dev)
    ensures DerivedMac(dev.sgtin[10], dev.sgtin[11]) == Fallback(dev)
  {
    hide Number, Spells;
  }

  /** What the handler makes of the SGTIN. */
  lemma SgtinTaken(dev: Device, e: Detector, counter: bv8)
    requires Proper(dev) && e.state == GetSgtin
    ensures
      Handle(e, Frame(0xfe, counter, 0x05, [1] + dev.sgtin)) ==
        if e.moduleType != 4 && e.moduleType != 1 then Post(e.(sgtin := Hex(dev.sgtin)), GetBidCosRfAddress)
        else
          var g := e.(sgtin := Hex(dev.sgtin), serial := Hex(dev.sgtin[7..12]));
          if e.moduleType == 1 && e.firmware[0] < 4 then Post(g.(bidCosMac := 0), Finished)
          else Post(g.(bidCosMac := Fallback(dev)), GetBidCosRfAddress)
  {
    DerivesFallback(dev);
    var f := Frame(0xfe, counter, 0x05, [1] + dev.sgtin);
    assert Acks(f, COMMON, COMMON_ACK, 13, 1);
    assert f.data[1..13] == dev.sgtin && f.data[8..13] == dev.sgtin[7..12];
    assert f.data[11] == dev.sgtin[10] && f.data[12] == dev.sgtin[11];
    assert Handle(e, f) == HandleSgtin(e, f);
    hide Fallback, DerivedMac, Spells, Post, Acks, Handle;
  }

  lemma ToldSgtin(dev: Device, was: Detector, d: Detector) returns (f: Frame)
    requires Proper(dev) && Progress(dev, was, d) && d.sem == 0 && d.state == GetSgtin
    ensures Tells(dev, was, d, f)
  {
    hide Handle, AddressBytes, Low8, LoaderName, Spells, Fallback;
    f := Frame(0xfe, Low8(d.counter), 0x05, [1] + dev.sgtin);
    SgtinTaken(dev, Asking(d, d.state), Low8(d.counter));
  }

  lemma ToldBidCos(dev: Device, was: Detector, d: Detector) returns (f: Frame)
    requires Proper(dev) && Progress(dev, was, d) && d.sem == 0 && d.state == GetBidCosRfAddress
    ensures Tells(dev, was, d, f)
  {
    hide AddressBytes, Mac, Low8, LoaderName, Spells, Handle, Fallback;
    f := Frame(0x03, Low8(d.counter), 0x01, [1] + AddressBytes(dev.bidCos));
    AddressStored(Asking(d, d.state), Low8(d.counter), dev.other[..3], dev.bidCos);
  }

  lemma ToldSerial(dev: Device, was: Detector, d: Detector) returns (f: Frame)
    requires Proper(dev) && Progress(dev, was, d) && d.sem == 0 && d.state == GetSerial
    ensures Tells(dev, was, d, f)
  {
    f := Frame(0x03, Low8(d.counter), 0x01, [1] + dev.serial);
    assert ([1] + dev.serial)[1..11] == dev.serial;
    hide AddressBytes, Mac, Low8, LoaderName, Spells, Fallback, BidCosFound;
  }

  lemma ToldOldVersion(dev: Device, was: Detector, d: Detector) returns (f: Frame)
    requires Proper(dev) && Progress(dev, was, d) && d.sem == 0 && d.state == LegacyGetVersion
    ensures Tells(dev, was, d, f)
  {
    f := Frame(0x00, Low8(d.counter), 0x04, [2] + dev.other[..3] + dev.version);
    assert ([2] + dev.other[..3] + dev.version)[4..7] == dev.version;
    hide AddressBytes, Mac, Low8, LoaderName, Spells, Fallback, SerialFound, BidCosFound;
  }

  lemma ToldOldAddress(dev: Device, was: Detector, d: Detector) returns (f: Frame)
    requires Proper(dev) && Progress(dev, was, d) && d.sem == 0 && d.state == LegacyGetBidCosRfAddress
    ensures Tells(dev, was, d, f)
  {
    hide AddressBytes, Mac, Low8, LoaderName, Spells, Handle, Fallback;
    f := Frame(0x01, Low8(d.counter), 0x04, dev.other[..3] + AddressBytes(dev.bidCos));
    AddressStored(Asking(d, d.state), Low8(d.counter), dev.other[..3], dev.bidCos);
  }

  lemma ToldOldSerial(dev: Device, was: Detector, d: Detector) returns (f: Frame)
    requires Proper(dev) && Progress(dev, was, d) && d.sem == 0 && d.state == LegacyGetSerial
    ensures Tells(dev, was, d, f)
  {
    f := Frame(0x00, Low8(d.counter), 0x04, [2] + dev.serial);
    assert ([2] + dev.serial)[1..11] == dev.serial;
    hide AddressBytes, Mac, Low8, LoaderName, Spells, Fallback, BidCosFound;
  }

  /** The answer to the request of a state leads on, with what it told. */
  lemma Told(dev: Device, was: Detector, d: Detector) returns (f: Frame)
    requires Proper(dev) && Progress(dev, was, d) && d.sem == 0
    ensures Tells(dev, was, d, f)
  {
    ProgressAsks(dev, was, d);
    hide Tells, Progress, Proper;
    match d.state
    case GetMcuType => f := ToldKind(dev, was, d);
    case GetVersion => f := ToldVersion(dev, was, d);
    case GetHmIpRfAddress => f := ToldHmIp(dev, was, d);
    case GetSgtin => f := ToldSgtin(dev, was, d);
    case GetBidCosRfAddress => f := ToldBidCos(dev, was, d);
    case GetSerial => f := ToldSerial(dev, was, d);
    case LegacyGetVersion => f := ToldOldVersion(dev, was, d);
    case LegacyGetBidCosRfAddress => f := ToldOldAddress(dev, was, d);
    case LegacyGetSerial => f := ToldOldSerial(dev, was, d);
  }

  lemma ProgressAsks(dev: Device, was: Detector, d: Detector)
    requires Proper(dev) && Progress(dev, was, d)
    ensures Asks(d.state)
  {}

  /** The last loop ends with all that the device tells. */
  lemma {:induction false} LastLoop(dev: Device, was: Detector, w: World) returns (n: nat)
    requires Proper(dev) && Calm(w) && w.s.main == Switch && w.mode == App && Progress(dev, was, w.s.d)
    ensures
      var r := Ticks(dev, w, n);
      r.s.main == Stopped && r.s.d.state == Finished && Found(dev, was, r.s.d)
    decreases 8 - Depth(w.s.d.state)
  {
    hide Proper, Found, Progress, Handle, Switches, Answer, Request, Ticks, Low8, Asking;
    var d := w.s.d;
    var f := Told(dev, was, d);
    ProgressAsks(dev, was, d);
    var h := Handle(Asking(d, d.state), f);
    var k := Round(dev, w, f, h);
    var r := Ticks(dev, w, k);
    SameFound(dev, was, h, r.s.d);
    n := k;
    if h.state != Finished {
      var m := LastLoop(dev, was, r);
      n := k + m;
      TicksAdd(dev, w, k, m);
    }
  }

  lemma SameFound(dev: Device, was: Detector, h: Detector, d: Detector)
    requires Proper(dev) && d == h.(sem := d.sem)
    ensures Found(dev, was, h) == Found(dev, was, d) && Progress(dev, was, h) == Progress(dev, was, d)
  {}

  /** From the start, with its loader or its application running, every device is found out. */
  lemma DetectsDevice(dev: Device, s: System, mode: Mode) returns (n: nat)
    requires Proper(dev) && Init(s)
    ensures
      var r := Ticks(dev, World(s, mode, 0, []), n);
      r.s.main == Stopped && r.s.d.state == Finished && Found(dev, s.d, r.s.d)
  {
    hide Proper, Found, Ticks;
    var w := World(s, mode, 0, []);
    var i := LoaderFound(dev, w);
    var a := Ticks(dev, w, i);
    var j := AppFound(dev, a);
    var b := Ticks(dev, a, j);
    assert Progress(dev, s.d, b.s.d);
    hide Progress;
    var k := LastLoop(dev, s.d, b);
    TicksAdd(dev, a, j, k);
    n := i + (j + k);
    TicksAdd(dev, w, i, j + k);
  }

  // ---------------------------------------------------------------------- nobody there

  /** The sender alone: each statement when it can, each wait in vain. */
  function Alone(s: System, n: nat): System
    decreases n
  {
    if n == 0 then s else Alone(Do(s, if MainCanStep(s) then MainStep else Timeout), n - 1)
  }

  lemma {:induction false} AloneAdd(s: System, m: nat, n: nat)
    ensures Alone(s, m + n) == Alone(Alone(s, m), n)
    decreases m
  {
    hide Do, MainCanStep;
    if m > 0 {
      AloneAdd(Do(s, if MainCanStep(s) then MainStep else Timeout), m - 1, n);
    }
  }

  /** One turn of the first loop sends both identify requests. */
  lemma TurnAlone(s: System)
    requires s.main == Test(true) && s.d.state == StartBl && s.d.sem == 0 && s.retry < 3
    ensures
      var r := Alone(s, 6);
      var c := s.d.counter;
      r.main == Test(true) && r.retry == s.retry + 1
      && r.d == s.d.(moduleType := 0, counter := c + 2,
                     sent := s.d.sent + [Sent(c, 0xfe, 0x01), Sent(c + 1, 0x00, 0x00)])
  {
    hide Alone, Request;
    OneAlone(s);
    var a := Do(s, MainStep);
    OneAlone(a);
    var b := Do(a, MainStep);
    OneAlone(b);
    var c := Do(b, MainStep);
    OneAlone(c);
    var e := Do(c, Timeout);
    OneAlone(e);
    var f := Do(e, MainStep);
    OneAlone(f);
    var g := Do(f, Timeout);
    assert g.main == Test(true) && g.retry == s.retry + 1;
    SixAlone(s);
  }

  lemma OneAlone(s: System)
    ensures Alone(s, 1) == Do(s, if MainCanStep(s) then MainStep else Timeout)
  {
    hide Do, MainCanStep;
    var t := Do(s, if MainCanStep(s) then MainStep else Timeout);
    assert Alone(t, 0) == t;
  }

  lemma SixAlone(s: System)
    ensures Alone(s, 6) == Alone(Alone(Alone(Alone(Alone(Alone(s, 1), 1), 1), 1), 1), 1)
  {
    hide Alone;
    AloneAdd(s, 5, 1);
    AloneAdd(s, 4, 1);
    AloneAdd(s, 3, 1);
    AloneAdd(s, 2, 1);
    AloneAdd(s, 1, 1);
  }

  /** When nobody answers, the sender gives up after three turns, with six requests and no module. */
  lemma NobodyAnswers(s: System)
    requires Init(s)
    ensures
      var r := Alone(s, 23);
      r.main == Stopped && r.d.state == Finished && r.d.moduleType == 0
      && r.d.sent == [Sent(0, 0xfe, 0x01), Sent(1, 0x00, 0x00), Sent(2, 0xfe, 0x01), Sent(3, 0x00, 0x00),
                      Sent(4, 0xfe, 0x01), Sent(5, 0x00, 0x00)]
  {
    hide Alone, Do;
    TurnAlone(s);
    var a := Alone(s, 6);
    TurnAlone(a);
    var b := Alone(a, 6);
    TurnAlone(b);
    var c := Alone(b, 6);
    GivesUp(c);
    AloneAdd(s, 6, 17);
    AloneAdd(a, 6, 11);
    AloneAdd(b, 6, 5);
  }

  lemma GivesUp(s: System)
    requires s.main == Test(true) && s.d.state == StartBl && s.retry == 3
    ensures Alone(s, 5).main == Stopped && Alone(s, 5).d == s.d.(state := Finished)
  {
    hide Alone, Request;
    OneAlone(s);
    var a := Do(s, MainStep);
    OneAlone(a);
    var b := Do(a, MainStep);
    OneAlone(b);
    var c := Do(b, MainStep);
    OneAlone(c);
    var e := Do(c, MainStep);
    OneAlone(e);
    AloneAdd(s, 4, 1);
    AloneAdd(s, 3, 1);
    AloneAdd(s, 2, 1);
    AloneAdd(s, 1, 1);
  }
}
