/** The detection of the radio module: a sender loop and a frame handler that share a state and a semaphore. */
module Detector {
  import opened Crc
  import opened Codec
  import opened HmFrame

  // ------------------------------------------------------------------------ states

  datatype DetectState =
    | StartBl | StartApp | GetMcuType | GetVersion | GetHmIpRfAddress | GetSgtin | GetBidCosRfAddress | GetSerial
    | LegacyGetVersion | LegacyGetBidCosRfAddress | LegacyGetSerial | Finished

  /** The number of a state in the program. */
  function Code(s: DetectState): nat
  {
    match s
    case StartBl => 0
    case StartApp => 10
    case GetMcuType => 20
    case GetVersion => 30
    case GetHmIpRfAddress => 40
    case GetSgtin => 50
    case GetBidCosRfAddress => 60
    case GetSerial => 70
    case LegacyGetVersion => 31
    case LegacyGetBidCosRfAddress => 61
    case LegacyGetSerial => 71
    case Finished => 255
  }

  /** How many changes can lie behind a state. */
  function Depth(s: DetectState): (d: nat)
    ensures d <= 8
  {
    match s
    case StartBl => 0
    case StartApp => 1
    case GetMcuType => 2
    case GetVersion => 3
    case GetHmIpRfAddress => 4
    case GetSgtin => 5
    case GetBidCosRfAddress => 6
    case GetSerial => 7
    case LegacyGetVersion => 2
    case LegacyGetBidCosRfAddress => 3
    case LegacyGetSerial => 4
    case Finished => 8
  }

  const MODULE_NONE: bv8 := 0
  const HMIP_RFUSB: bv8 := 1
  const RPI_PCB: bv8 := 3
  const RPI_RF_MOD: bv8 := 4
  const MODULE_UNKNOWN: bv8 := 255

  const HM_SYSTEM: bv8 := 0x00
  const TRX: bv8 := 0x01
  const HMIP: bv8 := 0x02
  const LLMAC: bv8 := 0x03
  const COMMON: bv8 := 0xfe

  /** The acknowledge command of each destination. */
  const HM_SYSTEM_ACK: bv8 := 0x04
  const TRX_ACK: bv8 := 0x04
  const HMIP_ACK: bv8 := 0x06
  const LLMAC_ACK: bv8 := 0x01
  const COMMON_ACK: bv8 := 0x05

  /** HMIP_TRX_Bl */
  const TRX_BOOTLOADER: Bytes := [0x48, 0x4d, 0x49, 0x50, 0x5f, 0x54, 0x52, 0x58, 0x5f, 0x42, 0x6c]

  /** Co_CPU_BL */
  const LEGACY_BOOTLOADER: Bytes := [0x43, 0x6f, 0x5f, 0x43, 0x50, 0x55, 0x5f, 0x42, 0x4c]

  /** DualCoPro_App */
  const DUAL_APP: Bytes := [0x44, 0x75, 0x61, 0x6c, 0x43, 0x6f, 0x50, 0x72, 0x6f, 0x5f, 0x41, 0x70, 0x70]

  /** HMIP_TRX_App */
  const TRX_APP: Bytes := [0x48, 0x4d, 0x49, 0x50, 0x5f, 0x54, 0x52, 0x58, 0x5f, 0x41, 0x70, 0x70]

  /** Co_CPU_App */
  const LEGACY_APP: Bytes := [0x43, 0x6f, 0x5f, 0x43, 0x50, 0x55, 0x5f, 0x41, 0x70, 0x70]

  /** A text field: empty, raw characters, bytes shown in hexadecimal, or "n/a". */
  datatype Text = Empty | Raw(bytes: Bytes) | Hex(bytes: Bytes) | NotAvailable

  /** Three version numbers. */
  type Version = v: Bytes | |v| == 3 witness [0, 0, 0]

  datatype Frame = Frame(destination: bv8, counter: bv8, command: bv8, data: Bytes)

  datatype Sent = Sent(counter: nat, destination: bv8, command: bv8)

  datatype Detector = Detector(state: DetectState, moduleType: bv8, bidCosMac: nat, hmIpMac: nat, sgtin: Text,
      serial: Text,
                               firmware: Version, counter: nat, sem: nat, sent: seq<Sent>)

  // ----------------------------------------------------------------- the frame handler

  /** The answer to an identify request, or the same text sent unasked. */
  predicate Identifies(f: Frame, destination: bv8, ack: bv8, flag: bv8, name: Bytes)
  {
    f.destination == destination
    && ((f.command == ack && |f.data| == |name| + 1 && f.data[0] == flag && f.data[1..] == name)
        || (f.command == 0 && |f.data| == |name| && f.data == name))
  }

  /** An acknowledge of a destination with a given number of data bytes, the first of them as given. */
  predicate Acks(f: Frame, destination: bv8, ack: bv8, size: nat, flag: bv8)
  {
    f.destination == destination && f.command == ack && |f.data| == size && size > 0 && f.data[0] == flag
  }

  /** Three bytes as a number, the first one uppermost. */
  function Mac(a: bv8, b: bv8, c: bv8): (m: nat)
    ensures m < 0x100_0000
  {
    65536 * (a as nat) + Number(b, c)
  }

  /** The address that is made of the last two bytes of the SGTIN. */
  function DerivedMac(b: bv8, c: bv8): nat
  {
    if Number(b, c) == 0xffff then 0xfffffe else 0xff_0000 + Number(b, c)
  }

  /** Not zero and not a broadcast address. */
  predicate Usable(mac: nat)
  {
    mac != 0 && mac % 65536 != 65535
  }

  function Post(d: Detector, state: DetectState): Detector
  {
    d.(state := state, sem := d.sem + 1)
  }

  function Send(d: Detector, destination: bv8, command: bv8): Detector
  {
    d.(counter := d.counter + 1, sent := d.sent + [Sent(d.counter, destination, command)])
  }

  function HandleStart(d: Detector, f: Frame): Detector
  {
    if Identifies(f, COMMON, COMMON_ACK, 1, TRX_BOOTLOADER)
        || Identifies(f, HM_SYSTEM, HM_SYSTEM_ACK, 2, LEGACY_BOOTLOADER) then
      Post(d.(moduleType := MODULE_UNKNOWN), StartApp)
    else if Identifies(f, COMMON, COMMON_ACK, 1, DUAL_APP) || Identifies(f, COMMON, COMMON_ACK, 1, TRX_APP) then
      Send(d.(moduleType := MODULE_UNKNOWN), COMMON, 0x02)
    else if Identifies(f, HM_SYSTEM, HM_SYSTEM_ACK, 2, LEGACY_APP) then
      Send(d.(moduleType := MODULE_UNKNOWN), HM_SYSTEM, 0x03)
    else d
  }

  function HandleApp(d: Detector, f: Frame): Detector
  {
    if Identifies(f, COMMON, COMMON_ACK, 1, TRX_BOOTLOADER) then Send(d, COMMON, 0x03)
    else if Identifies(f, HM_SYSTEM, HM_SYSTEM_ACK, 2, LEGACY_BOOTLOADER) then Send(d, HM_SYSTEM, 0x03)
    else if Identifies(f, COMMON, COMMON_ACK, 1, DUAL_APP) || Identifies(f, COMMON, COMMON_ACK, 1, TRX_APP) then
      Post(d, GetMcuType)
    else if Identifies(f, HM_SYSTEM, HM_SYSTEM_ACK, 2, LEGACY_APP) then
      Post(d.(sgtin := NotAvailable, hmIpMac := 0, moduleType := RPI_PCB), LegacyGetVersion)
    else d
  }

  function HandleSgtin(d: Detector, f: Frame): Detector
    requires Acks(f, COMMON, COMMON_ACK, 13, 1)
  {
    var e := d.(sgtin := Hex(f.data[1..13]));
    if d.moduleType == RPI_RF_MOD || d.moduleType == HMIP_RFUSB then
      var g := e.(serial := Hex(f.data[8..13]));
      if d.moduleType == HMIP_RFUSB && d.firmware[0] < 4 then Post(g.(bidCosMac := 0), Finished)
      else Post(g.(bidCosMac := DerivedMac(f.data[11], f.data[12])), GetBidCosRfAddress)
    else Post(e, GetBidCosRfAddress)
  }

  function HandleBidCos(d: Detector, f: Frame): Detector
  {
    if Acks(f, LLMAC, LLMAC_ACK, 4, 1) then
      var mac := Mac(f.data[1], f.data[2], f.data[3]);
      Post(if Usable(mac) then d.(bidCosMac := mac) else d, if d.moduleType == RPI_PCB then GetSerial else Finished)
    else if Acks(f, LLMAC, LLMAC_ACK, 1, 0) then
      Post(d, if d.moduleType == RPI_RF_MOD || d.moduleType == HMIP_RFUSB then Finished else d.state)
    else d
  }

  /** What one valid frame does. */
  function Handle(d: Detector, f: Frame): Detector
  {
    match d.state
    case StartBl => HandleStart(d, f)
    case StartApp => HandleApp(d, f)
    case GetMcuType =>
      if Acks(f, TRX, TRX_ACK, 2, 1) then Post(d.(moduleType := f.data[1]), GetVersion) else d
    case GetVersion =>
      if Acks(f, TRX, TRX_ACK, 10, 1) then Post(d.(firmware := f.data[1..4]), GetHmIpRfAddress) else d
    case GetHmIpRfAddress =>
      if Acks(f, HMIP, HMIP_ACK, 4, 1) then Post(d.(hmIpMac := Mac(f.data[1], f.data[2], f.data[3])), GetSgtin) else d
    case GetSgtin =>
      if Acks(f, COMMON, COMMON_ACK, 13, 1) then HandleSgtin(d, f) else d
    case GetBidCosRfAddress => HandleBidCos(d, f)
    case GetSerial =>
      if Acks(f, LLMAC, LLMAC_ACK, 11, 1) then Post(d.(serial := Raw(f.data[1..11])), Finished) else d
    case LegacyGetVersion =>
      if Acks(f, HM_SYSTEM, HM_SYSTEM_ACK, 7, 2) then Post(d.(firmware := f.data[4..7]), LegacyGetBidCosRfAddress)
          else d
    case LegacyGetBidCosRfAddress =>
      if f.destination == TRX && f.command == TRX_ACK && |f.data| == 6 then
        Post(d.(bidCosMac := Mac(f.data[3], f.data[4], f.data[5])), LegacyGetSerial)
      else d
    case LegacyGetSerial =>
      if Acks(f, HM_SYSTEM, HM_SYSTEM_ACK, 11, 2) then Post(d.(serial := Raw(f.data[1..11])), Finished) else d
    case Finished => d
  }

  /** The one answer that wakes the sender without a change: a refused address request of another module. */
  predicate Refusal(d: Detector, f: Frame)
  {
    d.state == GetBidCosRfAddress && Acks(f, LLMAC, LLMAC_ACK, 1, 0)
    && d.moduleType != RPI_RF_MOD && d.moduleType != HMIP_RFUSB
  }

  lemma AcksDiffer(f: Frame, destination: bv8, ack: bv8, m: nat, n: nat, x: bv8, y: bv8)
    requires m != n && Acks(f, destination, ack, m, x)
    ensures !Acks(f, destination, ack, n, y)
  {}

  /** A change of state raises its number and its depth; the semaphore is given exactly on a change or a refusal. */
  predicate Raises(d: Detector, f: Frame, r: Detector)
  {
    (r.state != d.state ==> Code(r.state) > Code(d.state) && Depth(r.state) > Depth(d.state))
    && r.sem == d.sem + (if r.state != d.state || Refusal(d, f) then 1 else 0)
    && (Refusal(d, f) ==> r.state == d.state)
  }

  lemma StartRaises(d: Detector, f: Frame)
    ensures d.state == StartBl ==> Raises(d, f, HandleStart(d, f))
    ensures d.state == StartApp ==> Raises(d, f, HandleApp(d, f))
  {
    hide Identifies, Acks;
  }

  lemma BidCosRaises(d: Detector, f: Frame)
    requires d.state == GetBidCosRfAddress
    ensures Raises(d, f, HandleBidCos(d, f))
  {
    if Acks(f, LLMAC, LLMAC_ACK, 4, 1) {
      AcksDiffer(f, LLMAC, LLMAC_ACK, 4, 1, 1, 0);
    }
    hide Acks, Mac, Usable;
  }

  lemma SgtinRaises(d: Detector, f: Frame)
    requires d.state == GetSgtin && Acks(f, COMMON, COMMON_ACK, 13, 1)
    ensures Raises(d, f, HandleSgtin(d, f))
  {
    hide Acks, DerivedMac;
  }

  lemma HandleRaises(d: Detector, f: Frame)
    ensures Raises(d, f, Handle(d, f))
  {
    hide HandleStart, HandleApp, HandleSgtin, HandleBidCos, Acks, Mac;
    match d.state
    case StartBl => StartRaises(d, f);
    case StartApp => StartRaises(d, f);
    case GetSgtin =>
      if Acks(f, COMMON, COMMON_ACK, 13, 1) {
        SgtinRaises(d, f);
      }
    case GetBidCosRfAddress => BidCosRaises(d, f);
    case _ =>
  }

  // ----------------------------------------------------------------- the BidCos address

  /** The modules whose BidCos address is derived from the SGTIN. */
  predicate Derives(d: Detector)
  {
    d.moduleType == RPI_RF_MOD || (d.moduleType == HMIP_RFUSB && d.firmware[0] >= 4)
  }

  predicate Legacy(s: DetectState)
  {
    s == LegacyGetVersion || s == LegacyGetBidCosRfAddress || s == LegacyGetSerial
  }

  predicate MacInv(d: Detector)
  {
    (Legacy(d.state) ==> d.moduleType == RPI_PCB || d.moduleType == MODULE_NONE)
    && (d.state == GetSerial ==> !Derives(d))
    && (d.state == GetBidCosRfAddress && Derives(d) ==> Usable(d.bidCosMac))
  }

  lemma DerivedUsable(b: bv8, c: bv8)
    ensures Usable(DerivedMac(b, c))
  {
    assert (0xff_0000 + Number(b, c)) % 65536 == Number(b, c);
  }

  /** The address stays usable, up to the frame that finishes. */
  predicate KeepsMac(d: Detector, r: Detector)
  {
    MacInv(r) && (d.state != Finished && r.state == Finished && Derives(r) ==> Usable(r.bidCosMac))
  }

  lemma StartKeepsMac(d: Detector, f: Frame)
    ensures d.state == StartBl ==> KeepsMac(d, HandleStart(d, f))
    ensures d.state == StartApp ==> KeepsMac(d, HandleApp(d, f))
  {
    hide Identifies, Usable;
  }

  lemma BidCosKeepsMac(d: Detector, f: Frame)
    requires MacInv(d) && d.state == GetBidCosRfAddress
    ensures KeepsMac(d, HandleBidCos(d, f))
  {
    hide Acks, Mac, Usable;
  }

  lemma SgtinKeepsMac(d: Detector, f: Frame)
    requires d.state == GetSgtin && Acks(f, COMMON, COMMON_ACK, 13, 1)
    ensures KeepsMac(d, HandleSgtin(d, f))
  {
    DerivedUsable(f.data[11], f.data[12]);
    hide Acks, DerivedMac, Usable;
  }

  lemma HandleKeepsMac(d: Detector, f: Frame)
    requires MacInv(d)
    ensures KeepsMac(d, Handle(d, f))
  {
    hide HandleStart, HandleApp, HandleSgtin, HandleBidCos, Acks, Mac, Usable;
    match d.state
    case StartBl => StartKeepsMac(d, f);
    case StartApp => StartKeepsMac(d, f);
    case GetSgtin =>
      if Acks(f, COMMON, COMMON_ACK, 13, 1) {
        SgtinKeepsMac(d, f);
      }
    case GetBidCosRfAddress => BidCosKeepsMac(d, f);
    case _ =>
  }

  // --------------------------------------------------------------------- the requests

  /** The request that goes with a state. */
  function Request(state: DetectState): (bv8, bv8)
  {
    match state
    case GetMcuType => (TRX, 0x09)
    case GetVersion => (TRX, 0x02)
    case GetHmIpRfAddress => (HMIP, 0x01)
    case GetSgtin => (COMMON, 0x04)
    case GetBidCosRfAddress => (LLMAC, 0x08)
    case GetSerial => (LLMAC, 0x07)
    case LegacyGetVersion => (HM_SYSTEM, 0x02)
    case LegacyGetBidCosRfAddress => (TRX, 0x10)
    case _ => (HM_SYSTEM, 0x0b)
  }

  /** Only an answer from the destination that was asked changes the state. */
  lemma RequestAnswered(d: Detector, f: Frame)
    requires d.state != StartBl && d.state != StartApp && Handle(d, f).state != d.state
    ensures f.destination == Request(d.state).0
  {
    hide Mac, DerivedMac, Usable;
  }

  // ------------------------------------------------------------------------ the object

  lemma EscapeSize(s: Bytes)
    requires |s| > 0
    ensures |Escape(s)| <= 2 * |s| - 1
  {}

  class RadioModuleDetector {
    var detectState: DetectState
    var radioModuleType: bv8
    var bidCosRadioMAC: nat
    var hmIPRadioMAC: nat
    var sgtin: Text
    var serial: Text
    var firmwareVersion: Version
    var detectMsgCounter: nat
    var semaphore: nat
    /** The frames sent, and their bytes as the connector got them. */
    var sent: seq<Sent>
    var transmitted: seq<Bytes>

    ghost predicate Valid()
      reads this
    {
      |transmitted| == |sent|
      && forall i | 0 <= i < |sent| :: transmitted[i] == Transmission(sent[i])
    }

    ghost function Value(): Detector
      reads this
    {
      Detector(detectState, radioModuleType, bidCosRadioMAC, hmIPRadioMAC, sgtin, serial, firmwareVersion,
        detectMsgCounter, semaphore, sent)
    }

    constructor ()
      ensures Valid() && Value() == Detector(StartBl, MODULE_NONE, 0, 0, Empty, Empty, [0, 0, 0], 0, 0, [])
    {
      detectState, radioModuleType, bidCosRadioMAC, hmIPRadioMAC := StartBl, MODULE_NONE, 0, 0;
      sgtin, serial, firmwareVersion := Empty, Empty, [0, 0, 0];
      detectMsgCounter, semaphore, sent, transmitted := 0, 0, [], [];
    }

    /** Send a frame without data under the next counter. */
    method SendFrame(destination: bv8, command: bv8)
      requires Valid()
      modifies this`detectMsgCounter, this`sent, this`transmitted
      ensures Valid() && Value() == Send(old(Value()), destination, command)
    {
      var bytes := EncodeFrame(Sent(detectMsgCounter, destination, command));
      transmitted := transmitted + [bytes];
      sent := sent + [Sent(detectMsgCounter, destination, command)];
      detectMsgCounter := detectMsgCounter + 1;
    }

    static method EncodeFrame(s: Sent) returns (bytes: Bytes)
      ensures bytes == Transmission(s)
    {
      var frame := new HMFrame();
      frame.counter := Low8(s.counter);
      frame.destination := s.destination;
      frame.command := s.command;
      var sendBuffer := new bv8[18];
      ghost var payload := [s.destination, Low8(s.counter), s.command];
      assert frame.PayloadOf() == payload;
      ghost var out := Escape(Wire(payload));
      assert |out| <= 15 by { EscapeSize(Wire(payload)); }
      hide Escape, Wire, Low8;
      var inside, len := frame.Encode(sendBuffer, 18, true);
      assert len == |out| && sendBuffer[..][..len] == out;
      bytes := sendBuffer[..len];
    }

    method PostState(state: DetectState)
      modifies this`detectState, this`semaphore
      ensures Value() == Post(old(Value()), state)
    {
      detectState := state;
      semaphore := semaphore + 1;
    }

    method OnStart(f: Frame)
      requires Valid()
      modifies this
      ensures Valid() && Value() == HandleStart(old(Value()), f)
    {
      hide Identifies;
      if Identifies(f, COMMON, COMMON_ACK, 1, TRX_BOOTLOADER) {
        radioModuleType := MODULE_UNKNOWN;
        PostState(StartApp);
      } else if Identifies(f, HM_SYSTEM, HM_SYSTEM_ACK, 2, LEGACY_BOOTLOADER) {
        radioModuleType := MODULE_UNKNOWN;
        PostState(StartApp);
      } else if Identifies(f, COMMON, COMMON_ACK, 1, DUAL_APP) {
        radioModuleType := MODULE_UNKNOWN;
        SendFrame(COMMON, 0x02);
      } else if Identifies(f, COMMON, COMMON_ACK, 1, TRX_APP) {
        radioModuleType := MODULE_UNKNOWN;
        SendFrame(COMMON, 0x02);
      } else if Identifies(f, HM_SYSTEM, HM_SYSTEM_ACK, 2, LEGACY_APP) {
        radioModuleType := MODULE_UNKNOWN;
        SendFrame(HM_SYSTEM, 0x03);
      }
    }

    method OnApp(f: Frame)
      requires Valid()
      modifies this
      ensures Valid() && Value() == HandleApp(old(Value()), f)
    {
      hide Identifies;
      if Identifies(f, COMMON, COMMON_ACK, 1, TRX_BOOTLOADER) {
        SendFrame(COMMON, 0x03);
      } else if Identifies(f, HM_SYSTEM, HM_SYSTEM_ACK, 2, LEGACY_BOOTLOADER) {
        SendFrame(HM_SYSTEM, 0x03);
      } else if Identifies(f, COMMON, COMMON_ACK, 1, DUAL_APP) {
        PostState(GetMcuType);
      } else if Identifies(f, COMMON, COMMON_ACK, 1, TRX_APP) {
        PostState(GetMcuType);
      } else if Identifies(f, HM_SYSTEM, HM_SYSTEM_ACK, 2, LEGACY_APP) {
        sgtin := NotAvailable;
        hmIPRadioMAC := 0;
        radioModuleType := RPI_PCB;
        PostState(LegacyGetVersion);
      }
    }

    method DeriveMac(b: bv8, c: bv8)
      modifies this`bidCosRadioMAC
      ensures Value() == old(Value()).(bidCosMac := DerivedMac(b, c))
    {
      hide Number;
      bidCosRadioMAC := 0xff_0000 + Number(b, c);
      if bidCosRadioMAC == 0xff_ffff {
        bidCosRadioMAC := 0xff_fffe;
      }
    }

    method OnSgtin(f: Frame)
      requires Valid() && Acks(f, COMMON, COMMON_ACK, 13, 1)
      modifies this
      ensures Valid() && Value() == HandleSgtin(old(Value()), f)
    {
      assert |f.data| == 13;
      hide DerivedMac, Acks;
      sgtin := Hex(f.data[1..13]);
      var next := GetBidCosRfAddress;
      if radioModuleType == RPI_RF_MOD || radioModuleType == HMIP_RFUSB {
        serial := Hex(f.data[8..13]);
        if radioModuleType == HMIP_RFUSB && firmwareVersion[0] < 4 {
          bidCosRadioMAC := 0;
          next := Finished;
        } else {
          DeriveMac(f.data[11], f.data[12]);
        }
      }
      PostState(next);
    }

    method OnBidCos(f: Frame)
      requires Valid()
      modifies this
      ensures Valid() && Value() == HandleBidCos(old(Value()), f)
    {
      hide Mac;
      if Acks(f, LLMAC, LLMAC_ACK, 4, 1) {
        var radioMac := Mac(f.data[1], f.data[2], f.data[3]);
        if radioMac != 0 && radioMac % 65536 != 65535 {
          bidCosRadioMAC := radioMac;
        }
        PostState(if radioModuleType == RPI_PCB then GetSerial else Finished);
      } else if Acks(f, LLMAC, LLMAC_ACK, 1, 0) {
        if radioModuleType == RPI_RF_MOD || radioModuleType == HMIP_RFUSB {
          detectState := Finished;
        } else {
          detectState := detectState;
        }
        PostState(detectState);
      }
    }

    /** The frame handler: a buffer that is no valid frame changes nothing. */
    method HandleFrame(buffer: array<bv8>, len: nat)
      requires Valid() && len <= buffer.Length && len < 65536
      modifies this
      ensures Valid()
      ensures Value() ==
        if Accepted(buffer[..len]) then Handle(old(Value()), FrameIn(buffer[..len])) else old(Value())
    {
      hide Accepted, Payload;
      var frame := new HMFrame();
      var ok := HMFrame.TryParse(buffer, len, frame);
      if !ok {
        return;
      }
      var f := Frame(frame.destination, frame.counter, frame.command,
          frame.data[frame.offset..frame.offset + frame.dataLen]);
      assert f == FrameIn(buffer[..len]) by { PayloadFields(frame); }
      Dispatch(f);
    }

    /** The switch on the state. */
    method Dispatch(f: Frame)
      requires Valid()
      modifies this
      ensures Valid() && Value() == Handle(old(Value()), f)
    {
      hide Identifies, Acks;
      match detectState {
        case StartBl => OnStart(f);
        case StartApp => OnApp(f);
        case GetSgtin =>
          if Acks(f, COMMON, COMMON_ACK, 13, 1) {
            OnSgtin(f);
          }
        case GetBidCosRfAddress => OnBidCos(f);
        case _ => StoreAnswer(f);
      }
    }

    /** The states in which an answer is only stored. */
    method StoreAnswer(f: Frame)
      requires Valid()
      requires detectState != StartBl && detectState != StartApp && detectState != GetSgtin
          && detectState != GetBidCosRfAddress
      modifies this
      ensures Valid() && Value() == Handle(old(Value()), f)
    {
      match detectState {
        case GetMcuType =>
          if Acks(f, TRX, TRX_ACK, 2, 1) {
            radioModuleType := f.data[1];
            PostState(GetVersion);
          }
        case GetVersion =>
          if Acks(f, TRX, TRX_ACK, 10, 1) {
            firmwareVersion := f.data[1..4];
            PostState(GetHmIpRfAddress);
          }
        case GetHmIpRfAddress =>
          if Acks(f, HMIP, HMIP_ACK, 4, 1) {
            hmIPRadioMAC := Mac(f.data[1], f.data[2], f.data[3]);
            PostState(GetSgtin);
          }
        case GetSerial =>
          if Acks(f, LLMAC, LLMAC_ACK, 11, 1) {
            serial := Raw(f.data[1..11]);
            PostState(Finished);
          }
        case LegacyGetVersion =>
          if Acks(f, HM_SYSTEM, HM_SYSTEM_ACK, 7, 2) {
            firmwareVersion := f.data[4..7];
            PostState(LegacyGetBidCosRfAddress);
          }
        case LegacyGetBidCosRfAddress =>
          if f.destination == TRX && f.command == TRX_ACK && |f.data| == 6 {
            bidCosRadioMAC := Mac(f.data[3], f.data[4], f.data[5]);
            PostState(LegacyGetSerial);
          }
        case LegacyGetSerial =>
          if Acks(f, HM_SYSTEM, HM_SYSTEM_ACK, 11, 2) {
            serial := Raw(f.data[1..11]);
            PostState(Finished);
          }
        case Finished =>
      }
    }
  }

  /** The bytes of a frame without data, stuffed. */
  function Transmission(s: Sent): Bytes
  {
    Escape(Wire([s.destination, Low8(s.counter), s.command]))
  }

  /** The frame in an accepted buffer. */
  function FrameIn(s: Bytes): Frame
    requires Accepted(s)
  {
    var p := Payload(s);
    Frame(p[0], p[1], p[2], p[3..])
  }

  /** Where a buffer carries what the handler looks at. */
  lemma FrameInFields(s: Bytes)
    requires Accepted(s)
    ensures FrameIn(s) == Frame(s[3], s[4], s[5], s[6..|s| - 2])
  {
    hide Pair, Checksum, Number;
  }

  /** A request on the wire, its stuffing undone. */
  lemma TransmittedFields(s: Sent)
    ensures
      var t := Transmission(s);
      |t| > 0 && t[0] == 0xfd
      && var u := [t[0]] + Unstuff(t[1..]);
         |u| == 8 && u[3] == s.destination && u[4] as int == s.counter % 256 && u[5] == s.command
  {
    hide Wire, Low8;
    var c := Low8(s.counter);
    LowByteValue(s.counter);
    WireFields(s.destination, c, [s.command], []);
    assert [s.destination, c] + [s.command] == [s.destination, c, s.command];
    var w := Wire([s.destination, c, s.command]);
    assert w + [] == w && w[5] == w[5..6][0];
    UnstuffStuff(w[1..]);
    assert [w[0]] + w[1..] == w && Transmission(s)[1..] == Stuff(w[1..]);
    hide Unstuff, Stuff, Number, Pair, Checksum;
  }

  lemma LowByteValue(n: nat)
    ensures Low8(n) as int == n % 256
  {
    ByteOfInt(n % 256);
  }

  lemma PayloadFields(frame: HMFrame)
    requires frame.Valid()
    ensures
      var p := frame.PayloadOf();
      p[0] == frame.destination && p[1] == frame.counter && p[2] == frame.command
      && p[3..] == frame.data[frame.offset..frame.offset + frame.dataLen]
  {}
}
