/**
 * SCardDemoApp.APDUExchangeViewModel: the state behind the APDU exchange
 * page. It holds one command APDU (CLA, INS, P1, P2, Le and the data field)
 * and the last response APDU (SW1, SW2 and the response data) -- the
 * command-response pair of section 5.1 of ISO/IEC 7816-4 -- edited through
 * hexadecimal text properties, together with how many characters were last
 * typed into each field, the connection flag, the reader name and a status
 * line. The smart card itself is a collaborator passed to the three
 * commands.
 */
module Apdu {
  import opened Wrappers
  import opened ByteParsing
  import opened Convert
  import opened Notification

  /** The command APDU the view model edits and transmits. */
  datatype ApduCommand = ApduCommand(cla: byte, ins: byte, p1: byte, p2: byte, le: byte, data: seq<byte>)

  /** The response APDU the card returns: the two status bytes and the response data. */
  datatype ApduResponse = ApduResponse(sw1: byte, sw2: byte, data: seq<byte>)

  /** What the card reports for a connect or a disconnect: success, or the message of the exception it throws. */
  datatype CardOutcome = Done | Failed(message: string)

  const ClassProp: string := "Class"
  const InsProp: string := "Ins"
  const P1Prop: string := "P1"
  const P2Prop: string := "P2"
  const LeProp: string := "Le"
  const DataProp: string := "Data"
  const SW1Prop: string := "SW1"
  const SW2Prop: string := "SW2"
  const ResponseDataProp: string := "ResponseData"
  const ReaderNameProp: string := "ReaderName"
  const ConnectedProp: string := "Connected"
  const StatusProp: string := "Status"

  const CardConnectedMessage: string := "Card connected."
  const CardDisconnectedMessage: string := "Card disconnected."
  const TransmitSuccessfulMessage: string := "Transmit successful."
  const ReconnectSuffix: string := ". Please disconnect and reconnect to continue"

  /** The command a fresh view model holds: SELECT FILE (A0 A4 00 00) of the master file 3F00. */
  const DefaultCommand: ApduCommand := ApduCommand(0xA0, 0xA4, 0, 0, 0, [0x3F, 0x00])

  /** The text HexToString writes: exactly two upper-case hexadecimal digits. */
  predicate IsCanonicalHex(s: string) {
    |s| == 2 && IsUpperHexDigit(s[0]) && IsUpperHexDigit(s[1])
  }

  /** What a setter reports: Pass, or Fail with the parse error its conversion throws. */
  function OutcomeOf<T>(r: Result<T, ParseError>): (o: Outcome<ParseError>)
    ensures o.Pass? <==> r.Ok?
    ensures r.Err? ==> o == Fail(r.error)
  {
    if r.Ok? then Pass else Fail(r.error)
  }

  class ApduExchangeViewModel {
    var command: ApduCommand
    /** The last response; None until a transmit succeeds. */
    var response: Option<ApduResponse>
    var readerName: string
    var connected: bool
    /** The status line; None until the first command sets it. */
    var status: Option<string>
    /** The length of the text last typed into each field (the *Length properties). */
    var classLength: nat
    var insLength: nat
    var p1Length: nat
    var p2Length: nat
    var dataLength: nat
    /** The notification part this view model inherits. */
    const events: NotifyPropertyChanged

    /** The view model declares no dependent properties, so each announcement is a single event. */
    predicate Valid()
      reads this, events
    {
      events.dependencies == []
    }

    constructor ()
      ensures command == DefaultCommand && response == None
      ensures classLength == 2 && insLength == 2 && p1Length == 2 && p2Length == 2 && dataLength == 4
      ensures !connected && readerName == [] && status == None
      ensures fresh(events) && events.log == [] && Valid()
      ensures !CanExecuteConnectCommand() && !CanExecuteDisconnectCommand() && !CanExecuteTransmitCommand()
    {
      command := DefaultCommand;
      response := None;
      readerName := [];
      connected := false;
      status := None;
      classLength, insLength, dataLength, p1Length, p2Length := 2, 2, 4, 2, 2;
      events := new NotifyPropertyChanged();
    }

    // -------------------------------------------------------------------------
    // Readiness of the three commands

    predicate CanExecuteConnectCommand()
      reads this
    {
      !connected && readerName != []
    }

    predicate CanExecuteDisconnectCommand()
      reads this
    {
      connected
    }

    /** Only the typed lengths and the connection count: neither Le nor whether the text parsed plays a part. */
    predicate CanExecuteTransmitCommand()
      reads this
    {
      connected && classLength == 2 && insLength == 2 && p1Length == 2 && p2Length == 2 && dataLength % 2 == 0
    }

    // -------------------------------------------------------------------------
    // Getters

    function Class(): (text: string)
      reads this
      ensures IsCanonicalHex(text) && ParseByteToHex(text) == Ok(command.cla)
    {
      HexRoundTrip(command.cla);
      HexToString(command.cla)
    }

    function Ins(): (text: string)
      reads this
      ensures IsCanonicalHex(text) && ParseByteToHex(text) == Ok(command.ins)
    {
      HexRoundTrip(command.ins);
      HexToString(command.ins)
    }

    function P1(): (text: string)
      reads this
      ensures IsCanonicalHex(text) && ParseByteToHex(text) == Ok(command.p1)
    {
      HexRoundTrip(command.p1);
      HexToString(command.p1)
    }

    function P2(): (text: string)
      reads this
      ensures IsCanonicalHex(text) && ParseByteToHex(text) == Ok(command.p2)
    {
      HexRoundTrip(command.p2);
      HexToString(command.p2)
    }

    /** Le is shown in decimal, and reads back through the Le setter's parse. */
    function Le(): (text: string)
      reads this
      ensures text != [] && ParseDecimal(text) == Ok(command.le)
    {
      DecimalRoundTrip(command.le);
      DecimalText(command.le as nat)
    }

    method Data() returns (text: string)
      ensures text == HexOfBuffer(command.data)
      ensures |text| == 2 * |command.data| && DecodeBuffer(text) == Ok(command.data)
    {
      text := BufferToString(command.data);
      BufferRoundTrip(command.data);
    }

    function SW1(): (text: string)
      reads this
      ensures response == None <==> text == []
      ensures response != None ==> ParseByteToHex(text) == Ok(response.value.sw1)
    {
      if response == None then [] else HexRoundTrip(response.value.sw1); HexToString(response.value.sw1)
    }

    function SW2(): (text: string)
      reads this
      ensures response == None <==> text == []
      ensures response != None ==> ParseByteToHex(text) == Ok(response.value.sw2)
    {
      if response == None then [] else HexRoundTrip(response.value.sw2); HexToString(response.value.sw2)
    }

    method ResponseData() returns (text: string)
      ensures response == None ==> text == []
      ensures response != None ==> text == HexOfBuffer(response.value.data)
      ensures response != None ==> DecodeBuffer(text) == Ok(response.value.data)
    {
      if response == None {
        text := [];
      } else {
        text := BufferToString(response.value.data);
        BufferRoundTrip(response.value.data);
      }
    }

    // -------------------------------------------------------------------------
    // Notification

    /** RaisePropertyChanged on this view model: with no dependencies, one event. */
    method Raise(name: string)
      requires Valid()
      modifies events`log
      ensures events.log == old(events.log) + [name]
    {
      ghost var rank := map[name := 0];
      events.RaisePropertyChanged(name, rank);
      RaisedAlone(events.dependencies, name, rank);
    }

    // -------------------------------------------------------------------------
    // Setters of the command fields. Each records the typed length first
    // (where it does), then converts; a text that does not convert leaves the
    // command as it was, announces nothing and reports the error.

    method SetClass(value: string) returns (outcome: Outcome<ParseError>)
      requires Valid()
      modifies this`classLength, this`command, events`log
      ensures Valid() && classLength == |value| && outcome == OutcomeOf(ParseByteToHex(value))
      ensures outcome.Pass? ==> command == old(command).(cla := ParseByteToHex(value).value) && events.log == old(events.log) + [ClassProp]
      ensures outcome.Fail? ==> command == old(command) && events.log == old(events.log)
      ensures CanExecuteTransmitCommand() <==> connected && |value| == 2 && insLength == 2 && p1Length == 2 && p2Length == 2 && dataLength % 2 == 0
    {
      classLength := |value|;
      var parsed := ParseByteToHex(value);
      if parsed.Err? {
        return Fail(parsed.error);
      }
      command := command.(cla := parsed.value);
      Raise(ClassProp);
      outcome := Pass;
    }

    method SetIns(value: string) returns (outcome: Outcome<ParseError>)
      requires Valid()
      modifies this`insLength, this`command, events`log
      ensures Valid() && insLength == |value| && outcome == OutcomeOf(ParseByteToHex(value))
      ensures outcome.Pass? ==> command == old(command).(ins := ParseByteToHex(value).value) && events.log == old(events.log) + [InsProp]
      ensures outcome.Fail? ==> command == old(command) && events.log == old(events.log)
      ensures CanExecuteTransmitCommand() <==> connected && classLength == 2 && |value| == 2 && p1Length == 2 && p2Length == 2 && dataLength % 2 == 0
    {
      insLength := |value|;
      var parsed := ParseByteToHex(value);
      if parsed.Err? {
        return Fail(parsed.error);
      }
      command := command.(ins := parsed.value);
      Raise(InsProp);
      outcome := Pass;
    }

    method SetP1(value: string) returns (outcome: Outcome<ParseError>)
      requires Valid()
      modifies this`p1Length, this`command, events`log
      ensures Valid() && p1Length == |value| && outcome == OutcomeOf(ParseByteToHex(value))
      ensures outcome.Pass? ==> command == old(command).(p1 := ParseByteToHex(value).value) && events.log == old(events.log) + [P1Prop]
      ensures outcome.Fail? ==> command == old(command) && events.log == old(events.log)
      ensures CanExecuteTransmitCommand() <==> connected && classLength == 2 && insLength == 2 && |value| == 2 && p2Length == 2 && dataLength % 2 == 0
    {
      p1Length := |value|;
      var parsed := ParseByteToHex(value);
      if parsed.Err? {
        return Fail(parsed.error);
      }
      command := command.(p1 := parsed.value);
      Raise(P1Prop);
      outcome := Pass;
    }

    /** The P2 setter records no length at all: P2Length is left as it was. */
    method SetP2(value: string) returns (outcome: Outcome<ParseError>)
      requires Valid()
      modifies this`command, events`log
      ensures Valid() && outcome == OutcomeOf(ParseByteToHex(value))
      ensures outcome.Pass? ==> command == old(command).(p2 := ParseByteToHex(value).value) && events.log == old(events.log) + [P2Prop]
      ensures outcome.Fail? ==> command == old(command) && events.log == old(events.log)
      ensures CanExecuteTransmitCommand() == old(CanExecuteTransmitCommand())
    {
      var parsed := ParseByteToHex(value);
      if parsed.Err? {
        return Fail(parsed.error);
      }
      command := command.(p2 := parsed.value);
      Raise(P2Prop);
      outcome := Pass;
    }

    /** The Le setter parses decimal and records the typed length in P2Length. */
    method SetLe(value: string) returns (outcome: Outcome<ParseError>)
      requires Valid()
      modifies this`p2Length, this`command, events`log
      ensures Valid() && p2Length == |value| && outcome == OutcomeOf(ParseDecimal(value))
      ensures outcome.Pass? ==> command == old(command).(le := ParseDecimal(value).value) && events.log == old(events.log) + [LeProp]
      ensures outcome.Fail? ==> command == old(command) && events.log == old(events.log)
      ensures CanExecuteTransmitCommand() <==> connected && classLength == 2 && insLength == 2 && p1Length == 2 && |value| == 2 && dataLength % 2 == 0
    {
      p2Length := |value|;
      var parsed := ParseDecimal(value);
      if parsed.Err? {
        return Fail(parsed.error);
      }
      command := command.(le := parsed.value);
      Raise(LeProp);
      outcome := Pass;
    }

    method SetData(value: string) returns (outcome: Outcome<ParseError>)
      requires Valid()
      modifies this`dataLength, this`command, events`log
      ensures Valid() && dataLength == |value| && outcome == OutcomeOf(DecodeBuffer(value))
      ensures outcome.Pass? ==> command == old(command).(data := DecodeBuffer(value).value) && events.log == old(events.log) + [DataProp]
      ensures outcome.Fail? ==> command == old(command) && events.log == old(events.log)
      ensures CanExecuteTransmitCommand() <==> connected && classLength == 2 && insLength == 2 && p1Length == 2 && p2Length == 2 && |value| % 2 == 0
    {
      dataLength := |value|;
      var parsed := ParseBufferToHex(value);
      if parsed.Err? {
        return Fail(parsed.error);
      }
      command := command.(data := parsed.value);
      Raise(DataProp);
      outcome := Pass;
    }

    /**
     * The P2 setter as its neighbours evidently intend it: the typed length
     * is recorded in P2Length, so the P2 text gates transmission as the
     * Class, Ins and P1 texts do.
     */
    method SetP2Recorded(value: string) returns (outcome: Outcome<ParseError>)
      requires Valid()
      modifies this`p2Length, this`command, events`log
      ensures Valid() && p2Length == |value| && outcome == OutcomeOf(ParseByteToHex(value))
      ensures outcome.Pass? ==> command == old(command).(p2 := ParseByteToHex(value).value) && events.log == old(events.log) + [P2Prop]
      ensures outcome.Fail? ==> command == old(command) && events.log == old(events.log)
      ensures CanExecuteTransmitCommand() <==> connected && classLength == 2 && insLength == 2 && p1Length == 2 && |value| == 2 && dataLength % 2 == 0
    {
      p2Length := |value|;
      var parsed := ParseByteToHex(value);
      if parsed.Err? {
        return Fail(parsed.error);
      }
      command := command.(p2 := parsed.value);
      Raise(P2Prop);
      outcome := Pass;
    }

    /**
     * The Le setter as evidently intended: Le has no length counter of its
     * own, so its text leaves P2Length, and with it transmit readiness, alone.
     */
    method SetLeUnrecorded(value: string) returns (outcome: Outcome<ParseError>)
      requires Valid()
      modifies this`command, events`log
      ensures Valid() && outcome == OutcomeOf(ParseDecimal(value))
      ensures outcome.Pass? ==> command == old(command).(le := ParseDecimal(value).value) && events.log == old(events.log) + [LeProp]
      ensures outcome.Fail? ==> command == old(command) && events.log == old(events.log)
      ensures CanExecuteTransmitCommand() == old(CanExecuteTransmitCommand())
    {
      var parsed := ParseDecimal(value);
      if parsed.Err? {
        return Fail(parsed.error);
      }
      command := command.(le := parsed.value);
      Raise(LeProp);
      outcome := Pass;
    }

    // -------------------------------------------------------------------------
    // Setters of the connection state

    method SetConnected(value: bool)
      requires Valid()
      modifies this`connected, events`log
      ensures Valid() && connected == value && events.log == old(events.log) + [ConnectedProp]
    {
      connected := value;
      Raise(ConnectedProp);
    }

    method SetReaderName(value: string)
      requires Valid()
      modifies this`readerName, events`log
      ensures Valid() && readerName == value && events.log == old(events.log) + [ReaderNameProp]
    {
      readerName := value;
      Raise(ReaderNameProp);
    }

    method SetStatus(value: string)
      requires Valid()
      modifies this`status, events`log
      ensures Valid() && status == Some(value) && events.log == old(events.log) + [StatusProp]
    {
      status := Some(value);
      Raise(StatusProp);
    }

    // -------------------------------------------------------------------------
    // The three commands. None of them checks its own readiness predicate.

    /** Connects to the reader named: connected on success, disconnected with the card's message on failure. */
    method ConnectExecute(card: string -> CardOutcome)
      requires Valid()
      modifies this`status, this`connected, events`log
      ensures Valid() && events.log == old(events.log) + [StatusProp, ConnectedProp]
      ensures card(readerName) == Done ==> status == Some(CardConnectedMessage) && connected
      ensures card(readerName) != Done ==> status == Some(card(readerName).message) && !connected
      ensures card(readerName) == Done ==> CanExecuteDisconnectCommand() && !CanExecuteConnectCommand()
      ensures card(readerName) != Done ==> !CanExecuteDisconnectCommand() && !CanExecuteTransmitCommand()
    {
      var reply := card(readerName);
      match reply {
        case Done =>
          SetStatus(CardConnectedMessage);
          SetConnected(true);
        case Failed(message) =>
          SetStatus(message);
          SetConnected(false);
      }
    }

    /** Disconnects (the card is unpowered): disconnected whether or not the card reports an error. */
    method DisconnectExecute(reply: CardOutcome)
      requires Valid()
      modifies this`status, this`connected, events`log
      ensures Valid() && events.log == old(events.log) + [StatusProp, ConnectedProp]
      ensures !connected && !CanExecuteDisconnectCommand() && !CanExecuteTransmitCommand()
      ensures CanExecuteConnectCommand() <==> readerName != []
      ensures reply == Done ==> status == Some(CardDisconnectedMessage)
      ensures reply != Done ==> status == Some(reply.message)
    {
      match reply {
        case Done =>
          SetStatus(CardDisconnectedMessage);
          SetConnected(false);
        case Failed(message) =>
          SetStatus(message);
          SetConnected(false);
      }
    }

    /**
     * Transmits the current command: on success the response is replaced and
     * its three properties announced; on failure the response is kept and the
     * status asks for a reconnect.
     */
    method TransmitExecute(card: ApduCommand -> Result<ApduResponse, string>)
      requires Valid()
      modifies this`response, this`status, events`log
      ensures Valid()
      ensures card(command).Ok? ==> response == Some(card(command).value) && status == Some(TransmitSuccessfulMessage)
      ensures card(command).Ok? ==> events.log == old(events.log) + [StatusProp, SW1Prop, SW2Prop, ResponseDataProp]
      ensures card(command).Err? ==> response == old(response) && status == Some(card(command).error + ReconnectSuffix)
      ensures card(command).Err? ==> events.log == old(events.log) + [StatusProp]
    {
      var reply := card(command);
      match reply {
        case Ok(resp) =>
          response := Some(resp);
          SetStatus(TransmitSuccessfulMessage);
          Raise(SW1Prop);
          Raise(SW2Prop);
          Raise(ResponseDataProp);
        case Err(message) =>
          SetStatus(message + ReconnectSuffix);
      }
    }
  }

  // ---------------------------------------------------------------------------
  // Scenarios on a fresh view model connected to a card that accepts everything

  /** A fresh view model, given a reader name and connected, can transmit its default command. */
  method ConnectedFresh() returns (vm: ApduExchangeViewModel)
    ensures fresh(vm) && fresh(vm.events) && vm.Valid()
    ensures vm.command == DefaultCommand && vm.connected && vm.CanExecuteTransmitCommand()
  {
    vm := new ApduExchangeViewModel();
    vm.SetReaderName("Reader 0");
    vm.ConnectExecute(reader => Done);
  }

  /**
   * A one-digit class is read as a number, not refused: "A" stores 0x0A and
   * displays "0A", while the recorded length 1 disables transmit.
   */
  method OneDigitClassScenario() returns (outcome: Outcome<ParseError>, cla: byte, shown: string, ready: bool)
    ensures outcome == Pass && cla == 0x0A && shown == "0A" && !ready
  {
    var vm := ConnectedFresh();
    SingleDigitParses('A');
    outcome := vm.SetClass("A");
    cla := vm.command.cla;
    CanonicalPair('0', 'A');
    shown := vm.Class();
    ready := vm.CanExecuteTransmitCommand();
  }

  /** Hex validity plays no part in readiness: "ZZ" is refused by the Class parse yet transmit stays enabled. */
  method UnparsableClassKeepsTransmitEnabled() returns (outcome: Outcome<ParseError>, ready: bool, cla: byte)
    ensures outcome == Fail(FormatError) && ready && cla == 0xA0
  {
    var vm := ConnectedFresh();
    ParseByteToHexRejectsNonHex("ZZ", 0);
    outcome := vm.SetClass("ZZ");
    ready := vm.CanExecuteTransmitCommand();
    cla := vm.command.cla;
  }

  /** Two upper-case digits and one more character decode as the two digits alone: to the byte they spell. */
  lemma PairWithOddTailDecodes(high: char, low: char, c: char)
    requires IsUpperHexDigit(high) && IsUpperHexDigit(low) && c != ' '
    ensures DecodeBuffer([high, low, c]) == Ok([(DigitValue(high) * 16 + DigitValue(low)) as byte])
  {
    var pair := [high, low];
    assert pair + [c] == [high, low, c];
    assert DecodeBuffer(pair + [c]) == DecodeGroups(pair) by {
      EvenTextWithOddTail(pair, c);
    }
    PairDecodes(high, low);
  }

  /** A space-free text of even length followed by one more character decodes as its groups alone. */
  lemma EvenTextWithOddTail(text: string, c: char)
    requires |text| % 2 == 0 && c != ' '
    requires forall i | 0 <= i < |text| :: text[i] != ' '
    ensures DecodeBuffer(text + [c]) == DecodeGroups(text)
  {
    WithoutSpacesOfSpaceFree(text);
    assert DropOddTail(text) == text;
    DropsOddTrailingCharacter(text, c);
  }

  lemma PairDecodes(high: char, low: char)
    requires IsUpperHexDigit(high) && IsUpperHexDigit(low)
    ensures DecodeGroups([high, low]) == Ok([(DigitValue(high) * 16 + DigitValue(low)) as byte])
  {
    var pair := [high, low];
    CanonicalPair(high, low);
    var b := (DigitValue(high) * 16 + DigitValue(low)) as byte;
    assert ParseByteToHex(pair[..2]) == Ok(b) by {
      assert pair[..2] == pair;
    }
    DecodeGroupsStep(ParseByteToHex, pair, b);
    var rest: string := [];
    assert pair[2..] == rest;
    assert DecodeGroups(rest) == Ok([]);
    var one: seq<byte> := [b];
    assert one + [] == one;
  }

  /**
   * Typing "3F0" into Data: the unpaired '0' is lost, so the data becomes 3F
   * and the field shows "3F", while the odd typed length disables transmit.
   */
  method OddDataScenario() returns (outcome: Outcome<ParseError>, data: seq<byte>, shown: string, ready: bool)
    ensures outcome == Pass && data == [0x3F] && shown == "3F" && !ready
  {
    var vm := ConnectedFresh();
    PairWithOddTailDecodes('3', 'F', '0');
    outcome := vm.SetData("3F0");
    data := vm.command.data;
    CanonicalPair('3', 'F');
    SingleByteText(0x3F);
    shown := vm.Data();
    ready := vm.CanExecuteTransmitCommand();
  }

  /** The text of a one-byte buffer is that byte's pair. */
  lemma SingleByteText(b: byte)
    ensures HexOfBuffer([b]) == HexToString(b)
  {
    assert [b][1..] == [];
  }

  /** As written, a one-digit P2 leaves transmit enabled: the P2 setter records no length. */
  method P2TextLengthIgnored() returns (outcome: Outcome<ParseError>, ready: bool)
    ensures outcome == Pass && ready
  {
    var vm := ConnectedFresh();
    SingleDigitParses('1');
    outcome := vm.SetP2("1");
    ready := vm.CanExecuteTransmitCommand();
  }

  /** As written, typing the three-digit Le 255 disables transmit, because its length lands in P2Length. */
  method LeTextDisablesTransmit() returns (ready: bool, p2Length: nat)
    ensures !ready && p2Length == 3
  {
    var vm := ConnectedFresh();
    var _ := vm.SetLe("255");
    ready := vm.CanExecuteTransmitCommand();
    p2Length := vm.p2Length;
  }

  /** With the corrected setters, the one-digit P2 disables transmit and the Le 255 does not. */
  method CorrectedSettersGateOnP2() returns (afterP2: bool, afterLe: bool)
    ensures !afterP2 && afterLe
  {
    var vm := ConnectedFresh();
    var _ := vm.SetLeUnrecorded("255");
    afterLe := vm.CanExecuteTransmitCommand();
    var _ := vm.SetP2Recorded("1");
    afterP2 := vm.CanExecuteTransmitCommand();
  }
}
