/**
 * The communication core of the hoverboard remote: the diagnostic frame
 * markup, the ESP-NOW send wrapper with its scan cooldown, the ESP-NOW
 * receive filter, the bounded UART drain, the buzzer command flush, the relay
 * handler wiring between the UART endpoint (hbpOut) and the ESP-NOW endpoint
 * (hbpIn), and the PWM mixing rule.
 *
 * Configuration modelled: INPUT_ESPNOW together with OUTPUT_PROTOCOL_UART,
 * with every debug switch off.
 */
module Communication {

  type byte = b: int | 0 <= b < 256

  /** A 6-byte ESP-NOW MAC address. */
  type Mac = m: seq<byte> | |m| == 6 witness [0, 0, 0, 0, 0, 0]

  datatype Option<T> = None | Some(value: T)

  /** `data[0..len)`, the part of a buffer a C loop `for (i = 0; i < len; i++)` visits. */
  function Prefix<T>(data: seq<T>, len: int): (p: seq<T>)
    requires len <= |data|
    ensures |p| == (if len > 0 then len else 0)
    ensures forall i :: 0 <= i < |p| ==> p[i] == data[i]
  {
    if len > 0 then data[..len] else []
  }

  // ---------------------------------------------------------------------
  // Diagnostic frame markup (protocolMarkup)
  // ---------------------------------------------------------------------

  /** The interface tag printed first; `prefix` selects it. */
  datatype Source = OutUart | OutEspNow | InEspNow | Interface(prefix: int)

  function SourceOf(prefix: int): (s: Source)
    ensures prefix == 0 <==> s == OutUart
    ensures prefix == 1 <==> s == OutEspNow
    ensures prefix == 2 <==> s == InEspNow
    ensures s.Interface? ==> s.prefix == prefix
  {
    if prefix == 0 then OutUart
    else if prefix == 1 then OutEspNow
    else if prefix == 2 then InEspNow
    else Interface(prefix)
  }

  /** The command names the markup knows for byte 4 of a frame. */
  datatype CommandName =
    | SetPointPwm | SetPointPwmData | ProtocolSubscriptions | SensHall
    | ProtocolCountSum | SetBuzzer | EnableMotors | SensElectrical
  {
    /** Position of the name's test in the index-4 if-chain. */
    function Rank(): nat {
      match this
      case SetPointPwm => 0
      case SetPointPwmData => 1
      case ProtocolSubscriptions => 2
      case SensHall => 3
      case ProtocolCountSum => 4
      case SetBuzzer => 5
      case EnableMotors => 6
      case SensElectrical => 7
    }
  }

  /**
   * The numeric values of the HoverboardAPI codes the markup recognises.
   * Their values live in the protocol library's header, so they are a
   * parameter of the model.
   */
  datatype CodeTable = CodeTable(
    setPointPwm: byte, setPointPwmData: byte, protocolSubscriptions: byte,
    sensHall: byte, protocolCountSum: byte, setBuzzer: byte,
    enableMotors: byte, sensElectrical: byte)
  {
    function CodeOf(n: CommandName): byte {
      match n
      case SetPointPwm => setPointPwm
      case SetPointPwmData => setPointPwmData
      case ProtocolSubscriptions => protocolSubscriptions
      case SensHall => sensHall
      case ProtocolCountSum => protocolCountSum
      case SetBuzzer => setBuzzer
      case EnableMotors => enableMotors
      case SensElectrical => sensElectrical
    }

    /** No two command names share a code. */
    predicate Distinct() {
      forall m: CommandName, n: CommandName :: m != n ==> CodeOf(m) != CodeOf(n)
    }
  }

  /** The if-chain of the index-4 case: the first code in source order that matches wins. */
  function LookupName(codes: CodeTable, b: byte): (r: Option<CommandName>)
    ensures r.Some? ==> codes.CodeOf(r.value) == b
    ensures r.Some? ==> forall m: CommandName :: m.Rank() < r.value.Rank() ==> codes.CodeOf(m) != b
    ensures r.None? <==> forall n: CommandName :: codes.CodeOf(n) != b
  {
    if b == codes.setPointPwm then Some(SetPointPwm)
    else if b == codes.setPointPwmData then Some(SetPointPwmData)
    else if b == codes.protocolSubscriptions then Some(ProtocolSubscriptions)
    else if b == codes.sensHall then Some(SensHall)
    else if b == codes.protocolCountSum then Some(ProtocolCountSum)
    else if b == codes.setBuzzer then Some(SetBuzzer)
    else if b == codes.enableMotors then Some(EnableMotors)
    else if b == codes.sensElectrical then Some(SensElectrical)
    else None
  }

  /**
   * What a field is printed as: `SOM:`, `CI:`, `len:`, `CMD:`, a command
   * name, the `Code:0x..` fallback, a bare hex byte, or the `CS:0x..` checksum.
   */
  datatype Label = Som | Ci | Len | Cmd | Name(name: CommandName) | Code | Hex | Checksum

  /** One printed field: its label and the byte it shows. */
  datatype Field = Field(tag: Label, value: byte)

  /** One markup line: the interface tag, then the fields in index order. */
  datatype Line = Line(source: Source, fields: seq<Field>)

  /** The label of byte `i` of a frame of declared length `len` (the body of the switch). */
  function LabelAt(i: nat, len: int, b: byte, codes: CodeTable): Label {
    if i == 0 then Som
    else if i == 1 then Ci
    else if i == 2 then Len
    else if i == 3 then Cmd
    else if i == 4 && i != len - 1 then
      match LookupName(codes, b)
      case Some(n) => Name(n)
      case None => Code
    else if i == len - 1 then Checksum
    else Hex
  }

  /** The line protocolMarkup prints for `data[0..len)` and `prefix`. */
  function Markup(data: seq<byte>, len: int, prefix: int, codes: CodeTable): Line
    requires len <= |data|
  {
    var p := Prefix(data, len);
    Line(SourceOf(prefix), seq(|p|, i requires 0 <= i < |p| => Field(LabelAt(i, len, p[i], codes), p[i])))
  }

  /** protocolMarkup: one field per index `i < len`, each decided by `i`, `len` and `data[i]`. */
  method ProtocolMarkup(data: seq<byte>, len: int, prefix: int, codes: CodeTable) returns (line: Line)
    requires len <= |data|
    ensures line == Markup(data, len, prefix, codes)
  {
    var fields: seq<Field> := [];
    var i := 0;
    while i < len
      invariant 0 <= i <= |Prefix(data, len)|
      invariant |fields| == i
      invariant forall k :: 0 <= k < i ==> fields[k] == Field(LabelAt(k, len, data[k], codes), data[k])
    {
      fields := fields + [Field(LabelAt(i, len, data[i], codes), data[i])];
      i := i + 1;
    }
    line := Line(SourceOf(prefix), fields);
  }

  /** Number of fields carrying label `l`. */
  function CountLabel(fields: seq<Field>, l: Label): nat {
    if fields == [] then 0
    else (if fields[0].tag == l then 1 else 0) + CountLabel(fields[1..], l)
  }

  /** The line has one field per byte of `data[0..len)`, in index order, each showing that byte. */
  lemma MarkupLayout(data: seq<byte>, len: int, prefix: int, codes: CodeTable)
    requires len <= |data|
    ensures var line := Markup(data, len, prefix, codes);
      && line.source == SourceOf(prefix)
      && |line.fields| == (if len > 0 then len else 0)
      && forall i :: 0 <= i < |line.fields| ==> line.fields[i].value == data[i]
  {
  }

  /** Bytes at or past `len` are never read: two buffers that agree below `len` give the same line. */
  lemma MarkupReadsOnlyDeclaredLength(data: seq<byte>, other: seq<byte>, len: int, prefix: int, codes: CodeTable)
    requires len <= |data| && len <= |other|
    requires forall i :: 0 <= i < len ==> data[i] == other[i]
    ensures Markup(data, len, prefix, codes) == Markup(other, len, prefix, codes)
  {
    assert Prefix(data, len) == Prefix(other, len);
  }

  /** Indices 0 to 3 are always SOM, CI, len and CMD, whatever the frame length. */
  lemma MarkupHeaderLabels(data: seq<byte>, len: int, prefix: int, codes: CodeTable)
    requires len <= |data|
    ensures var f := Markup(data, len, prefix, codes).fields;
      && (len > 0 ==> f[0].tag == Som)
      && (len > 1 ==> f[1].tag == Ci)
      && (len > 2 ==> f[2].tag == Len)
      && (len > 3 ==> f[3].tag == Cmd)
  {
  }

  /** A checksum field stands exactly at the last index, and only when `len >= 5`. */
  lemma MarkupChecksumPosition(data: seq<byte>, len: int, prefix: int, codes: CodeTable)
    requires len <= |data|
    ensures var f := Markup(data, len, prefix, codes).fields;
      forall i :: 0 <= i < |f| ==> (f[i].tag == Checksum <==> len >= 5 && i == len - 1)
  {
  }

  /** Index 4, when it is not the last byte, is named by the code table, with the `Code:` fallback. */
  lemma MarkupCommandField(data: seq<byte>, len: int, prefix: int, codes: CodeTable)
    requires 5 < len <= |data|
    ensures var f := Markup(data, len, prefix, codes).fields;
      && (LookupName(codes, data[4]).Some? ==> f[4].tag == Name(LookupName(codes, data[4]).value))
      && (LookupName(codes, data[4]).None? ==> f[4].tag == Code)
  {
  }

  /** Bytes strictly between index 4 and the last byte are plain hex. */
  lemma MarkupPayloadHex(data: seq<byte>, len: int, prefix: int, codes: CodeTable)
    requires len <= |data|
    ensures var f := Markup(data, len, prefix, codes).fields;
      forall i :: 5 <= i < len - 1 ==> f[i].tag == Hex
  {
  }

  lemma {:induction false} CountLabelNone(fields: seq<Field>, l: Label)
    requires forall i :: 0 <= i < |fields| ==> fields[i].tag != l
    ensures CountLabel(fields, l) == 0
  {
    if fields != [] {
      CountLabelNone(fields[1..], l);
    }
  }

  lemma {:induction false} CountLabelSingle(fields: seq<Field>, l: Label, k: nat)
    requires k < |fields|
    requires forall i :: 0 <= i < |fields| ==> (fields[i].tag == l <==> i == k)
    ensures CountLabel(fields, l) == 1
  {
    if k == 0 {
      CountLabelNone(fields[1..], l);
    } else {
      CountLabelSingle(fields[1..], l, k - 1);
    }
  }

  /** The checksum field appears exactly once when `len >= 5`, and not at all otherwise. */
  lemma MarkupChecksumCount(data: seq<byte>, len: int, prefix: int, codes: CodeTable)
    requires len <= |data|
    ensures CountLabel(Markup(data, len, prefix, codes).fields, Checksum) == (if len >= 5 then 1 else 0)
  {
    var f := Markup(data, len, prefix, codes).fields;
    MarkupChecksumPosition(data, len, prefix, codes);
    if len >= 5 {
      CountLabelSingle(f, Checksum, len - 1);
    } else {
      CountLabelNone(f, Checksum);
    }
  }

  /** The five-byte wired-out frame [0x01, 0x42, 0x05, 'C', 0xAA]: header fields, then a checksum at index 4. */
  lemma MarkupFiveByteFrame(codes: CodeTable)
    ensures Markup([0x01, 0x42, 0x05, 0x43, 0xAA], 5, 0, codes)
         == Line(OutUart, [Field(Som, 0x01), Field(Ci, 0x42), Field(Len, 0x05), Field(Cmd, 0x43), Field(Checksum, 0xAA)])
  {
    var line := Markup([0x01, 0x42, 0x05, 0x43, 0xAA], 5, 0, codes);
    assert |line.fields| == 5;
  }

  /** With distinct codes every command name is recovered from its own code. */
  lemma LookupNameRoundTrip(codes: CodeTable, n: CommandName)
    requires codes.Distinct()
    ensures LookupName(codes, codes.CodeOf(n)) == Some(n)
  {
    var r := LookupName(codes, codes.CodeOf(n));
    assert r.Some? && codes.CodeOf(r.value) == codes.CodeOf(n);
  }

  // ---------------------------------------------------------------------
  // Scan cooldown of the ESP-NOW send wrapper (pure rules)
  // ---------------------------------------------------------------------

  /** Number of send attempts in the 10 s scan interval: `10000 / MOTORINPUT_PERIOD`. */
  function ScanCooldown(period: int): (k: nat)
    requires period > 0
    ensures k * period <= 10000 < (k + 1) * period
  {
    10000 / period
  }

  /** What one espSendDataWrapper call does. */
  datatype SendAction = Transmit | ScanForPeer | Backoff

  function SendActionOf(slaveCnt: int, scanCounter: int): SendAction {
    if slaveCnt > 0 then Transmit
    else if scanCounter == 0 then ScanForPeer
    else Backoff
  }

  /** scanCounter after one call; it stays within [0, cooldown]. */
  function NextScanCounter(slaveCnt: int, scanCounter: int, cooldown: nat): (c: int)
    ensures 0 <= scanCounter <= cooldown ==> 0 <= c <= cooldown
    ensures SendActionOf(slaveCnt, scanCounter) == Transmit ==> c == scanCounter
    ensures SendActionOf(slaveCnt, scanCounter) == ScanForPeer ==> c == cooldown
    ensures SendActionOf(slaveCnt, scanCounter) == Backoff ==> c == scanCounter - 1
  {
    match SendActionOf(slaveCnt, scanCounter)
    case Transmit => scanCounter
    case ScanForPeer => cooldown
    case Backoff => scanCounter - 1
  }

  /** scanCounter after `n` calls made while no peer is known. */
  function UnpairedCounter(scanCounter: int, cooldown: nat, n: nat): int
    decreases n
  {
    if n == 0 then scanCounter
    else UnpairedCounter(NextScanCounter(0, scanCounter, cooldown), cooldown, n - 1)
  }

  lemma {:induction false} UnpairedCountsDown(scanCounter: nat, cooldown: nat, j: nat)
    requires j <= scanCounter
    ensures UnpairedCounter(scanCounter, cooldown, j) == scanCounter - j
  {
    if j > 0 {
      UnpairedCountsDown(scanCounter - 1, cooldown, j - 1);
    }
  }

  /**
   * With `c` left on the counter, exactly the next `c` unpaired calls back off
   * and the one after scans. Right after a scan `c` is the full cooldown.
   */
  lemma CooldownSpacing(scanCounter: nat, cooldown: nat)
    ensures forall j :: 0 <= j < scanCounter ==> SendActionOf(0, UnpairedCounter(scanCounter, cooldown, j)) == Backoff
    ensures SendActionOf(0, UnpairedCounter(scanCounter, cooldown, scanCounter)) == ScanForPeer
  {
    forall j | 0 <= j < scanCounter
      ensures SendActionOf(0, UnpairedCounter(scanCounter, cooldown, j)) == Backoff
    {
      UnpairedCountsDown(scanCounter, cooldown, j);
    }
    UnpairedCountsDown(scanCounter, cooldown, scanCounter);
  }

  lemma {:induction false} UnpairedCounterSplit(scanCounter: int, cooldown: nat, a: nat, b: nat)
    ensures UnpairedCounter(scanCounter, cooldown, a + b)
         == UnpairedCounter(UnpairedCounter(scanCounter, cooldown, a), cooldown, b)
    decreases a
  {
    if a > 0 {
      UnpairedCounterSplit(NextScanCounter(0, scanCounter, cooldown), cooldown, a - 1, b);
    }
  }

  /**
   * With no peer ever found and the counter at 0, one cycle of `cooldown + 1`
   * calls is a scan followed by `cooldown` back-offs, and the counter is back at 0.
   */
  lemma UnpairedScanCycle(cooldown: nat)
    ensures SendActionOf(0, UnpairedCounter(0, cooldown, 0)) == ScanForPeer
    ensures forall j :: 1 <= j <= cooldown ==> SendActionOf(0, UnpairedCounter(0, cooldown, j)) == Backoff
    ensures UnpairedCounter(0, cooldown, cooldown + 1) == 0
  {
    forall j | 1 <= j <= cooldown
      ensures SendActionOf(0, UnpairedCounter(0, cooldown, j)) == Backoff
    {
      UnpairedCounterSplit(0, cooldown, 1, j - 1);
      UnpairedCountsDown(cooldown, cooldown, j - 1);
    }
    UnpairedCounterSplit(0, cooldown, 1, cooldown);
    UnpairedCountsDown(cooldown, cooldown, cooldown);
  }

  /** Unpaired calls repeat that cycle forever: the counter has period `cooldown + 1`. */
  lemma UnpairedPeriodic(cooldown: nat, j: nat)
    ensures UnpairedCounter(0, cooldown, j + cooldown + 1) == UnpairedCounter(0, cooldown, j)
  {
    UnpairedScanCycle(cooldown);
    UnpairedCounterSplit(0, cooldown, cooldown + 1, j);
  }

  // ---------------------------------------------------------------------
  // ESP-NOW sender validation (pure rules)
  // ---------------------------------------------------------------------

  /** Size of the `slaves[]` peer table. */
  const NumSlaves := 1

  /** The six byte comparisons of the receive filter. */
  predicate MacMatch(a: Mac, b: Mac)
    ensures MacMatch(a, b) <==> a == b
  {
    a[0] == b[0] && a[1] == b[1] && a[2] == b[2] &&
    a[3] == b[3] && a[4] == b[4] && a[5] == b[5]
  }

  /** Number of entries among the first `n` registered peers that match `mac`. */
  function CountMatches(slaves: seq<Mac>, n: int, mac: Mac): nat
    requires n <= |slaves|
  {
    if n <= 0 then 0
    else CountMatches(slaves, n - 1, mac) + (if MacMatch(slaves[n - 1], mac) then 1 else 0)
  }

  /** `mac` is one of the first `slaveCnt` registered peers. */
  predicate KnownPeer(slaves: seq<Mac>, slaveCnt: int, mac: Mac)
    requires slaveCnt <= |slaves|
  {
    exists i :: 0 <= i < slaveCnt && slaves[i] == mac
  }

  /** foundSlave is non-zero exactly when the sender is a registered peer. */
  lemma {:induction false} CountMatchesPositive(slaves: seq<Mac>, n: int, mac: Mac)
    requires n <= |slaves|
    ensures CountMatches(slaves, n, mac) > 0 <==> KnownPeer(slaves, n, mac)
  {
    if n > 0 {
      CountMatchesPositive(slaves, n - 1, mac);
      if KnownPeer(slaves, n, mac) && !KnownPeer(slaves, n - 1, mac) {
        var i :| 0 <= i < n && slaves[i] == mac;
        assert i == n - 1;
      }
    }
  }

  /** The loop of espReceiveDataWrapper that counts the peers equal to the sender. */
  method CountMatchingPeers(slaves: seq<Mac>, slaveCnt: int, mac: Mac) returns (foundSlave: nat)
    requires slaveCnt <= |slaves|
    ensures foundSlave == CountMatches(slaves, slaveCnt, mac)
    ensures foundSlave > 0 <==> KnownPeer(slaves, slaveCnt, mac)
  {
    foundSlave := 0;
    var i := 0;
    while i < slaveCnt
      invariant 0 <= i <= (if slaveCnt > 0 then slaveCnt else 0)
      invariant foundSlave == CountMatches(slaves, i, mac)
    {
      if slaves[i][0] == mac[0] && slaves[i][1] == mac[1] && slaves[i][2] == mac[2] &&
         slaves[i][3] == mac[3] && slaves[i][4] == mac[4] && slaves[i][5] == mac[5]
      {
        foundSlave := foundSlave + 1;
      }
      i := i + 1;
    }
    CountMatchesPositive(slaves, slaveCnt, mac);
  }

  // ---------------------------------------------------------------------
  // Buzzer command and PWM mixing (pure rules)
  // ---------------------------------------------------------------------

  /** The global sendBuzzer command. */
  datatype BuzzerData = BuzzerData(freq: nat, pattern: nat, len: nat) {
    /** A command is pending iff one of its fields is non-zero. */
    predicate Pending() {
      freq != 0 || len != 0 || pattern != 0
    }
  }

  const NoBuzzer := BuzzerData(0, 0, 0)

  /** The all-zero command is the only one never sent. */
  lemma PendingUnlessZero(b: BuzzerData)
    ensures !b.Pending() <==> b == NoBuzzer
  {
  }

  /** Left and right PWM from the motor setpoint: `pwm + steer`, `pwm - steer`. */
  function MixPwm(pwm: int, steer: int): (r: (int, int))
    ensures r.0 + r.1 == 2 * pwm
    ensures r.0 - r.1 == 2 * steer
  {
    (pwm + steer, pwm - steer)
  }

  /** The protocol commands a parameter handler is called with. */
  datatype ProtocolCmd = ReadVal | SilentRead | WriteVal | ReadValResponse | OtherCmd(code: byte)

  // ---------------------------------------------------------------------
  // Protocol endpoints (HoverboardAPI instances, as recording doubles)
  // ---------------------------------------------------------------------

  /** The handler installed for a parameter code. */
  datatype Handler = DefaultHandler | RelayDataIn | RelayDataOut

  /** A message handed to an endpoint's protocolPost or sendBuzzer. */
  datatype Message = Buzzer(freq: nat, pattern: nat, len: nat) | Frame(bytes: seq<byte>)

  class Endpoint {
    /** Every byte given to protocolPush, in order. */
    var pushed: seq<byte>
    /** Every message posted, in order. */
    var posts: seq<Message>
    /** `s.params[i]` is present. */
    const params: seq<bool>
    /** The handler table indexed by parameter code. */
    const handlers: array<Handler>

    ghost predicate Valid() reads this {
      handlers.Length == |params|
    }

    constructor (params: seq<bool>)
      ensures Valid() && fresh(handlers)
      ensures this.params == params && pushed == [] && posts == []
      ensures forall i :: 0 <= i < handlers.Length ==> handlers[i] == DefaultHandler
    {
      this.params := params;
      pushed, posts := [], [];
      handlers := new Handler[|params|](_ => DefaultHandler);
    }

    method Push(b: byte)
      modifies this`pushed
      ensures pushed == old(pushed) + [b]
    {
      pushed := pushed + [b];
    }

    method Post(m: Message)
      modifies this`posts
      ensures posts == old(posts) + [m]
    {
      posts := posts + [m];
    }
  }

  /** Installs `relay` on every present parameter slot of `ep`; absent slots keep their handler. */
  method InstallRelay(ep: Endpoint, relay: Handler)
    requires ep.Valid()
    modifies ep.handlers
    ensures forall i :: 0 <= i < ep.handlers.Length ==>
      ep.handlers[i] == (if ep.params[i] then relay else old(ep.handlers[i]))
  {
    var i := 0;
    while i < ep.handlers.Length
      invariant 0 <= i <= ep.handlers.Length
      invariant forall k :: 0 <= k < i ==> ep.handlers[k] == (if ep.params[k] then relay else old(ep.handlers[k]))
      invariant forall k :: i <= k < ep.handlers.Length ==> ep.handlers[k] == old(ep.handlers[k])
    {
      if ep.params[i] {
        ep.handlers[i] := relay;
      }
      i := i + 1;
    }
  }

  // ---------------------------------------------------------------------
  // The global state of the communication task
  // ---------------------------------------------------------------------

  class Bridge {
    /** The UART endpoint (hoverboard side). */
    const hbpOut: Endpoint
    /** The ESP-NOW endpoint (remote side). */
    const hbpIn: Endpoint
    /** MOTORINPUT_PERIOD, in milliseconds. */
    const motorInputPeriod: int

    /** ESP-NOW peer registry: `slaves[]` and `SlaveCnt`. */
    var slaves: seq<Mac>
    var slaveCnt: int
    var scanCounter: int
    var hideAP: int

    /** Frames handed to sendData, ScanForSlave and manageSlave calls, configDeviceAP calls. */
    var radioSent: seq<seq<byte>>
    var scans: nat
    var pairings: nat
    var apConfigs: nat

    /** Bytes waiting on the motor UART, and bytes written to it. */
    var uartRx: seq<byte>
    var uartTx: seq<byte>

    var sendBuzzer: BuzzerData
    /** PWMData.pwm[0..2). */
    const pwm: array<int>

    ghost predicate Valid() reads this, hbpOut, hbpIn {
      && hbpOut != hbpIn && hbpOut.handlers != hbpIn.handlers
      && hbpOut.Valid() && hbpIn.Valid()
      && motorInputPeriod > 0
      && 0 <= scanCounter <= ScanCooldown(motorInputPeriod)
      && |slaves| == NumSlaves && 0 <= slaveCnt <= |slaves|
      && pwm.Length == 2
    }

    constructor (outParams: seq<bool>, inParams: seq<bool>, period: int, rx: seq<byte>)
      requires period > 0
      ensures Valid() && fresh(hbpOut) && fresh(hbpIn) && fresh(hbpOut.handlers) && fresh(hbpIn.handlers)
      ensures hbpOut.params == outParams && hbpIn.params == inParams && motorInputPeriod == period
      ensures forall i :: 0 <= i < hbpOut.handlers.Length ==> hbpOut.handlers[i] == DefaultHandler
      ensures forall i :: 0 <= i < hbpIn.handlers.Length ==> hbpIn.handlers[i] == DefaultHandler
      ensures hbpOut.pushed == [] && hbpOut.posts == [] && hbpIn.pushed == [] && hbpIn.posts == []
      ensures slaveCnt == 0 && scanCounter == 0 && hideAP == 0
      ensures radioSent == [] && scans == 0 && pairings == 0 && apConfigs == 0
      ensures uartRx == rx && uartTx == [] && sendBuzzer == NoBuzzer && pwm[..] == [0, 0]
    {
      hbpOut := new Endpoint(outParams);
      hbpIn := new Endpoint(inParams);
      motorInputPeriod := period;
      slaves := [[0, 0, 0, 0, 0, 0]];
      slaveCnt, scanCounter, hideAP := 0, 0, 0;
      radioSent, scans, pairings, apConfigs := [], 0, 0, 0;
      uartRx, uartTx := rx, [];
      sendBuzzer := NoBuzzer;
      pwm := new int[2](_ => 0);
    }

    /**
     * espSendDataWrapper. Sends and returns `len` when a peer is known;
     * otherwise scans (pairing with what `found` reports) when the cooldown
     * has run out and re-arms it, or else counts the cooldown down; -1 then.
     */
    method EspSendData(data: seq<byte>, len: int, found: seq<Mac>) returns (r: int)
      requires Valid()
      requires 0 <= len <= |data|
      requires |found| <= NumSlaves
      modifies this`slaves, this`slaveCnt, this`scanCounter, this`radioSent, this`scans, this`pairings
      ensures Valid()
      ensures var action := SendActionOf(old(slaveCnt), old(scanCounter));
        && (r == len <==> action == Transmit)
        && (action != Transmit ==> r == -1)
        && radioSent == (if action == Transmit then old(radioSent) + [data[..len]] else old(radioSent))
        && scanCounter == NextScanCounter(old(slaveCnt), old(scanCounter), ScanCooldown(motorInputPeriod))
        && scans == old(scans) + (if action == ScanForPeer then 1 else 0)
        && (action == ScanForPeer ==>
              slaves == found + old(slaves)[|found|..] && slaveCnt == |found|
              && pairings == old(pairings) + (if |found| > 0 then 1 else 0))
        && (action != ScanForPeer ==>
              slaves == old(slaves) && slaveCnt == old(slaveCnt) && pairings == old(pairings))
    {
      if slaveCnt > 0 {
        radioSent := radioSent + [data[..len]];
        return len;
      } else if scanCounter == 0 {
        // ScanForSlave: the registry is refilled from the scan outcome.
        slaves := found + slaves[|found|..];
        slaveCnt := |found|;
        scans := scans + 1;
        if slaveCnt > 0 {
          // manageSlave
          pairings := pairings + 1;
        }
        scanCounter := ScanCooldown(motorInputPeriod);
      } else {
        scanCounter := scanCounter - 1;
      }
      return -1;
    }

    /**
     * espReceiveDataWrapper. A frame from a registered peer stops the access
     * point broadcast once and is pushed byte by byte into hbpIn; any other
     * frame changes nothing.
     */
    method EspReceiveData(mac: Mac, data: seq<byte>, dataLen: int)
      requires Valid()
      requires dataLen <= |data|
      modifies this`hideAP, this`apConfigs, hbpIn`pushed
      ensures Valid()
      ensures !KnownPeer(slaves, slaveCnt, mac) ==>
        hideAP == old(hideAP) && apConfigs == old(apConfigs) && hbpIn.pushed == old(hbpIn.pushed)
      ensures KnownPeer(slaves, slaveCnt, mac) ==>
        && hideAP == (if old(hideAP) == 0 then 1 else old(hideAP))
        && apConfigs == old(apConfigs) + (if old(hideAP) == 0 then 1 else 0)
        && hbpIn.pushed == old(hbpIn.pushed) + Prefix(data, dataLen)
    {
      var foundSlave := CountMatchingPeers(slaves, slaveCnt, mac);
      if foundSlave == 0 {
        return;
      }
      if hideAP == 0 {
        hideAP := 1;
        // configDeviceAP
        apConfigs := apConfigs + 1;
      }
      var i := 0;
      while i < dataLen
        modifies hbpIn`pushed
        invariant 0 <= i <= |Prefix(data, dataLen)|
        invariant hbpIn.pushed == old(hbpIn.pushed) + data[..i]
      {
        hbpIn.Push(data[i]);
        i := i + 1;
      }
      assert data[..i] == Prefix(data, dataLen);
    }

    /** serialWriteWrapper: the frame goes out on the motor UART; the byte count is returned. */
    method SerialWrite(data: seq<byte>, len: int) returns (n: int)
      requires 0 <= len <= |data|
      modifies this`uartTx
      ensures n == len && uartTx == old(uartTx) + data[..len]
    {
      uartTx := uartTx + data[..len];
      n := len;
    }

    /** pollUART: moves at most 1024 waiting bytes, in arrival order, into hbpOut. */
    method PollUart()
      requires Valid()
      modifies this`uartRx, hbpOut`pushed
      ensures Valid()
      ensures var n := if |old(uartRx)| < UartChunk then |old(uartRx)| else UartChunk;
        hbpOut.pushed == old(hbpOut.pushed) + old(uartRx)[..n] && uartRx == old(uartRx)[n..]
    {
      var i := 0;
      while |uartRx| > 0 && i < UartChunk
        invariant 0 <= i <= UartChunk && i <= |old(uartRx)|
        invariant uartRx == old(uartRx)[i..]
        invariant hbpOut.pushed == old(hbpOut.pushed) + old(uartRx)[..i]
      {
        i := i + 1;
        var readChar := uartRx[0];
        uartRx := uartRx[1..];
        hbpOut.Push(readChar);
      }
    }

    /** The buzzer flush at the top of loopCommunication. */
    method FlushBuzzer()
      requires Valid()
      modifies this`sendBuzzer, hbpOut`posts
      ensures Valid()
      ensures hbpOut.posts == old(hbpOut.posts) +
        (if old(sendBuzzer).Pending() then [Buzzer(old(sendBuzzer).freq, old(sendBuzzer).pattern, old(sendBuzzer).len)] else [])
      ensures sendBuzzer == NoBuzzer
    {
      if sendBuzzer.freq != 0 || sendBuzzer.len != 0 || sendBuzzer.pattern != 0 {
        hbpOut.Post(Buzzer(sendBuzzer.freq, sendBuzzer.pattern, sendBuzzer.len));
        sendBuzzer := sendBuzzer.(freq := 0);
        sendBuzzer := sendBuzzer.(len := 0);
        sendBuzzer := sendBuzzer.(pattern := 0);
      }
    }

    /** The relay wiring of setupCommunication: hbpOut relays into hbpIn and back. */
    method SetupCommunication()
      requires Valid()
      modifies hbpOut.handlers, hbpIn.handlers
      ensures Valid()
      ensures forall i :: 0 <= i < hbpOut.handlers.Length ==>
        hbpOut.handlers[i] == (if hbpOut.params[i] then RelayDataIn else old(hbpOut.handlers[i]))
      ensures forall i :: 0 <= i < hbpIn.handlers.Length ==>
        hbpIn.handlers[i] == (if hbpIn.params[i] then RelayDataOut else old(hbpIn.handlers[i]))
    {
      InstallRelay(hbpOut, RelayDataIn);
      InstallRelay(hbpIn, RelayDataOut);
    }

    /** relayDataOut: posts the message on hbpOut only; nothing is re-relayed. */
    method RelayOut(msg: Message)
      requires Valid()
      modifies hbpOut`posts
      ensures Valid()
      ensures hbpOut.posts == old(hbpOut.posts) + [msg]
      ensures hbpIn.posts == old(hbpIn.posts)
    {
      hbpOut.Post(msg);
    }

    /** relayDataIn: posts the message on hbpIn only; nothing is re-relayed. */
    method RelayIn(msg: Message)
      requires Valid()
      modifies hbpIn`posts
      ensures Valid()
      ensures hbpIn.posts == old(hbpIn.posts) + [msg]
      ensures hbpOut.posts == old(hbpOut.posts)
    {
      hbpIn.Post(msg);
    }

    /** processPWMdata: on READVAL or SILENTREAD the mixed setpoint is stored; otherwise pwm is kept. */
    method ProcessPwmData(cmd: ProtocolCmd, setpointPwm: int, setpointSteer: int)
      requires Valid()
      modifies pwm
      ensures Valid()
      ensures cmd == ReadVal || cmd == SilentRead ==>
        pwm[..] == [MixPwm(setpointPwm, setpointSteer).0, MixPwm(setpointPwm, setpointSteer).1]
      ensures !(cmd == ReadVal || cmd == SilentRead) ==> pwm[..] == old(pwm[..])
    {
      match cmd
      case ReadVal | SilentRead =>
        pwm[0] := setpointPwm + setpointSteer;
        pwm[1] := setpointPwm - setpointSteer;
      case _ =>
    }
  }

  /** pollUART's per-call byte limit. */
  const UartChunk := 1024
}
