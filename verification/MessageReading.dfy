/**
 The reading side of a connection as functions of its state and of the bytes
 still to come: advanceFrame, NextReader and messageReader.Read of ws/conn.go.
 The input is what the network will deliver before it closes.
 */
module MessageReading {
  import opened Bytes
  import opened Masking
  import opened Frames
  import opened Options

  /** What advanceFrame finds wrong with the first two bytes of a frame, in the order it looks. */
  datatype Violation =
    | Rsv1Set | Rsv2Set | Rsv3Set
    | ControlTooLong | ControlNotFinal
    | DataBeforeFin | ContinuationAfterFin | UnknownOpcode
    | WrongMask

  datatype ReadError =
    | EndOfInput
    | UnexpectedEnd
    | ProtocolError(violations: seq<Violation>)
    | BadCloseCode(code: nat)
    | BadCloseText
    | CloseReceived(code: nat, text: bytes)
    | HandlerFailed
    | LimitExceeded
    | UnexpectedData

  /** What the application and the handshake fix: role, limit, extension, handlers (true: nil error). */
  datatype Config = Config(
    isServer: bool,
    limit: int,
    compression: bool,
    pongOk: bytes -> bool,
    pingOk: bytes -> bool,
    closeOk: (nat, bytes) -> bool,
    utf8: bytes -> bool)

  /** The read fields of a Conn; open: its messageReader is the one handed out last. */
  datatype State = State(
    remaining: int,
    final: bool,
    length: int,
    maskPos: nat,
    maskKey: Key,
    err: Option<ReadError>,
    open: bool,
    decompress: bool)

  const NO_STATUS: nat := 1005

  function Start(): State {
    State(0, true, 0, 0, [0, 0, 0, 0], None, false, false)
  }

  /** Either the type of a frame whose header, and for a control frame whose payload, was read; or an error. */
  datatype Outcome = Got(frameType: byte) | Failed(error: ReadError)

  predicate ValidCloseCode(code: nat) {
    1000 <= code <= 1003 || 1007 <= code <= 1013 || 3000 <= code <= 4999
  }

  function Add(vs: seq<Violation>, wrong: bool, v: Violation): seq<Violation> {
    if wrong then vs + [v] else vs
  }

  function RsvViolations(cfg: Config, p0: byte): seq<Violation> {
    var rsv1 := Add([], HasBit(p0, 64) && !cfg.compression, Rsv1Set);
    Add(Add(rsv1, HasBit(p0, 32), Rsv2Set), HasBit(p0, 16), Rsv3Set)
  }

  function OpcodeViolations(vs: seq<Violation>, final: bool, p0: byte, p1: byte): seq<Violation> {
    var opcode := p0 % 16;
    if IsControl(opcode) then
      Add(Add(vs, p1 % 128 > MAX_CONTROL_PAYLOAD, ControlTooLong), !HasBit(p0, 128), ControlNotFinal)
    else if IsData(opcode) then
      Add(vs, !final, DataBeforeFin)
    else
      Add(vs, opcode != CONTINUATION || final, if opcode == CONTINUATION then ContinuationAfterFin else UnknownOpcode)
  }

  function Violations(cfg: Config, final: bool, p0: byte, p1: byte): seq<Violation> {
    Add(OpcodeViolations(RsvViolations(cfg, p0), final, p0, p1), HasBit(p1, 128) != cfg.isServer, WrongMask)
  }

  /** The state after the first two bytes of a frame, errors or not. */
  function AfterTwoBytes(cfg: Config, st: State, p0: byte, p1: byte): State {
    var opcode := p0 % 16;
    st.(remaining := p1 % 128,
        decompress := HasBit(p0, 64) && cfg.compression,
        final := if IsData(opcode) || opcode == CONTINUATION then HasBit(p0, 128) else st.final)
  }

  /** Steps 1 and 2: skip the rest of the previous frame, then read two bytes. */
  function Advance(cfg: Config, st: State, input: bytes): (r: (Outcome, State, bytes))
    ensures r.0.Got? ==> |r.2| < |input|
    ensures |r.2| <= |input|
    ensures r.1.err == st.err && r.1.open == st.open
  {
    if st.remaining > |input| then
      (Failed(EndOfInput), st, [])
    else
      var input1 := if st.remaining > 0 then input[st.remaining..] else input;
      if |input1| < 2 then
        (Failed(UnexpectedEnd), st, [])
      else
        var p0, p1 := input1[0], input1[1];
        var st1 := AfterTwoBytes(cfg, st, p0, p1);
        var vs := Violations(cfg, st.final, p0, p1);
        if vs != [] then
          (Failed(ProtocolError(vs)), st1, input1[2..])
        else
          AdvanceLength(cfg, st1, p0 % 16, input1[2..])
  }

  /** Step 3: the extended length, if there is one. */
  function AdvanceLength(cfg: Config, st: State, opcode: byte, input: bytes): (r: (Outcome, State, bytes))
    ensures |r.2| <= |input|
    ensures r.1.err == st.err && r.1.open == st.open
  {
    var width := if st.remaining == 126 then 2 else if st.remaining == 127 then 8 else 0;
    if |input| < width then
      (Failed(UnexpectedEnd), st, [])
    else if width == 0 then
      AdvanceMask(cfg, st, opcode, input)
    else
      var n := Int64(FromBigEndian(input[..width]));
      if n < 0 then
        (Failed(LimitExceeded), st, input[width..])
      else
        AdvanceMask(cfg, st.(remaining := n), opcode, input[width..])
  }

  /** Step 4: the mask key, which only a server expects. */
  function AdvanceMask(cfg: Config, st: State, opcode: byte, input: bytes): (r: (Outcome, State, bytes))
    ensures |r.2| <= |input|
    ensures r.1.err == st.err && r.1.open == st.open
  {
    if !cfg.isServer then
      AdvanceKind(cfg, st, opcode, input)
    else if |input| < 4 then
      (Failed(UnexpectedEnd), st.(maskPos := 0), [])
    else
      AdvanceKind(cfg, st.(maskPos := 0, maskKey := input[..4]), opcode, input[4..])
  }

  /** Step 5: account for a data frame; steps 6 and 7: read and handle a control frame. */
  function AdvanceKind(cfg: Config, st: State, opcode: byte, input: bytes): (r: (Outcome, State, bytes))
    ensures |r.2| <= |input|
    ensures r.1.err == st.err && r.1.open == st.open
  {
    if opcode == CONTINUATION || IsData(opcode) then
      var st1 := st.(length := Int64(st.length + st.remaining));
      if st1.length < 0 || (cfg.limit > 0 && st1.length > cfg.limit) then
        (Failed(LimitExceeded), st1, input)
      else
        (Got(opcode), st1, input)
    else if st.remaining > |input| then
      (Failed(UnexpectedEnd), st.(remaining := 0), [])
    else if st.remaining > 0 then
      var raw := input[..st.remaining];
      var payload := if cfg.isServer then Masked(st.maskKey, 0, raw) else raw;
      (HandleControl(cfg, opcode, payload), st.(remaining := 0), input[st.remaining..])
    else
      (HandleControl(cfg, opcode, []), st, input)
  }

  function HandleControl(cfg: Config, opcode: byte, payload: bytes): (o: Outcome)
    ensures o.Got? ==> o.frameType == opcode
  {
    if opcode == PONG then
      if cfg.pongOk(payload) then Got(opcode) else Failed(HandlerFailed)
    else if opcode == PING then
      if cfg.pingOk(payload) then Got(opcode) else Failed(HandlerFailed)
    else if opcode == CLOSE then
      if |payload| < 2 then
        if cfg.closeOk(NO_STATUS, []) then Failed(CloseReceived(NO_STATUS, [])) else Failed(HandlerFailed)
      else
        var code, text := FromBigEndian(payload[..2]), payload[2..];
        if !ValidCloseCode(code) then Failed(BadCloseCode(code))
        else if !cfg.utf8(text) then Failed(BadCloseText)
        else if cfg.closeOk(code, text) then Failed(CloseReceived(code, text))
        else Failed(HandlerFailed)
    else
      Got(opcode)
  }

  /** The loop of NextReader. */
  function FindData(cfg: Config, st: State, input: bytes): (r: (Option<byte>, State, bytes))
    ensures |r.2| <= |input|
    decreases |input|
  {
    if st.err != None then (None, st, input)
    else
      var (o, st1, input1) := Advance(cfg, st, input);
      match o
      case Failed(e) => (None, st1.(err := Some(e)), input1)
      case Got(t) =>
        if IsData(t) then (Some(t), st1.(open := true), input1)
        else FindData(cfg, st1, input1)
  }

  /** NextReader: the type of the next data message, or nothing when st.err is set. */
  function NextReader(cfg: Config, st: State, input: bytes): (r: (Option<byte>, State, bytes))
    ensures |r.2| <= |input|
  {
    FindData(cfg, st.(open := false, length := 0), input)
  }

  /** What a Read of the message reader returns. */
  datatype ReadResult = Data(p: bytes) | End | Error(error: ReadError)

  function Min3(a: int, b: int, c: int): int {
    var m := if a <= b then a else b;
    if m <= c then m else c
  }

  /** c.br.Read into a buffer of `size` bytes, of which the network has only `ready` at hand, and what follows. */
  function ReadPayload(cfg: Config, st: State, input: bytes, size: nat, ready: nat): (r: (ReadResult, State, bytes))
    requires st.err == None && st.remaining > 0
    ensures |r.2| <= |input|
  {
    var want := if size > st.remaining then st.remaining else size;
    var n := Min3(want, |input|, ready);
    var p := if cfg.isServer then Masked(st.maskKey, st.maskPos, input[..n]) else input[..n];
    var st1 := st.(remaining := st.remaining - n, maskPos := if cfg.isServer then (st.maskPos + n) % 4 else st.maskPos);
    if want > 0 && input == [] then
      (Error(UnexpectedEnd), st1.(err := Some(UnexpectedEnd)), input)
    else
      (Data(p), st1, input[n..])
  }

  /** The loop of messageReader.Read. */
  function ReadLoop(cfg: Config, st: State, input: bytes, size: nat, ready: nat): (r: (ReadResult, State, bytes))
    ensures |r.2| <= |input|
    decreases |input|, st.err == None
  {
    if st.err != None then
      var e := st.err.value;
      (Error(if e == EndOfInput && st.open then UnexpectedEnd else e), st, input)
    else if st.remaining > 0 then
      ReadPayload(cfg, st, input, size, ready)
    else if st.final then
      (End, st.(open := false), input)
    else
      var (o, st1, input1) := Advance(cfg, st, input);
      match o
      case Failed(e) => ReadLoop(cfg, st1.(err := Some(e)), input1, size, ready)
      case Got(t) =>
        if IsData(t) then ReadLoop(cfg, st1.(err := Some(UnexpectedData)), input1, size, ready)
        else ReadLoop(cfg, st1, input1, size, ready)
  }

  /** messageReader.Read */
  function Read(cfg: Config, st: State, input: bytes, size: nat, ready: nat): (r: (ReadResult, State, bytes))
    ensures |r.2| <= |input|
  {
    if !st.open then (End, st, input) else ReadLoop(cfg, st, input, size, ready)
  }
}
