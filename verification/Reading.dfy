/**
 The read side of conn.go as functions on the connection's read state: what one call of advanceFrame,
 NextReader and messageReader.Read does to the state, for every input stream.
 */
module Reading {
  import opened Bytes
  import opened Masking
  import opened Frames
  import Utf8

  datatype ReadError =
    | EOF                               // io.EOF
    | UnexpectedEOF
    | Timeout
    | Network
    | Protocol
    | LimitExceeded
    | Handler
    | PeerClosed(code: nat, text: seq<byte>)
    | InvalidText
    | Corrupt                           // from the decompressor
    | Internal

  /** What the read side tells the application's handlers, and the Close frames it asks to have sent. */
  datatype Event =
    | PingReceived(payload: seq<byte>)
    | PongReceived(payload: seq<byte>)
    | CloseReceived(code: nat, text: seq<byte>)
    | CloseSent(code: nat)

  /**
   `bufSize` is the size of the bufio reader, `end` what the transport reports once its octets have run out, and
   `accepts` is false where a handler fails.
   */
  datatype Config = Config(
    isServer: bool,
    inflates: bool,
    limit: int,
    bufSize: nat,
    end: ReadError,
    accepts: Event -> bool)

  datatype State = State(
    input: seq<byte>,
    remaining: nat,                     // readRemaining
    final: bool,                        // readFinal: no message is open
    length: int,                        // readLength
    maskPos: nat,
    maskKey: Key,
    compressed: bool,                   // readDecompress
    error: Option<ReadError>,           // readErr
    open: bool,                         // messageReader is not nil
    events: seq<Event>)
  {
    function Emit(e: Event): State {
      this.(events := events + [e])
    }
  }

  /** A new connection. */
  function NewState(input: seq<byte>): State {
    State(input, 0, true, 0, 0, Key(0, 0, 0, 0), false, None, false, [])
  }

  datatype Outcome = Accepted(opcode: nat) | Refused(error: ReadError)

  /** c.read turns the end of the stream into errUnexpectedEOF. */
  function Short(cfg: Config): ReadError {
    if cfg.end == EOF then UnexpectedEOF else cfg.end
  }

  function Take(s: State, n: nat): State
    requires n <= |s.input|
  {
    s.(input := s.input[n..])
  }

  function Starve(cfg: Config, s: State): (State, Outcome) {
    (s.(input := []), Refused(Short(cfg)))
  }

  // ----- advanceFrame -----

  datatype Head = Head(fin: bool, rsv1: bool, rsv2: bool, rsv3: bool, opcode: nat, masked: bool, len: nat)

  function ParseHead(b0: byte, b1: byte): (h: Head)
    ensures h.opcode < 16 && h.len < 128
  {
    Head(b0 >= 128, b0 / 64 % 2 == 1, b0 / 32 % 2 == 1, b0 / 16 % 2 == 1, b0 % 16, b1 >= 128, b1 % 128)
  }

  predicate Known(opcode: nat) {
    opcode == CONTINUATION || IsData(opcode) || IsControl(opcode)
  }

  predicate HeadRefused(cfg: Config, final: bool, h: Head) {
    || (h.rsv1 && !cfg.inflates) || h.rsv2 || h.rsv3
    || !Known(h.opcode)
    || (IsControl(h.opcode) && (h.len > MAX_CONTROL_PAYLOAD || !h.fin))
    || (IsData(h.opcode) && !final)
    || (h.opcode == CONTINUATION && final)
    || h.masked != cfg.isServer
  }

  function AfterHead(cfg: Config, s: State, h: Head): State {
    s.(remaining := h.len,
       compressed := h.rsv1 && cfg.inflates,
       final := if Known(h.opcode) && !IsControl(h.opcode) then h.fin else s.final)
  }

  /** advanceFrame, from any state. */
  function AdvanceFrame(cfg: Config, s: State): (r: (State, Outcome))
    ensures r.1.Accepted? ==> |r.0.input| < |s.input|
    ensures r.0.error == s.error && r.0.open == s.open
  {
    // The rest of the previous frame is discarded; io.CopyN reports a plain io.EOF.
    if s.remaining > |s.input| then (s.(input := []), Refused(cfg.end))
    else ReadHead(cfg, Take(s, s.remaining))
  }

  function ReadHead(cfg: Config, s: State): (r: (State, Outcome))
    ensures r.1.Accepted? ==> |r.0.input| < |s.input|
    ensures r.0.error == s.error && r.0.open == s.open
  {
    if |s.input| < 2 then Starve(cfg, s)
    else
      var h := ParseHead(s.input[0], s.input[1]);
      var s' := AfterHead(cfg, Take(s, 2), h);
      if HeadRefused(cfg, s.final, h) then (s'.Emit(CloseSent(1002)), Refused(Protocol))
      else ReadLength(cfg, s', h)
  }

  function ReadLength(cfg: Config, s: State, h: Head): (r: (State, Outcome))
    ensures |r.0.input| <= |s.input|
    ensures r.0.error == s.error && r.0.open == s.open
  {
    var n := if s.remaining == 127 then 8 else if s.remaining == 126 then 2 else 0;
    if |s.input| < n then Starve(cfg, s)
    else
      var len := if n == 0 then s.remaining else FromBE(s.input[..n]);
      // A 64-bit length whose sign bit is set is negative as an int64.
      if len > MAX_INT64 then (Take(s, n), Refused(LimitExceeded))
      else ReadKey(cfg, Take(s, n).(remaining := len), h)
  }

  function ReadKey(cfg: Config, s: State, h: Head): (r: (State, Outcome))
    ensures |r.0.input| <= |s.input|
    ensures r.0.error == s.error && r.0.open == s.open
  {
    if !h.masked then FinishFrame(cfg, s, h)
    else
      var s' := s.(maskPos := 0);
      if |s.input| < 4 then Starve(cfg, s')
      else
        var key := Key(s.input[0], s.input[1], s.input[2], s.input[3]);
        FinishFrame(cfg, Take(s', 4).(maskKey := key), h)
  }

  function FinishFrame(cfg: Config, s: State, h: Head): (r: (State, Outcome))
    ensures |r.0.input| <= |s.input|
    ensures r.0.error == s.error && r.0.open == s.open
  {
    if IsControl(h.opcode) then FinishControl(cfg, s, h.opcode) else FinishData(cfg, s, h.opcode)
  }

  /** The sum of two int64 variables. */
  function AddInt64(a: int, b: int): int {
    var sum := a + b;
    if sum > MAX_INT64 then sum - 0x1_0000_0000_0000_0000
    else if sum < -0x8000_0000_0000_0000 then sum + 0x1_0000_0000_0000_0000
    else sum
  }

  function FinishData(cfg: Config, s: State, opcode: nat): (State, Outcome) {
    var s' := s.(length := AddInt64(s.length, s.remaining));
    if s'.length < 0 then (s', Refused(LimitExceeded))
    else if cfg.limit > 0 && s'.length > cfg.limit then (s'.Emit(CloseSent(1009)), Refused(LimitExceeded))
    else (s', Accepted(opcode))
  }

  function FinishControl(cfg: Config, s: State, opcode: nat): (r: (State, Outcome))
    ensures |r.0.input| <= |s.input|
    ensures r.0.error == s.error && r.0.open == s.open
  {
    if s.remaining > |s.input| then Starve(cfg, s.(remaining := 0))
    else
      var octets := s.input[..s.remaining];
      var payload := if cfg.isServer then Mask(s.maskKey, 0, octets) else octets;
      ProcessControl(cfg, Take(s, s.remaining).(remaining := 0), opcode, payload)
  }

  function ProcessControl(cfg: Config, s: State, opcode: nat, payload: seq<byte>): (r: (State, Outcome)) {
    if opcode == PONG then Handle(cfg, s, PongReceived(payload), Accepted(opcode))
    else if opcode == PING then Handle(cfg, s, PingReceived(payload), Accepted(opcode))
    else HandleClose(cfg, s, payload)
  }

  function Handle(cfg: Config, s: State, e: Event, ok: Outcome): (State, Outcome) {
    (s.Emit(e), if cfg.accepts(e) then ok else Refused(Handler))
  }

  predicate ValidReceivedCode(code: nat) {
    || code in {1000, 1001, 1002, 1003, 1007, 1008, 1009, 1010, 1011, 1012, 1013}
    || 3000 <= code <= 4999
  }

  function HandleClose(cfg: Config, s: State, payload: seq<byte>): (State, Outcome) {
    if |payload| < 2 then Handle(cfg, s, CloseReceived(1005, []), Refused(PeerClosed(1005, [])))
    else
      var code, text := FromBE(payload[..2]), payload[2..];
      if !ValidReceivedCode(code) || !Utf8.Valid(text) then (s.Emit(CloseSent(1002)), Refused(Protocol))
      else Handle(cfg, s, CloseReceived(code, text), Refused(PeerClosed(code, text)))
  }

  // ----- NextReader -----

  /** NextReader's loop: accepted frames are skipped until one begins a message. */
  function SeekMessage(cfg: Config, s: State): (r: (State, Outcome))
    ensures r.1.Accepted? ==> IsData(r.1.opcode) && r.0.open && r.0.error == None && |r.0.input| < |s.input|
    decreases |s.input|
  {
    if s.error.Some? then (s, Refused(s.error.value))
    else
      var (s', o) := AdvanceFrame(cfg, s);
      match o
      case Refused(Timeout) => (s', o)
      case Refused(e) => (s'.(error := Some(e)), o)
      case Accepted(opcode) =>
        if IsData(opcode) then (s'.(open := true), o) else SeekMessage(cfg, s')
  }

  function NextReader(cfg: Config, s: State): (State, Outcome) {
    SeekMessage(cfg, s.(open := false, length := 0))
  }

  // ----- messageReader.Read -----

  /** The loop of Read: frames are advanced over until there is payload to read, the message has ended, or an error. */
  function SeekPayload(cfg: Config, s: State): (s': State)
    ensures |s'.input| <= |s.input|
    ensures s'.open == s.open
    ensures s'.error.Some? || s'.remaining > 0 || s'.final
    decreases |s.input|
  {
    if s.error.Some? || s.remaining > 0 || s.final then s
    else
      var (s', o) := AdvanceFrame(cfg, s);
      match o
      case Refused(e) => s'.(error := Some(e))
      case Accepted(opcode) => if IsData(opcode) then s'.(error := Some(Internal)) else SeekPayload(cfg, s')
  }

  /** One bufio read: `want` octets asked for, n of them handed over, and an error when it comes with them. */
  datatype Grant = Grant(want: nat, n: nat, error: Option<ReadError>)

  /**
   bufio.Reader returns at most what was asked for, and an error only once the transport has run out. Octets and
   an error come together only from a read past its buffer, which is made when as much is asked for as it holds.
   */
  predicate CanGrant(cfg: Config, s: State, g: Grant) {
    && g.n <= g.want <= s.remaining && g.n <= |s.input|
    && (g.error.Some? ==> g.error.value == cfg.end && g.n == |s.input| && (g.n > 0 ==> g.want >= cfg.bufSize))
  }

  /** What the one bufio read of messageReader.Read asks for, given a buffer of `size` octets. */
  function Asked(s: State, size: nat): nat {
    if size < s.remaining then size else s.remaining
  }

  datatype Delivery = Delivery(state: State, data: seq<byte>, error: Option<ReadError>)

  function ReadHere(cfg: Config, s: State, g: Grant): Delivery
    requires s.error.Some? || s.remaining > 0 || s.final
    requires s.error == None && s.remaining > 0 ==> CanGrant(cfg, s, g)
  {
    if s.error.Some? then
      Delivery(s, [], Some(if s.error.value == EOF && s.open then UnexpectedEOF else s.error.value))
    else if s.remaining > 0 then
      var octets := s.input[..g.n];
      var data := if cfg.isServer then Mask(s.maskKey, s.maskPos, octets) else octets;
      var rem := s.remaining - g.n;
      var e := if rem > 0 && g.error == Some(EOF) then Some(UnexpectedEOF) else g.error;
      Delivery(Take(s, g.n).(remaining := rem,
                             maskPos := if cfg.isServer then (s.maskPos + g.n) % 4 else s.maskPos,
                             error := e),
               data, e)
    else
      Delivery(s.(open := false), [], Some(EOF))
  }

  /** messageReader.Read by the current reader; g is the grant of the one bufio read it may make. */
  function Read(cfg: Config, s: State, g: Grant): Delivery
    requires var t := SeekPayload(cfg, s); t.error == None && t.remaining > 0 ==> CanGrant(cfg, t, g)
  {
    ReadHere(cfg, SeekPayload(cfg, s), g)
  }
}
