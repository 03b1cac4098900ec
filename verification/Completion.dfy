/**
 When messageReader.Read says io.EOF. The promise is that it does so only at the end of a whole message. It can be
 broken exactly by reads at least as long as the bufio reader's buffer: these go to the transport directly, and a
 transport may hand over the last octets of a fragment together with io.EOF.
 */
module Completion {
  import opened Bytes
  import opened Masking
  import opened Frames
  import opened Reading
  import opened FrameRoundTrip
  import opened MessageRoundTrip
  import opened ReaderProperties

  /** Every frame through FIN has been consumed. */
  predicate AtMessageEnd(s: State) {
    s.final && s.remaining == 0
  }

  /** The read goes past the bufio reader's buffer, and brings the last octets of the current frame with io.EOF. */
  predicate EofWithLastOctets(cfg: Config, s: State, g: Grant) {
    0 < s.remaining && cfg.bufSize <= s.remaining && g == Grant(s.remaining, s.remaining, Some(EOF))
  }

  /** g is what the transport may give to a Read with a buffer of `size` octets. */
  predicate Answers(cfg: Config, s: State, size: nat, g: Grant) {
    var t := SeekPayload(cfg, s);
    t.error == None && t.remaining > 0 ==> CanGrant(cfg, t, g) && g.want == Asked(t, size)
  }

  /** Read says io.EOF exactly at the end of a message, or when the transport says so with a frame's last octets. */
  lemma EofReported(cfg: Config, s: State, size: nat, g: Grant)
    requires s.open && Answers(cfg, s, size, g)
    ensures var t := SeekPayload(cfg, s);
            Read(cfg, s, g).error == Some(EOF) <==>
            t.error == None && (AtMessageEnd(t) || EofWithLastOctets(cfg, t, g))
  {
    hide SeekPayload;
  }

  /** Read says io.EOF though the message goes on. */
  predicate FalseEof(cfg: Config, s: State, size: nat, g: Grant)
    requires Answers(cfg, s, size, g)
  {
    Read(cfg, s, g).error == Some(EOF) && !AtMessageEnd(Read(cfg, s, g).state)
  }

  /** In any state a buffer shorter than the bufio reader's is never told io.EOF falsely. */
  lemma ShortReadsAreTrue(cfg: Config, s: State, size: nat, g: Grant)
    requires s.open && Answers(cfg, s, size, g) && size < cfg.bufSize
    ensures !FalseEof(cfg, s, size, g)
  {
    hide SeekPayload;
    EofReported(cfg, s, size, g);
  }

  /** On a new connection that receives `wire`, the first Read of the first message, with this buffer, goes wrong. */
  predicate FalseEofOn(cfg: Config, wire: seq<byte>, size: nat, g: Grant) {
    var (s, o) := NextReader(cfg, NewState(wire));
    o.Accepted? && Answers(cfg, s, size, g) && FalseEof(cfg, s, size, g)
  }

  /** A first frame with as many octets as the bufio reader holds. */
  function LongFrame(cfg: Config, fin: bool, opcode: nat, payload: seq<byte>): Frame {
    Frame(fin, false, opcode, if cfg.isServer then Some(Key(0, 0, 0, 0)) else None, payload)
  }

  /** A new connection whose input is one frame and no more: NextReader leaves exactly its payload to be read. */
  lemma FrameAlone(cfg: Config, f: Frame) returns (s: State)
    requires Fits(cfg, f) && IsData(f.opcode) && WithinLimit(cfg, |f.payload|)
    ensures NextReader(cfg, NewState(Encode(f))) == (s, Accepted(f.opcode))
    ensures s.error == None && s.open && s.final == f.fin && s.remaining == |f.payload| == |s.input|
    ensures s.input == Masked(cfg, s.maskKey, s.maskPos, f.payload) && s.length == |f.payload|
  {
    hide AdvanceFrame, Encode;
    var s0 := NewState(Encode(f)).(open := false, length := 0);
    assert Encode(f) + [] == Encode(f);
    AdvanceOnData(cfg, s0, f, []);
    var wire := MaskedPayload(f.key, f.payload) + [];
    s := WithHeader(cfg, s0, f, wire).(length := |f.payload|, open := true);
    assert wire == MaskedPayload(f.key, f.payload);
  }

  /** A frame without FIN that fills the bufio reader, and then the end of the stream: the message seems to end. */
  lemma FalseEofExample(cfg: Config, size: nat) returns (wire: seq<byte>, g: Grant)
    requires cfg.end == EOF && 0 < cfg.bufSize <= size && WithinLimit(cfg, cfg.bufSize)
    ensures FalseEofOn(cfg, wire, size, g)
  {
    hide AdvanceFrame, Encode, SeekMessage, Mask;
    var n := cfg.bufSize;
    var f := LongFrame(cfg, false, BINARY, seq(n, _ => 65));
    wire, g := Encode(f), Grant(n, n, Some(EOF));
    var s := FrameAlone(cfg, f);
    assert SeekPayload(cfg, s) == s;
  }

  /**
   A Read into a buffer of `size` octets can be told io.EOF before the message is complete if and only if the buffer
   is at least as long as the bufio reader's, and the read limit lets a frame of that length through.
   */
  lemma FalseEofPossible(cfg: Config, size: nat)
    requires cfg.bufSize > 0
    ensures (exists wire, g :: FalseEofOn(cfg, wire, size, g)) <==>
            cfg.end == EOF && cfg.bufSize <= size && WithinLimit(cfg, cfg.bufSize)
  {
    hide SeekMessage, SeekPayload, FalseEofOn;
    if wire, g :| FalseEofOn(cfg, wire, size, g) {
      FalseEofBounds(cfg, wire, size, g);
    }
    if cfg.end == EOF && cfg.bufSize <= size && WithinLimit(cfg, cfg.bufSize) {
      var wire, g := FalseEofExample(cfg, size);
    }
  }

  lemma FalseEofBounds(cfg: Config, wire: seq<byte>, size: nat, g: Grant)
    requires FalseEofOn(cfg, wire, size, g)
    ensures cfg.end == EOF && cfg.bufSize <= size && WithinLimit(cfg, cfg.bufSize)
  {
    hide SeekMessage, SeekPayload;
    var (s, o) := NextReader(cfg, NewState(wire));
    MessageBeginsAccounted(cfg, NewState(wire).(open := false, length := 0));
    SeekKeepsAccount(cfg, s, 0);
    EofReported(cfg, s, size, g);
  }

  // ----- whole messages -----

  /** No read asks for more than `size` octets. */
  ghost predicate AtMost(transport: Transport, size: nat) {
    forall s: State :: transport(s).want <= size
  }

  /** Reading the message, the transport gives io.EOF with the last octets of a frame whose FIN bit is `final`. */
  ghost predicate EndsWithEof(cfg: Config, transport: Transport, s: State, final: bool)
    requires Fair(cfg, transport)
    decreases |s.input|
  {
    var t := SeekPayload(cfg, s);
    && t.error == None && t.remaining > 0
    && var g := transport(t);
       if g.error.Some? then t.final == final && EofWithLastOctets(cfg, t, g)
       else EndsWithEof(cfg, transport, ReadHere(cfg, t, g).state, final)
  }

  /** That takes a read as long as the bufio reader's buffer, and a frame of that length within the limit. */
  lemma {:induction false} EofBounds(
    cfg: Config, transport: Transport, s: State, n: nat, size: nat, final: bool)
    requires Fair(cfg, transport) && AtMost(transport, size) && Accounted(cfg, s, n)
    requires EndsWithEof(cfg, transport, s, final)
    ensures cfg.end == EOF && cfg.bufSize <= size && WithinLimit(cfg, cfg.bufSize)
    decreases |s.input|
  {
    hide SeekPayload, Mask;
    var t := SeekPayload(cfg, s);
    SeekKeepsAccount(cfg, s, n);
    var d := ReadHere(cfg, t, transport(t));
    if transport(t).error == None {
      EofBounds(cfg, transport, d.state, n + |d.data|, size, final);
    }
  }

  /** Short reads never get io.EOF together with octets, in whatever state they begin. */
  lemma {:induction false} ShortReadsEndAlone(
    cfg: Config, transport: Transport, s: State, size: nat, final: bool)
    requires Fair(cfg, transport) && AtMost(transport, size) && size < cfg.bufSize
    ensures !EndsWithEof(cfg, transport, s, final)
    decreases |s.input|
  {
    hide SeekPayload, Mask;
    var t := SeekPayload(cfg, s);
    if t.error == None && t.remaining > 0 && transport(t).error == None {
      ShortReadsEndAlone(cfg, transport, ReadHere(cfg, t, transport(t)).state, size, final);
    }
  }

  /** Reading to the end comes to no error before every frame through FIN was consumed exactly by such an io.EOF. */
  lemma {:induction false} FalseCompletion(cfg: Config, transport: Transport, s: State)
    requires Fair(cfg, transport) && s.open && s.error == None
    ensures var d := ReadAll(cfg, transport, s);
            d.error == None && !AtMessageEnd(d.state) <==> EndsWithEof(cfg, transport, s, false)
    decreases |s.input|
  {
    hide SeekPayload, Mask;
    var t := SeekPayload(cfg, s);
    var d := ReadHere(cfg, t, transport(t));
    if t.error == None && d.error == None {
      FalseCompletion(cfg, transport, d.state);
    }
  }

  /** On a new connection that receives `wire`, reading the first message to its end completes it falsely. */
  ghost predicate FalselyComplete(cfg: Config, wire: seq<byte>, transport: Transport)
    requires Fair(cfg, transport)
  {
    var (s, o) := NextReader(cfg, NewState(wire));
    && o.Accepted?
    && var d := ReadAll(cfg, transport, s);
       d.error == None && !AtMessageEnd(d.state)
  }

  /** Hands over all it has, and its end with the last octets where bufio lets it. */
  function Generous(cfg: Config, size: nat): Transport
  {
    (s: State) =>
      var want := Asked(s, size);
      var n := if |s.input| < want then |s.input| else want;
      Grant(want, n, if n == |s.input| && (n == 0 || cfg.bufSize <= want) then Some(cfg.end) else None)
  }

  /**
   Reads into buffers of at most `size` octets can complete a message before its last frame, for some stream and
   transport, if and only if such a buffer can be as long as the bufio reader's and the limit lets that much through.
   */
  lemma FalseCompletionPossible(cfg: Config, size: nat)
    requires cfg.bufSize > 0
    ensures (exists wire, transport ::
               Fair(cfg, transport) && AtMost(transport, size) && FalselyComplete(cfg, wire, transport)) <==>
            cfg.end == EOF && cfg.bufSize <= size && WithinLimit(cfg, cfg.bufSize)
  {
    hide SeekMessage, ReadAll, FalselyComplete;
    if wire, transport :|
      Fair(cfg, transport) && AtMost(transport, size) && FalselyComplete(cfg, wire, transport)
    {
      CompletionBounds(cfg, wire, transport, size);
    }
    if cfg.end == EOF && cfg.bufSize <= size && WithinLimit(cfg, cfg.bufSize) {
      var wire := CompletionExample(cfg, size);
    }
  }

  lemma CompletionBounds(cfg: Config, wire: seq<byte>, transport: Transport, size: nat)
    requires Fair(cfg, transport) && AtMost(transport, size) && FalselyComplete(cfg, wire, transport)
    ensures cfg.end == EOF && cfg.bufSize <= size && WithinLimit(cfg, cfg.bufSize)
  {
    hide SeekMessage, ReadAll;
    var (s, o) := NextReader(cfg, NewState(wire));
    MessageBeginsAccounted(cfg, NewState(wire).(open := false, length := 0));
    FalseCompletion(cfg, transport, s);
    EofBounds(cfg, transport, s, 0, size, false);
  }

  lemma CompletionExample(cfg: Config, size: nat) returns (wire: seq<byte>)
    requires cfg.end == EOF && 0 < cfg.bufSize <= size && WithinLimit(cfg, cfg.bufSize)
    ensures Fair(cfg, Generous(cfg, size)) && AtMost(Generous(cfg, size), size)
    ensures FalselyComplete(cfg, wire, Generous(cfg, size))
  {
    hide AdvanceFrame, Encode, SeekMessage, Mask, ReadAll;
    var f := LongFrame(cfg, false, BINARY, seq(cfg.bufSize, _ => 65));
    wire := Encode(f);
    var s := FrameAlone(cfg, f);
    FalseCompletion(cfg, Generous(cfg, size), s);
    assert SeekPayload(cfg, s) == s;
  }

  // ----- streams cut short -----

  function Longer(s: State, y: seq<byte>): State {
    s.(input := s.input + y)
  }

  predicate Extends(y: seq<byte>, r: (State, Outcome), r': (State, Outcome)) {
    r.1.Accepted? ==> r' == (Longer(r.0, y), r.1)
  }

  lemma TakeLonger(s: State, y: seq<byte>, n: nat)
    requires n <= |s.input|
    ensures Take(Longer(s, y), n) == Longer(Take(s, n), y)
    ensures Longer(s, y).input[..n] == s.input[..n]
  {
    SplitPrefix(s.input, y, n);
  }

  lemma ControlExtends(cfg: Config, s: State, y: seq<byte>, opcode: nat)
    ensures Extends(y, FinishControl(cfg, s, opcode), FinishControl(cfg, Longer(s, y), opcode))
  {
    hide Mask, FromBE;
    if s.remaining <= |s.input| {
      TakeLonger(s, y, s.remaining);
    }
  }

  lemma KeyExtends(cfg: Config, s: State, y: seq<byte>, h: Head)
    ensures Extends(y, ReadKey(cfg, s, h), ReadKey(cfg, Longer(s, y), h))
  {
    hide FinishControl;
    if !h.masked {
      ControlExtends(cfg, s, y, h.opcode);
    } else if |s.input| >= 4 {
      var key := Key(s.input[0], s.input[1], s.input[2], s.input[3]);
      TakeLonger(s.(maskPos := 0), y, 4);
      ControlExtends(cfg, Take(s.(maskPos := 0), 4).(maskKey := key), y, h.opcode);
    }
  }

  lemma LengthExtends(cfg: Config, s: State, y: seq<byte>, h: Head)
    ensures Extends(y, ReadLength(cfg, s, h), ReadLength(cfg, Longer(s, y), h))
  {
    hide ReadKey, FromBE;
    var n := if s.remaining == 127 then 8 else if s.remaining == 126 then 2 else 0;
    if |s.input| >= n {
      TakeLonger(s, y, n);
      var len := if n == 0 then s.remaining else FromBE(s.input[..n]);
      KeyExtends(cfg, Take(s, n).(remaining := len), y, h);
    }
  }

  /** A frame accepted from the front of a stream is accepted alike when more octets follow. */
  lemma AdvanceExtends(cfg: Config, s: State, y: seq<byte>)
    ensures Extends(y, AdvanceFrame(cfg, s), AdvanceFrame(cfg, Longer(s, y)))
  {
    hide ReadLength, ParseHead;
    if HeadReady(s) {
      TakeLonger(s, y, s.remaining);
      var t := Take(s, s.remaining);
      TakeLonger(t, y, 2);
      assert Longer(t, y).input[0] == t.input[0] && Longer(t, y).input[1] == t.input[1];
      LengthExtends(cfg, AfterHead(cfg, Take(t, 2), ParseHead(t.input[0], t.input[1])), y,
                    ParseHead(t.input[0], t.input[1]));
    }
  }

  /** A message cut short at any octet ends in an error, but for that one way in which it seems complete. */
  lemma {:induction false} CutEnds(
    cfg: Config, transport: Transport, s: State, p: seq<byte>, fs: seq<Frame>, lost: seq<byte>)
    requires Fair(cfg, transport)
    requires lost != [] && InMessage(cfg, Longer(s, lost), p, fs, [])
    ensures ReadAll(cfg, transport, s).error == None <==> EndsWithEof(cfg, transport, s, false)
    decreases |s.input|
  {
    hide AdvanceFrame, Mask, EncodeAll, DataFrames, Payloads, Masked, ControlEvents;
    if s.remaining > 0 {
      CutInFrame(cfg, transport, s, p, fs, lost);
    } else if s.final {
      NothingLost(cfg, s, p, fs, lost);
    } else {
      var (s', o) := AdvanceFrame(cfg, s);
      if o.Accepted? {
        AdvanceExtends(cfg, s, lost);
        var l, q := AdvanceInMessage(cfg, Longer(s, lost), fs, []);
        CutEnds(cfg, transport, s', q, fs[1..], lost);
      }
    }
  }

  lemma {:induction false} CutInFrame(
    cfg: Config, transport: Transport, s: State, p: seq<byte>, fs: seq<Frame>, lost: seq<byte>)
    requires Fair(cfg, transport)
    requires lost != [] && InMessage(cfg, Longer(s, lost), p, fs, []) && s.remaining > 0
    ensures ReadAll(cfg, transport, s).error == None <==> EndsWithEof(cfg, transport, s, false)
    decreases |s.input|, 0
  {
    hide AdvanceFrame, Mask, EncodeAll, DataFrames, Payloads, Masked;
    var g := transport(s);
    var d := ReadHere(cfg, s, g);
    assert SeekPayload(cfg, s) == s;
    if g.error == None {
      ReadLonger(cfg, s, lost, g);
      ReadContinues(cfg, Longer(s, lost), p, fs, [], g);
      CutEnds(cfg, transport, d.state, p[g.n..], fs, lost);
    } else if s.final && g.n == s.remaining {
      NothingLost(cfg, s, p, fs, lost);
    }
  }

  /** Read with buffers shorter than the bufio reader's, a message cut short at any octet ends in an error. */
  lemma CutShort(cfg: Config, transport: Transport, s: State, p: seq<byte>, fs: seq<Frame>, lost: seq<byte>,
                 size: nat)
    requires Fair(cfg, transport) && AtMost(transport, size) && size < cfg.bufSize
    requires lost != [] && InMessage(cfg, Longer(s, lost), p, fs, [])
    ensures ReadAll(cfg, transport, s).error.Some?
  {
    hide InMessage, ReadAll, EndsWithEof;
    CutEnds(cfg, transport, s, p, fs, lost);
    ShortReadsEndAlone(cfg, transport, s, size, false);
  }

  lemma ReadLonger(cfg: Config, s: State, y: seq<byte>, g: Grant)
    requires s.error == None && s.remaining > 0 && CanGrant(cfg, s, g) && g.error == None
    ensures ReadHere(cfg, Longer(s, y), g).state == Longer(ReadHere(cfg, s, g).state, y)
  {
    TakeLonger(s, y, g.n);
  }

  /** The final frame cannot be whole when octets of the message were lost. */
  lemma NothingLost(cfg: Config, s: State, p: seq<byte>, fs: seq<Frame>, lost: seq<byte>)
    requires InMessage(cfg, Longer(s, lost), p, fs, []) && s.final && (s.remaining == 0 || s.remaining == |s.input|)
    ensures lost == []
  {
  }

  // ----- skipping an abandoned message -----

  lemma KeyNotEof(cfg: Config, s: State, h: Head)
    ensures ReadKey(cfg, s, h).1 != Refused(EOF)
  {
  }

  lemma LengthNotEof(cfg: Config, s: State, h: Head)
    ensures ReadLength(cfg, s, h).1 != Refused(EOF)
  {
    hide ReadKey;
    var n := if s.remaining == 127 then 8 else if s.remaining == 126 then 2 else 0;
    if |s.input| >= n {
      var len := if n == 0 then s.remaining else FromBE(s.input[..n]);
      if len <= MAX_INT64 {
        KeyNotEof(cfg, Take(s, n).(remaining := len), h);
      }
    }
  }

  /** advanceFrame says a plain io.EOF only while it discards the rest of the previous frame. */
  lemma SkipEof(cfg: Config, s: State)
    ensures AdvanceFrame(cfg, s).1 == Refused(EOF) <==> s.remaining > |s.input| && cfg.end == EOF
  {
    hide ReadLength, ParseHead;
    if HeadReady(s) {
      var t := Take(s, s.remaining);
      var h := ParseHead(t.input[0], t.input[1]);
      LengthNotEof(cfg, AfterHead(cfg, Take(t, 2), h), h);
    }
  }

  lemma {:induction false} NoSkipNoEof(cfg: Config, s: State)
    requires AtMessageEnd(s) && s.error == None
    ensures SeekMessage(cfg, s).1 != Refused(EOF)
    decreases |s.input|
  {
    hide AdvanceFrame;
    SkipEof(cfg, s);
    var (s', o) := AdvanceFrame(cfg, s);
    if o.Accepted? && !IsData(o.opcode) {
      AcceptedHead(cfg, s);
      NoSkipNoEof(cfg, s');
    }
  }

  /** Either nothing follows though payload is left, or a continuation frame does that lacks its payload. */
  lemma SkippedEofExample(cfg: Config, s: State) returns (input: seq<byte>)
    requires s.error == None && cfg.end == EOF && !AtMessageEnd(s)
    ensures NextReader(cfg, s.(input := input)).1 == Refused(EOF)
  {
    hide AdvanceFrame, Header;
    if s.remaining > 0 {
      input := [];
      SkipEof(cfg, s.(input := input, open := false, length := 0));
    } else {
      var f := LongFrame(cfg, false, CONTINUATION, [65]);
      input := Header(f);
      var t := s.(input := input, open := false, length := 0);
      assert Header(f) + [] == Header(f);
      HeaderRead(cfg, t, f, []);
      var (s', o) := AdvanceFrame(cfg, t);
      assert o == Accepted(CONTINUATION) && s'.remaining == 1 && s'.input == [] && s'.error == None;
      SkipEof(cfg, s');
      assert SeekMessage(cfg, s').1 == Refused(EOF);
      assert SeekMessage(cfg, t) == SeekMessage(cfg, s');
    }
  }

  /**
   NextReader can report the end of the stream as io.EOF, as if no message were missing, if and only if it is called
   before every frame of the previous message through FIN was consumed.
   */
  lemma SkippedEof(cfg: Config, s: State)
    requires s.error == None && cfg.end == EOF
    ensures (exists input :: NextReader(cfg, s.(input := input)).1 == Refused(EOF)) <==> !AtMessageEnd(s)
  {
    hide SeekMessage;
    if !AtMessageEnd(s) {
      var input := SkippedEofExample(cfg, s);
    } else {
      forall input
        ensures NextReader(cfg, s.(input := input)).1 != Refused(EOF)
      {
        NoSkipNoEof(cfg, s.(input := input, open := false, length := 0));
      }
    }
  }

  // ----- latching -----

  /** Once readErr is set no read operation changes it or delivers anything. */
  lemma ErrorLatched(cfg: Config, s: State, g: Grant)
    requires s.error.Some?
    ensures Read(cfg, s, g).state == s && Read(cfg, s, g).data == [] && Read(cfg, s, g).error.Some?
    ensures NextReader(cfg, s).0.error == s.error && NextReader(cfg, s).1 == Refused(s.error.value)
    ensures NextReader(cfg, s).0.input == s.input && NextReader(cfg, s).0.events == s.events
  {
  }
}
