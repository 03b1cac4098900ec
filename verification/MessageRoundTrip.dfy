/**
 Reading back whole messages. For every way the frames of a message were cut, every interleaving of pings
 and pongs and every way the transport hands over the octets, the reader returns the payload and no more.
 */
module MessageRoundTrip {
  import opened Bytes
  import opened Masking
  import opened Frames
  import opened Reading
  import opened FrameRoundTrip

  // ----- what a stream of frames carries -----

  function ControlEvents(fs: seq<Frame>): seq<Event> {
    if fs == [] then []
    else if IsControl(fs[0].opcode) then [ControlEvent(fs[0])] + ControlEvents(fs[1..])
    else ControlEvents(fs[1..])
  }

  function Carried(fs: seq<Frame>): seq<byte> {
    Payloads(DataFrames(fs))
  }

  /** Frames that complete a message whose last frame so far had FIN equal to `final`. */
  predicate Completes(cfg: Config, final: bool, fs: seq<Frame>)
    decreases |fs|
  {
    if final then fs == []
    else
      && fs != []
      && if IsControl(fs[0].opcode) then GoodControl(cfg, fs[0]) && Completes(cfg, final, fs[1..])
         else Fits(cfg, fs[0]) && fs[0].opcode == CONTINUATION && Completes(cfg, fs[0].fin, fs[1..])
  }

  /** Control frames, then the first data frame of a message, then the frames that complete it. */
  predicate Segment(cfg: Config, fs: seq<Frame>) {
    && fs != []
    && if IsControl(fs[0].opcode) then GoodControl(cfg, fs[0]) && Segment(cfg, fs[1..])
       else Fits(cfg, fs[0]) && IsData(fs[0].opcode) && Completes(cfg, fs[0].fin, fs[1..])
  }

  lemma CompletesEncodable(cfg: Config, final: bool, fs: seq<Frame>)
    requires Completes(cfg, final, fs)
    ensures AllEncodable(fs)
    decreases |fs|
  {
    if fs != [] {
      CompletesEncodable(cfg, if IsControl(fs[0].opcode) then final else fs[0].fin, fs[1..]);
    }
  }

  lemma SegmentEncodable(cfg: Config, fs: seq<Frame>)
    requires Segment(cfg, fs)
    ensures AllEncodable(fs)
  {
    if IsControl(fs[0].opcode) {
      SegmentEncodable(cfg, fs[1..]);
    } else {
      CompletesEncodable(cfg, fs[0].fin, fs[1..]);
    }
  }

  // ----- inside one message -----

  /** p is left of the current frame's payload, the frames fs complete the message, and rest follows. */
  ghost predicate InMessage(cfg: Config, s: State, p: seq<byte>, fs: seq<Frame>, rest: seq<byte>) {
    && s.error == None && s.open && s.remaining == |p|
    && Completes(cfg, s.final, fs) && AllEncodable(fs)
    && s.input == Masked(cfg, s.maskKey, s.maskPos, p) + (EncodeAll(fs) + rest)
    && s.length >= 0 && WithinLimit(cfg, s.length + |Carried(fs)|)
  }

  lemma FirstFrame(fs: seq<Frame>, rest: seq<byte>)
    requires fs != [] && AllEncodable(fs)
    ensures EncodeAll(fs) + rest == Encode(fs[0]) + (EncodeAll(fs[1..]) + rest)
  {
    ConcatAssociative(Encode(fs[0]), EncodeAll(fs[1..]), rest);
  }

  lemma ControlInMessage(cfg: Config, s: State, fs: seq<Frame>, rest: seq<byte>) returns (s': State)
    requires InMessage(cfg, s, [], fs, rest) && !s.final && IsControl(fs[0].opcode)
    ensures AdvanceFrame(cfg, s) == (s', Accepted(fs[0].opcode))
    ensures InMessage(cfg, s', [], fs[1..], rest)
    ensures s'.events == s.events + [ControlEvent(fs[0])]
  {
    var f := fs[0];
    var after := EncodeAll(fs[1..]) + rest;
    assert s.input == EncodeAll(fs) + rest;
    FirstFrame(fs, rest);
    AdvanceOnControl(cfg, s, f, after);
    hide AdvanceFrame, EncodeAll, Encode, Fits;
    s' := WithHeader(cfg, s, f, after).(remaining := 0).Emit(ControlEvent(f));
    assert Masked(cfg, s'.maskKey, s'.maskPos, []) + after == after;
  }

  lemma FragmentInMessage(cfg: Config, s: State, fs: seq<Frame>, rest: seq<byte>) returns (s': State)
    requires InMessage(cfg, s, [], fs, rest) && !s.final && !IsControl(fs[0].opcode)
    ensures AdvanceFrame(cfg, s) == (s', Accepted(CONTINUATION))
    ensures InMessage(cfg, s', fs[0].payload, fs[1..], rest)
    ensures s'.events == s.events
  {
    var f := fs[0];
    var after := EncodeAll(fs[1..]) + rest;
    assert s.input == EncodeAll(fs) + rest;
    FirstFrame(fs, rest);
    assert Carried(fs) == f.payload + Carried(fs[1..]);
    AdvanceOnData(cfg, s, f, after);
    s' := WithHeader(cfg, s, f, MaskedPayload(f.key, f.payload) + after).(length := s.length + |f.payload|);
  }

  lemma AdvanceInMessage(cfg: Config, s: State, fs: seq<Frame>, rest: seq<byte>)
    returns (s': State, p: seq<byte>)
    requires InMessage(cfg, s, [], fs, rest) && !s.final
    ensures AdvanceFrame(cfg, s) == (s', Accepted(fs[0].opcode)) && !IsData(fs[0].opcode)
    ensures InMessage(cfg, s', p, fs[1..], rest)
    ensures p + Carried(fs[1..]) == Carried(fs)
    ensures s'.events + ControlEvents(fs[1..]) == s.events + ControlEvents(fs)
  {
    if IsControl(fs[0].opcode) {
      s' := ControlInMessage(cfg, s, fs, rest);
      p := [];
      ConcatAssociative(s.events, [ControlEvent(fs[0])], ControlEvents(fs[1..]));
    } else {
      s' := FragmentInMessage(cfg, s, fs, rest);
      p := fs[0].payload;
    }
  }

  lemma {:induction false} SeekInMessage(cfg: Config, s: State, p: seq<byte>, fs: seq<Frame>, rest: seq<byte>)
    returns (p': seq<byte>, fs': seq<Frame>)
    requires InMessage(cfg, s, p, fs, rest)
    ensures InMessage(cfg, SeekPayload(cfg, s), p', fs', rest)
    ensures p' + Carried(fs') == p + Carried(fs)
    ensures SeekPayload(cfg, s).events + ControlEvents(fs') == s.events + ControlEvents(fs)
    decreases |fs|
  {
    hide AdvanceFrame;
    if p == [] && !s.final {
      var s1, p1 := AdvanceInMessage(cfg, s, fs, rest);
      p', fs' := SeekInMessage(cfg, s1, p1, fs[1..], rest);
    } else {
      p', fs' := p, fs;
    }
  }

  lemma NothingFollows(cfg: Config, final: bool, fs: seq<Frame>, rest: seq<byte>)
    requires Completes(cfg, final, fs) && AllEncodable(fs) && |EncodeAll(fs) + rest| == 0
    ensures fs == [] && rest == [] && final
  {
    if fs != [] {
      FirstFrame(fs, rest);
    }
  }

  lemma SplitPrefix<T>(a: seq<T>, b: seq<T>, n: nat)
    requires n <= |a|
    ensures (a + b)[..n] == a[..n] && (a + b)[n..] == a[n..] + b
  {
  }

  lemma DataRead(cfg: Config, s: State, p: seq<byte>, fs: seq<Frame>, rest: seq<byte>, g: Grant)
    requires InMessage(cfg, s, p, fs, rest) && s.remaining > 0 && CanGrant(cfg, s, g)
    ensures ReadHere(cfg, s, g).data == p[..g.n] && ReadHere(cfg, s, g).state.events == s.events
  {
    SplitPrefix(Masked(cfg, s.maskKey, s.maskPos, p), EncodeAll(fs) + rest, g.n);
    UnmaskChunk(cfg, s.maskKey, s.maskPos, p, g.n);
  }

  lemma ReadContinues(cfg: Config, s: State, p: seq<byte>, fs: seq<Frame>, rest: seq<byte>, g: Grant)
    requires InMessage(cfg, s, p, fs, rest) && s.remaining > 0 && CanGrant(cfg, s, g) && g.error == None
    ensures ReadHere(cfg, s, g).error == None
    ensures InMessage(cfg, ReadHere(cfg, s, g).state, p[g.n..], fs, rest)
  {
    hide EncodeAll, Completes, DataFrames, Payloads, Masked, Mask;
    SplitPrefix(Masked(cfg, s.maskKey, s.maskPos, p), EncodeAll(fs) + rest, g.n);
    MaskedTail(cfg, s, p, g.n);
  }

  lemma MaskedTail(cfg: Config, s: State, p: seq<byte>, n: nat)
    requires n <= |p|
    ensures Masked(cfg, s.maskKey, s.maskPos, p)[n..] ==
            Masked(cfg, s.maskKey, if cfg.isServer then (s.maskPos + n) % 4 else s.maskPos, p[n..])
  {
    UnmaskChunk(cfg, s.maskKey, s.maskPos, p, n);
  }

  /** The transport can report its end together with octets of the message only when they are its last. */
  lemma ReadEnds(cfg: Config, s: State, p: seq<byte>, fs: seq<Frame>, rest: seq<byte>, g: Grant)
    requires InMessage(cfg, s, p, fs, rest) && s.remaining > 0 && CanGrant(cfg, s, g) && g.error.Some?
    ensures g.n == |p| && fs == [] && rest == [] && g.error.value == cfg.end
    ensures var d := ReadHere(cfg, s, g);
            d.error == g.error && d.state.remaining == 0 && d.state.final && d.state.input == []
  {
    assert |s.input| == |p| + |EncodeAll(fs) + rest|;
    NothingFollows(cfg, s.final, fs, rest);
  }

  // ----- ReadMessage -----

  /** How the transport answers each read of payload, in whatever state the connection is. */
  type Transport = State -> Grant

  /** Every answer is one that bufio can give, and brings octets or an error. */
  ghost predicate Fair(cfg: Config, transport: Transport) {
    forall s: State :: s.error == None && s.remaining > 0 ==>
      var g := transport(s);
      CanGrant(cfg, s, g) && (g.n > 0 || g.error.Some?)
  }

  /** io.ReadAll on the current reader: reads until one returns an error; io.EOF ends the message. */
  ghost function ReadAll(cfg: Config, transport: Transport, s: State): Delivery
    requires Fair(cfg, transport)
    decreases |s.input|
  {
    var t := SeekPayload(cfg, s);
    var d := ReadHere(cfg, t, transport(t));
    if d.error == Some(EOF) then Delivery(d.state, d.data, None)
    else if d.error.Some? then d
    else
      var d' := ReadAll(cfg, transport, d.state);
      Delivery(d'.state, d.data + d'.data, d'.error)
  }

  /** A message has been read to its end and rest follows it. */
  predicate BetweenMessages(s: State, rest: seq<byte>) {
    && s.input == rest && s.remaining == 0 && s.final
    && (rest != [] ==> s.error == None)
  }

  /** The result of reading a message to its end. */
  predicate MessageRead(cfg: Config, d: Delivery, data: seq<byte>, rest: seq<byte>, events: seq<Event>) {
    && d.data == data && BetweenMessages(d.state, rest) && d.state.events == events
    && (d.error == None || (rest == [] && cfg.end != EOF && d.error == Some(cfg.end)))
  }

  lemma {:induction false} ReadAllInMessage(
    cfg: Config, transport: Transport, s: State, p: seq<byte>, fs: seq<Frame>, rest: seq<byte>)
    requires Fair(cfg, transport) && InMessage(cfg, s, p, fs, rest)
    ensures MessageRead(cfg, ReadAll(cfg, transport, s), p + Carried(fs), rest, s.events + ControlEvents(fs))
    decreases |s.input|
  {
    hide SeekPayload, EncodeAll, Completes, DataFrames, Payloads, ControlEvents;
    var t := SeekPayload(cfg, s);
    var q, gs := SeekInMessage(cfg, s, p, fs, rest);
    if t.remaining == 0 {
      AtEnd(cfg, t, q, gs, rest);
    } else if transport(t).error.Some? {
      LastRead(cfg, t, q, gs, rest, transport(t));
    } else {
      var g := transport(t);
      DataRead(cfg, t, q, gs, rest, g);
      ReadContinues(cfg, t, q, gs, rest, g);
      ReadAllInMessage(cfg, transport, ReadHere(cfg, t, g).state, q[g.n..], gs, rest);
      SplitPayload(q, g.n, Carried(gs));
    }
  }

  lemma SplitPayload<T>(q: seq<T>, n: nat, c: seq<T>)
    requires n <= |q|
    ensures q[..n] + (q[n..] + c) == q + c
  {
  }

  lemma AtEnd(cfg: Config, s: State, q: seq<byte>, fs: seq<Frame>, rest: seq<byte>)
    requires InMessage(cfg, s, q, fs, rest) && s.remaining == 0 && s.final
    ensures MessageRead(cfg, Delivery(s.(open := false), [], None), q + Carried(fs), rest,
                        s.events + ControlEvents(fs))
  {
    assert q == [] && fs == [];
  }

  lemma LastRead(cfg: Config, s: State, p: seq<byte>, fs: seq<Frame>, rest: seq<byte>, g: Grant)
    requires InMessage(cfg, s, p, fs, rest) && s.remaining > 0 && CanGrant(cfg, s, g) && g.error.Some?
    ensures var d := ReadHere(cfg, s, g);
            && d.error == Some(cfg.end)
            && MessageRead(cfg, d.(error := if cfg.end == EOF then None else Some(cfg.end)),
                           p + Carried(fs), rest, s.events + ControlEvents(fs))
  {
    ReadEnds(cfg, s, p, fs, rest, g);
    DataRead(cfg, s, p, fs, rest, g);
    assert p[..g.n] == p + Carried(fs);
  }

  // ----- a stream of messages -----

  /** The message a segment carries. */
  function MessageOf(fs: seq<Frame>): Message
    requires DataFrames(fs) != []
  {
    var first := DataFrames(fs)[0];
    Message(first.opcode, first.rsv1, Carried(fs))
  }

  lemma SegmentHasData(cfg: Config, fs: seq<Frame>)
    requires Segment(cfg, fs)
    ensures DataFrames(fs) != [] && IsData(MessageOf(fs).opcode)
  {
    if IsControl(fs[0].opcode) {
      SegmentHasData(cfg, fs[1..]);
    }
  }

  /** NextReader is about to read the frames fs of a segment, then rest. */
  ghost predicate BeforeMessage(cfg: Config, s: State, fs: seq<Frame>, rest: seq<byte>) {
    && s.error == None && s.remaining == 0 && s.final && s.length == 0
    && Segment(cfg, fs) && AllEncodable(fs) && s.input == EncodeAll(fs) + rest
    && WithinLimit(cfg, |Carried(fs)|)
  }

  lemma ControlBeforeMessage(cfg: Config, s: State, fs: seq<Frame>, rest: seq<byte>) returns (s': State)
    requires BeforeMessage(cfg, s, fs, rest) && IsControl(fs[0].opcode)
    ensures AdvanceFrame(cfg, s) == (s', Accepted(fs[0].opcode))
    ensures BeforeMessage(cfg, s', fs[1..], rest)
    ensures s'.events == s.events + [ControlEvent(fs[0])]
  {
    FirstFrame(fs, rest);
    var after := EncodeAll(fs[1..]) + rest;
    AdvanceOnControl(cfg, s, fs[0], after);
    s' := WithHeader(cfg, s, fs[0], after).(remaining := 0).Emit(ControlEvent(fs[0]));
  }

  lemma FirstFragment(cfg: Config, s: State, fs: seq<Frame>, rest: seq<byte>) returns (s': State)
    requires BeforeMessage(cfg, s, fs, rest) && !IsControl(fs[0].opcode)
    ensures AdvanceFrame(cfg, s) == (s', Accepted(fs[0].opcode))
    ensures InMessage(cfg, s'.(open := true), fs[0].payload, fs[1..], rest)
    ensures s'.events == s.events && s'.compressed == fs[0].rsv1
  {
    FirstFrame(fs, rest);
    var f, after := fs[0], EncodeAll(fs[1..]) + rest;
    assert Carried(fs) == f.payload + Carried(fs[1..]);
    AdvanceOnData(cfg, s, f, after);
    s' := WithHeader(cfg, s, f, MaskedPayload(f.key, f.payload) + after).(length := s.length + |f.payload|);
  }

  /** NextReader passes the control frames to the handlers and stops inside the message. */
  lemma {:induction false} SeekBeforeMessage(cfg: Config, s: State, fs: seq<Frame>, rest: seq<byte>)
    returns (s': State, p: seq<byte>, gs: seq<Frame>)
    requires BeforeMessage(cfg, s, fs, rest)
    ensures DataFrames(fs) != []
    ensures SeekMessage(cfg, s) == (s', Accepted(MessageOf(fs).opcode))
    ensures s'.compressed == MessageOf(fs).compressed
    ensures InMessage(cfg, s', p, gs, rest) && p + Carried(gs) == MessageOf(fs).payload
    ensures s'.events + ControlEvents(gs) == s.events + ControlEvents(fs)
    decreases |fs|
  {
    hide AdvanceFrame;
    SegmentHasData(cfg, fs);
    if IsControl(fs[0].opcode) {
      var s1 := ControlBeforeMessage(cfg, s, fs, rest);
      s', p, gs := SeekBeforeMessage(cfg, s1, fs[1..], rest);
      ConcatAssociative(s.events, [ControlEvent(fs[0])], ControlEvents(fs[1..]));
    } else {
      var s1 := FirstFragment(cfg, s, fs, rest);
      s', p, gs := s1.(open := true), fs[0].payload, fs[1..];
    }
  }
}
