/** What the read side keeps for every input stream, well formed or not. */
module ReaderProperties {
  import opened Bytes
  import opened Masking
  import opened Frames
  import opened Reading
  import opened FrameRoundTrip
  import opened MessageRoundTrip

  // ----- what accepting a frame means -----

  /** What an accepted frame has done to a state whose readFinal and readLength were given. */
  predicate Kept(cfg: Config, final: bool, length: int, h: Head, r: (State, Outcome)) {
    r.1.Accepted? ==>
      && r.1.opcode == h.opcode && r.0.final == final && r.0.remaining <= MAX_INT64
      && if IsControl(h.opcode) then r.0.remaining == 0 && r.0.length == length
         else
           && r.0.length == AddInt64(length, r.0.remaining) && 0 <= r.0.length
           && (cfg.limit > 0 ==> r.0.length <= cfg.limit)
  }

  lemma FinishKeeps(cfg: Config, s: State, h: Head)
    requires s.remaining <= MAX_INT64
    ensures Kept(cfg, s.final, s.length, h, FinishFrame(cfg, s, h))
  {
  }

  lemma KeyKeeps(cfg: Config, s: State, h: Head)
    requires s.remaining <= MAX_INT64
    ensures Kept(cfg, s.final, s.length, h, ReadKey(cfg, s, h))
  {
    hide FinishFrame;
    FinishKeeps(cfg, s, h);
    if h.masked && |s.input| >= 4 {
      var key := Key(s.input[0], s.input[1], s.input[2], s.input[3]);
      FinishKeeps(cfg, Take(s.(maskPos := 0), 4).(maskKey := key), h);
    }
  }

  lemma LengthKeeps(cfg: Config, s: State, h: Head)
    ensures Kept(cfg, s.final, s.length, h, ReadLength(cfg, s, h))
  {
    hide ReadKey;
    var n := if s.remaining == 127 then 8 else if s.remaining == 126 then 2 else 0;
    if |s.input| >= n {
      var len := if n == 0 then s.remaining else FromBE(s.input[..n]);
      if len <= MAX_INT64 {
        KeyKeeps(cfg, Take(s, n).(remaining := len), h);
      }
    }
  }

  /** The two octets that begin the next frame, when they are there. */
  predicate HeadReady(s: State) {
    s.remaining + 2 <= |s.input|
  }

  function NextHead(s: State): Head
    requires HeadReady(s)
  {
    ParseHead(s.input[s.remaining], s.input[s.remaining + 1])
  }

  /** The FIN bit of the frame that begins next. */
  predicate NextFin(s: State) {
    HeadReady(s) && NextHead(s).fin
  }

  /** A frame is accepted only if its head is, and its opcode and FIN are those of the head. */
  lemma AcceptedHead(cfg: Config, s: State)
    requires AdvanceFrame(cfg, s).1.Accepted?
    ensures HeadReady(s) && !HeadRefused(cfg, s.final, NextHead(s))
    ensures Kept(cfg, if IsControl(NextHead(s).opcode) then s.final else NextHead(s).fin, s.length, NextHead(s),
                 AdvanceFrame(cfg, s))
  {
    hide ReadLength, ParseHead;
    if HeadReady(s) {
      var h := NextHead(s);
      var s1 := Take(s, s.remaining);
      assert s1.input[0] == s.input[s.remaining] && s1.input[1] == s.input[s.remaining + 1];
      LengthKeeps(cfg, AfterHead(cfg, Take(s1, 2), h), h);
    }
  }

  /** The wrapped sum of two lengths is negative exactly when the true sum does not fit. */
  lemma OverflowIsNegative(a: nat, b: nat)
    requires a <= MAX_INT64 && b <= MAX_INT64
    ensures AddInt64(a, b) < 0 <==> a + b > MAX_INT64
    ensures AddInt64(a, b) >= 0 ==> AddInt64(a, b) == a + b
  {
  }

  // ----- frame sequencing -----

  /** An accepted data frame: its opcode and FIN bit. */
  datatype Tag = Tag(opcode: nat, fin: bool)

  datatype History = History(tags: seq<Tag>, state: State)

  /** What happens between two calls of advanceFrame: NextReader starts over, or some of the payload is read. */
  type Between = State -> State

  /** Whatever it is, readFinal stays and no octets are put back. */
  ghost predicate Steady(between: Between) {
    forall s: State :: between(s).final == s.final && |between(s).input| <= |s.input|
  }

  /** The data frames accepted by successive calls of advanceFrame, until one is refused. */
  ghost function Accept(cfg: Config, between: Between, s: State): History
    requires Steady(between)
    decreases |s.input|
  {
    var t := between(s);
    var (s', o) := AdvanceFrame(cfg, t);
    if o.Refused? then History([], t)
    else
      var h := Accept(cfg, between, s');
      if IsControl(o.opcode) then h else h.(tags := [Tag(o.opcode, NextFin(t))] + h.tags)
  }

  predicate OpenTags(ts: seq<Tag>) {
    && (ts != [] ==> IsData(ts[0].opcode))
    && forall i :: 0 <= i < |ts| ==> !ts[i].fin && (i > 0 ==> ts[i].opcode == CONTINUATION)
  }

  predicate WholeTags(ts: seq<Tag>) {
    && ts != []
    && OpenTags(ts[..|ts| - 1])
    && var last := ts[|ts| - 1];
       last.fin && if |ts| == 1 then IsData(last.opcode) else last.opcode == CONTINUATION
  }

  /**
   For every input, and whatever the application does in between, the accepted data frames are whole messages
   followed by at most one unfinished message, and readFinal is true exactly when none is unfinished.
   */
  lemma {:induction false} AcceptedSequence(cfg: Config, between: Between, s: State, begun: seq<Tag>)
    returns (messages: seq<seq<Tag>>, unfinished: seq<Tag>)
    requires Steady(between) && OpenTags(begun) && (s.final <==> begun == [])
    ensures begun + Accept(cfg, between, s).tags == Concat(messages) + unfinished
    ensures forall m :: m in messages ==> WholeTags(m)
    ensures OpenTags(unfinished) && (Accept(cfg, between, s).state.final <==> unfinished == [])
    decreases |s.input|
  {
    hide AdvanceFrame;
    var t := between(s);
    var (s', o) := AdvanceFrame(cfg, t);
    if o.Refused? {
      messages, unfinished := [], begun;
      assert begun + [] == Concat<Tag>([]) + begun;
    } else {
      AcceptedHead(cfg, t);
      if IsControl(o.opcode) {
        messages, unfinished := AcceptedSequence(cfg, between, s', begun);
      } else {
        var tag := Tag(o.opcode, NextFin(t));
        var ts := begun + [tag];
        ConcatAssociative(begun, [tag], Accept(cfg, between, s').tags);
        assert ts[..|ts| - 1] == begun;
        if tag.fin {
          messages, unfinished := AcceptedSequence(cfg, between, s', []);
          assert [] + Accept(cfg, between, s').tags == Accept(cfg, between, s').tags;
          ConcatAssociative(ts, Concat(messages), unfinished);
          messages := [ts] + messages;
        } else {
          messages, unfinished := AcceptedSequence(cfg, between, s', ts);
        }
      }
    }
  }

  /** Frames in the sequence that a reader with readFinal equal to `final` expects. */
  predicate Conforming(cfg: Config, final: bool, fs: seq<Frame>)
    decreases |fs|
  {
    fs != [] ==>
      if IsControl(fs[0].opcode) then GoodControl(cfg, fs[0]) && Conforming(cfg, final, fs[1..])
      else Fits(cfg, fs[0]) && InSequence(final, fs[0]) && Conforming(cfg, fs[0].fin, fs[1..])
  }

  function Tags(fs: seq<Frame>): seq<Tag> {
    if fs == [] then []
    else if IsControl(fs[0].opcode) then Tags(fs[1..])
    else [Tag(fs[0].opcode, fs[0].fin)] + Tags(fs[1..])
  }

  /** The rest of the current frame's payload plays no part in accepting the next frame. */
  lemma SkipPayload(cfg: Config, s: State)
    requires HeadReady(s)
    ensures AdvanceFrame(cfg, s) == AdvanceFrame(cfg, Take(s, s.remaining).(remaining := 0))
  {
    hide ReadLength, ParseHead;
    var t := Take(s, s.remaining).(remaining := 0);
    assert Take(t, 0) == t;
  }

  lemma ConformingEncodable(cfg: Config, final: bool, fs: seq<Frame>)
    requires Conforming(cfg, final, fs)
    ensures AllEncodable(fs)
    decreases |fs|
  {
    if fs != [] {
      ConformingEncodable(cfg, if IsControl(fs[0].opcode) then final else fs[0].fin, fs[1..]);
    }
  }

  lemma HeadOctets(f: Frame, skip: seq<byte>, after: seq<byte>)
    requires f.Encodable()
    ensures var w := skip + (Encode(f) + after);
            && |skip| + 2 <= |w| && w[|skip|..] == Encode(f) + after
            && ParseHead(w[|skip|], w[|skip| + 1]) == HeadOf(f)
  {
    ParseHeadInverts(f);
    var w := skip + (Encode(f) + after);
    assert w[|skip|] == (Encode(f) + after)[0] && w[|skip| + 1] == (Encode(f) + after)[1];
  }

  /** The octets of each message, of which `length` were counted so far, are within the limit. */
  predicate WithinLimits(cfg: Config, final: bool, length: nat, fs: seq<Frame>)
    decreases |fs|
  {
    fs != [] ==>
      if IsControl(fs[0].opcode) then WithinLimits(cfg, final, length, fs[1..])
      else
        var total := (if final then 0 else length) + |fs[0].payload|;
        WithinLimit(cfg, total) && WithinLimits(cfg, fs[0].fin, total, fs[1..])
  }

  lemma {:induction false} ShorterWithinLimits(cfg: Config, final: bool, n: nat, length: nat, fs: seq<Frame>)
    requires WithinLimits(cfg, final, length, fs) && n <= length
    ensures WithinLimits(cfg, final, n, fs)
    decreases |fs|
  {
    if fs != [] {
      if IsControl(fs[0].opcode) {
        ShorterWithinLimits(cfg, final, n, length, fs[1..]);
      } else {
        ShorterWithinLimits(cfg, fs[0].fin, (if final then 0 else n) + |fs[0].payload|,
                            (if final then 0 else length) + |fs[0].payload|, fs[1..]);
      }
    }
  }

  /** s is inside or at the end of a frame with the octets `skip` left of its payload; the frames fs follow. */
  ghost predicate AtFrames(cfg: Config, s: State, skip: seq<byte>, fs: seq<Frame>) {
    && Conforming(cfg, s.final, fs) && AllEncodable(fs)
    && s.input == skip + EncodeAll(fs) && s.remaining == |skip|
    && s.length >= 0 && WithinLimits(cfg, s.final, s.length, fs)
  }

  /** t comes from s by reading some of the payload; once the last frame is there, NextReader is called. */
  predicate ReadSome(s: State, t: State) {
    && t.remaining <= s.remaining <= |s.input|
    && t.input == s.input[s.remaining - t.remaining..]
    && t.final == s.final && 0 <= t.length <= (if s.final then 0 else s.length)
  }

  /** An application that reads messages one after the other. */
  ghost predicate Reads(between: Between) {
    forall s: State :: s.remaining <= |s.input| && s.length >= 0 ==> ReadSome(s, between(s))
  }

  lemma ReadAtFrames(cfg: Config, s: State, t: State, skip: seq<byte>, fs: seq<Frame>)
    requires AtFrames(cfg, s, skip, fs) && ReadSome(s, t)
    ensures AtFrames(cfg, t, skip[|skip| - t.remaining..], fs) && (t.final ==> t.length == 0)
  {
    hide Conforming, EncodeAll;
    ShorterWithinLimits(cfg, s.final, if s.final then 0 else t.length, s.length, fs);
    var k := |skip| - t.remaining;
    assert (skip + EncodeAll(fs))[k..] == skip[k..] + EncodeAll(fs);
  }

  lemma ConformingControl(cfg: Config, s: State, fs: seq<Frame>) returns (s': State)
    requires AtFrames(cfg, s, [], fs) && fs != [] && IsControl(fs[0].opcode)
    ensures AdvanceFrame(cfg, s) == (s', Accepted(fs[0].opcode))
    ensures AtFrames(cfg, s', [], fs[1..])
  {
    hide AdvanceFrame, Encode, HeadRefused;
    var f, after := fs[0], EncodeAll(fs[1..]);
    AdvanceOnControl(cfg, s, f, after);
    s' := WithHeader(cfg, s, f, after).(remaining := 0).Emit(ControlEvent(f));
    assert s'.input == [] + after;
  }

  lemma ConformingData(cfg: Config, s: State, fs: seq<Frame>) returns (s': State, skip: seq<byte>)
    requires AtFrames(cfg, s, [], fs) && fs != [] && !IsControl(fs[0].opcode) && (s.final ==> s.length == 0)
    ensures AdvanceFrame(cfg, s) == (s', Accepted(fs[0].opcode))
    ensures AtFrames(cfg, s', skip, fs[1..])
  {
    hide AdvanceFrame, Encode, HeadRefused;
    var f, after := fs[0], EncodeAll(fs[1..]);
    AdvanceOnData(cfg, s, f, after);
    skip := MaskedPayload(f.key, f.payload);
    s' := WithHeader(cfg, s, f, skip + after).(length := s.length + |f.payload|);
  }

  lemma ConformingStep(cfg: Config, s: State, skip: seq<byte>, fs: seq<Frame>)
    returns (s': State, skip': seq<byte>)
    requires AtFrames(cfg, s, skip, fs) && fs != [] && (s.final ==> s.length == 0)
    ensures AdvanceFrame(cfg, s) == (s', Accepted(fs[0].opcode)) && NextFin(s) == fs[0].fin
    ensures AtFrames(cfg, s', skip', fs[1..])
  {
    hide AdvanceFrame, Encode, ParseHead, HeadRefused, Conforming, WithinLimits;
    HeadOctets(fs[0], skip, EncodeAll(fs[1..]));
    SkipPayload(cfg, s);
    var t := Take(s, |skip|).(remaining := 0);
    assert t.input == [] + EncodeAll(fs);
    if IsControl(fs[0].opcode) {
      s' := ConformingControl(cfg, t, fs);
      skip' := [];
    } else {
      s', skip' := ConformingData(cfg, t, fs);
    }
  }

  /** Every conforming stream whose messages are within the limit is accepted to its end. */
  lemma {:induction false} ConformingAccepted(cfg: Config, between: Between, s: State, skip: seq<byte>, fs: seq<Frame>)
    requires Steady(between) && Reads(between) && AtFrames(cfg, s, skip, fs)
    ensures Accept(cfg, between, s).tags == Tags(fs)
    decreases |fs|
  {
    hide AdvanceFrame;
    var t := between(s);
    ReadAtFrames(cfg, s, t, skip, fs);
    var rest := skip[|skip| - t.remaining..];
    if fs == [] {
      EndRefused(cfg, t);
    } else {
      var s', skip' := ConformingStep(cfg, t, rest, fs);
      hide AtFrames;
      ConformingAccepted(cfg, between, s', skip', fs[1..]);
    }
  }

  lemma EndRefused(cfg: Config, s: State)
    requires s.remaining == |s.input|
    ensures AdvanceFrame(cfg, s).1.Refused?
  {
    hide ReadLength;
  }

  // ----- the read limit -----

  /** n octets of the current message have been delivered. */
  predicate Accounted(cfg: Config, s: State, n: nat) {
    s.error == None ==>
      && n + s.remaining <= s.length <= MAX_INT64
      && (cfg.limit > 0 ==> s.length <= cfg.limit)
  }

  lemma {:induction false} SeekKeepsAccount(cfg: Config, s: State, n: nat)
    requires Accounted(cfg, s, n)
    ensures Accounted(cfg, SeekPayload(cfg, s), n)
    decreases |s.input|
  {
    hide AdvanceFrame;
    if s.error == None && s.remaining == 0 && !s.final {
      var (s', o) := AdvanceFrame(cfg, s);
      if o.Accepted? {
        AcceptedHead(cfg, s);
        if s'.remaining <= MAX_INT64 {
          OverflowIsNegative(s.length, s'.remaining);
        }
        if !IsData(o.opcode) {
          SeekKeepsAccount(cfg, s', n);
        }
      }
    }
  }

  /** The first frame of a message is accounted for, whatever came before it. */
  lemma {:induction false} MessageBeginsAccounted(cfg: Config, s: State)
    requires 0 <= s.length <= MAX_INT64
    ensures var (s', o) := SeekMessage(cfg, s); o.Accepted? ==> Accounted(cfg, s', 0)
    decreases |s.input|
  {
    hide AdvanceFrame;
    if s.error == None {
      var (s', o) := AdvanceFrame(cfg, s);
      if o.Accepted? {
        AcceptedHead(cfg, s);
        OverflowIsNegative(s.length, if s'.remaining <= MAX_INT64 then s'.remaining else 0);
        if !IsData(o.opcode) {
          MessageBeginsAccounted(cfg, s');
        }
      }
    }
  }

  lemma {:induction false} ReadAllAccounted(cfg: Config, transport: Transport, s: State, n: nat)
    requires Fair(cfg, transport) && Accounted(cfg, s, n) && s.error == None
    ensures n + |ReadAll(cfg, transport, s).data| <= MAX_INT64
    ensures cfg.limit > 0 ==> n + |ReadAll(cfg, transport, s).data| <= cfg.limit
    decreases |s.input|
  {
    hide SeekPayload, Mask;
    var t := SeekPayload(cfg, s);
    SeekKeepsAccount(cfg, s, n);
    var d := ReadHere(cfg, t, transport(t));
    if t.error.Some? {
      assert d.data == [];
    } else if d.error == None {
      ReadAllAccounted(cfg, transport, d.state, n + |d.data|);
    }
  }

  /** Whatever the stream, no more octets are delivered for a message than the read limit allows. */
  lemma ReadLimitHolds(cfg: Config, transport: Transport, s: State)
    requires Fair(cfg, transport) && cfg.limit > 0
    ensures var (s', o) := NextReader(cfg, s);
            o.Accepted? ==> |ReadAll(cfg, transport, s').data| <= cfg.limit
  {
    hide SeekMessage, ReadAll;
    var (s', o) := NextReader(cfg, s);
    MessageBeginsAccounted(cfg, s.(open := false, length := 0));
    if o.Accepted? {
      ReadAllAccounted(cfg, transport, s', 0);
    }
  }
}
