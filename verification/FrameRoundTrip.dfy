/** Reading back one frame: advanceFrame is the inverse of Encode. */
module FrameRoundTrip {
  import opened Bytes
  import opened Masking
  import opened Frames
  import opened Reading

  /** The frame may be sent to this reader: masked exactly when it is a server, RSV1 only where negotiated. */
  predicate Fits(cfg: Config, f: Frame) {
    f.Encodable() && f.key.Some? == cfg.isServer && (f.rsv1 ==> cfg.inflates)
  }

  function ControlEvent(f: Frame): Event {
    if f.opcode == PING then PingReceived(f.payload) else PongReceived(f.payload)
  }

  /** A ping or pong that section 5.5 of RFC 6455 allows and that the application's handler accepts. */
  predicate GoodControl(cfg: Config, f: Frame) {
    && Fits(cfg, f) && (f.opcode == PING || f.opcode == PONG)
    && f.fin && |f.payload| <= MAX_CONTROL_PAYLOAD && cfg.accepts(ControlEvent(f))
  }

  function HeadOf(f: Frame): Head {
    Head(f.fin, f.rsv1, false, false, f.opcode, f.key.Some?, LengthCode(|f.payload|))
  }

  lemma ParseHeadInverts(f: Frame)
    requires f.Encodable()
    ensures ParseHead(Octet0(f.fin, f.rsv1, f.opcode), Octet1(f.key.Some?, |f.payload|)) == HeadOf(f)
  {
  }

  lemma LengthRead(n: nat)
    requires n <= MAX_INT64
    ensures n > 125 ==> FromBE(LengthOctets(n)) == n
    ensures |LengthOctets(n)| == (if LengthCode(n) == 127 then 8 else if LengthCode(n) == 126 then 2 else 0)
  {
    assert Pow256(2) == 65536;
    assert Pow256(8) == 0x1_0000_0000_0000_0000;
    if n >= 65536 {
      BERoundTrip(n, 8);
    } else if n > 125 {
      BERoundTrip(n, 2);
    }
  }

  /** The state once the header of f has been read. */
  function WithHeader(cfg: Config, s: State, f: Frame, rest: seq<byte>): State {
    var s' := AfterHead(cfg, s, HeadOf(f)).(input := rest, remaining := |f.payload|);
    if f.key.Some? then s'.(maskPos := 0, maskKey := f.key.value) else s'
  }

  lemma LengthStage(cfg: Config, s: State, f: Frame, tail: seq<byte>)
    requires f.Encodable() && s.remaining == LengthCode(|f.payload|)
    requires s.input == LengthOctets(|f.payload|) + tail
    ensures ReadLength(cfg, s, HeadOf(f)) == ReadKey(cfg, s.(input := tail, remaining := |f.payload|), HeadOf(f))
  {
    LengthRead(|f.payload|);
    var k := |LengthOctets(|f.payload|)|;
    assert s.input[..k] == LengthOctets(|f.payload|) && s.input[k..] == tail;
  }

  lemma KeyStage(cfg: Config, s: State, f: Frame, tail: seq<byte>)
    requires s.input == KeyOctets(f.key) + tail
    ensures ReadKey(cfg, s, HeadOf(f)) ==
            FinishFrame(cfg, if f.key.Some? then s.(input := tail, maskPos := 0, maskKey := f.key.value)
                             else s.(input := tail), HeadOf(f))
  {
    if f.key.Some? {
      assert s.input[..4] == f.key.value.Octets() && s.input[4..] == tail;
    } else {
      assert s.input == tail;
    }
  }

  lemma HeadStage(cfg: Config, s: State, f: Frame, tail: seq<byte>)
    requires s.remaining == 0 && f.Encodable()
    requires s.input == [Octet0(f.fin, f.rsv1, f.opcode), Octet1(f.key.Some?, |f.payload|)] + tail
    requires !HeadRefused(cfg, s.final, HeadOf(f))
    ensures AdvanceFrame(cfg, s) == ReadLength(cfg, AfterHead(cfg, s.(input := tail), HeadOf(f)), HeadOf(f))
  {
    ParseHeadInverts(f);
    assert s.input[0..] == s.input && s.input[2..] == tail;
    assert Take(s, 0) == s;
  }

  lemma HeaderRead(cfg: Config, s: State, f: Frame, rest: seq<byte>)
    requires s.remaining == 0 && f.Encodable() && s.input == Header(f) + rest
    requires !HeadRefused(cfg, s.final, HeadOf(f))
    ensures AdvanceFrame(cfg, s) == FinishFrame(cfg, WithHeader(cfg, s, f, rest), HeadOf(f))
  {
    var keyAndRest := KeyOctets(f.key) + rest;
    var tail := LengthOctets(|f.payload|) + keyAndRest;
    HeaderSplit(f, rest);
    HeadStage(cfg, s, f, tail);
    var s1 := AfterHead(cfg, s.(input := tail), HeadOf(f));
    LengthStage(cfg, s1, f, keyAndRest);
    KeyStage(cfg, s1.(input := keyAndRest, remaining := |f.payload|), f, rest);
  }

  lemma HeaderSplit(f: Frame, rest: seq<byte>)
    requires f.Encodable()
    ensures Header(f) + rest == [Octet0(f.fin, f.rsv1, f.opcode), Octet1(f.key.Some?, |f.payload|)]
                                + (LengthOctets(|f.payload|) + (KeyOctets(f.key) + rest))
  {
  }

  /** Octets on the wire, seen by the reader that unmasks them from position pos. */
  function Masked(cfg: Config, key: Key, pos: nat, p: seq<byte>): (w: seq<byte>)
    ensures |w| == |p|
  {
    if cfg.isServer then Mask(key, pos, p) else p
  }

  lemma UnmaskChunk(cfg: Config, key: Key, pos: nat, p: seq<byte>, n: nat)
    requires n <= |p|
    ensures Masked(cfg, key, pos, Masked(cfg, key, pos, p)[..n]) == p[..n]
    ensures Masked(cfg, key, pos, p)[n..] == Masked(cfg, key, (pos + n) % 4, p[n..])
  {
    if cfg.isServer {
      assert p == p[..n] + p[n..];
      MaskConcat(key, pos, p[..n], p[n..]);
      assert Mask(key, pos, p)[..n] == Mask(key, pos, p[..n]);
      MaskCancels(key, pos, p[..n]);
    }
  }

  lemma AdvanceOnControl(cfg: Config, s: State, f: Frame, rest: seq<byte>)
    requires s.remaining == 0 && GoodControl(cfg, f) && s.input == Encode(f) + rest
    ensures AdvanceFrame(cfg, s) ==
            (WithHeader(cfg, s, f, rest).(remaining := 0).Emit(ControlEvent(f)), Accepted(f.opcode))
  {
    var wire := MaskedPayload(f.key, f.payload) + rest;
    ConcatAssociative(Header(f), MaskedPayload(f.key, f.payload), rest);
    HeaderRead(cfg, s, f, wire);
    ControlStage(cfg, WithHeader(cfg, s, f, wire), f, rest);
  }

  lemma ControlStage(cfg: Config, s: State, f: Frame, rest: seq<byte>)
    requires GoodControl(cfg, f) && s.remaining == |f.payload| && (f.key.Some? ==> s.maskKey == f.key.value)
    requires s.input == MaskedPayload(f.key, f.payload) + rest
    ensures FinishFrame(cfg, s, HeadOf(f)) ==
            (s.(input := rest, remaining := 0).Emit(ControlEvent(f)), Accepted(f.opcode))
  {
    var n := |f.payload|;
    assert s.input[..n] == MaskedPayload(f.key, f.payload) && s.input[n..] == rest;
    if cfg.isServer {
      MaskCancels(f.key.value, 0, f.payload);
    }
  }

  /** The frame may come next in the sequence of data frames. */
  predicate InSequence(final: bool, f: Frame) {
    if final then IsData(f.opcode) else f.opcode == CONTINUATION
  }

  predicate WithinLimit(cfg: Config, total: nat) {
    total <= MAX_INT64 && (cfg.limit > 0 ==> total <= cfg.limit)
  }

  lemma AdvanceOnData(cfg: Config, s: State, f: Frame, rest: seq<byte>)
    requires s.remaining == 0 && Fits(cfg, f) && InSequence(s.final, f)
    requires s.length >= 0 && WithinLimit(cfg, s.length + |f.payload|)
    requires s.input == Encode(f) + rest
    ensures var wire := MaskedPayload(f.key, f.payload) + rest;
            AdvanceFrame(cfg, s) ==
            (WithHeader(cfg, s, f, wire).(length := s.length + |f.payload|), Accepted(f.opcode))
  {
    hide *;
    DataStart(cfg, s, f, rest);
    var wire := MaskedPayload(f.key, f.payload) + rest;
    HeaderRead(cfg, s, f, wire);
    LengthWithinLimit(cfg, WithHeader(cfg, s, f, wire), HeadOf(f));
  }

  lemma DataStart(cfg: Config, s: State, f: Frame, rest: seq<byte>)
    requires Fits(cfg, f) && InSequence(s.final, f) && s.input == Encode(f) + rest
    ensures !HeadRefused(cfg, s.final, HeadOf(f)) && !IsControl(f.opcode) && f.Encodable()
    ensures HeadOf(f).opcode == f.opcode
    ensures var wire := MaskedPayload(f.key, f.payload) + rest;
            && s.input == Header(f) + wire
            && WithHeader(cfg, s, f, wire).length == s.length
            && WithHeader(cfg, s, f, wire).remaining == |f.payload|
  {
    ConcatAssociative(Header(f), MaskedPayload(f.key, f.payload), rest);
  }

  lemma LengthWithinLimit(cfg: Config, s: State, h: Head)
    requires s.length >= 0 && WithinLimit(cfg, s.length + s.remaining) && !IsControl(h.opcode)
    ensures FinishFrame(cfg, s, h) == (s.(length := s.length + s.remaining), Accepted(h.opcode))
  {
  }
}
