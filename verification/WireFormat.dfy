/**
 The wire format octet by octet: what the writer's encoding and the reader's decoding come to in the terms of section 5
 of RFC 6455, without the functions that they are made of.
 */
module WireFormat {
  import opened Bytes
  import opened Masking
  import opened Frames
  import opened Reading
  import opened FrameRoundTrip
  import opened ReaderProperties
  import Utf8

  // ----- the examples of section 5.7 -----

  const HELLO: seq<byte> := [0x48, 0x65, 0x6C, 0x6C, 0x6F]
  const HELLO_KEY := Key(0x37, 0xFA, 0x21, 0x3D)
  const HELLO_MASKED: seq<byte> := [0x7F, 0x9F, 0x4D, 0x51, 0x58]

  /** x with one more bit at its low end. */
  function Push(x: nat, bit: bool): nat {
    2 * x + if bit then 1 else 0
  }

  lemma XorPush(x: nat, y: nat, p: bool, q: bool, n: nat)
    ensures XorBits(Push(x, p), Push(y, q), n + 1) == Push(XorBits(x, y, n), p != q)
  {
    Half(0, x);
    Half(1, x);
    Half(0, y);
    Half(1, y);
  }

  /** An octet written in binary. */
  datatype Bits = Bits(b7: bool, b6: bool, b5: bool, b4: bool, b3: bool, b2: bool, b1: bool, b0: bool) {
    function Value(): (v: byte) {
      Push(Push(Push(Push(Push(Push(Push(Push(0, b7), b6), b5), b4), b3), b2), b1), b0)
    }
  }

  function Differing(p: Bits, q: Bits): Bits {
    Bits(p.b7 != q.b7, p.b6 != q.b6, p.b5 != q.b5, p.b4 != q.b4,
         p.b3 != q.b3, p.b2 != q.b2, p.b1 != q.b1, p.b0 != q.b0)
  }

  /** The exclusive or of two octets has exactly the bits in which they differ. */
  lemma XorDiffers(p: Bits, q: Bits)
    ensures Xor(p.Value(), q.Value()) == Differing(p, q).Value()
  {
    hide XorBits, Push;
    var x1, y1 := Push(0, p.b7), Push(0, q.b7);
    var x2, y2 := Push(x1, p.b6), Push(y1, q.b6);
    var x3, y3 := Push(x2, p.b5), Push(y2, q.b5);
    var x4, y4 := Push(x3, p.b4), Push(y3, q.b4);
    var x5, y5 := Push(x4, p.b3), Push(y4, q.b3);
    var x6, y6 := Push(x5, p.b2), Push(y5, q.b2);
    var x7, y7 := Push(x6, p.b1), Push(y6, q.b1);
    NoBits();
    XorPush(0, 0, p.b7, q.b7, 0);
    XorPush(x1, y1, p.b6, q.b6, 1);
    XorPush(x2, y2, p.b5, q.b5, 2);
    XorPush(x3, y3, p.b4, q.b4, 3);
    XorPush(x4, y4, p.b3, q.b3, 4);
    XorPush(x5, y5, p.b2, q.b2, 5);
    XorPush(x6, y6, p.b1, q.b1, 6);
    XorPush(x7, y7, p.b0, q.b0, 7);
  }

  lemma NoBits()
    ensures XorBits(0, 0, 0) == 0
  {
  }

  lemma HelloOctets()
    ensures Xor(0x48, 0x37) == 0x7F && Xor(0x65, 0xFA) == 0x9F && Xor(0x6C, 0x21) == 0x4D
    ensures Xor(0x6C, 0x3D) == 0x51 && Xor(0x6F, 0x37) == 0x58
  {
    hide Xor;
    var h, e := Bits(false, true, false, false, true, false, false, false),
                Bits(false, true, true, false, false, true, false, true);
    var l, o := Bits(false, true, true, false, true, true, false, false),
                Bits(false, true, true, false, true, true, true, true);
    var k0, k1 := Bits(false, false, true, true, false, true, true, true),
                  Bits(true, true, true, true, true, false, true, false);
    var k2, k3 := Bits(false, false, true, false, false, false, false, true),
                  Bits(false, false, true, true, true, true, false, true);
    XorDiffers(h, k0);
    XorDiffers(e, k1);
    XorDiffers(l, k2);
    XorDiffers(l, k3);
    XorDiffers(o, k0);
  }

  lemma HelloMasked()
    ensures Mask(HELLO_KEY, 0, HELLO) == HELLO_MASKED
  {
    hide Xor;
    HelloOctets();
  }

  /** The single-frame and the fragmented text, unmasked and masked, and the masked answer to a ping. */
  lemma RfcExamples()
    ensures Encode(Frame(true, false, TEXT, None, HELLO)) == [0x81, 0x05] + HELLO
    ensures Encode(Frame(true, false, TEXT, Some(HELLO_KEY), HELLO)) ==
            [0x81, 0x85, 0x37, 0xFA, 0x21, 0x3D] + HELLO_MASKED
    ensures Encode(Frame(false, false, TEXT, None, HELLO[..3])) == [0x01, 0x03, 0x48, 0x65, 0x6C]
    ensures Encode(Frame(true, false, CONTINUATION, None, HELLO[3..])) == [0x80, 0x02, 0x6C, 0x6F]
    ensures Encode(Frame(true, false, PING, None, HELLO)) == [0x89, 0x05] + HELLO
    ensures Encode(Frame(true, false, PONG, Some(HELLO_KEY), HELLO)) ==
            [0x8A, 0x85, 0x37, 0xFA, 0x21, 0x3D] + HELLO_MASKED
    ensures Encode(Frame(true, true, TEXT, None, HELLO)) == [0xC1, 0x05] + HELLO
    ensures Encode(Frame(true, false, CLOSE, None, [])) == [0x88, 0x00]
  {
    hide Mask;
    HelloMasked();
  }

  /** 256 octets and 64 KiB of binary data. */
  lemma RfcLongExamples(small: seq<byte>, large: seq<byte>)
    requires |small| == 256 && |large| == 65536
    ensures Encode(Frame(true, false, BINARY, None, small)) == [0x82, 0x7E, 0x01, 0x00] + small
    ensures Encode(Frame(true, false, BINARY, None, large)) ==
            [0x82, 0x7F, 0x00, 0x00, 0x00, 0x00, 0x00, 0x01, 0x00, 0x00] + large
  {
    assert ToBE(256, 2) == [0x01, 0x00];
    assert ToBE(65536, 8) == [0x00, 0x00, 0x00, 0x00, 0x00, 0x01, 0x00, 0x00];
  }

  /** A message of three fragments, section 5.4, compressed or not, section 6.1 of RFC 7692. */
  lemma ThreeFragments(opcode: nat, compressed: bool, f: Frame, g: Frame, h: Frame)
    ensures WholeMessage(opcode, compressed, [f, g, h]) <==>
            && !f.fin && f.opcode == opcode && f.rsv1 == compressed
            && !g.fin && g.opcode == 0 && !g.rsv1
            && h.fin && h.opcode == 0 && !h.rsv1
    ensures Payloads([f, g, h]) == f.payload + g.payload + h.payload
  {
    assert [f, g, h][..2] == [f, g];
    assert [f, g, h][1..] == [g, h] && [g, h][1..] == [h] && [h][1..] == [];
    assert [f, g][0] == f && [f, g][1] == g;
    ConcatAssociative(f.payload, g.payload, h.payload);
    assert Payloads([h]) == h.payload + Payloads([]) == h.payload;
  }

  /** No shorter form of the length could hold it. */
  lemma ShortestForm(n: nat)
    ensures |LengthOctets(n)| == 0 <==> n < 126
    ensures |LengthOctets(n)| == 2 <==> 126 <= n < Pow256(2)
    ensures |LengthOctets(n)| == 8 <==> n >= Pow256(2)
  {
    assert Pow256(2) == 65536;
  }

  // ----- the first two octets -----

  /** The two octets cannot begin a frame that this reader takes. */
  predicate BadOctets(cfg: Config, final: bool, b0: byte, b1: byte) {
    var opcode := b0 % 16;
    || b0 / 32 % 2 == 1                                           // RSV2
    || b0 / 16 % 2 == 1                                           // RSV3
    || (b0 / 64 % 2 == 1 && !cfg.inflates)                        // RSV1
    || 3 <= opcode <= 7 || opcode >= 11
    || (opcode >= 8 && (b0 < 128 || b1 % 128 > 125))
    || ((opcode == 1 || opcode == 2) && !final)
    || (opcode == 0 && final)
    || (b1 >= 128) != cfg.isServer
  }

  lemma BadHead(cfg: Config, final: bool, b0: byte, b1: byte)
    ensures HeadRefused(cfg, final, ParseHead(b0, b1)) <==> BadOctets(cfg, final, b0, b1)
  {
  }

  /** What is left of the input after the rest of the previous frame. */
  function Next(s: State): (w: seq<byte>)
    requires s.remaining <= |s.input|
  {
    s.input[s.remaining..]
  }

  /** The head is refused, and Close(1002) asked for. */
  predicate AtHead(s: State, r: (State, Outcome))
    requires s.remaining <= |s.input|
  {
    && r.1 == Refused(Protocol) && r.0.events == s.events + [CloseSent(1002)]
    && |r.0.input| == |Next(s)| - 2
  }

  /** advanceFrame refuses the head at two octets that cannot begin a frame, and nowhere else. */
  lemma BadOctetsRefused(cfg: Config, s: State)
    requires s.remaining <= |s.input| && |Next(s)| >= 2
    ensures AtHead(s, AdvanceFrame(cfg, s)) <==> BadOctets(cfg, s.final, Next(s)[0], Next(s)[1])
  {
    hide ReadLength, ParseHead, HeadRefused;
    var t := Take(s, s.remaining);
    BadHead(cfg, s.final, t.input[0], t.input[1]);
    var h := ParseHead(t.input[0], t.input[1]);
    NotAtLength(cfg, AfterHead(cfg, Take(t, 2), h), h);
  }

  /** After the head, Close(1002) takes a Close frame with a payload. */
  lemma NotAtLength(cfg: Config, s: State, h: Head)
    ensures var r := ReadLength(cfg, s, h); r.0.events == s.events + [CloseSent(1002)] ==> |r.0.input| < |s.input|
  {
    hide ReadKey;
    var n := if s.remaining == 127 then 8 else if s.remaining == 126 then 2 else 0;
    if |s.input| >= n {
      var len := if n == 0 then s.remaining else FromBE(s.input[..n]);
      NotAtKey(cfg, Take(s, n).(remaining := len), h);
    }
  }

  lemma NotAtKey(cfg: Config, s: State, h: Head)
    ensures var r := ReadKey(cfg, s, h); r.0.events == s.events + [CloseSent(1002)] ==> |r.0.input| < |s.input|
  {
    var r := ReadKey(cfg, s, h);
    if r.0.events == s.events + [CloseSent(1002)] {
      assert r.0.events[|s.events|] == CloseSent(1002);
    }
  }

  /** An accepted frame has neither RSV2 nor RSV3. */
  lemma AcceptedReserved(cfg: Config, s: State)
    requires AdvanceFrame(cfg, s).1.Accepted?
    ensures s.remaining <= |s.input| && |Next(s)| >= 2 && Next(s)[0] / 16 % 4 == 0
  {
    hide AdvanceFrame, ParseHead, HeadRefused;
    AcceptedHead(cfg, s);
    BadOctetsRefused(cfg, s);
  }

  // ----- the rest of the header -----

  /** The octets of the extended length. */
  function LengthSize(b1: byte): nat {
    if b1 % 128 == 127 then 8 else if b1 % 128 == 126 then 2 else 0
  }

  function HeaderSize(b1: byte): nat {
    2 + LengthSize(b1) + if b1 >= 128 then 4 else 0
  }

  /** x with one more octet at its low end. */
  function Radix(x: nat, b: byte): nat {
    256 * x + b
  }

  /** The length of the payload, in whichever form it stands. */
  function LengthAt(w: seq<byte>): nat
    requires |w| >= 2 && |w| >= 2 + LengthSize(w[1])
  {
    var n := w[1] % 128;
    if n < 126 then n
    else if n == 126 then Radix(w[2], w[3])
    else Radix(Radix(Radix(Radix(Radix(Radix(Radix(w[2], w[3]), w[4]), w[5]), w[6]), w[7]), w[8]), w[9])
  }

  lemma TwoOctets(p: seq<byte>)
    requires |p| == 2
    ensures FromBE(p) == Radix(p[0], p[1])
  {
    assert p[..1][..0] == [];
    assert FromBE(p[..1]) == p[0];
  }

  lemma FromPrefix(p: seq<byte>, n: nat)
    requires n < |p|
    ensures FromBE(p[..n + 1]) == Radix(FromBE(p[..n]), p[n])
  {
    assert p[..n + 1][..n] == p[..n];
  }

  lemma EightOctets(p: seq<byte>)
    requires |p| == 8
    ensures FromBE(p) ==
            Radix(Radix(Radix(Radix(Radix(Radix(Radix(p[0], p[1]), p[2]), p[3]), p[4]), p[5]), p[6]), p[7])
  {
    hide FromBE, Radix;
    TwoOctets(p[..2]);
    FromPrefix(p, 2);
    FromPrefix(p, 3);
    FromPrefix(p, 4);
    FromPrefix(p, 5);
    FromPrefix(p, 6);
    FromPrefix(p, 7);
    assert p[..8] == p;
  }

  /** The head is good and the whole header is there; its length is not negative as an int64. */
  predicate HeaderThere(cfg: Config, s: State) {
    && s.remaining <= |s.input|
    && var w := Next(s);
       && |w| >= 2 && !BadOctets(cfg, s.final, w[0], w[1])
       && |w| >= HeaderSize(w[1]) && LengthAt(w) <= MAX_INT64
  }

  /** The state once the header has been read. */
  function AfterHeader(cfg: Config, s: State): State
    requires HeaderThere(cfg, s)
  {
    var w := Next(s);
    var size := HeaderSize(w[1]);
    var t := s.(input := w[size..], remaining := LengthAt(w), compressed := w[0] / 64 % 2 == 1,
                final := if w[0] % 16 >= 8 then s.final else w[0] >= 128);
    if w[1] >= 128 then t.(maskPos := 0, maskKey := Key(w[size - 4], w[size - 3], w[size - 2], w[size - 1])) else t
  }

  lemma LengthOctetsRead(cfg: Config, s: State, w: seq<byte>, h: Head)
    requires |w| >= 2 && s.input == w[2..] && s.remaining == w[1] % 128
    ensures |w| < 2 + LengthSize(w[1]) ==> ReadLength(cfg, s, h) == Starve(cfg, s)
    ensures |w| >= 2 + LengthSize(w[1]) ==>
      var t := s.(input := w[2 + LengthSize(w[1])..]);
      ReadLength(cfg, s, h) == if LengthAt(w) > MAX_INT64 then (t, Refused(LimitExceeded))
                               else ReadKey(cfg, t.(remaining := LengthAt(w)), h)
  {
    hide ReadKey, FromBE, Radix;
    var n := LengthSize(w[1]);
    if |w| >= 2 + n {
      assert w[2..][n..] == w[2 + n..];
      if n == 2 {
        TwoOctets(w[2..][..2]);
      } else if n == 8 {
        EightOctets(w[2..][..8]);
      }
    }
  }

  lemma HeaderRead(cfg: Config, s: State)
    requires HeaderThere(cfg, s)
    ensures var h := ParseHead(Next(s)[0], Next(s)[1]);
            AdvanceFrame(cfg, s) == FinishFrame(cfg, AfterHeader(cfg, s), h) && h.opcode == Next(s)[0] % 16
  {
    hide ReadLength, HeadRefused, FinishFrame, LengthAt;
    var w := Next(s);
    BadHead(cfg, s.final, w[0], w[1]);
    var h := ParseHead(w[0], w[1]);
    var t := AfterHead(cfg, Take(Take(s, s.remaining), 2), h);
    LengthOctetsRead(cfg, t, w, h);
    var size := HeaderSize(w[1]);
    assert h.masked ==> w[size - 4..][4..] == w[size..];
  }

  /** A stream that ends inside a header is reported as such, with nothing else done. */
  lemma HeaderCut(cfg: Config, s: State)
    requires s.remaining <= |s.input|
    requires var w := Next(s);
             |w| < 2 || (!BadOctets(cfg, s.final, w[0], w[1]) &&
                         (|w| < 2 + LengthSize(w[1]) || (LengthAt(w) <= MAX_INT64 && |w| < HeaderSize(w[1]))))
    ensures AdvanceFrame(cfg, s).1 == Refused(if cfg.end == EOF then UnexpectedEOF else cfg.end)
    ensures AdvanceFrame(cfg, s).0.events == s.events
  {
    hide ReadLength, HeadRefused, LengthAt;
    var w := Next(s);
    if |w| >= 2 {
      BadHead(cfg, s.final, w[0], w[1]);
      var h := ParseHead(w[0], w[1]);
      LengthOctetsRead(cfg, AfterHead(cfg, Take(Take(s, s.remaining), 2), h), w, h);
    }
  }

  /** A length with its sign bit set is refused before anything else is read. */
  lemma NegativeLength(cfg: Config, s: State)
    requires s.remaining <= |s.input|
    requires var w := Next(s);
             && |w| >= 2 && !BadOctets(cfg, s.final, w[0], w[1]) && |w| >= 2 + LengthSize(w[1])
             && LengthAt(w) > MAX_INT64
    ensures Next(s)[1] % 128 == 127 && Next(s)[2] >= 128
    ensures AdvanceFrame(cfg, s).1 == Refused(LimitExceeded) && AdvanceFrame(cfg, s).0.events == s.events
  {
    hide ReadLength, HeadRefused;
    var w := Next(s);
    BadHead(cfg, s.final, w[0], w[1]);
    var h := ParseHead(w[0], w[1]);
    LengthOctetsRead(cfg, AfterHead(cfg, Take(Take(s, s.remaining), 2), h), w, h);
  }

  /**
   A data frame whose header is there: its length is added to the message's, and it is accepted unless that exceeds
   2^63 - 1 or the limit; in the second case Close(1009) is asked for.
   */
  lemma DataFrameRead(cfg: Config, s: State)
    requires HeaderThere(cfg, s) && Next(s)[0] % 16 < 8 && 0 <= s.length <= MAX_INT64
    ensures var (s', o) := AdvanceFrame(cfg, s);
            var t, total := AfterHeader(cfg, s), s.length + LengthAt(Next(s));
            && o == (if total > MAX_INT64 || (0 < cfg.limit < total) then Refused(LimitExceeded)
                     else Accepted(Next(s)[0] % 16))
            && (total <= MAX_INT64 ==>
                  s' == t.(length := total, events := if 0 < cfg.limit < total then s.events + [CloseSent(1009)]
                                                      else s.events))
            && (total > MAX_INT64 ==> s'.events == s.events)
  {
    hide AdvanceFrame, LengthAt;
    HeaderRead(cfg, s);
    OverflowIsNegative(s.length, LengthAt(Next(s)));
  }

  // ----- control frames -----

  /** The payload of a control frame whose header is there, and which is there itself. */
  function ControlPayload(cfg: Config, s: State): seq<byte>
    requires HeaderThere(cfg, s) && LengthAt(Next(s)) <= |AfterHeader(cfg, s).input|
  {
    var t := AfterHeader(cfg, s);
    var octets := t.input[..LengthAt(Next(s))];
    if cfg.isServer then Mask(t.maskKey, 0, octets) else octets
  }

  /** What the handlers see of a control frame, and what advanceFrame then says. */
  function ControlMeaning(cfg: Config, opcode: nat, p: seq<byte>): (Event, Outcome) {
    if opcode == 9 then
      var e := PingReceived(p);
      (e, if cfg.accepts(e) then Accepted(9) else Refused(Handler))
    else if opcode == 10 then
      var e := PongReceived(p);
      (e, if cfg.accepts(e) then Accepted(10) else Refused(Handler))
    else if |p| < 2 then
      var e := CloseReceived(1005, []);
      (e, Refused(if cfg.accepts(e) then PeerClosed(1005, []) else Handler))
    else
      var code, text := Radix(p[0], p[1]), p[2..];
      if !MayBeReceived(code) || !Utf8.Valid(text) then (CloseSent(1002), Refused(Protocol))
      else
        var e := CloseReceived(code, text);
        (e, Refused(if cfg.accepts(e) then PeerClosed(code, text) else Handler))
  }

  /**
   The codes that a Close frame may carry: those of section 7.4.1 of RFC 6455 and of its registry but for 1004, which
   is reserved, and 1005, 1006 and above 1013, which are never sent; and those of libraries and applications.
   */
  predicate MayBeReceived(code: nat) {
    (1000 <= code <= 1013 && !(1004 <= code <= 1006)) || 3000 <= code < 5000
  }

  lemma ReceivedCodes(code: nat)
    ensures ValidReceivedCode(code) <==> MayBeReceived(code)
  {
  }

  /** A control frame that is there: its handler gets its payload unmasked, and the message's state stays. */
  lemma ControlFrameRead(cfg: Config, s: State)
    requires HeaderThere(cfg, s) && Next(s)[0] % 16 >= 8 && LengthAt(Next(s)) <= |AfterHeader(cfg, s).input|
    ensures var (e, o) := ControlMeaning(cfg, Next(s)[0] % 16, ControlPayload(cfg, s));
            var t := AfterHeader(cfg, s);
            AdvanceFrame(cfg, s) ==
            (t.(input := t.input[LengthAt(Next(s))..], remaining := 0, events := s.events + [e]), o)
  {
    hide AdvanceFrame, LengthAt, ValidReceivedCode, MayBeReceived, FromBE, Radix;
    HeaderRead(cfg, s);
    var p := ControlPayload(cfg, s);
    if |p| >= 2 {
      TwoOctets(p[..2]);
      ReceivedCodes(FromBE(p[..2]));
    }
  }

  /** A stream that ends inside the payload of a control frame. */
  lemma ControlFrameCut(cfg: Config, s: State)
    requires HeaderThere(cfg, s) && Next(s)[0] % 16 >= 8 && LengthAt(Next(s)) > |AfterHeader(cfg, s).input|
    ensures AdvanceFrame(cfg, s).1 == Refused(if cfg.end == EOF then UnexpectedEOF else cfg.end)
    ensures AdvanceFrame(cfg, s).0.events == s.events
  {
    hide AdvanceFrame, LengthAt;
    HeaderRead(cfg, s);
  }

  // ----- the Close frame -----

  /** FormatCloseMessage; a code is cut down to 16 bits. */
  function CloseMessage(code: nat, text: seq<byte>): seq<byte> {
    if code == 1005 then [] else ToBE(code, 2) + text
  }

  /** A Close frame with a code and a reason is received as that code and that reason. */
  lemma CloseRead(cfg: Config, s: State, f: Frame, rest: seq<byte>, code: nat, text: seq<byte>)
    requires s.remaining == 0 && Fits(cfg, f) && f.fin && !f.rsv1 && f.opcode == CLOSE
    requires f.payload == CloseMessage(code, text) && |f.payload| <= MAX_CONTROL_PAYLOAD
    requires (MayBeReceived(code) && Utf8.Valid(text)) || (code == 1005 && text == [])
    requires s.input == Encode(f) + rest
    ensures var (s', o) := AdvanceFrame(cfg, s);
            && s'.input == rest && s'.events == s.events + [CloseReceived(code, text)]
            && o == Refused(if cfg.accepts(CloseReceived(code, text)) then PeerClosed(code, text) else Handler)
  {
    hide AdvanceFrame, Utf8.Valid, ValidReceivedCode, ToBE, FromBE;
    var wire := MaskedPayload(f.key, f.payload) + rest;
    ConcatAssociative(Header(f), MaskedPayload(f.key, f.payload), rest);
    FrameRoundTrip.HeaderRead(cfg, s, f, wire);
    assert wire[..|f.payload|] == MaskedPayload(f.key, f.payload) && wire[|f.payload|..] == rest;
    if cfg.isServer {
      MaskCancels(f.key.value, 0, f.payload);
    }
    ReceivedCodes(code);
    if code != 1005 {
      assert f.payload[..2] == ToBE(code, 2) && f.payload[2..] == text;
      CodeRead(code);
    }
  }

  lemma CodeRead(code: nat)
    requires MayBeReceived(code)
    ensures FromBE(ToBE(code, 2)) == code
  {
    assert Pow256(2) == 65536;
    BERoundTrip(code, 2);
  }
}
