/** The UTF-8 validating reader of conn.go. */
module TextStreams {
  import opened Bytes
  import opened Masking
  import opened Frames
  import opened Reading
  import opened FrameRoundTrip
  import opened MessageRoundTrip
  import opened ReaderProperties
  import opened Completion
  import opened ReadErrors
  import FrameReader
  import Utf8

  /** rejectUTF8: Close(1007) is asked for, and readErr is set unless it already is. */
  function Rejected(s: State): State {
    var s' := s.Emit(CloseSent(1007));
    if s.error == None then s'.(error := Some(InvalidText)) else s'
  }

  /** utf8ValidatingReader.Read, given what the reader below delivered and the state q of the automaton. */
  function ValidateRead(d: Delivery, q: nat): Delivery
    requires q < 9
  {
    var q' := Utf8.Final(q, d.data);
    if q' == Utf8.REJECT then Delivery(Rejected(d.state), [], Some(InvalidText))
    else if d.error == Some(EOF) && q' != Utf8.ACCEPT then Delivery(Rejected(d.state), [], Rejected(d.state).error)
    else d
  }

  /** io.ReadAll on the validating reader of a text message. */
  ghost function ReadText(cfg: Config, transport: Transport, s: State, q: nat): Delivery
    requires Fair(cfg, transport) && q < 9
    decreases |s.input|
  {
    var t := SeekPayload(cfg, s);
    var below := ReadHere(cfg, t, transport(t));
    var d := ValidateRead(below, q);
    if d.error == Some(EOF) then Delivery(d.state, d.data, None)
    else if d.error.Some? then d
    else
      var d' := ReadText(cfg, transport, d.state, Utf8.Final(q, d.data));
      Delivery(d'.state, d.data + d'.data, d'.error)
  }

  /**
   What reading the text u + v must come to when u was read before: v if the whole is valid, else InvalidText.
   But if the end of the stream came early, with the last octets, it is enough that the whole is viable.
   */
  ghost predicate TextRead(d: Delivery, u: seq<byte>, v: seq<byte>, early: bool) {
    && (d.error == None <==> Utf8.Valid(u + v) || (early && Utf8.Viable(u + v)))
    && (d.error.Some? ==> d.error == Some(InvalidText))
    && (Utf8.Valid(u + v) ==> d.data == v)
    && d.data <= v && Utf8.Viable(u + d.data)
  }

  /**
   A text message ends without an error exactly when its whole payload is valid UTF-8, however it was cut into
   frames, whatever control frames came in between and whatever the reads were; and what was delivered before
   a failure is a viable prefix. The one exception is a text that stops inside a character when its last octets
   come together with io.EOF.
   */
  lemma {:induction false} TextValidation(
    cfg: Config, transport: Transport, s: State, p: seq<byte>, fs: seq<Frame>, rest: seq<byte>, u: seq<byte>)
    requires Fair(cfg, transport) && (rest != [] || cfg.end == EOF) && InMessage(cfg, s, p, fs, rest)
    requires Utf8.Viable(u)
    ensures TextRead(ReadText(cfg, transport, s, Utf8.Final(Utf8.ACCEPT, u)), u, p + Carried(fs),
                     EndsWithEof(cfg, transport, s, true))
    decreases |s.input|
  {
    hide SeekPayload, EncodeAll, Completes, Payloads, ControlEvents, DataFrames, Utf8.Valid, Utf8.Viable, TextRead;
    var q := Utf8.Final(Utf8.ACCEPT, u);
    Utf8.RejectsUnviable(u);
    var t := SeekPayload(cfg, s);
    var v, gs := SeekInMessage(cfg, s, p, fs, rest);
    if t.remaining == 0 {
      AtEnd(cfg, t, v, gs, rest);
      TextEnds(t, u, v + Carried(gs));
    } else {
      var g := transport(t);
      DataRead(cfg, t, v, gs, rest, g);
      if g.error.Some? {
        LastRead(cfg, t, v, gs, rest, g);
        ReadEnds(cfg, t, v, gs, rest, g);
        TextEndsEarly(ReadHere(cfg, t, g), u, v + Carried(gs));
      } else {
        ReadContinues(cfg, t, v, gs, rest, g);
        var c, w, s' := v[..g.n], v[g.n..] + Carried(gs), ReadHere(cfg, t, g).state;
        SplitPayload(v, g.n, Carried(gs));
        ChunkOfText(u, c, w);
        if Utf8.Final(q, c) == Utf8.REJECT {
          TextRejected(Rejected(s'), u, c + w, EndsWithEof(cfg, transport, s', true));
        } else {
          TextValidation(cfg, transport, s', v[g.n..], gs, rest, u + c);
          TextContinues(ReadText(cfg, transport, s', Utf8.Final(Utf8.ACCEPT, u + c)), u, c, w,
                        EndsWithEof(cfg, transport, s', true));
        }
      }
    }
  }

  lemma TextRejected(s: State, u: seq<byte>, v: seq<byte>, early: bool)
    requires Utf8.Viable(u) && !Utf8.Viable(u + v)
    ensures TextRead(Delivery(s, [], Some(InvalidText)), u, v, early)
  {
    hide Utf8.Valid, Utf8.Viable;
    assert u + [] == u;
    ValidIsViable(u + v);
  }

  lemma ValidIsViable(s: seq<byte>)
    ensures Utf8.Valid(s) ==> Utf8.Viable(s)
  {
    hide Utf8.Valid;
    assert s + [] == s;
  }

  lemma TextContinues(d: Delivery, u: seq<byte>, c: seq<byte>, w: seq<byte>, early: bool)
    requires TextRead(d, u + c, w, early)
    ensures TextRead(Delivery(d.state, c + d.data, d.error), u, c + w, early)
  {
    hide Utf8.Valid, Utf8.Viable;
    ConcatAssociative(u, c, w);
    ConcatAssociative(u, c, d.data);
    PrefixAfter(c, d.data, w);
  }

  lemma PrefixAfter(c: seq<byte>, a: seq<byte>, b: seq<byte>)
    requires a <= b
    ensures c + a <= c + b
  {
    assert c + b == (c + a) + b[|a|..];
  }

  lemma TextEnds(t: State, u: seq<byte>, v: seq<byte>)
    requires t.error == None && v == [] && Utf8.Viable(u)
    ensures var s, q := t.(open := false), Utf8.Final(Utf8.ACCEPT, u);
            && Utf8.Final(q, []) == q
            && TextRead(if q == Utf8.ACCEPT then Delivery(s, [], None)
                        else Delivery(Rejected(s), [], Some(InvalidText)), u, v, false)
  {
    hide Utf8.Valid, Utf8.Viable;
    Utf8.AcceptsGrammar(u);
    assert Utf8.Final(Utf8.Final(Utf8.ACCEPT, u), []) == Utf8.Final(Utf8.ACCEPT, u);
    assert u + [] == u;
  }

  /** The last octets have come with io.EOF, which is latched: inside a character the reader can only say io.EOF. */
  lemma TextEndsEarly(below: Delivery, u: seq<byte>, v: seq<byte>)
    requires below.error == Some(EOF) && below.state.error == Some(EOF) && below.data == v && Utf8.Viable(u)
    ensures var d := ValidateRead(below, Utf8.Final(Utf8.ACCEPT, u));
            if d.error == Some(EOF) then TextRead(Delivery(d.state, d.data, None), u, v, true)
            else d.error.Some? && TextRead(d, u, v, true)
  {
    hide Utf8.Valid, Utf8.Viable;
    Utf8.FinalConcat(Utf8.ACCEPT, u, v);
    Utf8.AcceptsGrammar(u + v);
    Utf8.RejectsUnviable(u + v);
    ValidIsViable(u + v);
    assert u + [] == u;
  }

  /** The automaton goes on over a chunk c of the text; if it rejects, no continuation v is viable. */
  lemma ChunkOfText(u: seq<byte>, c: seq<byte>, v: seq<byte>)
    ensures Utf8.Final(Utf8.Final(Utf8.ACCEPT, u), c) == Utf8.Final(Utf8.ACCEPT, u + c)
    ensures Utf8.Final(Utf8.ACCEPT, u + c) == Utf8.REJECT ==> !Utf8.Viable(u + (c + v))
    ensures Utf8.Final(Utf8.ACCEPT, u + c) != Utf8.REJECT ==> Utf8.Viable(u + c)
  {
    hide Utf8.Viable, Utf8.Valid;
    Utf8.FinalConcat(Utf8.ACCEPT, u, c);
    Utf8.RejectsUnviable(u + c);
    ConcatAssociative(u, c, v);
    Utf8.FinalConcat(Utf8.ACCEPT, u + c, v);
    Utf8.RejectAbsorbs(v);
    Utf8.RejectsUnviable((u + c) + v);
  }

  /** Read with buffers shorter than the bufio reader's, a text ends without an error exactly if it is valid UTF-8. */
  lemma TextValidationShortReads(cfg: Config, transport: Transport, s: State, p: seq<byte>, fs: seq<Frame>,
                                 rest: seq<byte>, u: seq<byte>, size: nat)
    requires Fair(cfg, transport) && (rest != [] || cfg.end == EOF) && InMessage(cfg, s, p, fs, rest)
    requires AtMost(transport, size) && size < cfg.bufSize && Utf8.Viable(u)
    ensures TextRead(ReadText(cfg, transport, s, Utf8.Final(Utf8.ACCEPT, u)), u, p + Carried(fs), false)
  {
    hide InMessage, ReadText, EndsWithEof, TextRead, Utf8.Viable;
    TextValidation(cfg, transport, s, p, fs, rest, u);
    ShortReadsEndAlone(cfg, transport, s, size, true);
  }

  /**
   For every stream, well formed or not: a text ends without an error if and only if the reader below ends without
   one and what it delivered is valid, or is viable and ended with io.EOF and the last octets of a frame together.
   */
  lemma {:induction false} TextOfAnyStream(cfg: Config, transport: Transport, s: State, u: seq<byte>)
    requires Fair(cfg, transport) && s.open && s.error == None && Utf8.Viable(u)
    ensures var a := ReadAll(cfg, transport, s);
            ReadText(cfg, transport, s, Utf8.Final(Utf8.ACCEPT, u)).error == None <==>
            && a.error == None
            && (|| Utf8.Valid(u + a.data)
                || (Utf8.Viable(u + a.data) &&
                    (EndsWithEof(cfg, transport, s, true) || EndsWithEof(cfg, transport, s, false))))
    decreases |s.input|
  {
    hide SeekPayload, Mask, Utf8.Valid, Utf8.Viable, Utf8.Final;
    var t := SeekPayload(cfg, s);
    var d := ReadHere(cfg, t, transport(t));
    Utf8.RejectsUnviable(u);
    if d.error == None {
      var s', a' := d.state, ReadAll(cfg, transport, d.state);
      ChunkOfText(u, d.data, a'.data);
      ConcatAssociative(u, d.data, a'.data);
      ValidIsViable(u + (d.data + a'.data));
      if Utf8.Final(Utf8.ACCEPT, u + d.data) != Utf8.REJECT {
        TextOfAnyStream(cfg, transport, s', u + d.data);
      }
    } else {
      assert d.data + [] == d.data;
      ChunkOfText(u, d.data, []);
      Utf8.AcceptsGrammar(u + d.data);
      Utf8.RejectsUnviable(u + d.data);
      ValidIsViable(u + d.data);
    }
  }

  /** The connection is stopped: Close(1007) was asked for last, and NextReader returns an error. */
  predicate StoppedByText(cfg: Config, s: State) {
    && s.error.Some? && NextReader(cfg, s).1 == Refused(s.error.value)
    && s.events != [] && s.events[|s.events| - 1] == CloseSent(1007)
  }

  lemma RefusedRead(cfg: Config, below: Delivery, q: nat)
    requires q < 9 && below.error != Some(InvalidText) && below.state.error != Some(InvalidText)
    requires ValidateRead(below, q).error == Some(InvalidText)
    ensures StoppedByText(cfg, ValidateRead(below, q).state)
  {
    hide Utf8.Final;
  }

  lemma ErrorOfRead(cfg: Config, s: State, g: Grant)
    requires s.error.Some? || s.remaining > 0 || s.final
    requires s.error == None && s.remaining > 0 ==> CanGrant(cfg, s, g)
    requires s.error != Some(InvalidText) && cfg.end != InvalidText
    ensures ReadHere(cfg, s, g).error != Some(InvalidText) && ReadHere(cfg, s, g).state.error != Some(InvalidText)
    ensures (s.error == None && s.remaining > 0 ==> g.n > 0 || g.error.Some?) && ReadHere(cfg, s, g).error == None ==>
      |ReadHere(cfg, s, g).state.input| < |s.input|
  {
    hide Mask;
  }

  /** A text that is refused stops the connection. */
  lemma {:induction false} RefusedText(cfg: Config, transport: Transport, s: State, q: nat)
    requires Fair(cfg, transport) && q < 9 && s.error != Some(InvalidText) && cfg.end != InvalidText
    requires ReadText(cfg, transport, s, q).error == Some(InvalidText)
    ensures StoppedByText(cfg, ReadText(cfg, transport, s, q).state)
    decreases |s.input|
  {
    hide SeekPayload, ReadHere, SeekMessage, Utf8.Final, StoppedByText;
    var t := SeekPayload(cfg, s);
    SeekNotText(cfg, s);
    var below := ReadHere(cfg, t, transport(t));
    ErrorOfRead(cfg, t, transport(t));
    var d := ValidateRead(below, q);
    if d.error == Some(InvalidText) {
      RefusedRead(cfg, below, q);
    } else if d.error == None {
      RefusedText(cfg, transport, d.state, Utf8.Final(q, d.data));
    }
  }

  lemma {:induction false} SeekNotText(cfg: Config, s: State)
    requires s.error != Some(InvalidText) && cfg.end != InvalidText
    ensures SeekPayload(cfg, s).error != Some(InvalidText)
    decreases |s.input|
  {
    hide AdvanceFrame;
    if s.error == None && s.remaining == 0 && !s.final {
      var (s', o) := AdvanceFrame(cfg, s);
      if o.Refused? {
        AdvanceReports(cfg, s);
      } else if !IsData(o.opcode) {
        SeekNotText(cfg, s');
      }
    }
  }

  /** On valid text the validator changes nothing. */
  lemma {:induction false} TextAgrees(cfg: Config, transport: Transport, s: State, u: seq<byte>)
    requires Fair(cfg, transport) && Utf8.Viable(u) && Utf8.Valid(u + ReadAll(cfg, transport, s).data)
    ensures ReadText(cfg, transport, s, Utf8.Final(Utf8.ACCEPT, u)) == ReadAll(cfg, transport, s)
    decreases |s.input|
  {
    hide SeekPayload, Mask, Utf8.Valid, Utf8.Viable, Utf8.Final;
    var t := SeekPayload(cfg, s);
    var d := ReadHere(cfg, t, transport(t));
    Utf8.RejectsUnviable(u);
    var more := if d.error == None then ReadAll(cfg, transport, d.state).data else [];
    assert d.data + [] == d.data;
    ChunkOfText(u, d.data, more);
    ConcatAssociative(u, d.data, more);
    ValidIsViable(u + (d.data + more));
    Utf8.AcceptsGrammar(u + d.data);
    if d.error == None {
      TextAgrees(cfg, transport, d.state, u + d.data);
    }
  }

  /** A read passes off a text that stops inside a character as ended exactly if io.EOF came with the last octets. */
  lemma UnfinishedTextAccepted(cfg: Config, s: State, size: nat, g: Grant, q: nat)
    requires q < 9 && s.open && Answers(cfg, s, size, g)
    ensures var t, below := SeekPayload(cfg, s), Read(cfg, s, g);
            var q' := Utf8.Final(q, below.data);
            (ValidateRead(below, q).error == Some(EOF) && q' != Utf8.ACCEPT) <==>
            t.error == None && EofWithLastOctets(cfg, t, g) && q' != Utf8.ACCEPT && q' != Utf8.REJECT
  {
    hide SeekPayload, Utf8.Final;
    EofReported(cfg, s, size, g);
  }

  /** On a new connection that receives `wire`, a first message that is not valid text is read as text to its end. */
  ghost predicate FalselyText(cfg: Config, wire: seq<byte>, transport: Transport)
    requires Fair(cfg, transport)
  {
    var (s, o) := NextReader(cfg, NewState(wire));
    && o == Accepted(TEXT)
    && ReadText(cfg, transport, s, Utf8.ACCEPT).error == None
    && !Utf8.Valid(ReadAll(cfg, transport, s).data)
  }

  /**
   Reads into buffers of at most `size` octets can pass off a text that is not valid UTF-8, for some stream and
   transport, if and only if such a buffer can be as long as the bufio reader's and the limit lets that much through.
   */
  lemma UnfinishedTextPossible(cfg: Config, size: nat)
    requires cfg.bufSize > 0
    ensures (exists wire, transport ::
               Fair(cfg, transport) && AtMost(transport, size) && FalselyText(cfg, wire, transport)) <==>
            cfg.end == EOF && cfg.bufSize <= size && WithinLimit(cfg, cfg.bufSize)
  {
    hide SeekMessage, ReadAll, FalselyText;
    if wire, transport :| Fair(cfg, transport) && AtMost(transport, size) && FalselyText(cfg, wire, transport) {
      UnfinishedTextBounds(cfg, wire, transport, size);
    }
    if cfg.end == EOF && cfg.bufSize <= size && WithinLimit(cfg, cfg.bufSize) {
      var wire := UnfinishedTextExample(cfg, size);
    }
  }

  lemma UnfinishedTextBounds(cfg: Config, wire: seq<byte>, transport: Transport, size: nat)
    requires Fair(cfg, transport) && AtMost(transport, size) && FalselyText(cfg, wire, transport)
    ensures cfg.end == EOF && cfg.bufSize <= size && WithinLimit(cfg, cfg.bufSize)
  {
    hide SeekMessage, ReadAll, ReadText, EndsWithEof, Utf8.Valid, Utf8.Viable;
    var (s, o) := NextReader(cfg, NewState(wire));
    MessageBeginsAccounted(cfg, NewState(wire).(open := false, length := 0));
    NothingYet();
    TextOfAnyStream(cfg, transport, s, []);
    assert [] + ReadAll(cfg, transport, s).data == ReadAll(cfg, transport, s).data;
    EofBounds(cfg, transport, s, 0, size, EndsWithEof(cfg, transport, s, true));
  }

  lemma NothingYet()
    ensures Utf8.Viable([]) && Utf8.Final(Utf8.ACCEPT, []) == Utf8.ACCEPT
  {
    Utf8.RejectsUnviable([]);
  }

  /** One frame that fills the bufio reader and ends with the first octet of a two-octet character. */
  lemma UnfinishedTextExample(cfg: Config, size: nat) returns (wire: seq<byte>)
    requires cfg.end == EOF && 0 < cfg.bufSize <= size && WithinLimit(cfg, cfg.bufSize)
    ensures Fair(cfg, Generous(cfg, size)) && AtMost(Generous(cfg, size), size)
    ensures FalselyText(cfg, wire, Generous(cfg, size))
  {
    hide AdvanceFrame, Encode, SeekMessage, Mask, Utf8.Final, Utf8.Viable, Utf8.Valid, ReadText;
    var payload: seq<byte> := seq(cfg.bufSize - 1, _ => 65) + [0xC3];
    var f := LongFrame(cfg, true, TEXT, payload);
    wire := Encode(f);
    var s := FrameAlone(cfg, f);
    var transport := Generous(cfg, size);
    assert SeekPayload(cfg, s) == s;
    assert EndsWithEof(cfg, transport, s, true);
    assert ReadAll(cfg, transport, s).data == payload by {
      UnmaskChunk(cfg, s.maskKey, s.maskPos, payload, cfg.bufSize);
    }
    NothingYet();
    TextOfAnyStream(cfg, transport, s, []);
    assert [] + payload == payload;
    HalfCharacter(cfg.bufSize - 1);
  }

  lemma {:induction false} HalfCharacter(n: nat)
    ensures var s: seq<byte> := seq(n, _ => 65) + [0xC3]; Utf8.Final(Utf8.ACCEPT, s) == 2
    ensures var s: seq<byte> := seq(n, _ => 65) + [0xC3]; Utf8.Viable(s) && !Utf8.Valid(s)
  {
    var s: seq<byte> := seq(n, _ => 65) + [0xC3];
    if n == 0 {
      assert s == [0xC3] && Utf8.Final(2, s[1..]) == 2;
    } else {
      HalfCharacter(n - 1);
      assert s[1..] == seq(n - 1, _ => 65) + [0xC3];
    }
    Utf8.RejectsUnviable(s);
    Utf8.AcceptsGrammar(s);
  }

  /** utf8ValidatingReader, on top of the low-level reader of an uncompressed message. */
  class ValidatingReader {
    const src: FrameReader.MessageReader
    var failed: bool

    constructor (src: FrameReader.MessageReader)
      ensures this.src == src && !failed
    {
      this.src, failed := src, false;
    }

    method RejectUTF8() returns (n: nat, err: Option<ReadError>)
      requires src.c.Valid()
      modifies this, src.c`events, src.c`readErr
      ensures failed && n == 0 && err == Some(InvalidText)
      ensures src.c.State() == Rejected(old(src.c.State()))
    {
      failed := true;
      src.c.events := src.c.events + [CloseSent(1007)];
      if src.c.readErr == None {
        src.c.readErr := Some(InvalidText);
      }
      return 0, Some(InvalidText);
    }

    method Read(b: array<byte>) returns (n: nat, err: Option<ReadError>, ghost g: Grant)
      requires src.c.Valid() && (!failed ==> src.c.readUTF8State != Utf8.REJECT)
      modifies this, src.c, b
      ensures src.c.Valid() && n <= b.Length && (!failed ==> src.c.readUTF8State != Utf8.REJECT)
      ensures old(failed) ==> n == 0 && err == old(src.c.readErr) && src.c.State() == old(src.c.State())
      ensures !old(failed) && old(src.c.messageReader) == src ==>
        var cfg, t := old(src.c.Cfg()), SeekPayload(old(src.c.Cfg()), old(src.c.State()));
        && (t.error == None && t.remaining > 0 ==> g.want == Asked(t, b.Length) && CanGrant(cfg, t, g))
        && var below := Reading.Read(cfg, old(src.c.State()), g);
        && src.c.readUTF8State == Utf8.Final(old(src.c.readUTF8State), below.data)
        && Delivery(src.c.State(), b[..n], err) == ValidateRead(below, old(src.c.readUTF8State))
    {
      hide SeekPayload, ReadHere, Utf8.Next, Utf8.Step;
      g := Grant(0, 0, None);
      if failed {
        return 0, src.c.readErr, g;
      }
      n, err, g := src.Read(b);
      ghost var q, data, below := src.c.readUTF8State, b[..n], src.c.State();
      assert data[0..] == data;
      for i := 0 to n
        invariant src.c.readUTF8State != Utf8.REJECT
        invariant src.c.Valid() && src.c.State() == below && b[..n] == data && !failed
        invariant Utf8.Final(src.c.readUTF8State, data[i..]) == Utf8.Final(q, data)
      {
        ghost var p := src.c.readUTF8State;
        src.c.readUTF8State, src.c.readUTF8Codepoint :=
          Utf8.DfaStep(src.c.readUTF8State, src.c.readUTF8Codepoint, b[i]);
        Utf8.StepIsNext(p, data[i], data[i..]);
        assert data[i..][1..] == data[i + 1..];
        if src.c.readUTF8State == Utf8.REJECT {
          Utf8.RejectAbsorbs(data[i + 1..]);
          n, err := RejectUTF8();
          return;
        }
      }
      assert data[n..] == [];
      if err == Some(EOF) && src.c.readUTF8State != Utf8.ACCEPT {
        n, err := RejectUTF8();
        err := src.c.readErr;
      }
    }
  }
}
