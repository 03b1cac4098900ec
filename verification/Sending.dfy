/**
 The calls an application makes on one connection, and what they write: WriteMessage, or NextWriter with any calls on
 what it returns and Close, with control frames in between.
 */
module Sending {
  import opened Bytes
  import opened Frames
  import opened Reading
  import opened FrameRoundTrip
  import opened MessageRoundTrip
  import Utf8
  import opened WriterStack
  import Writer = FrameWriter

  datatype Control = Control(opcode: nat, data: seq<byte>)

  /** How a control frame is sent while no message is open. */
  datatype Via = ByWriteControl | ByWriteMessage | ByNextWriter

  datatype Between = Between(via: Via, control: Control)

  /** Octets written at once, and what the compressor, where there is one, passes on meanwhile. */
  datatype Chunk = Chunk(data: seq<byte>, passed: seq<seq<byte>>)

  /**
   A call made while a message is open. The chunks of ReadFrom are those that its reader delivers; the reader may
   fail in the end, and what it delivered before is part of the message. A control frame is sent by WriteControl.
   */
  datatype Part =
    | Write(chunk: Chunk)
    | WriteString(chunk: Chunk)
    | ReadFrom(chunks: seq<Chunk>, fails: bool)
    | Interleaved(control: Control)

  /** WriteMessage, or NextWriter, any calls, and Close, upon which the compressor passes on what it still has. */
  datatype Sending =
    | Whole(opcode: nat, data: seq<byte>, passed: seq<seq<byte>>)
    | Streamed(opcode: nat, parts: seq<Part>, flushed: seq<seq<byte>>)

  datatype Item = Item(before: seq<Between>, sending: Sending)

  // ----- what the calls mean -----

  function EventOf(c: Control): Event {
    if c.opcode == PING then PingReceived(c.data) else PongReceived(c.data)
  }

  function ControlsMean(cs: seq<Between>): seq<Event> {
    if cs == [] then [] else ControlsMean(cs[..|cs| - 1]) + [EventOf(cs[|cs| - 1].control)]
  }

  function ChunksOctets(chunks: seq<Chunk>): seq<byte> {
    if chunks == [] then [] else ChunksOctets(chunks[..|chunks| - 1]) + chunks[|chunks| - 1].data
  }

  /** What goes to the message writer. */
  function ChunksRaw(compresses: bool, chunks: seq<Chunk>): seq<byte> {
    if chunks == [] then []
    else
      var last := chunks[|chunks| - 1];
      ChunksRaw(compresses, chunks[..|chunks| - 1]) + Raw(compresses, last.data, last.passed)
  }

  function PartChunks(p: Part): seq<Chunk> {
    match p
    case Write(chunk) => [chunk]
    case WriteString(chunk) => [chunk]
    case ReadFrom(chunks, _) => chunks
    case Interleaved(_) => []
  }

  function PartEvents(p: Part): seq<Event> {
    if p.Interleaved? then [EventOf(p.control)] else []
  }

  function PartsOctets(ps: seq<Part>): seq<byte> {
    if ps == [] then [] else PartsOctets(ps[..|ps| - 1]) + ChunksOctets(PartChunks(ps[|ps| - 1]))
  }

  function PartsRaw(compresses: bool, ps: seq<Part>): seq<byte> {
    if ps == [] then []
    else PartsRaw(compresses, ps[..|ps| - 1]) + ChunksRaw(compresses, PartChunks(ps[|ps| - 1]))
  }

  function PartsEvents(ps: seq<Part>): seq<Event> {
    if ps == [] then [] else PartsEvents(ps[..|ps| - 1]) + PartEvents(ps[|ps| - 1])
  }

  /** The message as the application gives it. */
  function MessageGiven(compresses: bool, s: Sending): Message {
    Message(s.opcode, compresses, if s.Streamed? then PartsOctets(s.parts) else s.data)
  }

  /** The message as it is on the wire. */
  function MessageSent(compresses: bool, s: Sending): Message {
    Message(s.opcode, compresses,
            if s.Streamed? then PartsRaw(compresses, s.parts) + Raw(compresses, [], s.flushed)
            else Raw(compresses, s.data, s.passed))
  }

  function EventsSent(item: Item): seq<Event> {
    ControlsMean(item.before) + if item.sending.Streamed? then PartsEvents(item.sending.parts) else []
  }

  lemma {:induction false} ChunksUncompressed(chunks: seq<Chunk>)
    ensures ChunksRaw(false, chunks) == ChunksOctets(chunks)
  {
    if chunks != [] {
      ChunksUncompressed(chunks[..|chunks| - 1]);
    }
  }

  lemma {:induction false} PartsUncompressed(ps: seq<Part>)
    ensures PartsRaw(false, ps) == PartsOctets(ps)
  {
    if ps != [] {
      PartsUncompressed(ps[..|ps| - 1]);
      ChunksUncompressed(PartChunks(ps[|ps| - 1]));
    }
  }

  /** Without a compressor the message goes out as it was given. */
  lemma SentUncompressed(s: Sending)
    ensures MessageSent(false, s) == MessageGiven(false, s)
  {
    if s.Streamed? {
      PartsUncompressed(s.parts);
      assert PartsOctets(s.parts) + [] == PartsOctets(s.parts);
    }
  }

  // ----- what the calls write -----

  /** The data frames of ws are ds, and its control frames, as a peer would see them, are the events. */
  ghost predicate Wrote(masks: bool, ws: seq<Frame>, ds: seq<Frame>, events: seq<Event>) {
    && DataFrames(ws) == ds && ControlEvents(ws) == events
    && forall f :: f in ws ==>
         && f.Encodable() && f.key.Some? == masks
         && (IsControl(f.opcode) ==> f.fin && !f.rsv1 && |f.payload| <= MAX_CONTROL_PAYLOAD)
  }

  lemma {:induction false} ControlEventsConcat(fs: seq<Frame>, gs: seq<Frame>)
    ensures ControlEvents(fs + gs) == ControlEvents(fs) + ControlEvents(gs)
  {
    if fs == [] {
      assert fs + gs == gs;
    } else {
      assert (fs + gs)[1..] == fs[1..] + gs;
      ControlEventsConcat(fs[1..], gs);
    }
  }

  lemma WroteConcat(masks: bool, ws: seq<Frame>, ds: seq<Frame>, es: seq<Event>,
                    vs: seq<Frame>, cs: seq<Frame>, fs: seq<Event>)
    requires Wrote(masks, ws, ds, es) && Wrote(masks, vs, cs, fs)
    ensures Wrote(masks, ws + vs, ds + cs, es + fs)
  {
    ControlEventsConcat(ws, vs);
    DataFramesConcat(ws, vs);
  }

  lemma WroteNothing(masks: bool)
    ensures Wrote(masks, [], [], [])
  {
  }

  lemma WroteControl(masks: bool, f: Frame, c: Control)
    requires IsControl(c.opcode) && |c.data| <= MAX_CONTROL_PAYLOAD
    requires f == Frame(true, false, c.opcode, f.key, c.data) && f.key.Some? == masks
    ensures Wrote(masks, [f], [], [EventOf(c)])
  {
    assert ControlEvents([f]) == [ControlEvent(f)] + ControlEvents([]);
    assert DataFrames([f]) == DataFrames([]);
  }

  /** Frames of a data message in a row. */
  lemma {:induction false} WroteData(masks: bool, fs: seq<Frame>)
    requires forall f :: f in fs ==> f.Encodable() && f.key.Some? == masks && !IsControl(f.opcode)
    ensures Wrote(masks, fs, fs, [])
  {
    if fs != [] {
      WroteData(masks, fs[1..]);
    }
  }

  lemma MessageFrames(opcode: nat, rsv1: bool, fs: seq<Frame>)
    requires IsData(opcode) && (WholeMessage(opcode, rsv1, fs) || OpenFragments(opcode, rsv1, fs))
    ensures forall f :: f in fs ==> !IsControl(f.opcode)
  {
    forall i | 0 <= i < |fs|
      ensures !IsControl(fs[i].opcode)
    {
      if i < |fs| - 1 && WholeMessage(opcode, rsv1, fs) {
        assert fs[i] == fs[..|fs| - 1][i];
      }
    }
  }

  // ----- control frames -----

  /** A control frame that may be sent, and that is not the last. */
  predicate Fit(control: Control) {
    IsControl(control.opcode) && control.opcode != CLOSE && |control.data| <= MAX_CONTROL_PAYLOAD
  }

  method SendControl(c: Writer.Conn, control: Control) returns (e: Option<Writer.WriteError>, ghost ws: seq<Frame>)
    requires c.Valid()
    modifies c`wire, c`log, c`tail, c`writeErr
    ensures c.Valid() && c.Later(false)
    ensures e == None ==>
      && c.log == old(c.log) + ws && Wrote(c.Masks(), ws, [], [EventOf(control)]) && ws != []
      && c.writeErr in {None, Some(Writer.CloseSent)}
    ensures old(c.Clear()) && !c.late && IsControl(control.opcode) && |control.data| <= MAX_CONTROL_PAYLOAD ==>
      e == None && (control.opcode != CLOSE ==> c.Clear())
  {
    hide EncodeAll, Encode, Wrote, ControlEvents, DataFrames;
    ws := [];
    e := c.WriteControl(control.opcode, control.data, c.late);
    if e == None {
      var f := c.log[|old(c.log)|];
      ws := [f];
      WroteControl(c.Masks(), f, control);
    }
  }

  /** The one frame of a control message is that frame. */
  lemma ControlMessage(opcode: nat, fs: seq<Frame>)
    requires WholeMessage(opcode, false, fs) && |fs| == 1
    ensures fs == [Frame(true, false, opcode, fs[0].key, Payloads(fs))]
  {
    assert fs == [fs[0]] && Payloads(fs) == fs[0].payload + Payloads(fs[1..]);
    assert fs[1..] == [] && fs[0].payload + [] == fs[0].payload;
  }

  /** The control message goes through, whatever the size of a pooled buffer. */
  predicate Goes(c: Writer.Conn, b: Between)
    reads c
  {
    && IsControl(b.control.opcode) && |b.control.data| <= MAX_CONTROL_PAYLOAD
    && match b.via
       case ByWriteControl => true
       case ByWriteMessage =>
         || (c.isServer && !c.compressing && (c.writeFrameSize == 0 || |b.control.data| <= c.writeFrameSize))
         || (!c.pooled && !c.Overlong(b.control.data))
       case ByNextWriter => !c.pooled && !c.Overlong(b.control.data)
  }

  /** Through WriteMessage or NextWriter, which take writeMu. */
  method SendControlMessage(c: Writer.Conn, via: Via, control: Control)
    returns (e: Option<Writer.WriteError>, ghost ws: seq<Frame>)
    requires c.Valid() && IsControl(control.opcode) && |control.data| <= Writer.MAX_SLICE && !via.ByWriteControl?
    modifies c, c.writeBuf
    ensures c.Valid() && c.Later(false)
    ensures e == None ==>
      && c.log == old(c.log) + ws && Wrote(c.Masks(), ws, [], [EventOf(control)]) && ws != []
      && c.writeErr in {None, Some(Writer.CloseSent)}
    ensures old(c.writeMu) ==> c.writeMu
    ensures old(c.Ready()) && c.Reliable() && old(Goes(c, Between(via, control))) ==>
      e == None && (control.opcode != CLOSE ==> c.Ready())
  {
    hide EncodeAll, Encode, Wrote, ControlEvents, DataFrames, WholeMessage, Payloads;
    if via.ByWriteMessage? {
      e, ws := c.WriteMessage(control.opcode, control.data, []);
    } else {
      e, ws := c.WriteFragmented(control.opcode, control.data);
    }
    if e == None {
      ControlMessage(control.opcode, ws);
      WroteControl(c.Masks(), ws[0], control);
    }
  }

  predicate SendableControl(b: Between) {
    IsControl(b.control.opcode) && |b.control.data| <= Writer.MAX_SLICE
  }

  /** Every one of them goes through, if none but the last is a Close. */
  predicate AllGo(c: Writer.Conn, bs: seq<Between>)
    reads c
  {
    && (forall b :: b in bs ==> Goes(c, b))
    && forall i :: 0 <= i < |bs| - 1 ==> bs[i].control.opcode != CLOSE
  }

  predicate NoClose(bs: seq<Between>) {
    forall b :: b in bs ==> b.control.opcode != CLOSE
  }

  method SendControls(c: Writer.Conn, bs: seq<Between>) returns (e: Option<Writer.WriteError>, ghost ws: seq<Frame>)
    requires c.Valid() && forall b :: b in bs ==> SendableControl(b)
    modifies c, c.writeBuf
    ensures c.Valid() && c.Later(false)
    ensures e == None ==>
      && c.log == old(c.log) + ws && Wrote(c.Masks(), ws, [], ControlsMean(bs)) && (ws == [] <==> bs == [])
      && if bs == [] then c.writeErr == old(c.writeErr) else c.writeErr in {None, Some(Writer.CloseSent)}
    ensures old(c.writeMu) ==> c.writeMu
    ensures old(c.Ready()) && c.Reliable() && old(AllGo(c, bs)) ==> e == None
    ensures old(c.Ready()) && c.Reliable() && old(AllGo(c, bs)) && NoClose(bs) ==> c.Ready()
  {
    hide EncodeAll, Encode, Wrote, ControlEvents, DataFrames;
    e, ws := None, [];
    WroteNothing(c.Masks());
    for i := 0 to |bs|
      invariant c.Valid() && c.Later(false) && e == None && (ws == [] <==> i == 0)
      invariant if i == 0 then c.writeErr == old(c.writeErr) else c.writeErr in {None, Some(Writer.CloseSent)}
      invariant c.log == old(c.log) + ws && Wrote(c.Masks(), ws, [], ControlsMean(bs[..i]))
      invariant old(c.writeMu) ==> c.writeMu
      invariant old(c.Ready()) && c.Reliable() && old(AllGo(c, bs)) && (i > 0 ==> bs[i - 1].control.opcode != CLOSE) ==>
        c.Ready()
    {
      ghost var vs;
      assert bs[i] in bs && SendableControl(bs[i]);
      assert old(AllGo(c, bs)) ==> Goes(c, bs[i]);
      if bs[i].via.ByWriteControl? {
        e, vs := SendControl(c, bs[i].control);
      } else {
        e, vs := SendControlMessage(c, bs[i].via, bs[i].control);
      }
      if e.Some? {
        return;
      }
      WroteConcat(c.Masks(), ws, [], ControlsMean(bs[..i]), vs, [], [EventOf(bs[i].control)]);
      ConcatAssociative(old(c.log), ws, vs);
      ws := ws + vs;
      assert bs[..i + 1][..i] == bs[..i];
      ghost var none: seq<Frame> := [];
      assert none + none == none;
    }
    assert bs[..|bs|] == bs;
  }

  // ----- the parts of a message -----

  predicate Sized(p: Part) {
    forall chunk :: chunk in PartChunks(p) ==> FitMemory(chunk.data, chunk.passed)
  }

  /** An open message: the writer below, and the validator above it where there is one. */
  ghost predicate Ready(w: PayloadWriter, v: ValidatingWriter?)
    reads w, w.mw, w.mw.c, v
  {
    w.mw.Open() && IsData(w.mw.opcode) && (v != null ==> v.src == w && v.Valid() && !v.failed)
  }

  /** Where the text is validated, it goes on well with these octets. */
  ghost predicate GoesOn(w: PayloadWriter, v: ValidatingWriter?, octets: seq<byte>)
    reads w
  {
    v != null ==> Utf8.Viable(w.given + octets)
  }

  method WriteChunk(w: PayloadWriter, v: ValidatingWriter?, chunk: Chunk) returns (e: Option<Writer.WriteError>)
    requires Ready(w, v) && FitMemory(chunk.data, chunk.passed)
    modifies w, v, w.mw, w.mw.c, w.mw.c.writeBuf
    ensures w.mw.c.Valid() && w.mw.c.Later(false) && w.mw.rsv1 == old(w.mw.rsv1)
    ensures old(w.mw.sent) <= w.mw.sent && w.mw.c.log == old(w.mw.c.log) + w.mw.sent[|old(w.mw.sent)|..]
    ensures e == None ==>
      && Ready(w, v) && w.given == old(w.given) + chunk.data
      && w.mw.Taken() == old(w.mw.Taken()) + Raw(w.compresses, chunk.data, chunk.passed)
      && w.mw.c.writeBuf == old(w.mw.c.writeBuf)
    ensures old(w.mw.c.Clear()) && old(GoesOn(w, v, chunk.data)) ==> e == None && w.mw.c.Clear()
  {
    hide EncodeAll, OpenFragments, Payloads, Writer.Capped, Utf8.Viable, Utf8.Final;
    if v != null {
      var n;
      n, e := v.Write(chunk.data, chunk.passed);
    } else {
      e := w.Write(chunk.data, chunk.passed);
    }
  }

  lemma {:induction false} FirstChunks(chunks: seq<Chunk>, i: nat)
    requires i <= |chunks|
    ensures ChunksOctets(chunks[..i]) <= ChunksOctets(chunks)
    decreases |chunks|
  {
    if i < |chunks| {
      FirstChunks(chunks[..|chunks| - 1], i);
      assert chunks[..|chunks| - 1][..i] == chunks[..i];
    } else {
      assert chunks[..i] == chunks;
    }
  }

  lemma NextChunk(given: seq<byte>, chunks: seq<Chunk>, i: nat)
    requires i < |chunks|
    ensures Utf8.Viable(given + ChunksOctets(chunks)) ==>
              Utf8.Viable((given + ChunksOctets(chunks[..i])) + chunks[i].data)
  {
    FirstChunks(chunks, i + 1);
    assert chunks[..i + 1][..i] == chunks[..i];
    ConcatAssociative(given, ChunksOctets(chunks[..i]), chunks[i].data);
    ViableSoFar(given, ChunksOctets(chunks[..i + 1]), ChunksOctets(chunks));
  }

  lemma ViableSoFar(given: seq<byte>, a: seq<byte>, b: seq<byte>)
    requires a <= b
    ensures Utf8.Viable(given + b) ==> Utf8.Viable(given + a)
  {
    hide Utf8.Viable;
    if Utf8.Viable(given + b) {
      assert given + b == (given + a) + b[|a|..];
      Utf8.ViablePrefix(given + a, b[|a|..]);
    }
  }

  /** io.Copy on a writer that has no ReadFrom: one write for every chunk. */
  method WriteChunks(w: PayloadWriter, v: ValidatingWriter?, chunks: seq<Chunk>) returns (e: Option<Writer.WriteError>)
    requires Ready(w, v) && forall chunk :: chunk in chunks ==> FitMemory(chunk.data, chunk.passed)
    modifies w, v, w.mw, w.mw.c, w.mw.c.writeBuf
    ensures w.mw.c.Valid() && w.mw.c.Later(false) && w.mw.rsv1 == old(w.mw.rsv1)
    ensures old(w.mw.sent) <= w.mw.sent && w.mw.c.log == old(w.mw.c.log) + w.mw.sent[|old(w.mw.sent)|..]
    ensures e == None ==>
      && Ready(w, v) && w.given == old(w.given) + ChunksOctets(chunks)
      && w.mw.Taken() == old(w.mw.Taken()) + ChunksRaw(w.compresses, chunks)
      && w.mw.c.writeBuf == old(w.mw.c.writeBuf)
    ensures old(w.mw.c.Clear()) && old(GoesOn(w, v, ChunksOctets(chunks))) ==> e == None && w.mw.c.Clear()
  {
    hide EncodeAll, OpenFragments, Payloads, Writer.Capped, Writer.Conn.Valid, Raw, FitMemory;
    e := None;
    for i := 0 to |chunks|
      invariant Ready(w, v) && w.mw.c.Later(false) && w.mw.rsv1 == old(w.mw.rsv1) && e == None
      invariant w.mw.c.writeBuf == old(w.mw.c.writeBuf)
      invariant old(w.mw.sent) <= w.mw.sent && w.mw.c.log == old(w.mw.c.log) + w.mw.sent[|old(w.mw.sent)|..]
      invariant w.given == old(w.given) + ChunksOctets(chunks[..i])
      invariant w.mw.Taken() == old(w.mw.Taken()) + ChunksRaw(w.compresses, chunks[..i])
      invariant old(w.mw.c.Clear()) && old(GoesOn(w, v, ChunksOctets(chunks))) ==> w.mw.c.Clear()
    {
      ghost var sent, log := w.mw.sent, w.mw.c.log;
      NextChunk(old(w.given), chunks, i);
      e := WriteChunk(w, v, chunks[i]);
      Writer.LogExtended(old(w.mw.c.log), old(w.mw.sent), log, sent, w.mw.c.log, w.mw.sent);
      if e.Some? {
        return;
      }
      assert chunks[..i + 1][..i] == chunks[..i];
      ConcatAssociative(old(w.given), ChunksOctets(chunks[..i]), chunks[i].data);
      ConcatAssociative(old(w.mw.Taken()), ChunksRaw(w.compresses, chunks[..i]),
                        Raw(w.compresses, chunks[i].data, chunks[i].passed));
    }
    assert chunks[..|chunks|] == chunks;
  }

  /** Frames of a message that was open before and is still. */
  lemma NewFragments(masks: bool, opcode: nat, rsv1: bool, before: seq<Frame>, sent: seq<Frame>)
    requires before <= sent && IsData(opcode) && OpenFragments(opcode, rsv1, sent)
    requires AllEncodable(sent) && forall f :: f in sent ==> f.key.Some? == masks
    ensures Wrote(masks, sent[|before|..], sent[|before|..], [])
  {
    hide Wrote;
    MessageFrames(opcode, rsv1, sent);
    WroteData(masks, sent[|before|..]);
  }

  /** The writers without compressor and validator have WriteString and ReadFrom of their own. */
  method WritePlain(w: PayloadWriter, p: Part) returns (e: Option<Writer.WriteError>)
    requires w.mw.Open() && !w.compresses && (p.WriteString? || p.ReadFrom?)
    modifies w, w.mw, w.mw.c, w.mw.c.writeBuf
    ensures w.mw.c.Valid() && w.mw.c.Later(false) && w.mw.rsv1 == old(w.mw.rsv1)
    ensures e == None ==>
      && w.mw.Open() && w.given == old(w.given) + ChunksOctets(PartChunks(p))
      && w.mw.Taken() == old(w.mw.Taken()) + ChunksOctets(PartChunks(p))
      && w.mw.c.writeBuf == old(w.mw.c.writeBuf) && old(w.mw.sent) <= w.mw.sent
      && w.mw.c.log == old(w.mw.c.log) + w.mw.sent[|old(w.mw.sent)|..]
    ensures old(w.mw.c.Clear()) && IsData(w.mw.opcode) ==> e == None && w.mw.c.Clear()
  {
    hide EncodeAll, OpenFragments, Payloads, Writer.Capped, Concat;
    w.given := w.given + ChunksOctets(PartChunks(p));
    var n;
    if p.WriteString? {
      OneChunk(p.chunk);
      n, e := w.mw.WriteString(p.chunk.data);
    } else {
      DatasConcat(p.chunks);
      var r := new Writer.ChunkReader(Datas(p.chunks), p.fails);
      n, e := w.mw.ReadFrom(r);
      if w.mw.err == None {
        e := None;                      // the application goes on after an error of its reader
      }
    }
  }

  function Datas(chunks: seq<Chunk>): (ds: seq<seq<byte>>)
    ensures |ds| == |chunks|
  {
    if chunks == [] then [] else Datas(chunks[..|chunks| - 1]) + [chunks[|chunks| - 1].data]
  }

  lemma {:induction false} DatasConcat(chunks: seq<Chunk>)
    ensures Concat(Datas(chunks)) == ChunksOctets(chunks)
  {
    if chunks != [] {
      DatasConcat(chunks[..|chunks| - 1]);
      ConcatAppend(Datas(chunks[..|chunks| - 1]), chunks[|chunks| - 1].data);
    }
  }

  lemma OneChunk(chunk: Chunk)
    ensures ChunksOctets([chunk]) == chunk.data
  {
    assert ChunksOctets([chunk]) == ChunksOctets([]) + chunk.data;
  }

  method WriteOctets(w: PayloadWriter, v: ValidatingWriter?, p: Part) returns (e: Option<Writer.WriteError>)
    requires Ready(w, v) && Sized(p) && !p.Interleaved?
    modifies w, v, w.mw, w.mw.c, w.mw.c.writeBuf
    ensures w.mw.c.Valid() && w.mw.c.Later(false) && w.mw.rsv1 == old(w.mw.rsv1)
    ensures e == None ==>
      && Ready(w, v) && w.given == old(w.given) + ChunksOctets(PartChunks(p))
      && w.mw.Taken() == old(w.mw.Taken()) + ChunksRaw(w.compresses, PartChunks(p))
      && w.mw.c.writeBuf == old(w.mw.c.writeBuf) && old(w.mw.sent) <= w.mw.sent
      && w.mw.c.log == old(w.mw.c.log) + w.mw.sent[|old(w.mw.sent)|..]
    ensures old(w.mw.c.Clear()) && old(GoesOn(w, v, ChunksOctets(PartChunks(p)))) ==> e == None && w.mw.c.Clear()
  {
    hide EncodeAll, OpenFragments, Payloads, Writer.Capped, Writer.Conn.Valid, ChunksOctets, ChunksRaw;
    if v == null && !w.compresses && !p.Write? {
      ChunksUncompressed(PartChunks(p));
      e := WritePlain(w, p);
    } else {
      e := WriteChunks(w, v, PartChunks(p));
    }
  }

  predicate FitPart(p: Part) {
    p.Interleaved? ==> Fit(p.control)
  }

  predicate FitParts(ps: seq<Part>) {
    forall p :: p in ps ==> FitPart(p)
  }

  method SendPart(w: PayloadWriter, v: ValidatingWriter?, p: Part)
    returns (e: Option<Writer.WriteError>, ghost ws: seq<Frame>)
    requires Ready(w, v) && Sized(p)
    modifies w, v, w.mw, w.mw.c, w.mw.c.writeBuf
    ensures w.mw.c.Valid() && w.mw.c.Later(false) && w.mw.rsv1 == old(w.mw.rsv1)
    ensures e == None ==>
      && Ready(w, v) && w.given == old(w.given) + ChunksOctets(PartChunks(p))
      && w.mw.Taken() == old(w.mw.Taken()) + ChunksRaw(w.compresses, PartChunks(p))
      && w.mw.c.writeBuf == old(w.mw.c.writeBuf) && old(w.mw.sent) <= w.mw.sent
      && w.mw.c.log == old(w.mw.c.log) + ws
      && Wrote(w.mw.c.Masks(), ws, w.mw.sent[|old(w.mw.sent)|..], PartEvents(p))
    ensures old(w.mw.c.Clear()) && !w.mw.c.late && FitPart(p) && old(GoesOn(w, v, ChunksOctets(PartChunks(p)))) ==>
      e == None && w.mw.c.Clear()
  {
    hide EncodeAll, OpenFragments, Payloads, Writer.Capped, Wrote;
    if p.Interleaved? {
      e, ws := SendControl(w.mw.c, p.control);
      assert w.mw.Taken() == old(w.mw.Taken()) + [] && w.mw.sent[|w.mw.sent|..] == [];
      assert w.given == old(w.given) + [];
    } else {
      e := WriteOctets(w, v, p);
      ws := if e == None then w.mw.sent[|old(w.mw.sent)|..] else [];
      if e == None {
        NewFragments(w.mw.c.Masks(), w.mw.opcode, w.mw.rsv1, old(w.mw.sent), w.mw.sent);
      }
    }
  }

  lemma {:induction false} FirstParts(ps: seq<Part>, i: nat)
    requires i <= |ps|
    ensures PartsOctets(ps[..i]) <= PartsOctets(ps)
    decreases |ps|
  {
    hide ChunksOctets, PartChunks;
    if i < |ps| {
      FirstParts(ps[..|ps| - 1], i);
      assert ps[..|ps| - 1][..i] == ps[..i];
    } else {
      assert ps[..i] == ps;
    }
  }

  lemma NextPart(given: seq<byte>, ps: seq<Part>, i: nat)
    requires i < |ps|
    ensures Utf8.Viable(given + PartsOctets(ps)) ==>
              Utf8.Viable((given + PartsOctets(ps[..i])) + ChunksOctets(PartChunks(ps[i])))
  {
    hide ChunksOctets, PartChunks;
    FirstParts(ps, i + 1);
    assert ps[..i + 1][..i] == ps[..i];
    ConcatAssociative(given, PartsOctets(ps[..i]), ChunksOctets(PartChunks(ps[i])));
    ViableSoFar(given, PartsOctets(ps[..i + 1]), PartsOctets(ps));
  }

  method SendParts(w: PayloadWriter, v: ValidatingWriter?, ps: seq<Part>)
    returns (e: Option<Writer.WriteError>, ghost ws: seq<Frame>)
    requires Ready(w, v) && forall p :: p in ps ==> Sized(p)
    modifies w, v, w.mw, w.mw.c, w.mw.c.writeBuf
    ensures w.mw.c.Valid() && w.mw.c.Later(false) && w.mw.rsv1 == old(w.mw.rsv1)
    ensures e == None ==>
      && Ready(w, v) && w.given == old(w.given) + PartsOctets(ps)
      && w.mw.Taken() == old(w.mw.Taken()) + PartsRaw(w.compresses, ps)
      && w.mw.c.writeBuf == old(w.mw.c.writeBuf) && old(w.mw.sent) <= w.mw.sent
      && w.mw.c.log == old(w.mw.c.log) + ws
      && Wrote(w.mw.c.Masks(), ws, w.mw.sent[|old(w.mw.sent)|..], PartsEvents(ps))
    ensures old(w.mw.c.Clear()) && !w.mw.c.late && FitParts(ps) && old(GoesOn(w, v, PartsOctets(ps))) ==>
      e == None && w.mw.c.Clear()
  {
    hide EncodeAll, OpenFragments, Payloads, Writer.Capped, Writer.Conn.Valid, Wrote, Sized;
    hide PartChunks, PartEvents, ChunksOctets, ChunksRaw;
    e, ws := None, [];
    WroteNothing(w.mw.c.Masks());
    assert w.mw.sent[|w.mw.sent|..] == [] && w.mw.c.log + [] == w.mw.c.log;
    for i := 0 to |ps|
      invariant Ready(w, v) && w.mw.c.Later(false) && w.mw.rsv1 == old(w.mw.rsv1) && e == None
      invariant w.mw.c.writeBuf == old(w.mw.c.writeBuf) && old(w.mw.sent) <= w.mw.sent
      invariant w.given == old(w.given) + PartsOctets(ps[..i])
      invariant w.mw.Taken() == old(w.mw.Taken()) + PartsRaw(w.compresses, ps[..i])
      invariant w.mw.c.log == old(w.mw.c.log) + ws
      invariant Wrote(w.mw.c.Masks(), ws, w.mw.sent[|old(w.mw.sent)|..], PartsEvents(ps[..i]))
      invariant old(w.mw.c.Clear()) && !w.mw.c.late && FitParts(ps) && old(GoesOn(w, v, PartsOctets(ps))) ==>
        w.mw.c.Clear()
    {
      ghost var before := w.mw.sent;
      NextPart(old(w.given), ps, i);
      ghost var vs;
      e, vs := SendPart(w, v, ps[i]);
      if e.Some? {
        return;
      }
      WroteConcat(w.mw.c.Masks(), ws, before[|old(w.mw.sent)|..], PartsEvents(ps[..i]),
                  vs, w.mw.sent[|before|..], PartEvents(ps[i]));
      Tails(old(w.mw.sent), before, w.mw.sent);
      ConcatAssociative(old(w.mw.c.log), ws, vs);
      ConcatAssociative(old(w.given), PartsOctets(ps[..i]), ChunksOctets(PartChunks(ps[i])));
      ConcatAssociative(old(w.mw.Taken()), PartsRaw(w.compresses, ps[..i]), ChunksRaw(w.compresses, PartChunks(ps[i])));
      ws := ws + vs;
      assert ps[..i + 1][..i] == ps[..i];
    }
    assert ps[..|ps|] == ps;
  }

  lemma Tails<T>(a: seq<T>, b: seq<T>, c: seq<T>)
    requires a <= b <= c
    ensures b[|a|..] + c[|b|..] == c[|a|..]
  {
  }

  /** ws are the frames of one message, the last of them its last, with the events in between. */
  ghost predicate Conveys(masks: bool, ws: seq<Frame>, m: Message, events: seq<Event>) {
    && Wrote(masks, ws, DataFrames(ws), events)
    && WholeMessage(m.opcode, m.compressed, DataFrames(ws)) && Carried(ws) == m.payload
    && ws != [] && !IsControl(ws[|ws| - 1].opcode)
  }

  /** The last frame of a message. */
  lemma LastFragment(masks: bool, opcode: nat, rsv1: bool, before: seq<Frame>, sent: seq<Frame>)
    requires before <= sent && IsData(opcode)
    requires OpenFragments(opcode, rsv1, before) && WholeMessage(opcode, rsv1, sent)
    requires AllEncodable(sent) && forall f :: f in sent ==> f.key.Some? == masks
    ensures var ws := sent[|before|..]; Wrote(masks, ws, ws, []) && ws != [] && !IsControl(ws[|ws| - 1].opcode)
  {
    hide Wrote;
    MessageFrames(opcode, rsv1, sent);
    WroteData(masks, sent[|before|..]);
    var last := sent[|sent| - 1];
    assert last.fin && last !in before;
  }

  lemma ConveysMessage(masks: bool, ws: seq<Frame>, vs: seq<Frame>, before: seq<Frame>, sent: seq<Frame>,
                       m: Message, events: seq<Event>)
    requires before <= sent && Wrote(masks, ws, before, events) && Wrote(masks, vs, sent[|before|..], [])
    requires WholeMessage(m.opcode, m.compressed, sent) && Payloads(sent) == m.payload
    requires vs != [] && !IsControl(vs[|vs| - 1].opcode)
    ensures Conveys(masks, ws + vs, m, events)
  {
    hide WholeMessage;
    WroteConcat(masks, ws, before, events, vs, sent[|before|..], []);
    assert before + sent[|before|..] == sent && events + [] == events;
  }

  // ----- a message -----

  /** What a successful call promises: the frames of the message, and text that is valid where it is validated. */
  ghost predicate SentOk(c: Writer.Conn, s: Sending, ws: seq<Frame>, events: seq<Event>)
    reads c
  {
    && c.writeErr == None
    && Conveys(c.Masks(), ws, MessageSent(c.compressing, s), events)
    && Proper(c, s)
  }

  method CloseStack(w: PayloadWriter, v: ValidatingWriter?, flushed: seq<seq<byte>>)
    returns (e: Option<Writer.WriteError>)
    requires Ready(w, v) && FitMemory([], flushed)
    modifies v, w.mw, w.mw.c, w.mw.c.writeBuf
    ensures w.mw.Ended() && w.mw.c.Later(false)
    ensures old(w.mw.sent) <= w.mw.sent && w.mw.c.log == old(w.mw.c.log) + w.mw.sent[|old(w.mw.sent)|..]
    ensures e == None ==>
      && w.mw.rsv1 == old(w.mw.rsv1) && WholeMessage(w.mw.opcode, w.mw.rsv1, w.mw.sent)
      && Payloads(w.mw.sent) == old(w.mw.Taken()) + Raw(w.compresses, [], flushed)
      && w.mw.c.writeErr == None && (v != null ==> Utf8.Valid(w.given))
    ensures old(w.mw.c.Clear()) && (v != null ==> Utf8.Valid(w.given)) ==> e == None
  {
    hide EncodeAll, OpenFragments, WholeMessage, Payloads, Writer.Capped, Utf8.Valid, Utf8.Viable, Utf8.Final, Raw;
    if v != null {
      e := v.Close(flushed);
    } else {
      e := w.Close(flushed);
    }
  }

  lemma ValidGoesOn(s: seq<byte>)
    ensures Utf8.Valid(s) ==> Utf8.Viable(s)
  {
    hide Utf8.Valid;
    assert s + [] == s;
  }

  /** Text is valid where it is validated. */
  predicate Proper(c: Writer.Conn, s: Sending) {
    s.opcode == TEXT && !c.skipUTF8 ==> Utf8.Valid(MessageGiven(c.compressing, s).payload)
  }

  method SendStreamed(c: Writer.Conn, opcode: nat, ps: seq<Part>, flushed: seq<seq<byte>>)
    returns (e: Option<Writer.WriteError>, ghost ws: seq<Frame>)
    requires c.Valid() && IsData(opcode) && FitMemory([], flushed) && forall p :: p in ps ==> Sized(p)
    modifies c, c.writeBuf
    ensures c.Valid() && c.Later(false)
    ensures e == None ==>
      c.log == old(c.log) + ws && SentOk(c, Streamed(opcode, ps, flushed), ws, PartsEvents(ps))
    ensures old(c.Ready()) && c.Reliable() && FitParts(ps) && Proper(c, Streamed(opcode, ps, flushed)) ==>
      e == None && c.Ready()
  {
    hide Writer.Conn.Valid;
    hide EncodeAll, OpenFragments, WholeMessage, Payloads, Writer.Capped, Wrote, Conveys, Raw, FitMemory;
    hide PartsOctets, PartsRaw, PartsEvents, Sized, Utf8.Valid, Utf8.Viable, Utf8.Final;
    ws := [];
    var mw, stack;
    mw, stack, e := c.NextWriter(opcode);
    if e.Some? {
      return;
    }
    assert mw.Taken() == [] by { Writer.NothingTaken(mw.sent); }
    var w := new PayloadWriter(mw, stack.compresses);
    var v: ValidatingWriter? := null;
    if stack.validates {
      v := new ValidatingWriter(w);
    }
    assert [] + PartsOctets(ps) == PartsOctets(ps);
    ValidGoesOn(PartsOctets(ps));
    e, ws := SendParts(w, v, ps);
    if e.Some? {
      return;
    }
    ghost var before, rsv1 := mw.sent, mw.rsv1;
    assert before[0..] == before && [] + PartsOctets(ps) == PartsOctets(ps);
    assert [] + PartsRaw(w.compresses, ps) == PartsRaw(w.compresses, ps);
    e := CloseStack(w, v, flushed);
    if e == None {
      ghost var vs := mw.sent[|before|..];
      LastFragment(c.Masks(), opcode, rsv1, before, mw.sent);
      ConveysMessage(c.Masks(), ws, vs, before, mw.sent, MessageSent(c.compressing, Streamed(opcode, ps, flushed)),
                     PartsEvents(ps));
      ConcatAssociative(old(c.log), ws, vs);
      ws := ws + vs;
    }
  }

  /** The item can be sent: its message is a data message, and everything fits in memory. */
  predicate Sendable(s: Sending) {
    && IsData(s.opcode)
    && match s
       case Whole(_, data, passed) => FitMemory(data, passed)
       case Streamed(_, parts, flushed) => FitMemory([], flushed) && forall p :: p in parts ==> Sized(p)
  }

  method SendWhole(c: Writer.Conn, opcode: nat, data: seq<byte>, passed: seq<seq<byte>>)
    returns (e: Option<Writer.WriteError>, ghost ws: seq<Frame>)
    requires c.Valid() && Sendable(Whole(opcode, data, passed))
    modifies c, c.writeBuf
    ensures c.Valid() && c.Later(false)
    ensures e == None ==> c.log == old(c.log) + ws && SentOk(c, Whole(opcode, data, passed), ws, [])
    ensures old(c.Ready()) && c.Reliable() && Proper(c, Whole(opcode, data, passed)) ==> e == None && c.Ready()
  {
    hide EncodeAll, OpenFragments, WholeMessage, Payloads, Wrote, Conveys, Concat, Utf8.Valid;
    hide Writer.Conn.Valid, Writer.Conn.Fragmented, Writer.Conn.WithinCap, Writer.Conn.Overlong;
    e, ws := c.WriteMessage(opcode, data, passed);
    if e == None {
      var m := MessageSent(c.compressing, Whole(opcode, data, passed));
      NoFragments(opcode, m.compressed);
      LastFragment(c.Masks(), opcode, m.compressed, [], ws);
      WroteNothing(c.Masks());
      assert ws[0..] == ws && [] + ws == ws;
      ConveysMessage(c.Masks(), [], ws, [], ws, m, []);
    }
  }

  lemma NoFragments(opcode: nat, rsv1: bool)
    ensures OpenFragments(opcode, rsv1, [])
  {
  }

  /** Nothing about the item itself makes a call fail. */
  predicate ItemGoes(c: Writer.Conn, item: Item)
    reads c
  {
    && AllGo(c, item.before) && NoClose(item.before) && Proper(c, item.sending)
    && (item.sending.Streamed? ==> FitParts(item.sending.parts))
  }

  method SendItem(c: Writer.Conn, item: Item) returns (e: Option<Writer.WriteError>, ghost ws: seq<Frame>)
    requires c.Valid() && Sendable(item.sending) && forall b :: b in item.before ==> SendableControl(b)
    modifies c, c.writeBuf
    ensures c.Valid() && c.Later(false)
    ensures e == None ==> c.log == old(c.log) + ws && SentOk(c, item.sending, ws, EventsSent(item))
    ensures old(c.Ready()) && c.Reliable() && old(ItemGoes(c, item)) ==> e == None && c.Ready()
  {
    hide EncodeAll, Wrote, Conveys, ControlsMean, PartsEvents, MessageSent, MessageGiven, Utf8.Valid;
    e, ws := SendControls(c, item.before);
    if e.Some? {
      return;
    }
    ghost var vs;
    match item.sending {
      case Whole(opcode, data, passed) =>
        e, vs := SendWhole(c, opcode, data, passed);
      case Streamed(opcode, parts, flushed) =>
        e, vs := SendStreamed(c, opcode, parts, flushed);
    }
    if e == None {
      ConveysAfter(c.Masks(), ws, ControlsMean(item.before), vs, MessageSent(c.compressing, item.sending),
                   if item.sending.Streamed? then PartsEvents(item.sending.parts) else []);
      ConcatAssociative(old(c.log), ws, vs);
      ws := ws + vs;
    }
  }

  lemma ConveysAfter(masks: bool, ws: seq<Frame>, es: seq<Event>, vs: seq<Frame>, m: Message, fs: seq<Event>)
    requires Wrote(masks, ws, [], es) && Conveys(masks, vs, m, fs)
    ensures Conveys(masks, ws + vs, m, es + fs)
  {
    hide WholeMessage;
    WroteConcat(masks, ws, [], es, vs, DataFrames(vs), fs);
    assert [] + DataFrames(vs) == DataFrames(vs);
  }

  // ----- many messages -----

  predicate SendableItem(item: Item) {
    Sendable(item.sending) && forall b :: b in item.before ==> SendableControl(b)
  }

  /** The frames of each item. */
  ghost predicate AllConvey(masks: bool, compressing: bool, streams: seq<seq<Frame>>, items: seq<Item>) {
    && |streams| == |items|
    && forall i :: 0 <= i < |items| ==>
         Conveys(masks, streams[i], MessageSent(compressing, items[i].sending), EventsSent(items[i]))
  }

  /** The texts are valid. */
  predicate TextsValid(compressing: bool, items: seq<Item>) {
    forall i :: 0 <= i < |items| && items[i].sending.opcode == TEXT ==>
      Utf8.Valid(MessageGiven(compressing, items[i].sending).payload)
  }

  /** Sends the items one after the other until one fails. */
  method SendAll(c: Writer.Conn, items: seq<Item>)
    returns (e: Option<Writer.WriteError>, ghost streams: seq<seq<Frame>>)
    requires c.Valid() && forall item :: item in items ==> SendableItem(item)
    modifies c, c.writeBuf
    ensures c.Valid() && c.Later(false)
    ensures e == None ==>
      && c.log == old(c.log) + Concat(streams) && c.writeErr == (if items == [] then old(c.writeErr) else None)
      && AllConvey(c.Masks(), c.compressing, streams, items)
      && (c.skipUTF8 || TextsValid(c.compressing, items))
    ensures old(c.Ready()) && c.Reliable() && (forall item :: item in items ==> old(ItemGoes(c, item))) ==>
      e == None && c.Ready()
  {
    hide EncodeAll, Conveys, MessageSent, MessageGiven, EventsSent, Sendable, SendableControl, Concat, Utf8.Valid;
    e, streams := None, [];
    NoStreams(c.log);
    for i := 0 to |items|
      invariant c.Valid() && c.Later(false) && e == None
      invariant c.writeErr == (if i == 0 then old(c.writeErr) else None)
      invariant c.log == old(c.log) + Concat(streams)
      invariant AllConvey(c.Masks(), c.compressing, streams, items[..i])
      invariant c.skipUTF8 || TextsValid(c.compressing, items[..i])
      invariant old(c.Ready()) && c.Reliable() && (forall item :: item in items ==> old(ItemGoes(c, item))) ==>
        c.Ready()
    {
      assert items[i] in items && SendableItem(items[i]);
      ghost var ws;
      e, ws := SendItem(c, items[i]);
      if e.Some? {
        return;
      }
      ConcatAppend(streams, ws);
      ConcatAssociative(old(c.log), Concat(streams), ws);
      streams := streams + [ws];
    }
    assert items[..|items|] == items;
  }

  lemma NoStreams(log: seq<Frame>)
    ensures log == log + Concat<Frame>([])
  {
  }
}
