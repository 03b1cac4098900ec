/**
 Reading a stream of messages as an application does: NextReader, then io.ReadAll on what it returns, with the
 decompressor and the UTF-8 validator where they are stacked on the low-level reader.
 */
module Conversations {
  import opened Bytes
  import opened Frames
  import opened Reading
  import opened FrameRoundTrip
  import opened MessageRoundTrip
  import opened Completion
  import opened TextStreams
  import Utf8

  /**
   The readers above the low-level one. Text is validated unless skipUTF8Validation is set; decode gives the octets
   of the last of the compressed messages read so far, which under context takeover depend on the others.
   */
  datatype Readers = Readers(validates: bool, decode: seq<seq<byte>> -> Option<seq<byte>>)

  /** What io.ReadAll gets of the message just begun. The validator of a compressed text is above the decompressor. */
  ghost function ReadOne(
    cfg: Config, readers: Readers, transport: Transport, s: State, opcode: nat, past: seq<seq<byte>>): Delivery
    requires Fair(cfg, transport)
  {
    if !s.compressed then
      if readers.validates && opcode == TEXT then ReadText(cfg, transport, s, Utf8.ACCEPT)
      else ReadAll(cfg, transport, s)
    else
      var d := ReadAll(cfg, transport, s);
      if d.error.Some? then Delivery(d.state, [], d.error)
      else
        match readers.decode(past + [d.data])
        case None => Delivery(d.state, [], Some(Corrupt))
        case Some(data) =>
          if readers.validates && opcode == TEXT && !Utf8.Valid(data)
          then Delivery(Rejected(d.state), [], Some(InvalidText))
          else Delivery(d.state, data, None)
  }

  function Past(past: seq<seq<byte>>, compressed: bool, payload: seq<byte>): seq<seq<byte>> {
    if compressed then past + [payload] else past
  }

  datatype Reception = Reception(state: State, messages: seq<Message>, error: Option<ReadError>)

  /** NextReader and io.ReadAll, n times over or until an error. */
  ghost function ReadMessages(
    cfg: Config, readers: Readers, transport: Transport, s: State, past: seq<seq<byte>>, n: nat): Reception
    requires Fair(cfg, transport)
    decreases n
  {
    if n == 0 then Reception(s, [], None)
    else
      var (s1, o) := NextReader(cfg, s);
      if o.Refused? then Reception(s1, [], Some(o.error))
      else
        var d := ReadOne(cfg, readers, transport, s1, o.opcode, past);
        if d.error.Some? then Reception(d.state, [], d.error)
        else
          var past' := Past(past, s1.compressed, ReadAll(cfg, transport, s1).data);
          var r := ReadMessages(cfg, readers, transport, d.state, past', n - 1);
          Reception(r.state, [Message(o.opcode, s1.compressed, d.data)] + r.messages, r.error)
  }

  // ----- what the messages on the wire come to -----

  /** The message that the application gets for the message w on the wire, unless its readers refuse it. */
  function Make(readers: Readers, past: seq<seq<byte>>, w: Message): (m: Option<Message>)
    ensures m.Some? ==> m.value.opcode == w.opcode && m.value.compressed == w.compressed
    ensures m.Some? && readers.validates && w.opcode == TEXT ==> Utf8.Valid(m.value.payload)
  {
    var data := if w.compressed then readers.decode(past + [w.payload]) else Some(w.payload);
    if data == None || (readers.validates && w.opcode == TEXT && !Utf8.Valid(data.value)) then None
    else Some(w.(payload := data.value))
  }

  /** The messages up to the first that is refused. */
  function Understood(readers: Readers, past: seq<seq<byte>>, ws: seq<Message>): (ms: seq<Message>)
    ensures |ms| <= |ws|
    decreases |ws|
  {
    if ws == [] then []
    else
      match Make(readers, past, ws[0])
      case None => []
      case Some(m) => [m] + Understood(readers, Past(past, ws[0].compressed, ws[0].payload), ws[1..])
  }

  predicate AllUnderstood(readers: Readers, past: seq<seq<byte>>, ws: seq<Message>) {
    |Understood(readers, past, ws)| == |ws|
  }

  /** Without compression valid texts, and all else, are understood as they are. */
  lemma {:induction false} PlainUnderstood(readers: Readers, past: seq<seq<byte>>, ws: seq<Message>)
    requires forall w :: w in ws ==> !w.compressed
    ensures AllUnderstood(readers, past, ws) <==>
            (readers.validates ==> forall w :: w in ws && w.opcode == TEXT ==> Utf8.Valid(w.payload))
    ensures Understood(readers, past, ws) <= ws
    decreases |ws|
  {
    hide Utf8.Valid;
    if ws != [] {
      PlainUnderstood(readers, Past(past, ws[0].compressed, ws[0].payload), ws[1..]);
      assert forall w :: w in ws <==> w == ws[0] || w in ws[1..];
    }
  }

  predicate Conversation(cfg: Config, segments: seq<seq<Frame>>) {
    forall i :: 0 <= i < |segments| ==>
      && Segment(cfg, segments[i]) && AllEncodable(segments[i]) && DataFrames(segments[i]) != []
      && WithinLimit(cfg, |Carried(segments[i])|)
  }

  /** The messages as they are on the wire. */
  function Messages(cfg: Config, segments: seq<seq<Frame>>): (ms: seq<Message>)
    requires Conversation(cfg, segments)
    ensures |ms| == |segments|
  {
    if segments == [] then [] else [MessageOf(segments[0])] + Messages(cfg, segments[1..])
  }

  function Events(segments: seq<seq<Frame>>): seq<Event> {
    if segments == [] then [] else ControlEvents(segments[0]) + Events(segments[1..])
  }

  function Wire(cfg: Config, segments: seq<seq<Frame>>): seq<byte>
    requires Conversation(cfg, segments)
  {
    if segments == [] then [] else EncodeAll(segments[0]) + Wire(cfg, segments[1..])
  }

  lemma WireNotEmpty(cfg: Config, segments: seq<seq<Frame>>)
    requires segments != [] && Conversation(cfg, segments)
    ensures Wire(cfg, segments) != []
  {
    FirstFrame(segments[0], []);
    assert |Encode(segments[0][0])| >= 2;
  }

  // ----- one message -----

  /** The result of reading a message to its end, above all the readers. */
  predicate Made(cfg: Config, d: Delivery, data: seq<byte>, rest: seq<byte>, events: seq<Event>) {
    && BetweenMessages(d.state, rest) && d.state.events == events
    && if d.error == None then d.data == data else rest == [] && cfg.end != EOF && d.error == Some(cfg.end)
  }

  lemma MessageMade(cfg: Config, readers: Readers, transport: Transport, s: State, p: seq<byte>, fs: seq<Frame>,
                    rest: seq<byte>, past: seq<seq<byte>>, w: Message)
    requires Fair(cfg, transport) && InMessage(cfg, s, p, fs, rest)
    requires w.compressed == s.compressed && w.payload == p + Carried(fs)
    requires Make(readers, past, w).Some?
    ensures Made(cfg, ReadOne(cfg, readers, transport, s, w.opcode, past), Make(readers, past, w).value.payload,
                 rest, s.events + ControlEvents(fs))
    ensures ReadAll(cfg, transport, s).data == w.payload
    ensures ReadOne(cfg, readers, transport, s, w.opcode, past).error == ReadAll(cfg, transport, s).error
  {
    hide InMessage, ReadAll, ReadText, ControlEvents, Carried, Utf8.Valid, Utf8.Viable, Utf8.Final;
    ReadAllInMessage(cfg, transport, s, p, fs, rest);
    if !w.compressed && readers.validates && w.opcode == TEXT {
      NothingYet();
      assert [] + w.payload == w.payload;
      TextAgrees(cfg, transport, s, []);
    }
  }

  /** A message that the readers refuse ends in an error, if no read goes past the bufio reader's buffer. */
  lemma MessageRefused(cfg: Config, readers: Readers, transport: Transport, s: State, p: seq<byte>, fs: seq<Frame>,
                       rest: seq<byte>, past: seq<seq<byte>>, w: Message, size: nat)
    requires Fair(cfg, transport) && AtMost(transport, size) && size < cfg.bufSize
    requires InMessage(cfg, s, p, fs, rest)
    requires w.compressed == s.compressed && w.payload == p + Carried(fs)
    requires Make(readers, past, w) == None
    ensures ReadOne(cfg, readers, transport, s, w.opcode, past).error.Some?
  {
    hide ReadAll, ReadText, ControlEvents, Carried, EndsWithEof, Completes, EncodeAll;
    hide Utf8.Valid, Utf8.Viable, Utf8.Final;
    ReadAllInMessage(cfg, transport, s, p, fs, rest);
    if !w.compressed {
      NothingYet();
      assert [] + w.payload == w.payload;
      TextOfAnyStream(cfg, transport, s, []);
      ShortReadsEndAlone(cfg, transport, s, size, true);
      ShortReadsEndAlone(cfg, transport, s, size, false);
    }
  }

  /** What ends in an error below ends in one above. */
  lemma ErrorAbove(cfg: Config, readers: Readers, transport: Transport, s: State, opcode: nat, past: seq<seq<byte>>)
    requires Fair(cfg, transport) && s.open && s.error == None && ReadAll(cfg, transport, s).error.Some?
    ensures ReadOne(cfg, readers, transport, s, opcode, past).error.Some?
  {
    hide ReadAll, ReadText, EndsWithEof, Utf8.Valid, Utf8.Viable, Utf8.Final;
    NothingYet();
    TextOfAnyStream(cfg, transport, s, []);
  }

  // ----- a conversation -----

  /**
   All the messages arrive. But when nothing follows the last of them, and the stream does not end with io.EOF, the
   read of its last octets may report that end: io.ReadAll then returns an error instead of the message.
   */
  predicate Received(cfg: Config, r: Reception, ms: seq<Message>, rest: seq<byte>) {
    || (r.messages == ms && r.error == None)
    || (rest == [] && cfg.end != EOF && ms != [] && r.messages == ms[..|ms| - 1] && r.error == Some(cfg.end))
  }

  /**
   The round trip. The encodings of any messages, fragmented in any way and interleaved with any pings and
   pongs, are read back as the same messages in the same order whatever the transport's reads are, and the
   handlers see the same control payloads; texts must be valid where they are validated, and what is compressed
   must be decodable.
   */
  lemma {:induction false} StreamRoundTrip(cfg: Config, readers: Readers, transport: Transport, s: State,
                                           past: seq<seq<byte>>, segments: seq<seq<Frame>>, rest: seq<byte>)
    requires Fair(cfg, transport) && Conversation(cfg, segments)
    requires AllUnderstood(readers, past, Messages(cfg, segments))
    requires BetweenMessages(s, Wire(cfg, segments) + rest)
    ensures var r := ReadMessages(cfg, readers, transport, s, past, |segments|);
            && Received(cfg, r, Understood(readers, past, Messages(cfg, segments)), rest)
            && BetweenMessages(r.state, rest) && r.state.events == s.events + Events(segments)
    decreases |segments|
  {
    hide SeekMessage, ReadOne, ReadAll, Segment, MessageOf, EncodeAll, ControlEvents, Make, Carried;
    if segments == [] {
      assert Wire(cfg, segments) + rest == rest;
    } else {
      var fs, after := segments[0], Wire(cfg, segments[1..]) + rest;
      var w := MessageOf(fs);
      var s1, p, gs := FirstMessage(cfg, s, segments, rest);
      MessageMade(cfg, readers, transport, s1, p, gs, after, past, w);
      var d := ReadOne(cfg, readers, transport, s1, w.opcode, past);
      ConcatAssociative(s.events, ControlEvents(fs), Events(segments[1..]));
      if d.error.Some? {
        LastSegment(cfg, segments, rest);
      } else {
        var past' := Past(past, w.compressed, w.payload);
        StreamRoundTrip(cfg, readers, transport, d.state, past', segments[1..], rest);
        ReceivedAfter(cfg, ReadMessages(cfg, readers, transport, d.state, past', |segments| - 1),
                      Make(readers, past, w).value, Understood(readers, past', Messages(cfg, segments[1..])), rest);
      }
    }
  }

  /** NextReader on the first message of a conversation. */
  lemma FirstMessage(cfg: Config, s: State, segments: seq<seq<Frame>>, rest: seq<byte>)
    returns (s': State, p: seq<byte>, gs: seq<Frame>)
    requires Conversation(cfg, segments) && segments != []
    requires BetweenMessages(s, Wire(cfg, segments) + rest)
    ensures var fs, after := segments[0], Wire(cfg, segments[1..]) + rest;
            && NextReader(cfg, s) == (s', Accepted(MessageOf(fs).opcode)) && s'.compressed == MessageOf(fs).compressed
            && InMessage(cfg, s', p, gs, after) && p + Carried(gs) == MessageOf(fs).payload
            && s'.events + ControlEvents(gs) == s.events + ControlEvents(fs)
  {
    hide SeekMessage, Segment, MessageOf, EncodeAll, ControlEvents, Carried;
    WireNotEmpty(cfg, segments);
    ConcatAssociative(EncodeAll(segments[0]), Wire(cfg, segments[1..]), rest);
    s', p, gs := SeekBeforeMessage(cfg, s.(open := false, length := 0), segments[0], Wire(cfg, segments[1..]) + rest);
  }

  lemma LastSegment(cfg: Config, segments: seq<seq<Frame>>, rest: seq<byte>)
    requires segments != [] && Conversation(cfg, segments) && Wire(cfg, segments[1..]) + rest == []
    ensures segments[1..] == [] && rest == [] && |segments| == 1
    ensures Events(segments) == ControlEvents(segments[0])
  {
    hide Segment, MessageOf, EncodeAll, ControlEvents;
    if segments[1..] != [] {
      WireNotEmpty(cfg, segments[1..]);
    }
  }

  lemma ReceivedAfter(cfg: Config, r: Reception, m: Message, ms: seq<Message>, rest: seq<byte>)
    requires Received(cfg, r, ms, rest)
    ensures Received(cfg, r.(messages := [m] + r.messages), [m] + ms, rest)
  {
    if ms != [] {
      assert ([m] + ms)[..|ms|] == [m] + ms[..|ms| - 1];
    }
  }

  /**
   The other half: when a message is not understood, an invalid text perhaps, those before it arrive and then there
   is an error. (Longer reads can pass off such a message; see TextStreams.)
   */
  lemma {:induction false} StreamRefused(cfg: Config, readers: Readers, transport: Transport, s: State,
                                         past: seq<seq<byte>>, segments: seq<seq<Frame>>, rest: seq<byte>, size: nat)
    requires Fair(cfg, transport) && AtMost(transport, size) && size < cfg.bufSize && Conversation(cfg, segments)
    requires !AllUnderstood(readers, past, Messages(cfg, segments))
    requires BetweenMessages(s, Wire(cfg, segments) + rest)
    ensures var r := ReadMessages(cfg, readers, transport, s, past, |segments|);
            r.messages == Understood(readers, past, Messages(cfg, segments)) && r.error.Some?
    decreases |segments|
  {
    hide SeekMessage, ReadOne, ReadAll, Segment, MessageOf, EncodeAll, ControlEvents, Make, Carried;
    var fs, after := segments[0], Wire(cfg, segments[1..]) + rest;
    var w := MessageOf(fs);
    var s1, p, gs := FirstMessage(cfg, s, segments, rest);
    if Make(readers, past, w) == None {
      MessageRefused(cfg, readers, transport, s1, p, gs, after, past, w, size);
    } else {
      MessageMade(cfg, readers, transport, s1, p, gs, after, past, w);
      var d := ReadOne(cfg, readers, transport, s1, w.opcode, past);
      if after == [] {
        LastSegment(cfg, segments, rest);
      }
      StreamRefused(cfg, readers, transport, d.state, Past(past, w.compressed, w.payload), segments[1..], rest, size);
    }
  }

  // ----- a conversation cut short -----

  /** A segment cut short: NextReader fails, or the message it begins cannot be read to its end. */
  lemma {:induction false} CutSegment(cfg: Config, s: State, fs: seq<Frame>, lost: seq<byte>)
    returns (s': State, p: seq<byte>, gs: seq<Frame>)
    requires s.error == None && lost != [] && BeforeMessage(cfg, Longer(s, lost), fs, [])
    ensures SeekMessage(cfg, s).1.Accepted? ==>
              s' == SeekMessage(cfg, s).0 && InMessage(cfg, Longer(s', lost), p, gs, [])
    decreases |fs|
  {
    hide AdvanceFrame, EncodeAll, InMessage;
    s', p, gs := s, [], [];
    var (s1, o) := AdvanceFrame(cfg, s);
    if o.Accepted? {
      AdvanceExtends(cfg, s, lost);
      if IsControl(fs[0].opcode) {
        var l := ControlBeforeMessage(cfg, Longer(s, lost), fs, []);
        s', p, gs := CutSegment(cfg, s1, fs[1..], lost);
      } else {
        var l := FirstFragment(cfg, Longer(s, lost), fs, []);
        s', p, gs := s1.(open := true), fs[0].payload, fs[1..];
        assert l.(open := true) == Longer(s', lost);
      }
    }
  }

  /** Short reads to the end of a message get no error, whatever the stream ends in. */
  lemma {:induction false} ShortReadsSucceed(
    cfg: Config, transport: Transport, s: State, p: seq<byte>, fs: seq<Frame>, rest: seq<byte>, size: nat)
    requires Fair(cfg, transport) && AtMost(transport, size) && size < cfg.bufSize && InMessage(cfg, s, p, fs, rest)
    ensures ReadAll(cfg, transport, s).error == None
    decreases |s.input|
  {
    hide SeekPayload, EncodeAll, Completes, DataFrames, Payloads, ControlEvents;
    var t := SeekPayload(cfg, s);
    var q, gs := SeekInMessage(cfg, s, p, fs, rest);
    if t.remaining > 0 {
      var g := transport(t);
      if g.error.Some? {
        ReadEnds(cfg, t, q, gs, rest, g);
      } else {
        ReadContinues(cfg, t, q, gs, rest, g);
        ShortReadsSucceed(cfg, transport, ReadHere(cfg, t, g).state, q[g.n..], gs, rest, size);
      }
    }
  }

  lemma FirstCut(cfg: Config, readers: Readers, transport: Transport, s: State, past: seq<seq<byte>>,
                 segments: seq<seq<Frame>>, there: seq<byte>, size: nat)
    requires Fair(cfg, transport) && AtMost(transport, size) && size < cfg.bufSize && Conversation(cfg, segments)
    requires segments != [] && there < EncodeAll(segments[0]) && BetweenMessages(s, there)
    ensures var r := ReadMessages(cfg, readers, transport, s, past, |segments|); r.messages == [] && r.error.Some?
  {
    hide SeekMessage, ReadOne, ReadAll, Segment, EncodeAll, Carried, InMessage;
    if s.error.Some? {
      Latched(cfg, s);
    } else {
      var fs := segments[0];
      var lost := EncodeAll(fs)[|there|..];
      var s0 := s.(open := false, length := 0);
      assert Longer(s0, lost).input == EncodeAll(fs) + [];
      var s1, p, gs := CutSegment(cfg, s0, fs, lost);
      var (s', o) := NextReader(cfg, s);
      if o.Accepted? {
        CutShort(cfg, transport, s1, p, gs, lost, size);
        StillReading(cfg, s1, p, gs, lost);
        ErrorAbove(cfg, readers, transport, s1, o.opcode, past);
      }
    }
  }

  /** The first message is there in full. */
  lemma FirstThere(cfg: Config, readers: Readers, transport: Transport, s: State, past: seq<seq<byte>>,
                   segments: seq<seq<Frame>>, after: seq<byte>, size: nat) returns (d: Delivery)
    requires Fair(cfg, transport) && AtMost(transport, size) && size < cfg.bufSize && Conversation(cfg, segments)
    requires segments != [] && BetweenMessages(s, EncodeAll(segments[0]) + after)
    requires Make(readers, past, MessageOf(segments[0])).Some?
    ensures BetweenMessages(d.state, after)
    ensures var w := MessageOf(segments[0]);
            var past' := Past(past, w.compressed, w.payload);
            var r := ReadMessages(cfg, readers, transport, d.state, past', |segments| - 1);
            ReadMessages(cfg, readers, transport, s, past, |segments|) ==
            Reception(r.state, [Make(readers, past, w).value] + r.messages, r.error)
  {
    hide SeekMessage, ReadOne, ReadAll, Segment, MessageOf, EncodeAll, ControlEvents, Make, Carried, InMessage;
    var w := MessageOf(segments[0]);
    EncodingNotEmpty(cfg, segments);
    var s1, p, gs := SeekBeforeMessage(cfg, s.(open := false, length := 0), segments[0], after);
    MessageMade(cfg, readers, transport, s1, p, gs, after, past, w);
    ShortReadsSucceed(cfg, transport, s1, p, gs, after, size);
    d := ReadOne(cfg, readers, transport, s1, w.opcode, past);
  }

  lemma EncodingNotEmpty(cfg: Config, segments: seq<seq<Frame>>)
    requires segments != [] && Conversation(cfg, segments)
    ensures EncodeAll(segments[0]) != []
  {
    FirstFrame(segments[0], []);
    assert |Encode(segments[0][0])| >= 2;
  }

  lemma WireOfPrefix(cfg: Config, segments: seq<seq<Frame>>, j: nat)
    requires Conversation(cfg, segments) && j < |segments|
    ensures Wire(cfg, segments[..j + 1]) == EncodeAll(segments[0]) + Wire(cfg, segments[1..][..j])
  {
    hide Segment, EncodeAll, Carried;
    assert segments[..j + 1][1..] == segments[1..][..j];
  }

  lemma Latched(cfg: Config, s: State)
    requires s.error.Some?
    ensures NextReader(cfg, s).1.Refused?
  {
  }

  lemma StillReading(cfg: Config, s: State, p: seq<byte>, fs: seq<Frame>, lost: seq<byte>)
    requires InMessage(cfg, Longer(s, lost), p, fs, [])
    ensures s.open && s.error == None
  {
  }

  /**
   A conversation cut short at any octet, read with short reads: the messages that are there in full arrive, all k of
   them, and then there is an error.
   */
  lemma {:induction false} ConversationCut(cfg: Config, readers: Readers, transport: Transport, s: State,
                                           past: seq<seq<byte>>, segments: seq<seq<Frame>>, there: seq<byte>, size: nat)
    returns (k: nat)
    requires Fair(cfg, transport) && AtMost(transport, size) && size < cfg.bufSize && Conversation(cfg, segments)
    requires AllUnderstood(readers, past, Messages(cfg, segments))
    requires there < Wire(cfg, segments) && BetweenMessages(s, there)
    ensures k < |segments| && Wire(cfg, segments[..k]) <= there && |there| < |Wire(cfg, segments[..k + 1])|
    ensures var r := ReadMessages(cfg, readers, transport, s, past, |segments|);
            r.messages == Understood(readers, past, Messages(cfg, segments))[..k] && r.error.Some?
    decreases |segments|
  {
    hide SeekMessage, ReadOne, ReadAll, Segment, MessageOf, EncodeAll, ControlEvents, Make, Carried, InMessage;
    var fs, n := segments[0], |EncodeAll(segments[0])|;
    var w := MessageOf(fs);
    assert segments[..1] == [fs] && segments[..1][1..] == [];
    if |there| < n {
      k := 0;
      FirstCut(cfg, readers, transport, s, past, segments, there, size);
    } else {
      var after := there[n..];
      assert there == EncodeAll(fs) + after;
      var d := FirstThere(cfg, readers, transport, s, past, segments, after, size);
      var past' := Past(past, w.compressed, w.payload);
      var j := ConversationCut(cfg, readers, transport, d.state, past', segments[1..], after, size);
      k := j + 1;
      WireOfPrefix(cfg, segments, j);
      WireOfPrefix(cfg, segments, j + 1);
    }
  }
}
