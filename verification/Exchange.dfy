/** From the calls made on one connection to what the application at the other end reads. */
module Exchange {
  import opened Bytes
  import opened Frames
  import opened Reading
  import opened FrameRoundTrip
  import opened MessageRoundTrip
  import opened Conversations
  import opened Transmission
  import opened Sending
  import Utf8
  import Writer = FrameWriter

  /** The messages as the application gives them, and as they are on the wire. */
  function AllGiven(compressing: bool, items: seq<Item>): seq<Message> {
    if items == [] then [] else [MessageGiven(compressing, items[0].sending)] + AllGiven(compressing, items[1..])
  }

  function AllSent(compressing: bool, items: seq<Item>): (ms: seq<Message>)
    ensures |ms| == |items|
  {
    if items == [] then [] else [MessageSent(compressing, items[0].sending)] + AllSent(compressing, items[1..])
  }

  function AllEvents(items: seq<Item>): seq<Event> {
    if items == [] then [] else EventsSent(items[0]) + AllEvents(items[1..])
  }

  // ----- the other end -----

  /** The decompressor undoes what the compressor did, given what both had before. */
  predicate Undoes(readers: Readers, past: seq<seq<byte>>, items: seq<Item>)
    decreases |items|
  {
    items != [] ==>
      var sent := MessageSent(true, items[0].sending).payload;
      && readers.decode(past + [sent]) == Some(MessageGiven(true, items[0].sending).payload)
      && Undoes(readers, past + [sent], items[1..])
  }

  /** The peer of a connection that masks or does not, and whose handlers accept what is sent to them. */
  predicate Peer(cfg: Config, readers: Readers, masks: bool, compressing: bool, items: seq<Item>) {
    && cfg.isServer == masks && (compressing ==> cfg.inflates && Undoes(readers, [], items))
    && forall item :: item in items ==>
         && (forall e :: e in EventsSent(item) ==> cfg.accepts(e))
         && WithinLimit(cfg, |MessageSent(compressing, item.sending).payload|)
  }

  /** Its readers make of what was sent what was given. */
  lemma {:induction false} ItemsUnderstood(
    readers: Readers, compressing: bool, past: seq<seq<byte>>, items: seq<Item>)
    requires compressing ==> Undoes(readers, past, items)
    requires readers.validates ==> TextsValid(compressing, items)
    ensures Understood(readers, past, AllSent(compressing, items)) == AllGiven(compressing, items)
    ensures |AllGiven(compressing, items)| == |items|
    decreases |items|
  {
    hide Utf8.Valid, MessageSent, MessageGiven;
    if items != [] {
      var s := items[0].sending;
      SameKind(compressing, s);
      if !compressing {
        SentUncompressed(s);
      }
      var w := MessageSent(compressing, s);
      assert Make(readers, past, w) == Some(MessageGiven(compressing, s));
      ItemsUnderstood(readers, compressing, Past(past, w.compressed, w.payload), items[1..]);
    }
  }

  lemma SameKind(compressing: bool, s: Sending)
    ensures MessageSent(compressing, s).opcode == MessageGiven(compressing, s).opcode == s.opcode
    ensures MessageSent(compressing, s).compressed == MessageGiven(compressing, s).compressed == compressing
  {
  }

  lemma {:induction false} EventOfFrame(ws: seq<Frame>, f: Frame)
    requires f in ws && IsControl(f.opcode)
    ensures ControlEvent(f) in ControlEvents(ws)
  {
    if ws[0] != f {
      EventOfFrame(ws[1..], f);
    }
  }

  lemma ConveyedIsCarried(cfg: Config, masks: bool, ws: seq<Frame>, m: Message, events: seq<Event>)
    requires Conveys(masks, ws, m, events) && IsData(m.opcode)
    requires cfg.isServer == masks && (m.compressed ==> cfg.inflates) && forall e :: e in events ==> cfg.accepts(e)
    requires forall f :: f in ws ==> f.opcode != CLOSE
    ensures Carries(cfg, ws, m)
  {
    hide DataFrames, Payloads, ControlEvents, WholeMessage;
    forall f | f in ws
      ensures if IsControl(f.opcode) then GoodControl(cfg, f) else Fits(cfg, f)
    {
      if IsControl(f.opcode) {
        EventOfFrame(ws, f);
      } else {
        DataFrameIn(ws, f);
        CompressedFrame(m.opcode, m.compressed, DataFrames(ws), f);
      }
    }
  }

  lemma {:induction false} DataFrameIn(ws: seq<Frame>, f: Frame)
    requires f in ws && !IsControl(f.opcode)
    ensures f in DataFrames(ws)
  {
    if ws[0] != f {
      DataFrameIn(ws[1..], f);
    }
  }

  lemma CompressedFrame(opcode: nat, rsv1: bool, fs: seq<Frame>, f: Frame)
    requires WholeMessage(opcode, rsv1, fs) && f in fs
    ensures f.rsv1 ==> rsv1
  {
    var i :| 0 <= i < |fs| && fs[i] == f;
    if i < |fs| - 1 {
      assert fs[i] == fs[..|fs| - 1][i];
    }
  }

  lemma {:induction false} StreamEvents(masks: bool, compressing: bool, streams: seq<seq<Frame>>, items: seq<Item>)
    requires AllConvey(masks, compressing, streams, items)
    ensures Events(streams) == AllEvents(items)
  {
    hide DataFrames, Payloads, ControlEvents, WholeMessage, MessageSent, EventsSent;
    if items != [] {
      StreamEvents(masks, compressing, streams[1..], items[1..]);
    }
  }

  lemma {:induction false} SentAt(compressing: bool, items: seq<Item>, i: nat)
    requires i < |items|
    ensures AllSent(compressing, items)[i] == MessageSent(compressing, items[i].sending)
  {
    hide MessageSent;
    if i > 0 {
      SentAt(compressing, items[1..], i - 1);
    }
  }

  lemma {:induction false} InConcat(streams: seq<seq<Frame>>, i: nat, f: Frame)
    requires i < |streams| && f in streams[i]
    ensures f in Concat(streams)
  {
    if i > 0 {
      InConcat(streams[1..], i - 1, f);
    }
  }

  /** The frames of the items, and anything after them, give the peer the messages and events of the items. */
  lemma ItemsArrive(cfg: Config, readers: Readers, transport: Transport, s: State, masks: bool, compressing: bool,
                    streams: seq<seq<Frame>>, items: seq<Item>, rest: seq<byte>)
    requires Fair(cfg, transport) && Peer(cfg, readers, masks, compressing, items)
    requires readers.validates ==> TextsValid(compressing, items)
    requires forall item :: item in items ==> IsData(item.sending.opcode)
    requires AllConvey(masks, compressing, streams, items) && AllEncodable(Concat(streams))
    requires forall f :: f in Concat(streams) ==> f.opcode != CLOSE
    requires BetweenMessages(s, EncodeAll(Concat(streams)) + rest)
    ensures var r := ReadMessages(cfg, readers, transport, s, [], |items|);
            && Received(cfg, r, AllGiven(compressing, items), rest)
            && r.state.events == s.events + AllEvents(items)
  {
    hide Conveys, Carries, ReadMessages, EncodeAll, EventsSent, Fair, Received, BetweenMessages;
    hide MessageSent, MessageGiven, Undoes, TextsValid, Understood;
    var ws := AllSent(compressing, items);
    forall i | 0 <= i < |items|
      ensures Carries(cfg, streams[i], ws[i]) && WithinLimit(cfg, |ws[i].payload|)
    {
      forall f | f in streams[i]
        ensures f.opcode != CLOSE
      {
        InConcat(streams, i, f);
      }
      assert items[i] in items;
      SentAt(compressing, items, i);
      SameKind(compressing, items[i].sending);
      ConveyedIsCarried(cfg, masks, streams[i], ws[i], EventsSent(items[i]));
    }
    ItemsUnderstood(readers, compressing, [], items);
    CarriedConversation(cfg, streams, ws);
    WireIsEncoding(cfg, streams);
    StreamEvents(masks, compressing, streams, items);
    WrittenIsRead(cfg, readers, transport, s, [], streams, ws, rest);
  }

  /**
   The whole way, between two new connections: any data messages, each after any control messages, and any control
   messages in the end, a Close perhaps. When all were sent without an error, every peer of the opposite role reads
   from the wire, over every transport, exactly the messages that were given, in order and with their types, and its
   handlers see exactly the control frames sent before and within them. A peer that validates texts needs a sender
   that does so too, as both do by default, or texts that are valid. The octets of the last control messages are rest.
   */
  method Transfer(isServer: bool, disableMask: bool, compressing: bool, skipUTF8: bool, pooled: bool,
                  writeBufferSize: int, writeFrameSize: nat, network: nat -> Option<nat>,
                  items: seq<Item>, last: seq<Between>)
    returns (c: Writer.Conn, e: Option<Writer.WriteError>, ghost rest: seq<byte>)
    requires writeBufferSize < Writer.MAX_SLICE - Writer.HEADER_SIZE
    requires (forall item :: item in items ==> SendableItem(item)) && forall b :: b in last ==> SendableControl(b)
    ensures e == None ==>
      && (rest == [] <==> last == [])
      && forall cfg, readers, transport ::
           && Fair(cfg, transport) && Peer(cfg, readers, !isServer && !disableMask, compressing, items)
           && (readers.validates ==> !skipUTF8 || TextsValid(compressing, items)) ==>
           var r := ReadMessages(cfg, readers, transport, NewState(c.wire), [], |items|);
           && Received(cfg, r, AllGiven(compressing, items), rest)
           && r.state.events == AllEvents(items)
    ensures c.isServer == isServer && c.disableMask == disableMask && c.compressing == compressing
    ensures c.skipUTF8 == skipUTF8 && c.pooled == pooled && c.writeFrameSize == writeFrameSize && c.network == network
    ensures !pooled ==>
      && c.writeBuf != null
      && c.writeBuf.Length == Writer.HEADER_SIZE + if writeBufferSize <= 0 then 4096 else writeBufferSize
    ensures c.Reliable() && (forall item :: item in items ==> ItemGoes(c, item)) && AllGo(c, last) ==> e == None
  {
    hide Conveys, EncodeAll, MessageSent, MessageGiven, EventsSent, ReadMessages, Fair, Peer, Received, AllGiven;
    hide AllEvents, Sendable, SendableControl, TextsValid, Wrote;
    rest := [];
    c := new Writer.Conn(isServer, disableMask, compressing, skipUTF8, pooled, writeBufferSize, null, writeFrameSize,
                         network);
    ghost var streams, ws;
    e, streams := SendAll(c, items);
    if e.Some? {
      return;
    }
    ghost var front := c.log;
    assert front == Concat(streams);
    assert c.writeErr == None && forall f :: f in front ==> f.opcode != CLOSE;
    e, ws := SendControls(c, last);
    if e == None {
      rest := RestOf(c.wire, c.log, front, ws);
      assert c.tail == [] && c.wire == EncodeAll(c.log) + [];
      forall cfg, readers, transport |
        && Fair(cfg, transport) && Peer(cfg, readers, !isServer && !disableMask, compressing, items)
        && (readers.validates ==> !skipUTF8 || TextsValid(compressing, items))
        ensures var r := ReadMessages(cfg, readers, transport, NewState(c.wire), [], |items|);
                && Received(cfg, r, AllGiven(compressing, items), rest)
                && r.state.events == AllEvents(items)
      {
        DataItems(items);
        ItemsArrive(cfg, readers, transport, NewState(c.wire), c.Masks(), compressing, streams, items, rest);
        assert [] + AllEvents(items) == AllEvents(items);
      }
    }
  }

  lemma DataItems(items: seq<Item>)
    requires forall item :: item in items ==> SendableItem(item)
    ensures forall item :: item in items ==> IsData(item.sending.opcode)
  {
  }

  lemma RestOf(wire: seq<byte>, log: seq<Frame>, front: seq<Frame>, ws: seq<Frame>) returns (rest: seq<byte>)
    requires AllEncodable(log) && log == front + ws && wire == EncodeAll(log)
    ensures AllEncodable(front) && wire == EncodeAll(front) + rest && (rest == [] <==> ws == [])
  {
    hide Encode;
    assert forall f :: f in front ==> f in log;
    assert forall f :: f in ws ==> f in log;
    EncodeAllConcat(front, ws);
    rest := EncodeAll(ws);
    if ws != [] {
      FrameNotEmpty(ws[0]);
    }
  }

  lemma FrameNotEmpty(f: Frame)
    requires f.Encodable()
    ensures Encode(f) != []
  {
  }
}
