/**
 Whatever the interleaving of the callers, the peer reads the finished messages, in the order in which their
 callers held the outer mutex.
 */
module ProtocolDelivery {
  import opened Bytes
  import opened Frames
  import opened Reading
  import opened FrameRoundTrip
  import opened MessageRoundTrip
  import opened Conversations
  import opened Transmission
  import opened Completion
  import Protocol = WriteProtocol

  /** The shortest prefix of the log that holds the data frames ds. */
  lemma {:induction false} TakeData(log: seq<Frame>, ds: seq<Frame>, more: seq<Frame>) returns (k: nat)
    requires DataFrames(log) == ds + more && ds != []
    ensures 0 < k <= |log| && DataFrames(log[..k]) == ds && !IsControl(log[k - 1].opcode)
    ensures DataFrames(log[k..]) == more
    decreases |log|
  {
    var f, rest := log[0], log[1..];
    var j: nat;
    if IsControl(f.opcode) {
      j := TakeData(rest, ds, more);
    } else {
      assert DataFrames(log)[0] == f && DataFrames(log)[1..] == DataFrames(rest);
      assert (ds + more)[1..] == ds[1..] + more;
      if ds[1..] == [] {
        assert ds[1..] + more == more;
        j := 0;
      } else {
        j := TakeData(rest, ds[1..], more);
      }
    }
    k := j + 1;
    assert log[..k] == [f] + rest[..j] && log[k..] == rest[j..];
    assert log[..k][1..] == rest[..j];
    if !IsControl(f.opcode) {
      assert ds == [f] + ds[1..];
    }
  }

  /** The log cut after each message's last frame. */
  predicate Cut(log: seq<Frame>, messages: seq<seq<Frame>>, streams: seq<seq<Frame>>, rest: seq<Frame>) {
    && log == Concat(streams) + rest && |streams| == |messages|
    && forall i :: 0 <= i < |streams| ==>
         && DataFrames(streams[i]) == messages[i]
         && streams[i] != [] && !IsControl(streams[i][|streams[i]| - 1].opcode)
  }

  lemma {:induction false} CutLog(log: seq<Frame>, messages: seq<seq<Frame>>, partial: seq<Frame>)
    returns (streams: seq<seq<Frame>>, rest: seq<Frame>)
    requires DataFrames(log) == Concat(messages) + partial
    requires forall i :: 0 <= i < |messages| ==> messages[i] != []
    ensures Cut(log, messages, streams, rest) && DataFrames(rest) == partial
    decreases |messages|
  {
    hide DataFrames, Cut;
    if messages == [] {
      EmptyCut(log);
      streams, rest := [], log;
      assert Concat(messages) + partial == partial && Concat(streams) + rest == rest;
    } else {
      ConcatAssociative(messages[0], Concat(messages[1..]), partial);
      var k := TakeData(log, messages[0], Concat(messages[1..]) + partial);
      var ss, r := CutLog(log[k..], messages[1..], partial);
      streams, rest := [log[..k]] + ss, r;
      CutPrepend(log, k, messages, ss, rest);
    }
  }

  lemma EmptyCut(log: seq<Frame>)
    ensures Cut(log, [], [], log)
  {
    assert Concat<Frame>([]) + log == log;
  }

  lemma CutPrepend(log: seq<Frame>, k: nat, messages: seq<seq<Frame>>, ss: seq<seq<Frame>>, rest: seq<Frame>)
    requires 0 < k <= |log| && messages != [] && Cut(log[k..], messages[1..], ss, rest)
    requires DataFrames(log[..k]) == messages[0] && !IsControl(log[k - 1].opcode)
    ensures Cut(log, messages, [log[..k]] + ss, rest)
  {
    hide DataFrames;
    var streams := [log[..k]] + ss;
    assert log == log[..k] + log[k..] && streams[1..] == ss;
    ConcatAssociative(log[..k], Concat(ss), rest);
    forall i | 0 <= i < |streams|
      ensures DataFrames(streams[i]) == messages[i]
      ensures streams[i] != [] && !IsControl(streams[i][|streams[i]| - 1].opcode)
    {
      if i > 0 {
        assert streams[i] == ss[i - 1] && messages[i] == messages[1..][i - 1];
      }
    }
  }

  function MessagesIn(messages: seq<seq<Frame>>): seq<Message> {
    seq(|messages|, i requires 0 <= i < |messages| => MessageIn(messages[i]))
  }

  /** The messages of the calls. */
  function SaidBy(calls: seq<Protocol.Call>): seq<Message> {
    seq(|calls|, i requires 0 <= i < |calls| => calls[i].message)
  }

  /**
   The peer is of the opposite role. Of the frames up to the last of the first n data frames it can inflate those
   that are compressed, and its handlers accept the pings and pongs.
   */
  predicate Suits(cfg: Config, masks: bool, log: seq<Frame>, n: nat) {
    && cfg.isServer == masks
    && forall i :: 0 <= i < |log| && |DataFrames(log[..i])| < n ==>
         && (log[i].rsv1 ==> cfg.inflates)
         && (IsControl(log[i].opcode) ==> cfg.accepts(ControlEvent(log[i])))
  }

  predicate Readable(cfg: Config, masks: bool, f: Frame) {
    && Protocol.Logged(masks, f) && (f.rsv1 ==> cfg.inflates)
    && (IsControl(f.opcode) ==> f.opcode != CLOSE && cfg.accepts(ControlEvent(f)))
  }

  lemma StreamCarries(cfg: Config, masks: bool, ws: seq<Frame>, m: seq<Frame>)
    requires cfg.isServer == masks && forall f :: f in ws ==> Readable(cfg, masks, f)
    requires DataFrames(ws) == m && Protocol.WholeData(m)
    requires ws != [] && !IsControl(ws[|ws| - 1].opcode)
    ensures Carries(cfg, ws, MessageIn(m))
  {
    hide DataFrames, Payloads, WholeMessage;
  }

  lemma {:induction false} StreamInConcat(streams: seq<seq<Frame>>, i: nat)
    requires i < |streams|
    ensures forall f :: f in streams[i] ==> f in Concat(streams)
  {
    if i > 0 {
      StreamInConcat(streams[1..], i - 1);
      assert streams[1..][i - 1] == streams[i];
    }
  }

  lemma {:induction false} LastOfStreams(streams: seq<seq<Frame>>)
    requires forall ws: seq<Frame> :: ws in streams ==> ws != [] && !IsControl(ws[|ws| - 1].opcode)
    ensures var front := Concat(streams); front != [] ==> !IsControl(front[|front| - 1].opcode)
  {
    if streams != [] {
      LastOfStreams(streams[1..]);
      var front, more := Concat(streams), Concat(streams[1..]);
      assert streams[0] in streams;
      if more != [] {
        assert front[|front| - 1] == more[|more| - 1];
      } else {
        assert front == streams[0];
      }
    }
  }

  predicate AllWithinLimit(cfg: Config, messages: seq<seq<Frame>>) {
    forall i :: 0 <= i < |messages| ==> WithinLimit(cfg, |Payloads(messages[i])|)
  }

  ghost predicate LogShape(masks: bool, log: seq<Frame>, messages: seq<seq<Frame>>, partial: seq<Frame>) {
    && (forall f :: f in log ==> Protocol.Logged(masks, f))
    && DataFrames(log) == Concat(messages) + partial
    && (forall i :: 0 <= i < |messages| ==> Protocol.WholeData(messages[i]))
    && forall i :: 0 <= i < |log| - 1 ==> log[i].opcode != CLOSE
  }

  lemma RunShape(ss: seq<Protocol.State>, i: nat)
    requires Protocol.Run(ss) && i < |ss|
    ensures var g := ss[i].g;
            && LogShape(g.masks, g.log, g.messages, g.partial) && Protocol.CallsOK(g)
            && AllEncodable(g.log) && g.wire == EncodeAll(g.log) + g.tail
            && MessagesIn(g.messages) == SaidBy(g.calls)
  {
    hide Protocol.Run, Protocol.WholeData, Protocol.OpenData, Protocol.Tokens, Protocol.ThreadOK, MessageIn;
    Protocol.RunInv(ss, i);
  }

  /** The peer can read the log up to the last frame of the last message; a Close frame can only come later. */
  lemma FrontReadable(cfg: Config, masks: bool, log: seq<Frame>, messages: seq<seq<Frame>>, partial: seq<Frame>,
                      streams: seq<seq<Frame>>, rest: seq<Frame>)
    requires LogShape(masks, log, messages, partial) && Cut(log, messages, streams, rest)
    requires DataFrames(rest) == partial && Suits(cfg, masks, log, |Concat(messages)|)
    ensures forall f :: f in Concat(streams) ==> Readable(cfg, masks, f)
  {
    hide DataFrames, Protocol.WholeData, Protocol.Logged;
    var front := Concat(streams);
    LastOfStreams(streams);
    DataFramesConcat(front, rest);
    forall i | 0 <= i < |front|
      ensures Readable(cfg, masks, front[i])
    {
      assert front[i] == log[i] && log[i] in log;
      assert front == log[..i] + front[i..];
      DataFramesConcat(log[..i], front[i..]);
      DataAtEnd(front[i..]);
    }
  }

  lemma {:induction false} DataAtEnd(fs: seq<Frame>)
    requires fs != [] && !IsControl(fs[|fs| - 1].opcode)
    ensures DataFrames(fs) != []
  {
    if IsControl(fs[0].opcode) {
      DataAtEnd(fs[1..]);
    }
  }

  lemma CutCarries(cfg: Config, masks: bool, messages: seq<seq<Frame>>, streams: seq<seq<Frame>>)
    requires |streams| == |messages| && cfg.isServer == masks
    requires forall f :: f in Concat(streams) ==> Readable(cfg, masks, f)
    requires forall i :: 0 <= i < |streams| ==>
               && DataFrames(streams[i]) == messages[i] && Protocol.WholeData(messages[i])
               && streams[i] != [] && !IsControl(streams[i][|streams[i]| - 1].opcode)
    requires AllWithinLimit(cfg, messages)
    ensures AllCarry(cfg, streams, MessagesIn(messages))
  {
    hide Carries, DataFrames, Payloads, Readable, Protocol.WholeData;
    forall k | 0 <= k < |messages|
      ensures Carries(cfg, streams[k], MessageIn(messages[k]))
              && WithinLimit(cfg, |MessageIn(messages[k]).payload|)
    {
      StreamInConcat(streams, k);
      NotEmpty(messages[k]);
      StreamCarries(cfg, masks, streams[k], messages[k]);
    }
  }

  lemma NotEmpty(m: seq<Frame>)
    requires Protocol.WholeData(m)
    ensures m != [] && MessageIn(m).payload == Payloads(m)
  {
  }

  /**
   For every run of the write protocol and every transport, a peer that reads the wire from its beginning receives
   exactly the messages of the calls whose last frame has been written, in the order in which they took writeMu, if
   its readers understand what was written. What follows them on the wire, a Close frame perhaps, is `rest` and the
   octets of an unfinished frame.
   */
  lemma RunDelivers(cfg: Config, readers: Readers, transport: Transport, ss: seq<Protocol.State>, i: nat, s: State)
    returns (rest: seq<Frame>)
    requires Protocol.Run(ss) && i < |ss| && Fair(cfg, transport)
    requires var g := ss[i].g; Suits(cfg, g.masks, g.log, |Concat(g.messages)|) && AllWithinLimit(cfg, g.messages)
    requires AllUnderstood(readers, [], SaidBy(ss[i].g.calls))
    requires BetweenMessages(s, ss[i].g.wire)
    ensures var g := ss[i].g;
            && |rest| <= |g.log| && rest == g.log[|g.log| - |rest|..]
            && DataFrames(rest) == g.partial && AllEncodable(rest)
            && Received(cfg, ReadMessages(cfg, readers, transport, s, [], |g.calls|),
                        Understood(readers, [], SaidBy(g.calls)), EncodeAll(rest) + g.tail)
  {
    hide Protocol.Run, Suits, ReadMessages, Fair, BetweenMessages, EncodeAll, DataFrames, Protocol.WholeData, Received;
    hide Readable, Protocol.InTurn, MessageIn, AllUnderstood, Understood;
    var g := ss[i].g;
    var streams;
    streams, rest := RunStreams(cfg, ss, i);
    WireIsEncoding(cfg, streams);
    SplitWire(g.log, Concat(streams), rest, g.tail);
    WrittenIsRead(cfg, readers, transport, s, [], streams, SaidBy(g.calls), EncodeAll(rest) + g.tail);
  }

  /** The log of a run as the frames of one call after the other. */
  lemma RunStreams(cfg: Config, ss: seq<Protocol.State>, i: nat)
    returns (streams: seq<seq<Frame>>, rest: seq<Frame>)
    requires Protocol.Run(ss) && i < |ss|
    requires var g := ss[i].g; Suits(cfg, g.masks, g.log, |Concat(g.messages)|) && AllWithinLimit(cfg, g.messages)
    ensures var g := ss[i].g;
            && g.log == Concat(streams) + rest && DataFrames(rest) == g.partial
            && AllEncodable(g.log) && g.wire == EncodeAll(g.log) + g.tail
            && AllCarry(cfg, streams, SaidBy(g.calls)) && Conversation(cfg, streams)
  {
    hide Protocol.Run, Suits, EncodeAll, DataFrames, Protocol.WholeData, Readable, Protocol.InTurn, MessageIn;
    RunShape(ss, i);
    var g := ss[i].g;
    forall k | 0 <= k < |g.messages|
      ensures g.messages[k] != []
    {
      NotEmpty(g.messages[k]);
    }
    streams, rest := CutLog(g.log, g.messages, g.partial);
    FrontReadable(cfg, g.masks, g.log, g.messages, g.partial, streams, rest);
    Opposite(cfg, g.masks, g.log, |Concat(g.messages)|);
    CutCarries(cfg, g.masks, g.messages, streams);
    CarriedConversation(cfg, streams, SaidBy(g.calls));
  }

  lemma Opposite(cfg: Config, masks: bool, log: seq<Frame>, n: nat)
    requires Suits(cfg, masks, log, n)
    ensures cfg.isServer == masks
  {
  }

  /** And if they do not, the messages before the first that they refuse arrive, and then there is an error. */
  lemma RunRefused(cfg: Config, readers: Readers, transport: Transport, ss: seq<Protocol.State>, i: nat, s: State,
                   size: nat)
    requires Protocol.Run(ss) && i < |ss|
    requires Fair(cfg, transport) && AtMost(transport, size) && size < cfg.bufSize
    requires var g := ss[i].g; Suits(cfg, g.masks, g.log, |Concat(g.messages)|) && AllWithinLimit(cfg, g.messages)
    requires !AllUnderstood(readers, [], SaidBy(ss[i].g.calls))
    requires BetweenMessages(s, ss[i].g.wire)
    ensures var g := ss[i].g;
            var r := ReadMessages(cfg, readers, transport, s, [], |g.calls|);
            r.messages == Understood(readers, [], SaidBy(g.calls)) && r.error.Some?
  {
    hide Protocol.Run, Suits, ReadMessages, Fair, BetweenMessages, EncodeAll, DataFrames, Protocol.WholeData;
    hide AllUnderstood, Understood;
    var g := ss[i].g;
    var streams, rest := RunStreams(cfg, ss, i);
    CarriedConversation(cfg, streams, SaidBy(g.calls));
    WireIsEncoding(cfg, streams);
    SplitWire(g.log, Concat(streams), rest, g.tail);
    StreamRefused(cfg, readers, transport, s, [], streams, EncodeAll(rest) + g.tail, size);
  }

  lemma {:induction false} UnderstoodPrefix(
    readers: Readers, past: seq<seq<byte>>, ws: seq<Message>, k: nat)
    requires AllUnderstood(readers, past, ws) && k <= |ws|
    ensures AllUnderstood(readers, past, ws[..k])
    ensures Understood(readers, past, ws[..k]) == Understood(readers, past, ws)[..k]
    decreases |ws|
  {
    hide Make;
    if k > 0 {
      UnderstoodPrefix(readers, Past(past, ws[0].compressed, ws[0].payload), ws[1..], k - 1);
      assert ws[..k][1..] == ws[1..][..k - 1];
    }
  }

  /**
   Every call that returned without an error is delivered exactly once, in the order in which writeMu was taken;
   beside these at most one message arrives, the last, whose call has not returned or got an error afterwards.
   */
  lemma ReturnedIsDelivered(
    cfg: Config, readers: Readers, transport: Transport, ss: seq<Protocol.State>, i: nat, s: State)
    requires Protocol.Run(ss) && i < |ss| && Fair(cfg, transport) && cfg.end == EOF
    requires var g := ss[i].g; Suits(cfg, g.masks, g.log, |Concat(g.messages)|) && AllWithinLimit(cfg, g.messages)
    requires AllUnderstood(readers, [], SaidBy(ss[i].g.calls))
    requires BetweenMessages(s, ss[i].g.wire)
    ensures var g := ss[i].g;
            var ms := ReadMessages(cfg, readers, transport, s, [], |g.calls|).messages;
            && AllUnderstood(readers, [], SaidBy(g.returned))
            && Understood(readers, [], SaidBy(g.returned)) <= ms && |ms| <= |g.returned| + 1
            && (forall j, k :: 0 <= j < k < |g.returned| ==> g.returned[j].turn < g.returned[k].turn <= g.turn)
  {
    hide Protocol.Run, Suits, ReadMessages, Fair, BetweenMessages, AllWithinLimit, Understood;
    RunShape(ss, i);
    var rest := RunDelivers(cfg, readers, transport, ss, i, s);
    var g := ss[i].g;
    assert SaidBy(g.calls)[..|g.returned|] == SaidBy(g.returned);
    UnderstoodPrefix(readers, [], SaidBy(g.calls), |g.returned|);
  }

  lemma SplitWire(log: seq<Frame>, front: seq<Frame>, rest: seq<Frame>, tail: seq<byte>)
    requires AllEncodable(log) && log == front + rest
    ensures AllEncodable(front) && AllEncodable(rest)
    ensures EncodeAll(log) + tail == EncodeAll(front) + (EncodeAll(rest) + tail)
  {
    assert forall f :: f in front ==> f in log;
    assert forall f :: f in rest ==> f in log;
    EncodeAllConcat(front, rest);
    ConcatAssociative(EncodeAll(front), EncodeAll(rest), tail);
  }
}
