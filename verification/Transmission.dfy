/** From one connection's writer to the other connection's reader. */
module Transmission {
  import opened Bytes
  import opened Frames
  import opened Reading
  import opened FrameRoundTrip
  import opened MessageRoundTrip
  import opened Conversations

  /**
   The frames ws carry the message m: their data frames are one whole message as the writer leaves it, the
   others are pings and pongs written in between, and all of them suit the reader.
   */
  predicate Carries(cfg: Config, ws: seq<Frame>, m: Message) {
    && IsData(m.opcode)
    && WholeMessage(m.opcode, m.compressed, DataFrames(ws)) && Carried(ws) == m.payload
    && ws != [] && !IsControl(ws[|ws| - 1].opcode)
    && forall f :: f in ws ==> if IsControl(f.opcode) then GoodControl(cfg, f) else Fits(cfg, f)
  }

  /** The data frames that are still to come finish the message. */
  predicate Finishes(ds: seq<Frame>) {
    && ds != []
    && forall i :: 0 <= i < |ds| ==>
         ds[i].opcode == CONTINUATION && !ds[i].rsv1 && (ds[i].fin <==> i == |ds| - 1)
  }

  lemma FinishesTail(ds: seq<Frame>)
    requires Finishes(ds)
    ensures ds[0].opcode == CONTINUATION && !ds[0].rsv1
    ensures if ds[0].fin then ds[1..] == [] else Finishes(ds[1..])
  {
  }

  lemma WholeMessageTail(opcode: nat, rsv1: bool, ds: seq<Frame>)
    requires WholeMessage(opcode, rsv1, ds)
    ensures ds[0].opcode == opcode && ds[0].rsv1 == rsv1
    ensures if ds[0].fin then ds[1..] == [] else Finishes(ds[1..])
  {
    assert forall i :: 0 <= i < |ds| - 1 ==> ds[i] == ds[..|ds| - 1][i];
  }

  lemma {:induction false} RestCompletes(cfg: Config, final: bool, ws: seq<Frame>)
    requires forall f :: f in ws ==> if IsControl(f.opcode) then GoodControl(cfg, f) else Fits(cfg, f)
    requires if final then ws == [] else Finishes(DataFrames(ws)) && ws != [] && !IsControl(ws[|ws| - 1].opcode)
    ensures Completes(cfg, final, ws)
    decreases |ws|
  {
    if !final {
      var f, rest := ws[0], ws[1..];
      if !IsControl(f.opcode) {
        var ds := DataFrames(ws);
        assert ds == [f] + DataFrames(rest) && ds[1..] == DataFrames(rest);
        FinishesTail(ds);
        if f.fin {
          OnlyControls(rest);
        }
      }
      RestCompletes(cfg, if IsControl(f.opcode) then final else f.fin, rest);
    }
  }

  /** Frames without data that end in data are none. */
  lemma {:induction false} OnlyControls(ws: seq<Frame>)
    requires DataFrames(ws) == [] && (ws != [] ==> !IsControl(ws[|ws| - 1].opcode))
    ensures ws == []
    decreases |ws|
  {
    if ws != [] {
      assert IsControl(ws[0].opcode);
      OnlyControls(ws[1..]);
    }
  }

  /** What a writer sends for one message is a segment that the reader reads as that message. */
  lemma {:induction false} CarriesSegment(cfg: Config, ws: seq<Frame>, m: Message)
    requires Carries(cfg, ws, m)
    ensures Segment(cfg, ws) && AllEncodable(ws) && DataFrames(ws) != [] && MessageOf(ws) == m
    decreases |ws|
  {
    var f, rest := ws[0], ws[1..];
    if IsControl(f.opcode) {
      assert rest != [];
      assert rest[|rest| - 1] == ws[|ws| - 1];
      CarriesSegment(cfg, rest, m);
    } else {
      var ds := DataFrames(ws);
      assert ds == [f] + DataFrames(rest) && ds[1..] == DataFrames(rest);
      WholeMessageTail(m.opcode, m.compressed, ds);
      if f.fin {
        OnlyControls(rest);
      }
      RestCompletes(cfg, f.fin, rest);
    }
    SegmentEncodable(cfg, ws);
  }

  predicate AllCarry(cfg: Config, streams: seq<seq<Frame>>, ms: seq<Message>) {
    && |streams| == |ms|
    && forall i :: 0 <= i < |ms| ==> Carries(cfg, streams[i], ms[i]) && WithinLimit(cfg, |ms[i].payload|)
  }

  lemma {:induction false} CarriedConversation(cfg: Config, streams: seq<seq<Frame>>, ms: seq<Message>)
    requires AllCarry(cfg, streams, ms)
    ensures Conversation(cfg, streams) && Messages(cfg, streams) == ms
    decreases |ms|
  {
    hide Carries, Segment;
    forall i | 0 <= i < |ms|
      ensures Segment(cfg, streams[i]) && AllEncodable(streams[i]) && DataFrames(streams[i]) != []
              && MessageOf(streams[i]) == ms[i]
    {
      CarriesSegment(cfg, streams[i], ms[i]);
    }
    if ms != [] {
      CarriedConversation(cfg, streams[1..], ms[1..]);
    }
  }

  lemma {:induction false} WireIsEncoding(cfg: Config, streams: seq<seq<Frame>>)
    requires Conversation(cfg, streams)
    ensures AllEncodable(Concat(streams)) && Wire(cfg, streams) == EncodeAll(Concat(streams))
  {
    if streams != [] {
      WireIsEncoding(cfg, streams[1..]);
      EncodeAllConcat(streams[0], Concat(streams[1..]));
    }
  }

  /**
   What is written is what is read: any data messages, cut into fragments by any sequence of writes and
   interleaved with any pings and pongs, arrive in order with their types and as the readers understand them.
   */
  lemma WrittenIsRead(cfg: Config, readers: Readers, transport: Transport, s: State, past: seq<seq<byte>>,
                      streams: seq<seq<Frame>>, ws: seq<Message>, rest: seq<byte>)
    requires Fair(cfg, transport) && AllCarry(cfg, streams, ws) && AllUnderstood(readers, past, ws)
    requires Conversation(cfg, streams) ==> BetweenMessages(s, Wire(cfg, streams) + rest)
    ensures Conversation(cfg, streams)
    ensures var r := ReadMessages(cfg, readers, transport, s, past, |ws|);
            Received(cfg, r, Understood(readers, past, ws), rest) && r.state.events == s.events + Events(streams)
  {
    hide AllUnderstood, ReadMessages, Received, Understood;
    CarriedConversation(cfg, streams, ws);
    StreamRoundTrip(cfg, readers, transport, s, past, streams, rest);
  }
}
