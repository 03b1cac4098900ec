/** Errors of the read side: which are permanent, and what a reader says of them. */
module ReadErrors {
  import opened Bytes
  import opened Frames
  import opened Masking
  import opened Reading
  import opened FrameRoundTrip
  import opened MessageRoundTrip
  import opened ReaderProperties
  import opened WireFormat
  import Utf8

  lemma {:induction false} SeekRefused(cfg: Config, s: State, e: ReadError)
    requires SeekMessage(cfg, s).1 == Refused(e)
    ensures SeekMessage(cfg, s).0.error == if e == Timeout && s.error == None then None else Some(e)
    decreases |s.input|
  {
    hide AdvanceFrame;
    if s.error == None {
      var (s', o) := AdvanceFrame(cfg, s);
      if o.Accepted? {
        SeekRefused(cfg, s', e);
      }
    }
  }

  /**
   An error returned by NextReader is permanent: every call after it returns the same error and does nothing. Only a
   timeout is not, unless it had been recorded before.
   */
  lemma RefusalPermanent(cfg: Config, s: State, e: ReadError)
    requires NextReader(cfg, s).1 == Refused(e)
    ensures var s' := NextReader(cfg, s).0;
            if e == Timeout && s.error == None then s'.error == None
            else
              && s'.error == Some(e)
              && NextReader(cfg, s').1 == Refused(e)
              && NextReader(cfg, s').0 == s'.(open := false, length := 0)
  {
    hide SeekMessage;
    SeekRefused(cfg, s.(open := false, length := 0), e);
    if e != Timeout || s.error.Some? {
      LatchedAgain(cfg, NextReader(cfg, s).0);
    }
  }

  lemma LatchedAgain(cfg: Config, s: State)
    requires s.error.Some?
    ensures NextReader(cfg, s) == (s.(open := false, length := 0), Refused(s.error.value))
  {
  }

  /** The error is that of the frame that was refused. */
  lemma RefusedFrame(cfg: Config, s: State)
    requires s.error == None && AdvanceFrame(cfg, s.(open := false, length := 0)).1.Refused?
    ensures var (s', o) := AdvanceFrame(cfg, s.(open := false, length := 0));
            NextReader(cfg, s) == (if o.error == Timeout then s' else s'.(error := Some(o.error)), o)
  {
    hide AdvanceFrame;
  }

  /** In the middle of a message a reader returns the error of the frame that was refused, and records it. */
  lemma RefusedFragment(cfg: Config, s: State, g: Grant)
    requires s.error == None && s.remaining == 0 && !s.final && AdvanceFrame(cfg, s).1.Refused?
    ensures var (s', o) := AdvanceFrame(cfg, s);
            Read(cfg, s, g) ==
            Delivery(s'.(error := Some(o.error)), [], Some(if o.error == EOF && s.open then UnexpectedEOF else o.error))
  {
    hide AdvanceFrame;
  }

  // ----- the errors there are -----

  predicate Reported(cfg: Config, e: ReadError) {
    e in {cfg.end, Short(cfg), Protocol, LimitExceeded, Handler} || e.PeerClosed?
  }

  lemma KeyReports(cfg: Config, s: State, h: Head)
    ensures var r := ReadKey(cfg, s, h); r.1.Refused? ==> Reported(cfg, r.1.error)
  {
  }

  lemma AdvanceReports(cfg: Config, s: State)
    requires AdvanceFrame(cfg, s).1.Refused?
    ensures Reported(cfg, AdvanceFrame(cfg, s).1.error)
  {
    hide ReadKey, FromBE, ParseHead, HeadRefused;
    if HeadReady(s) {
      var t := Take(s, s.remaining);
      var h := ParseHead(t.input[0], t.input[1]);
      var u := AfterHead(cfg, Take(t, 2), h);
      var n := if u.remaining == 127 then 8 else if u.remaining == 126 then 2 else 0;
      if |u.input| >= n {
        KeyReports(cfg, Take(u, n).(remaining := if n == 0 then u.remaining else FromBE(u.input[..n])), h);
      }
    }
  }

  /** The internal error of a text or binary frame inside a message cannot occur: such a frame is refused. */
  lemma {:induction false} NeverInternal(cfg: Config, s: State)
    requires s.error != Some(Internal) && cfg.end != Internal
    ensures SeekPayload(cfg, s).error != Some(Internal)
    decreases |s.input|
  {
    hide AdvanceFrame;
    if s.error == None && s.remaining == 0 && !s.final {
      var (s', o) := AdvanceFrame(cfg, s);
      if o.Refused? {
        AdvanceReports(cfg, s);
      } else {
        AcceptedHead(cfg, s);
        NeverInternal(cfg, s');
      }
    }
  }

  // ----- going on after a timeout -----

  /** After a timeout b arrives: it is read as if there had been no timeout. */
  predicate Resumes(cfg: Config, s: State, b: seq<byte>) {
    AdvanceFrame(cfg, AdvanceFrame(cfg, s).0.(input := b)) == AdvanceFrame(cfg, s.(input := s.input + b))
  }

  /** A ping without payload. */
  function EmptyPing(cfg: Config): (p: seq<byte>)
    ensures |p| == if cfg.isServer then 6 else 2
  {
    if cfg.isServer then [0x89, 0x80, 0, 0, 0, 0] else [0x89, 0x00]
  }

  lemma PingAhead(cfg: Config, s: State)
    requires s.remaining <= |s.input| && Next(s) == EmptyPing(cfg)
    ensures var s' := AdvanceFrame(cfg, s).0; s'.input == [] && s'.events == s.events + [PingReceived([])]
  {
    hide AdvanceFrame;
    assert HeaderThere(cfg, s);
    ControlFrameRead(cfg, s);
    assert ControlPayload(cfg, s) == [];
  }

  lemma OneEvent(events: seq<Event>, e: Event)
    ensures (events + [e])[|events|] == e
  {
  }

  /** Nothing else is taken for such a ping. */
  lemma PingOnly(cfg: Config, s: State)
    requires 0 <= s.length <= MAX_INT64
    requires var s' := AdvanceFrame(cfg, s).0; s'.input == [] && s'.events == s.events + [PingReceived([])]
    ensures |s.input| == s.remaining + |EmptyPing(cfg)|
  {
    hide ReadHead, BadOctets, LengthAt, ControlMeaning, ControlPayload;
    OneEvent(s.events, PingReceived([]));
    assert s.remaining <= |s.input|;
    var w := Next(s);
    assert |w| >= 2 by {
      if |w| < 2 {
        HeaderCut(cfg, s);
      }
    }
    BadOctetsRefused(cfg, s);
    OneEvent(s.events, CloseSent(1002));
    OneEvent(s.events, CloseSent(1009));
    if HeaderThere(cfg, s) {
      PingThere(cfg, s);
    } else if |w| >= 2 + LengthSize(w[1]) && LengthAt(w) > MAX_INT64 {
      NegativeLength(cfg, s);
    } else {
      HeaderCut(cfg, s);
    }
  }

  lemma PingThere(cfg: Config, s: State)
    requires 0 <= s.length <= MAX_INT64 && HeaderThere(cfg, s)
    requires var s' := AdvanceFrame(cfg, s).0; s'.input == [] && s'.events == s.events + [PingReceived([])]
    ensures |Next(s)| == |EmptyPing(cfg)|
  {
    hide AdvanceFrame;
    OneEvent(s.events, PingReceived([]));
    OneEvent(s.events, CloseSent(1009));
    if Next(s)[0] % 16 < 8 {
      DataFrameRead(cfg, s);
    } else if LengthAt(Next(s)) > |AfterHeader(cfg, s).input| {
      ControlFrameCut(cfg, s);
    } else {
      ControlFrameRead(cfg, s);
      var p := ControlPayload(cfg, s);
      OneEvent(s.events, ControlMeaning(cfg, Next(s)[0] % 16, p).0);
      assert p == [];
    }
  }

  predicate NothingDone(s: State, r: (State, Outcome)) {
    r.1 == Refused(Timeout) ==> r.0.input == [] && r.0.events == s.events
  }

  lemma KeyTimesOut(cfg: Config, s: State, h: Head)
    requires cfg.end == Timeout
    ensures NothingDone(s, ReadKey(cfg, s, h))
  {
    hide FinishControl;
    var t := s.(maskPos := 0);
    ControlTimesOut(cfg, s, h.opcode);
    if |s.input| >= 4 {
      ControlTimesOut(cfg, Take(t, 4).(maskKey := Key(s.input[0], s.input[1], s.input[2], s.input[3])), h.opcode);
    }
  }

  lemma ControlTimesOut(cfg: Config, s: State, opcode: nat)
    requires cfg.end == Timeout
    ensures NothingDone(s, FinishControl(cfg, s, opcode))
  {
    hide Mask, FromBE, ValidReceivedCode, Utf8.Valid;
  }

  /** What a timeout leaves: nothing of the input, and nothing done for the part of a frame that had arrived. */
  lemma TimedOut(cfg: Config, s: State)
    requires AdvanceFrame(cfg, s).1 == Refused(Timeout) && cfg.end == Timeout
    ensures NothingDone(s, AdvanceFrame(cfg, s))
    ensures |s.input| < s.remaining + 2 ==> AdvanceFrame(cfg, s).0 == s.(input := [])
  {
    hide ReadKey, FromBE, ParseHead, HeadRefused;
    if HeadReady(s) {
      var t := Take(s, s.remaining);
      var h := ParseHead(t.input[0], t.input[1]);
      var u := AfterHead(cfg, Take(t, 2), h);
      var n := if u.remaining == 127 then 8 else if u.remaining == 126 then 2 else 0;
      if |u.input| >= n {
        KeyTimesOut(cfg, Take(u, n).(remaining := if n == 0 then u.remaining else FromBE(u.input[..n])), h);
      }
    }
  }

  /**
   NextReader may be called again after a timeout. What comes then is read as if there had been no timeout if and only
   if nothing of the frame, or of the rest of the frame before it, had arrived: c.read drops the octets it could get,
   and the discarding of a frame's rest does not record how far it came.
   */
  lemma TimeoutResumes(cfg: Config, s: State)
    requires 0 <= s.length <= MAX_INT64 && AdvanceFrame(cfg, s).1 == Refused(Timeout) && cfg.end == Timeout
    ensures (forall b :: Resumes(cfg, s, b)) <==> s.input == []
  {
    hide AdvanceFrame;
    TimedOut(cfg, s);
    var s' := AdvanceFrame(cfg, s).0;
    if s.input == [] {
      assert s' == s;
      assert forall b: seq<byte> :: s.input + b == b;
    } else {
      var b: seq<byte> := seq(s'.remaining, _ => 0) + EmptyPing(cfg);
      var t, u := s'.(input := b), s.(input := s.input + b);
      assert Next(t) == EmptyPing(cfg);
      PingAhead(cfg, t);
      if Resumes(cfg, s, b) {
        PingOnly(cfg, u);
      }
    }
  }
}
