/**
 The writer classes take part in the lock protocol: every call of NextWriter, flushFrame and WriteControl on a
 connection is a sequence of the protocol's steps of one caller, so that what holds of every run holds of them.
 */
module Refinement {
  import opened Bytes
  import opened Masking
  import opened Frames
  import opened Protocol = WriteProtocol
  import Writer = FrameWriter

  /** The shared state and one caller. */
  datatype At = At(g: Shared, th: Thread)

  ghost predicate Path(ps: seq<At>) {
    ps != [] && forall i :: 0 <= i < |ps| - 1 ==> Move(ps[i].g, ps[i].th, ps[i + 1].g, ps[i + 1].th)
  }

  ghost predicate Leads(a: At, b: At) {
    exists ps: seq<At> :: Path(ps) && ps[0] == a && ps[|ps| - 1] == b
  }

  lemma Stays(a: At)
    ensures Leads(a, a)
  {
    assert Path([a]) && [a][0] == a;
  }

  lemma Steps(a: At, b: At, c: At)
    requires Leads(a, b) && Move(b.g, b.th, c.g, c.th)
    ensures Leads(a, c)
  {
    hide Move;
    var ps: seq<At> :| Path(ps) && ps[0] == a && ps[|ps| - 1] == b;
    var qs := ps + [c];
    assert Path(qs) && qs[0] == a && qs[|qs| - 1] == c;
  }

  // ----- one network write -----

  /** What a job leaves when the network took all of its frame. */
  function Sent(g: Shared, job: Job): Shared
    requires job.f.Encodable()
  {
    Recorded(g.(wire := g.wire + Encode(job.f), tail := []), job)
      .(writeErr := if job.f.opcode == CLOSE then Some(CloseSent) else None)
  }

  lemma Acquired(a: At, g: Shared, job: Job)
    requires Leads(a, At(g, Waiting(job))) && g.mu && g.writeErr == None && job.f.Encodable()
    ensures Leads(a, At(g.(mu := false), Writing(job, Encode(job.f))))
  {
    hide Encode, Leads;
    var g1 := g.(mu := false);
    assert AcquireInner(g, Waiting(job), g1, Holding(job));
    Steps(a, At(g, Waiting(job)), At(g1, Holding(job)));
    assert StartWrite(g1, Holding(job), g1, Writing(job, Encode(job.f)));
    Steps(a, At(g1, Holding(job)), At(g1, Writing(job, Encode(job.f))));
  }

  lemma WriteSucceeds(a: At, g: Shared, job: Job)
    requires Leads(a, At(g, Waiting(job))) && g.mu && g.writeErr == None && job.f.Encodable() && !job.Prepared?
    ensures Leads(a, At(Sent(g, job), AfterWrite(job, true)))
  {
    hide Encode, Leads, Move;
    Acquired(a, g, job);
    var g1 := g.(mu := false);
    var g2 := Recorded(g1.(wire := g1.wire + Encode(job.f), tail := []), job);
    WrittenMove(g1, job, Encode(job.f), g2);
    Steps(a, At(g1, Writing(job, Encode(job.f))), At(g2, Written(job)));
    var g3 := g2.(writeErr := if job.f.opcode == CLOSE then Some(CloseSent) else None);
    LatchMove(g2, job, g3);
    Steps(a, At(g2, Written(job)), At(g3, Releasing(job, true)));
    ReleaseMove(g3, job, true);
    Steps(a, At(g3, Releasing(job, true)), At(g3.(mu := true), AfterWrite(job, true)));
    MutexFree(g, job);
  }

  lemma WrittenMove(g: Shared, job: Job, left: seq<byte>, g': Shared)
    requires !job.Prepared? && g' == Recorded(g.(wire := g.wire + left, tail := []), job)
    ensures Move(g, Writing(job, left), g', Written(job))
  {
    hide Recorded;
    assert WriteLast(g, Writing(job, left), g', Written(job));
  }

  lemma LatchMove(g: Shared, job: Job, g': Shared)
    requires g.writeErr == None && g' == g.(writeErr := if job.f.opcode == CLOSE then Some(CloseSent) else None)
    ensures Move(g, Written(job), g', Releasing(job, true))
  {
    assert Latch(g, Written(job), g', Releasing(job, true));
  }

  lemma ReleaseMove(g: Shared, job: Job, ok: bool)
    ensures Move(g, Releasing(job, ok), g.(mu := true), AfterWrite(job, ok))
  {
    hide AfterWrite;
    assert ReleaseInner(g, Releasing(job, ok), g.(mu := true), AfterWrite(job, ok));
  }

  /** The inner mutex is free before and after. */
  lemma MutexFree(g: Shared, job: Job)
    requires g.mu && job.f.Encodable()
    ensures var g1 := g.(mu := false);
            Recorded(g1.(wire := g1.wire + Encode(job.f), tail := []), job)
              .(writeErr := if job.f.opcode == CLOSE then Some(CloseSent) else None).(mu := true) == Sent(g, job)
  {
    hide Encode;
  }

  /** The network fails after n octets. */
  lemma WriteFails(a: At, g: Shared, job: Job, n: nat) returns (g': Shared)
    requires Leads(a, At(g, Waiting(job))) && g.mu && g.writeErr == None && g.tail == []
    requires job.f.Encodable() && !job.Prepared? && n <= |Encode(job.f)|
    ensures Leads(a, At(g', AfterWrite(job, false)))
    ensures g'.wire == g.wire + Encode(job.f)[..n] && g'.writeErr == Some(Network)
    ensures g'.masks == g.masks && g'.pooled == g.pooled && g'.writeMu == g.writeMu && g'.mu
    ensures g'.writer == g.writer && g'.buffer == g.buffer
  {
    hide Encode, Leads, Move, Recorded;
    Acquired(a, g, job);
    var g1 := g.(mu := false);
    var octets := Encode(job.f);
    var at := At(g1, Writing(job, octets));
    if n == |octets| {
      var g2 := Recorded(g1.(wire := g1.wire + octets, tail := []), job);
      assert octets[..n] == octets;
      WrittenMove(g1, job, octets, g2);
      Steps(a, at, At(g2, Written(job)));
      at := At(g2, Written(job));
    } else if n > 0 {
      var g2 := g1.(wire := g1.wire + octets[..n], tail := g1.tail + octets[..n]);
      SomeMove(g1, job, octets, n, g2);
      Steps(a, at, At(g2, Writing(job, octets[n..])));
      at := At(g2, Writing(job, octets[n..]));
    } else {
      assert g1.wire + octets[..n] == g1.wire;
    }
    var g3 := at.g.(writeErr := Some(Network));
    FailMove(at.g, at.th, job, g3);
    Steps(a, at, At(g3, Releasing(job, false)));
    ReleaseMove(g3, job, false);
    g' := g3.(mu := true);
    Steps(a, At(g3, Releasing(job, false)), At(g', AfterWrite(job, false)));
  }

  lemma SomeMove(g: Shared, job: Job, left: seq<byte>, n: nat, g': Shared)
    requires 0 < n < |left| && g' == g.(wire := g.wire + left[..n], tail := g.tail + left[..n])
    ensures Move(g, Writing(job, left), g', Writing(job, left[n..]))
  {
    assert WriteSome(g, Writing(job, left), g', Writing(job, left[n..]));
  }

  lemma FailMove(g: Shared, th: Thread, job: Job, g': Shared)
    requires (th.Writing? || th.Written?) && th.job == job && g.writeErr == None
    requires g' == g.(writeErr := Some(Network))
    ensures Move(g, th, g', Releasing(job, false))
  {
    assert NetworkFails(g, th, g', Releasing(job, false));
  }

  /** writeErr was set before. */
  lemma WriteIsRefused(a: At, g: Shared, job: Job)
    requires Leads(a, At(g, Waiting(job))) && g.mu && g.writeErr.Some?
    ensures Leads(a, At(g, AfterWrite(job, false)))
  {
    hide Leads, Move;
    var g1 := g.(mu := false);
    RefusedMoves(g, job);
    Steps(a, At(g, Waiting(job)), At(g1, Holding(job)));
    Steps(a, At(g1, Holding(job)), At(g1, Releasing(job, false)));
    ReleaseMove(g1, job, false);
    assert g1.(mu := true) == g;
    Steps(a, At(g1, Releasing(job, false)), At(g, AfterWrite(job, false)));
  }

  lemma RefusedMoves(g: Shared, job: Job)
    requires g.mu && g.writeErr.Some?
    ensures var g1 := g.(mu := false);
            Move(g, Waiting(job), g1, Holding(job)) && Move(g1, Holding(job), g1, Releasing(job, false))
  {
    var g1 := g.(mu := false);
    assert AcquireInner(g, Waiting(job), g1, Holding(job));
    assert WriteRefused(g1, Holding(job), g1, Releasing(job, false));
  }

  // ----- the connection as a shared state -----

  predicate SameError(e: Option<WriteError>, w: Option<Writer.WriteError>) {
    match e
    case None => w == None
    case Some(CloseSent) => w == Some(Writer.CloseSent)
    case Some(Network) => w == Some(Writer.Network)
  }

  /** The state of the connection between two calls, seen from the protocol. */
  ghost predicate Abstracts(g: Shared, c: Writer.Conn)
    reads c
  {
    && g.masks == c.Masks() && g.pooled == c.pooled && g.mu && g.writeMu == c.writeMu
    && SameError(g.writeErr, c.writeErr) && g.wire == c.wire
    && g.writer == (c.writer != null) && g.buffer == (c.pooled && c.writeBuf != null)
    && (g.writeErr == None ==> g.log == c.log && g.tail == [])
  }

  /** The message that mw writes, as a call of the protocol. */
  ghost predicate Writes(mw: Writer.MessageWriter, m: Msg)
    reads mw
  {
    m.opcode == mw.opcode && m.rsv1 == mw.rsv1 && m.sent == mw.sent && MsgOK(m)
  }

  // ----- the calls -----

  /** NextWriter takes the outer mutex and begins the message, or leaves everything as it was. */
  method NextWriter(c: Writer.Conn, messageType: int, ghost data: seq<byte>, ghost g: Shared)
    returns (mw: Writer.MessageWriter?, stack: Writer.Stack, e: Option<Writer.WriteError>, ghost b: At)
    requires c.Valid() && Abstracts(g, c)
    modifies c
    ensures c.Valid() && Abstracts(b.g, c) && Leads(At(g, Idle), b)
    ensures e.Some? ==> b.th == Idle
    ensures e == None ==>
      && mw != null && mw.c == c && mw.Open() && 0 <= messageType
      && b.th == Open(Msg(messageType, c.Compresses(messageType), data, [])) && Writes(mw, b.th.m)
  {
    hide EncodeAll, Move;
    Stays(At(g, Idle));
    mw, stack, e := c.NextWriter(messageType);
    b := At(g, Idle);
    if e == None {
      b := Begun(g, messageType, c.Compresses(messageType), data);
    } else if e != Some(Writer.WriteTimeout) && messageType >= 0 {
      b := BeginRefused(g, messageType, data);
    }
  }

  /** beginMessage refuses a bad opcode, or everything once writes have stopped, and the lock is given back. */
  lemma BeginRefused(g: Shared, opcode: nat, data: seq<byte>) returns (b: At)
    requires g.writeMu && !g.writer && ((!IsControl(opcode) && !IsData(opcode)) || g.writeErr.Some?)
    ensures Leads(At(g, Idle), b) && b == At(g.(turn := g.turn + 1), Idle)
  {
    var m := Msg(opcode, false, data, []);
    var g1 := g.(writeMu := false, turn := g.turn + 1);
    b := At(g1.(writeMu := true), Idle);
    Stays(At(g, Idle));
    assert AcquireOuter(g, Idle, g1, Begin(m, true));
    Steps(At(g, Idle), At(g, Idle), At(g1, Begin(m, true)));
    assert BeginFails(g1, Begin(m, true), b.g, Idle);
    Steps(At(g, Idle), At(g1, Begin(m, true)), b);
  }

  lemma Begun(g: Shared, opcode: nat, rsv1: bool, data: seq<byte>) returns (b: At)
    requires g.writeMu && !g.writer && g.writeErr == None
    requires (IsControl(opcode) || IsData(opcode)) && (rsv1 ==> IsData(opcode))
    ensures Leads(At(g, Idle), b)
    ensures b == At(g.(writeMu := false, turn := g.turn + 1, writer := true, buffer := g.pooled),
                    Open(Msg(opcode, rsv1, data, [])))
  {
    var m := Msg(opcode, rsv1, data, []);
    var g1 := g.(writeMu := false, turn := g.turn + 1);
    b := At(g1.(writer := true, buffer := g.pooled), Open(m));
    Stays(At(g, Idle));
    assert AcquireOuter(g, Idle, g1, Begin(m, true));
    Steps(At(g, Idle), At(g, Idle), At(g1, Begin(m, true)));
    assert BeginSucceeds(g1, Begin(m, true), b.g, Open(m));
    Steps(At(g, Idle), At(g1, Begin(m, true)), b);
  }

  lemma FlushStarts(g: Shared, m: Msg, f: Frame)
    requires Logged(g.masks, f) && FrameOf(m, f)
    ensures Leads(At(g, Open(m)), At(g, Waiting(Fragment(m, f))))
  {
    hide Logged, FrameOf;
    Stays(At(g, Open(m)));
    assert StartFlush(g, Open(m), g, Waiting(Fragment(m, f)));
    Steps(At(g, Open(m)), At(g, Open(m)), At(g, Waiting(Fragment(m, f))));
  }

  lemma Ends(a: At, g: Shared, done: Option<Msg>)
    requires Leads(a, At(g, Ending(done)))
    ensures Leads(a, At(Returned(g, done).(writer := false, buffer := false, writeMu := true), Idle))
  {
    hide Leads;
    var g' := Returned(g, done).(writer := false, buffer := false, writeMu := true);
    assert EndMessage(g, Ending(done), g', Idle);
    Steps(a, At(g, Ending(done)), At(g', Idle));
  }

  /** What flushFrame does to the protocol when the network takes the frame. */
  lemma FlushSucceeds(g: Shared, m: Msg, f: Frame) returns (b: At)
    requires Logged(g.masks, f) && FrameOf(m, f) && g.mu && g.writeErr == None
    ensures Leads(At(g, Open(m)), b)
    ensures b.g.wire == g.wire + Encode(f) && b.g.log == g.log + [f] && b.g.tail == [] && b.g.mu
    ensures b.g.masks == g.masks && b.g.pooled == g.pooled
    ensures b.g.writeErr == if f.opcode == CLOSE then Some(CloseSent) else None
    ensures if f.fin then b.th == Idle && b.g.writeMu && !b.g.writer && !b.g.buffer
            else b.th == Open(m.(sent := m.sent + [f])) && b.g.writeMu == g.writeMu && b.g.writer == g.writer
                 && b.g.buffer == g.buffer
  {
    hide Encode, Leads, FrameOf;
    var job := Fragment(m, f);
    FlushStarts(g, m, f);
    WriteSucceeds(At(g, Open(m)), g, job);
    b := At(Sent(g, job), AfterWrite(job, true));
    if f.fin {
      Ends(At(g, Open(m)), b.g, b.th.done);
      b := At(Returned(b.g, b.th.done).(writer := false, buffer := false, writeMu := true), Idle);
    }
  }

  /** And when it fails after n octets. */
  lemma FlushFails(g: Shared, m: Msg, f: Frame, n: nat) returns (b: At)
    requires Logged(g.masks, f) && FrameOf(m, f) && g.mu && g.writeErr == None && g.tail == [] && n <= |Encode(f)|
    ensures Leads(At(g, Open(m)), b) && b.th == Idle
    ensures b.g.wire == g.wire + Encode(f)[..n] && b.g.writeErr == Some(Network) && b.g.mu
    ensures b.g.masks == g.masks && b.g.pooled == g.pooled && b.g.writeMu && !b.g.writer && !b.g.buffer
  {
    hide Encode, Leads, FrameOf;
    FlushStarts(g, m, f);
    var g' := WriteFails(At(g, Open(m)), g, Fragment(m, f), n);
    Ends(At(g, Open(m)), g', None);
    b := At(g'.(writer := false, buffer := false, writeMu := true), Idle);
  }

  /** And when writes were stopped before. */
  lemma FlushRefused(g: Shared, m: Msg, f: Frame) returns (b: At)
    requires Logged(g.masks, f) && FrameOf(m, f) && g.mu && g.writeErr.Some?
    ensures Leads(At(g, Open(m)), b)
    ensures b == At(g.(writer := false, buffer := false, writeMu := true), Idle)
  {
    hide Encode, Leads, FrameOf;
    FlushStarts(g, m, f);
    WriteIsRefused(At(g, Open(m)), g, Fragment(m, f));
    Ends(At(g, Open(m)), g, None);
    b := At(g.(writer := false, buffer := false, writeMu := true), Idle);
  }

  /** And when it is a control frame that may not be sent. */
  lemma ControlRefused(g: Shared, m: Msg) returns (b: At)
    requires IsControl(m.opcode) && MsgOK(m)
    ensures Leads(At(g, Open(m)), b)
    ensures b == At(g.(writer := false, buffer := false, writeMu := true), Idle)
  {
    Stays(At(g, Open(m)));
    assert RefuseControl(g, Open(m), g, Ending(None));
    Steps(At(g, Open(m)), At(g, Open(m)), At(g, Ending(None)));
    Ends(At(g, Open(m)), g, None);
    b := At(g.(writer := false, buffer := false, writeMu := true), Idle);
  }

  /** How a flush can come out. */
  datatype Outcome = Taken | Failed(n: nat) | Stopped | Invalid

  /** The octets that it adds to the wire, and the error that is set afterwards. */
  function Added(f: Frame, o: Outcome): seq<byte>
    requires f.Encodable() && (o.Failed? ==> o.n <= |Encode(f)|)
  {
    match o
    case Taken => Encode(f)
    case Failed(n) => Encode(f)[..n]
    case _ => []
  }

  function ErrorAfter(g: Shared, f: Frame, o: Outcome): Option<WriteError> {
    match o
    case Taken => if f.opcode == CLOSE then Some(CloseSent) else None
    case Failed(_) => Some(Network)
    case _ => g.writeErr
  }

  /** The frame that a flush writes is the next of the message, and its outcome is one of the protocol's. */
  lemma FlushMoves(g: Shared, m: Msg, f: Frame, buffered: seq<byte>, extra: seq<byte>, o: Outcome) returns (b: At)
    requires MsgOK(m) && f.payload == buffered + extra && g.mu && f.Encodable()
    requires f.opcode == (if m.sent == [] then m.opcode else CONTINUATION) && f.rsv1 == (m.sent == [] && m.rsv1)
    requires var taken := Payloads(m.sent) + buffered + extra; taken <= m.data && (f.fin ==> taken == m.data)
    requires if o.Invalid? then IsControl(m.opcode) else Logged(g.masks, f)
    requires o.Taken? || o.Failed? ==> g.writeErr == None && g.tail == []
    requires o.Failed? ==> o.n <= |Encode(f)|
    requires o.Stopped? ==> g.writeErr.Some?
    ensures Leads(At(g, Open(m)), b)
    ensures b.g.wire == g.wire + Added(f, o) && b.g.writeErr == ErrorAfter(g, f, o)
    ensures b.g.masks == g.masks && b.g.pooled == g.pooled && b.g.mu
    ensures if o.Taken? then b.g.log == g.log + [f] && b.g.tail == []
            else o.Failed? || (b.g.log == g.log && b.g.tail == g.tail)
    ensures if o.Taken? && !f.fin
            then b.th == Open(m.(sent := m.sent + [f])) && MsgOK(b.th.m)
                 && b.g.writeMu == g.writeMu && b.g.writer == g.writer && b.g.buffer == g.buffer
            else b.th == Idle && b.g.writeMu && !b.g.writer && !b.g.buffer
  {
    hide Encode, Leads;
    ConcatAssociative(Payloads(m.sent), buffered, extra);
    assert FrameOf(m, f);
    assert g.wire + [] == g.wire;
    match o {
      case Taken =>
        b := FlushSucceeds(g, m, f);
        FragmentAppended(m.opcode, m.rsv1, m.sent, f);
      case Failed(n) => b := FlushFails(g, m, f, n);
      case Stopped => b := FlushRefused(g, m, f);
      case Invalid => b := ControlRefused(g, m);
    }
  }

  lemma PartOf(mw: Writer.MessageWriter, blank: Frame, wire: seq<byte>) returns (f: Frame)
    requires exists key: Option<Key> :: key.Some? == mw.c.Masks() && mw.PartSent(blank.(key := key), wire)
    ensures f == blank.(key := f.key) && f.key.Some? == mw.c.Masks() && mw.PartSent(f, wire)
  {
    var key: Option<Key> :| key.Some? == mw.c.Masks() && mw.PartSent(blank.(key := key), wire);
    f := blank.(key := key);
  }

  /** The connection after a flush with this outcome, given its wire, log and error before. */
  ghost predicate Flushed(c: Writer.Conn, f: Frame, o: Outcome, wire: seq<byte>, log: seq<Frame>,
                          err: Option<Writer.WriteError>)
    reads c
  {
    && f.Encodable() && (o.Failed? ==> o.n <= |Encode(f)|)
    && c.wire == wire + Added(f, o)
    && match o
       case Taken =>
         err == None && c.log == log + [f] && c.writeErr == if f.opcode == CLOSE then Some(Writer.CloseSent) else None
       case Failed(_) => err == None && c.writeErr == Some(Writer.Network)
       case Stopped => err.Some? && c.writeErr == err && c.log == log
       case Invalid => c.writeErr == err && c.log == log
  }

  /** flushFrame, with the frame and the outcome. */
  method Flush(mw: Writer.MessageWriter, final: bool, extra: seq<byte>)
    returns (e: Option<Writer.WriteError>, ghost f: Frame, ghost o: Outcome)
    requires mw.Open() && mw.c.writeErr != Some(Writer.InternalExtra)
    requires mw.pos - Writer.HEADER_SIZE + |extra| <= MAX_INT64 && (extra != [] ==> !mw.c.Masks())
    requires mw.c.writeFrameSize > 0 ==>
      || mw.pos - Writer.HEADER_SIZE + |extra| <= mw.c.writeFrameSize
      || (mw.c.isServer && 2 * mw.bufLen < |extra| <= mw.c.writeFrameSize)
    modifies mw, mw.c, mw.c.writeBuf
    ensures mw.c.Valid() && mw.rsv1 == old(mw.rsv1)
    ensures f == old(mw.NextFrame(final, f.key, extra)) && f.key.Some? == mw.c.Masks()
    ensures Flushed(mw.c, f, o, old(mw.c.wire), old(mw.c.log), old(mw.c.writeErr))
    ensures if o.Invalid? then IsControl(mw.opcode)
            else IsControl(mw.opcode) ==> final && |f.payload| <= MAX_CONTROL_PAYLOAD
    ensures e == None <==> o == Taken
    ensures if e == None && !final
            then mw.Open() && mw.sent == old(mw.sent) + [f] && mw.c.writer == old(mw.c.writer)
                 && mw.c.writeBuf == old(mw.c.writeBuf)
            else mw.c.writeMu && mw.c.writer == null && (mw.c.pooled ==> mw.c.writeBuf == null)
  {
    hide Encode, EncodeAll, Payloads, OpenFragments, Writer.Capped, Writer.CausedBy;
    ghost var wire := mw.c.wire;
    f, o := mw.NextFrame(final, if mw.c.Masks() then Some(Key(0, 0, 0, 0)) else None, extra), Invalid;
    assert wire + [] == wire;
    ghost var sent := mw.sent;
    e := mw.FlushFrame(final, extra);
    if e == None {
      f, o := mw.sent[|sent|], Taken;
      assert mw.sent == sent + [f];
    } else if e != Some(Writer.InvalidControl) {
      o := Stopped;
      if old(mw.c.writeErr) == None {
        f := PartOf(mw, f.(key := None), wire);
        o := Failed(|mw.c.tail|);
      }
    }
  }

  /**
   flushFrame. m.data is what will have been written to the message when it is closed; extra is only passed where
   nothing is masked.
   */
  method FlushFrame(mw: Writer.MessageWriter, final: bool, extra: seq<byte>, ghost m: Msg, ghost g: Shared)
    returns (e: Option<Writer.WriteError>, ghost b: At)
    requires mw.Open() && Abstracts(g, mw.c) && Writes(mw, m)
    requires mw.pos - Writer.HEADER_SIZE + |extra| <= MAX_INT64 && (extra != [] ==> !mw.c.Masks())
    requires mw.c.writeFrameSize > 0 ==>
      || mw.pos - Writer.HEADER_SIZE + |extra| <= mw.c.writeFrameSize
      || (mw.c.isServer && 2 * mw.bufLen < |extra| <= mw.c.writeFrameSize)
    requires mw.Taken() + extra <= m.data && (final ==> mw.Taken() + extra == m.data)
    modifies mw, mw.c, mw.c.writeBuf
    ensures mw.c.Valid() && Abstracts(b.g, mw.c) && Leads(At(g, Open(m)), b)
    ensures if e == None && !final then mw.Open() && b.th == Open(m.(sent := mw.sent)) && Writes(mw, b.th.m)
            else b.th == Idle
  {
    hide Encode, EncodeAll, Leads, Payloads, OpenFragments, MsgOK, Writer.Capped;
    ghost var buffered := mw.Buffered();
    ghost var f, o;
    e, f, o := Flush(mw, final, extra);
    b := FlushMoves(g, m, f, buffered, extra, o);
  }

  // ----- WriteControl -----

  lemma ControlStarts(g: Shared, f: Frame)
    requires Logged(g.masks, f) && IsControl(f.opcode)
    ensures Leads(At(g, Idle), At(g, Waiting(Control(f))))
  {
    hide Logged;
    Stays(At(g, Idle));
    assert StartControl(g, Idle, g, Waiting(Control(f)));
    Steps(At(g, Idle), At(g, Idle), At(g, Waiting(Control(f))));
  }

  /** WriteControl waits for the mutex and gives up. */
  lemma ControlGivesUp(g: Shared, f: Frame)
    requires Logged(g.masks, f) && IsControl(f.opcode)
    ensures Leads(At(g, Idle), At(g, Waiting(Control(f)))) && Move(g, Waiting(Control(f)), g, Idle)
  {
    hide Logged;
    ControlStarts(g, f);
    assert InnerTimeout(g, Waiting(Control(f)), g, Idle);
  }

  lemma ControlMoves(g: Shared, f: Frame, o: Outcome) returns (b: At)
    requires Logged(g.masks, f) && IsControl(f.opcode) && g.mu && g.writeErr == None && g.tail == []
    requires o.Taken? || (o.Failed? && o.n <= |Encode(f)|)
    ensures Leads(At(g, Idle), b) && b.th == Idle
    ensures b.g.wire == g.wire + Added(f, o) && b.g.writeErr == ErrorAfter(g, f, o)
    ensures b.g.masks == g.masks && b.g.pooled == g.pooled && b.g.mu && b.g.writeMu == g.writeMu
    ensures b.g.writer == g.writer && b.g.buffer == g.buffer
    ensures o.Taken? ==> b.g.log == g.log + [f] && b.g.tail == []
  {
    hide Encode, Leads;
    var job := Control(f);
    ControlStarts(g, f);
    if o.Taken? {
      WriteSucceeds(At(g, Idle), g, job);
      b := At(Sent(g, job), Idle);
    } else {
      var g' := WriteFails(At(g, Idle), g, job, o.n);
      b := At(g', Idle);
    }
  }

  /** The frame of which a failed WriteControl sent a part. */
  lemma PartOfControl(c: Writer.Conn, opcode: nat, data: seq<byte>, masks: bool, wire: seq<byte>) returns (f: Frame)
    requires opcode < 16 && |data| <= MAX_INT64
    requires exists key: Option<Key> ::
      key.Some? == masks && c.tail <= Encode(Frame(true, false, opcode, key, data)) && c.wire == wire + c.tail
    ensures f == Frame(true, false, opcode, f.key, data) && f.key.Some? == masks
    ensures c.tail <= Encode(f) && c.wire == wire + c.tail
  {
    var key: Option<Key> :| key.Some? == masks && c.tail <= Encode(Frame(true, false, opcode, key, data))
                            && c.wire == wire + c.tail;
    f := Frame(true, false, opcode, key, data);
  }

  /** WriteControl, by a caller that holds no mutex; another may have a message open. */
  method WriteControl(c: Writer.Conn, messageType: int, data: seq<byte>, expired: bool, ghost g: Shared)
    returns (e: Option<Writer.WriteError>, ghost b: At)
    requires c.Valid() && Abstracts(g, c)
    modifies c`wire, c`log, c`tail, c`writeErr
    ensures c.Valid() && Abstracts(b.g, c) && Leads(At(g, Idle), b) && b.th == Idle
  {
    hide Encode, Leads, Move;
    hide EncodeAll;
    ghost var wire, log := c.wire, c.log;
    Stays(At(g, Idle));
    b := At(g, Idle);
    e := c.WriteControl(messageType, data, expired);
    if e == None {
      ghost var f := c.log[|log|];
      assert g.writeErr == None;
      Writer.OneMore(log, f);
      assert c.log == log + [f] && c.tail == [];
      assert c.wire == wire + Encode(f);
      b := ControlMoves(g, f, Taken);
    } else if e == Some(Writer.Network) && g.writeErr == None {
      ghost var f := PartOfControl(c, messageType, data, c.Masks(), wire);
      b := ControlMoves(g, f, Failed(|c.tail|));
    }
  }

  // ----- WritePreparedMessage -----

  /** A frame and those after it, in one network write. */
  lemma {:induction false} PreparedWritten(a: At, g: Shared, job: Job) returns (b: At)
    requires job.Prepared? && job.f.Encodable() && Sends(g.masks, job.m, job.f, job.more)
    requires g.tail == [] && g.writeErr == None
    requires Leads(a, At(g, Writing(job, Encode(job.f))))
    ensures AllEncodable([job.f] + job.more)
    ensures Leads(a, b) && b.th.Written? && b.th.job.Prepared? && b.th.job.f.fin
    ensures Said(b.th.job.m) == Said(job.m)
    ensures b.g.wire == g.wire + EncodeAll([job.f] + job.more) && b.g.log == g.log + ([job.f] + job.more)
    ensures b.g.tail == [] && b.g.writeErr == None && b.g.writeMu == g.writeMu && b.g.turn == g.turn
    ensures b.g.returned == g.returned && b.g.writer == g.writer && b.g.buffer == g.buffer
    decreases |job.more|
  {
    hide Encode, EncodeAll, Leads, FrameOf, Logged, Sends, Move, Recorded;
    EncodableFirst(g.masks, job);
    var octets := Encode(job.f);
    var at, g1 := At(g, Writing(job, octets)), Recorded(g.(wire := g.wire + octets, tail := []), job);
    EncodedFirst(job.f, job.more);
    if job.more == [] {
      b := At(g1, Written(job));
      LastMove(g, job, octets);
      Steps(a, at, b);
    } else {
      var next := NextJob(job);
      EncodableFirst(g.masks, next);
      NextMove(g, job, octets);
      Steps(a, at, At(g1, Writing(next, Encode(next.f))));
      b := PreparedWritten(a, g1, next);
      assert [next.f] + next.more == job.more;
      ConcatAssociative(g.wire, octets, EncodeAll(job.more));
      ConcatAssociative(g.log, [job.f], job.more);
    }
  }

  lemma EncodedFirst(f: Frame, more: seq<Frame>)
    requires f.Encodable() && AllEncodable(more)
    ensures AllEncodable([f] + more) && EncodeAll([f] + more) == Encode(f) + EncodeAll(more)
    ensures more == [] ==> [f] + more == [f] && EncodeAll([f] + more) == Encode(f)
  {
    hide Encode;
    EncodeAllConcat([f], more);
    assert EncodeAll([f]) == Encode(f) + EncodeAll([]) == Encode(f);
  }

  lemma LastMove(g: Shared, job: Job, left: seq<byte>)
    requires job.Prepared? && job.more == []
    ensures Move(g, Writing(job, left), Recorded(g.(wire := g.wire + left, tail := []), job), Written(job))
  {
    hide Recorded;
    assert WriteLast(g, Writing(job, left), Recorded(g.(wire := g.wire + left, tail := []), job), Written(job));
  }

  lemma NextMove(g: Shared, job: Job, left: seq<byte>)
    requires job.Prepared? && job.more != [] && job.more[0].Encodable()
    ensures Move(g, Writing(job, left), Recorded(g.(wire := g.wire + left, tail := []), job),
                 Writing(NextJob(job), Encode(job.more[0])))
  {
    hide Recorded, Encode;
    assert WriteNext(g, Writing(job, left), Recorded(g.(wire := g.wire + left, tail := []), job),
                     Writing(NextJob(job), Encode(job.more[0])));
  }

  /** A call of WritePreparedMessage, when the network takes everything: it sends all its frames and returns. */
  lemma PreparedSent(g: Shared, m: Msg, f: Frame, more: seq<Frame>) returns (b: At)
    requires g.writeMu && g.mu && g.writeErr == None && g.tail == [] && m.sent == [] && Sends(g.masks, m, f, more)
    ensures AllEncodable([f] + more)
    ensures Leads(At(g, Idle), b) && b.th == Idle && b.g.writeMu && b.g.mu
    ensures b.g.wire == g.wire + EncodeAll([f] + more) && b.g.log == g.log + ([f] + more)
    ensures b.g.writeErr.Some? ==> b.g.writeErr == Some(CloseSent)
    ensures b.g.returned == g.returned + if IsData(m.opcode) then [Call(g.turn + 1, Said(m))] else []
  {
    hide Encode, Leads, FrameOf, Logged, Sends, Move;
    var job := Prepared(m, f, more);
    EncodableFirst(g.masks, job);
    var a := At(g, Idle);
    var g1 := g.(writeMu := false, turn := g.turn + 1);
    Stays(a);
    PreparedMove(g, m, f, more);
    Steps(a, a, At(g1, Waiting(job)));
    Acquired(a, g1, job);
    b := PreparedWritten(a, g1.(mu := false), job);
    var last := b.th.job;
    var g2 := b.g.(writeErr := if last.f.opcode == CLOSE then Some(CloseSent) else None);
    LatchMove(b.g, last, g2);
    Steps(a, b, At(g2, Releasing(last, true)));
    ReleaseMove(g2, last, true);
    var done := Finished(last.m, last.f, true);
    Steps(a, At(g2, Releasing(last, true)), At(g2.(mu := true), Leaving(done)));
    LeaveMove(g2.(mu := true), done);
    b := At(Returned(g2.(mu := true), done).(writeMu := true), Idle);
    Steps(a, At(g2.(mu := true), Leaving(done)), b);
  }

  lemma PreparedMove(g: Shared, m: Msg, f: Frame, more: seq<Frame>)
    requires g.writeMu && m.sent == [] && Sends(g.masks, m, f, more)
    ensures Move(g, Idle, g.(writeMu := false, turn := g.turn + 1), Waiting(Prepared(m, f, more)))
  {
    hide Sends;
    assert StartPrepared(g, Idle, g.(writeMu := false, turn := g.turn + 1), Waiting(Prepared(m, f, more)));
  }

  lemma LeaveMove(g: Shared, done: Option<Msg>)
    ensures Move(g, Leaving(done), Returned(g, done).(writeMu := true), Idle)
  {
    assert Leave(g, Leaving(done), Returned(g, done).(writeMu := true), Idle);
  }

  lemma {:induction false} EncodableFirst(masks: bool, job: Job)
    requires job.Prepared? && Sends(masks, job.m, job.f, job.more)
    ensures job.f.Encodable() && AllEncodable(job.more) && (job.more == [] <==> job.f.fin)
    ensures job.more != [] ==> Sends(masks, NextJob(job).m, NextJob(job).f, NextJob(job).more)
    decreases |job.more|
  {
    if job.more != [] {
      EncodableFirst(masks, NextJob(job));
    }
  }

  // ----- as part of a run -----

  /** Where a run has come to a state of the connection and of a caller, the caller's steps continue the run. */
  lemma {:induction false} RunContinues(ss: seq<State>, t: nat, ps: seq<At>) returns (run: seq<State>)
    requires Run(ss) && t in ss[|ss| - 1].threads && Path(ps)
    requires ps[0] == At(ss[|ss| - 1].g, ss[|ss| - 1].threads[t])
    ensures Run(run) && ss <= run
    ensures run[|run| - 1] == State(ps[|ps| - 1].g, ss[|ss| - 1].threads[t := ps[|ps| - 1].th])
    decreases |ps|
  {
    hide Move, Init;
    var s := ss[|ss| - 1];
    if |ps| == 1 {
      run := ss;
      assert s.threads[t := s.threads[t]] == s.threads;
    } else {
      var s' := State(ps[1].g, s.threads[t := ps[1].th]);
      assert Move(ps[0].g, ps[0].th, ps[0 + 1].g, ps[0 + 1].th);
      assert StepOf(s, s', t);
      var longer := ss + [s'];
      forall i | 0 <= i < |longer| - 1
        ensures Step(longer[i], longer[i + 1])
      {
        if i < |ss| - 1 {
          assert Step(ss[i], ss[i + 1]);
        }
      }
      run := RunContinues(longer, t, ps[1..]);
      assert s'.threads[t := ps[|ps| - 1].th] == s.threads[t := ps[|ps| - 1].th];
    }
  }

  /** So every call of the classes above takes a run of the protocol to another. */
  lemma CallContinues(ss: seq<State>, t: nat, b: At) returns (run: seq<State>)
    requires Run(ss) && t in ss[|ss| - 1].threads
    requires Leads(At(ss[|ss| - 1].g, ss[|ss| - 1].threads[t]), b)
    ensures Run(run) && ss <= run
    ensures run[|run| - 1] == State(b.g, ss[|ss| - 1].threads[t := b.th])
  {
    hide Move;
    var a := At(ss[|ss| - 1].g, ss[|ss| - 1].threads[t]);
    var ps: seq<At> :| Path(ps) && ps[0] == a && ps[|ps| - 1] == b;
    run := RunContinues(ss, t, ps);
  }
}
