/**
 The two-lock write protocol of conn.go. Any number of callers run WriteMessage, NextWriter to Close,
 WritePreparedMessage and WriteControl at the same time; one step of one caller is one step of the machine.
 The locks are tokens: writeMu is held from the first to the last frame of a message, mu around one network write.
 */
module WriteProtocol {
  import opened Bytes
  import opened Frames

  datatype WriteError = CloseSent | Network

  /** A call that writes a message: its type, its payload, RSV1 of its first frame, and the frames already written. */
  datatype Msg = Msg(opcode: nat, rsv1: bool, data: seq<byte>, sent: seq<Frame>)

  function Said(m: Msg): Message {
    Message(m.opcode, m.rsv1, m.data)
  }

  /** One call that ends in a network write. */
  datatype Job =
    | Fragment(m: Msg, f: Frame)        // flushFrame
    | Control(f: Frame)                 // WriteControl
    | Prepared(m: Msg, f: Frame, more: seq<Frame>)  // WritePreparedMessage: f, then more, in one write

  datatype Thread =
    | Idle
    | Begin(m: Msg, current: bool)      // holds writeMu, in beginMessage; current: through NextWriter
    | Open(m: Msg)                      // holds writeMu, between two flushes
    | Waiting(job: Job)                 // for mu
    | Holding(job: Job)                 // holds mu, has not looked at writeErr
    | Writing(job: Job, left: seq<byte>)
    | Written(job: Job)                 // the frame is on the wire, writeErr not yet latched for a Close frame
    | Releasing(job: Job, ok: bool)     // still holds mu
    | Ending(done: Option<Msg>)         // endMessage: holds writeMu; done: the data message will have succeeded
    | Leaving(done: Option<Msg>)        // the deferred release of WritePreparedMessage: holds writeMu

  /** A data message and the turn of its caller: the number of times that writeMu had been taken, with its own. */
  datatype Call = Call(turn: nat, message: Message)

  /**
   From turn on the fields are history: the whole frames on the wire and the octets after them, the frames of the
   data messages, whose calls those are, and which of these have returned without an error.
   */
  datatype Shared = Shared(
    masks: bool,
    pooled: bool,
    writeMu: bool,                      // the token is in its channel
    mu: bool,
    writeErr: Option<WriteError>,
    wire: seq<byte>,
    writer: bool,                       // c.writer is not nil
    buffer: bool,                       // a pooled write buffer is held
    turn: nat,                          // how often writeMu was taken
    log: seq<Frame>,
    tail: seq<byte>,
    messages: seq<seq<Frame>>,          // the data messages written in full
    partial: seq<Frame>,                // the frames of a data message that is not complete
    calls: seq<Call>,                   // the calls of messages
    returned: seq<Call>)

  datatype State = State(g: Shared, threads: map<nat, Thread>)

  predicate HasJob(th: Thread) {
    th.Waiting? || HasInner(th)
  }

  predicate HasOuter(th: Thread) {
    th.Begin? || th.Open? || th.Ending? || th.Leaving? || (HasJob(th) && !th.job.Control?)
  }

  predicate HasInner(th: Thread) {
    th.Holding? || th.Writing? || th.Written? || th.Releasing?
  }

  // ----- the effect of a step -----

  /** A token is taken only from its channel, and given back only by a caller that held it. */
  predicate Conserved(free: bool, held: bool, free': bool, held': bool) {
    if held == held' then free' == free else if held' then free && !free' else free'
  }

  /** Without a mutex a caller changes nothing that the mutex guards; writeErr, once set, stays. */
  predicate Guarded(g: Shared, outer: bool, inner: bool, g': Shared) {
    && g'.masks == g.masks && g'.pooled == g.pooled
    && (g.writeErr.Some? ==> g'.writeErr == g.writeErr)
    && (!outer ==>
          && g'.partial == g.partial && g'.messages == g.messages && g'.writer == g.writer && g'.buffer == g.buffer
          && g'.turn == g.turn && g'.calls == g.calls && g'.returned == g.returned)
    && (!inner ==> g'.wire == g.wire && g'.log == g.log && g'.tail == g.tail && g'.writeErr == g.writeErr)
  }

  /** Only a caller in its network write adds to the wire. */
  predicate Quieted(g: Shared, th: Thread, g': Shared) {
    !th.Writing? ==> g'.wire == g.wire && g'.log == g.log && g'.messages == g.messages && g'.calls == g.calls
  }

  predicate Effect(g: Shared, th: Thread, g': Shared, th': Thread) {
    && Conserved(g.writeMu, HasOuter(th), g'.writeMu, HasOuter(th'))
    && Conserved(g.mu, HasInner(th), g'.mu, HasInner(th'))
    && Guarded(g, HasOuter(th) || HasOuter(th'), HasInner(th) || HasInner(th'), g')
    && Quieted(g, th, g')
  }

  // ----- the steps -----

  /** A frame that a caller may hand to the network: control frames are whole and have at most 125 octets. */
  predicate Logged(masks: bool, f: Frame) {
    f.Encodable() && f.key.Some? == masks && (IsControl(f.opcode) ==> f.fin && |f.payload| <= MAX_CONTROL_PAYLOAD)
  }

  /** f is the next frame of the message: its payload goes on with the data, and is the rest of it if f is the last. */
  predicate FrameOf(m: Msg, f: Frame) {
    && MsgOK(m) && Continues(m.opcode, m.rsv1, m.sent, f)
    && var octets := Payloads(m.sent) + f.payload;
       octets <= m.data && (f.fin ==> octets == m.data)
  }

  /** f and the frames after it are what is left of the message. */
  predicate Sends(masks: bool, m: Msg, f: Frame, more: seq<Frame>)
    decreases |more|
  {
    && Logged(masks, f) && FrameOf(m, f) && (f.fin <==> more == [])
    && (more != [] ==> Sends(masks, m.(sent := m.sent + [f]), more[0], more[1..]))
  }

  predicate MsgOK(m: Msg) {
    && OpenFragments(m.opcode, m.rsv1, m.sent)
    && if IsControl(m.opcode) then m.sent == [] && !m.rsv1 else IsData(m.opcode)
  }

  /** acquireWriteMu for a message; a caller that times out does not move. */
  ghost predicate AcquireOuter(g: Shared, th: Thread, g': Shared, th': Thread)
    ensures AcquireOuter(g, th, g', th') ==> Effect(g, th, g', th')
  {
    th == Idle && g.writeMu &&
    exists m: Msg, current: bool ::
      && m.sent == [] && (m.rsv1 ==> IsData(m.opcode))
      && th' == Begin(m, current) && g' == g.(writeMu := false, turn := g.turn + 1)
  }

  /** beginMessage fails: releaseWriteMu on the error path. */
  predicate BeginFails(g: Shared, th: Thread, g': Shared, th': Thread)
    ensures BeginFails(g, th, g', th') ==> Effect(g, th, g', th')
  {
    && th.Begin? && !g.writer
    && ((!IsControl(th.m.opcode) && !IsData(th.m.opcode)) || g.writeErr.Some?)
    && th' == Idle && g' == g.(writeMu := true)
  }

  /** beginMessage succeeds; the pooled buffer is taken here. */
  predicate BeginSucceeds(g: Shared, th: Thread, g': Shared, th': Thread)
    ensures BeginSucceeds(g, th, g', th') ==> Effect(g, th, g', th')
  {
    && th.Begin? && !g.writer && g.writeErr == None
    && (IsControl(th.m.opcode) || IsData(th.m.opcode))
    && th' == Open(th.m) && g' == g.(writer := th.current, buffer := g.pooled)
  }

  /** flushFrame: the frame continues the message; control messages are one frame of at most 125 octets. */
  ghost predicate StartFlush(g: Shared, th: Thread, g': Shared, th': Thread)
    ensures StartFlush(g, th, g', th') ==> Effect(g, th, g', th')
  {
    th.Open? &&
    var m := th.m;
    exists f: Frame ::
      && Logged(g.masks, f) && FrameOf(m, f)
      && th' == Waiting(Fragment(m, f)) && g' == g
  }

  /** flushFrame refuses a fragmented or long control message. */
  predicate RefuseControl(g: Shared, th: Thread, g': Shared, th': Thread)
    ensures RefuseControl(g, th, g', th') ==> Effect(g, th, g', th')
  {
    th.Open? && th.m.sent == [] && IsControl(th.m.opcode) && th' == Ending(None) && g' == g
  }

  ghost predicate StartControl(g: Shared, th: Thread, g': Shared, th': Thread)
    ensures StartControl(g, th, g', th') ==> Effect(g, th, g', th')
  {
    th == Idle &&
    exists f: Frame ::
      && Logged(g.masks, f) && IsControl(f.opcode)
      && th' == Waiting(Control(f)) && g' == g
  }

  ghost predicate StartPrepared(g: Shared, th: Thread, g': Shared, th': Thread)
    ensures StartPrepared(g, th, g', th') ==> Effect(g, th, g', th')
  {
    th == Idle && g.writeMu &&
    exists m: Msg, f: Frame, more: seq<Frame> ::
      && m.sent == [] && Sends(g.masks, m, f, more)
      && th' == Waiting(Prepared(m, f, more)) && g' == g.(writeMu := false, turn := g.turn + 1)
  }

  /** WriteControl gives up waiting for mu at its deadline. */
  predicate InnerTimeout(g: Shared, th: Thread, g': Shared, th': Thread)
    ensures InnerTimeout(g, th, g', th') ==> Effect(g, th, g', th')
  {
    th.Waiting? && th.job.Control? && th' == Idle && g' == g
  }

  predicate AcquireInner(g: Shared, th: Thread, g': Shared, th': Thread)
    ensures AcquireInner(g, th, g', th') ==> Effect(g, th, g', th')
  {
    th.Waiting? && g.mu && th' == Holding(th.job) && g' == g.(mu := false)
  }

  /** writeErr is already set. */
  predicate WriteRefused(g: Shared, th: Thread, g': Shared, th': Thread)
    ensures WriteRefused(g, th, g', th') ==> Effect(g, th, g', th')
  {
    th.Holding? && g.writeErr.Some? && th' == Releasing(th.job, false) && g' == g
  }

  /** SetWriteDeadline fails, or the network fails after taking none, some or all of the octets. */
  predicate NetworkFails(g: Shared, th: Thread, g': Shared, th': Thread)
    ensures NetworkFails(g, th, g', th') ==> Effect(g, th, g', th')
  {
    && (th.Holding? || th.Writing? || th.Written?) && g.writeErr == None
    && th' == Releasing(th.job, false) && g' == g.(writeErr := Some(Network))
  }

  predicate StartWrite(g: Shared, th: Thread, g': Shared, th': Thread)
    ensures StartWrite(g, th, g', th') ==> Effect(g, th, g', th')
  {
    && th.Holding? && g.writeErr == None && th.job.f.Encodable()
    && th' == Writing(th.job, Encode(th.job.f)) && g' == g
  }

  /** The network takes some of the octets, but not the last. */
  ghost predicate WriteSome(g: Shared, th: Thread, g': Shared, th': Thread)
    ensures WriteSome(g, th, g', th') ==> Effect(g, th, g', th')
  {
    th.Writing? &&
    var left := th.left;
    exists n :: 0 < n < |left| &&
      th' == Writing(th.job, left[n..]) && g' == g.(wire := g.wire + left[..n], tail := g.tail + left[..n])
  }

  /** The network takes the rest of the last frame. */
  predicate WriteLast(g: Shared, th: Thread, g': Shared, th': Thread)
  {
    && th.Writing? && (th.job.Prepared? ==> th.job.more == [])
    && th' == Written(th.job) && g' == Recorded(g.(wire := g.wire + th.left, tail := []), th.job)
  }

  /** The network takes the rest of a frame of a prepared message, and another follows. */
  predicate WriteNext(g: Shared, th: Thread, g': Shared, th': Thread)
  {
    && th.Writing? && th.job.Prepared? && th.job.more != [] && th.job.more[0].Encodable()
    && th' == Writing(NextJob(th.job), Encode(th.job.more[0]))
    && g' == Recorded(g.(wire := g.wire + th.left, tail := []), th.job)
  }

  function NextJob(job: Job): Job
    requires job.Prepared? && job.more != []
  {
    Prepared(job.m.(sent := job.m.sent + [job.f]), job.more[0], job.more[1..])
  }

  /** The history of a frame that is now whole on the wire. */
  function Recorded(g: Shared, job: Job): (g': Shared)
    ensures g'.masks == g.masks && g'.pooled == g.pooled && g'.writeErr == g.writeErr && g'.wire == g.wire
    ensures g'.writeMu == g.writeMu && g'.mu == g.mu && g'.writer == g.writer && g'.buffer == g.buffer
    ensures g'.turn == g.turn && g'.returned == g.returned && g'.tail == g.tail && g'.log == g.log + [job.f]
    ensures job.Control? ==> g'.messages == g.messages && g'.partial == g.partial && g'.calls == g.calls
  {
    var f := job.f;
    var g1 := g.(log := g.log + [f]);
    if job.Control? || IsControl(f.opcode) then g1
    else if f.fin then
      g1.(messages := g.messages + [g.partial + [f]], partial := [],
          calls := g.calls + [Call(g.turn, Said(job.m))])
    else g1.(partial := g.partial + [f])
  }

  predicate Latch(g: Shared, th: Thread, g': Shared, th': Thread)
    ensures Latch(g, th, g', th') ==> Effect(g, th, g', th')
  {
    && th.Written?
    && var job := th.job;
    && th' == Releasing(job, true) && g' == g.(
         writeErr := if g.writeErr == None && job.f.opcode == CLOSE then Some(CloseSent) else g.writeErr)
  }

  predicate ReleaseInner(g: Shared, th: Thread, g': Shared, th': Thread)
    ensures ReleaseInner(g, th, g', th') ==> Effect(g, th, g', th')
  {
    && th.Releasing?
    && th' == AfterWrite(th.job, th.ok) && g' == g.(mu := true)
  }

  function AfterWrite(job: Job, ok: bool): Thread {
    match job
    case Control(_) => Idle
    case Prepared(m, f, _) => Leaving(Finished(m, f, ok))
    case Fragment(m, f) => if ok && !f.fin then Open(m.(sent := m.sent + [f])) else Ending(Finished(m, f, ok))
  }

  /** The data message of a call that is about to succeed. */
  function Finished(m: Msg, f: Frame, ok: bool): Option<Msg> {
    if ok && f.fin && IsData(m.opcode) then Some(m) else None
  }

  /** The history of a call that returns. */
  function Returned(g: Shared, done: Option<Msg>): Shared {
    if done.Some? then g.(returned := g.returned + [Call(g.turn, Said(done.value))]) else g
  }

  predicate EndMessage(g: Shared, th: Thread, g': Shared, th': Thread)
    ensures EndMessage(g, th, g', th') ==> Effect(g, th, g', th')
  {
    && th.Ending? && th' == Idle
    && g' == Returned(g, th.done).(writer := false, buffer := false, writeMu := true)
  }

  predicate Leave(g: Shared, th: Thread, g': Shared, th': Thread)
    ensures Leave(g, th, g', th') ==> Effect(g, th, g', th')
  {
    th.Leaving? && th' == Idle && g' == Returned(g, th.done).(writeMu := true)
  }

  ghost predicate Move(g: Shared, th: Thread, g': Shared, th': Thread) {
    || AcquireOuter(g, th, g', th') || BeginFails(g, th, g', th') || BeginSucceeds(g, th, g', th')
    || StartPrepared(g, th, g', th') || EndMessage(g, th, g', th') || Leave(g, th, g', th')
    || StartFlush(g, th, g', th') || RefuseControl(g, th, g', th') || StartControl(g, th, g', th')
    || InnerTimeout(g, th, g', th') || StartWrite(g, th, g', th') || WriteRefused(g, th, g', th')
    || AcquireInner(g, th, g', th') || NetworkFails(g, th, g', th') || WriteSome(g, th, g', th')
    || WriteLast(g, th, g', th') || WriteNext(g, th, g', th') || Latch(g, th, g', th') || ReleaseInner(g, th, g', th')
  }

  /** Caller t makes one step. */
  ghost predicate StepOf(s: State, s': State, t: nat) {
    && t in s.threads && t in s'.threads && s'.threads == s.threads[t := s'.threads[t]]
    && Move(s.g, s.threads[t], s'.g, s'.threads[t])
  }

  ghost predicate Step(s: State, s': State) {
    exists t :: StepOf(s, s', t)
  }

  predicate InitShared(g: Shared) {
    && g.writeMu && g.mu && g.writeErr == None && g.wire == [] && !g.writer && !g.buffer
    && g.log == [] && g.tail == [] && g.messages == [] && g.partial == [] && g.calls == [] && g.returned == []
  }

  ghost predicate Init(s: State) {
    InitShared(s.g) && forall t :: t in s.threads ==> s.threads[t] == Idle
  }

  ghost predicate Run(ss: seq<State>) {
    ss != [] && Init(ss[0]) && forall i :: 0 <= i < |ss| - 1 ==> Step(ss[i], ss[i + 1])
  }

  // ----- conservation of the tokens -----

  ghost predicate OuterToken(s: State) {
    && (forall t, u :: t in s.threads && u in s.threads && HasOuter(s.threads[t]) && HasOuter(s.threads[u]) ==> t == u)
    && (s.g.writeMu <==> forall t :: t in s.threads ==> !HasOuter(s.threads[t]))
  }

  ghost predicate InnerToken(s: State) {
    && (forall t, u :: t in s.threads && u in s.threads && HasInner(s.threads[t]) && HasInner(s.threads[u]) ==> t == u)
    && (s.g.mu <==> forall t :: t in s.threads ==> !HasInner(s.threads[t]))
  }

  /** Each token is in its channel or held by exactly one caller. */
  ghost predicate Tokens(s: State) {
    OuterToken(s) && InnerToken(s)
  }

  lemma WriteEffect(g: Shared, th: Thread, g': Shared, th': Thread)
    requires WriteLast(g, th, g', th') || WriteNext(g, th, g', th')
    ensures Effect(g, th, g', th')
  {
    hide Recorded, Encode;
  }

  lemma MoveEffect(g: Shared, th: Thread, g': Shared, th': Thread)
    requires Move(g, th, g', th')
    ensures Effect(g, th, g', th')
  {
    hide Effect, AcquireOuter, BeginFails, BeginSucceeds, StartPrepared, EndMessage, Leave;
    hide StartFlush, RefuseControl, StartControl, InnerTimeout, StartWrite, WriteRefused;
    hide AcquireInner, NetworkFails, WriteSome, WriteLast, WriteNext, Latch, ReleaseInner;
    if WriteLast(g, th, g', th') || WriteNext(g, th, g', th') {
      WriteEffect(g, th, g', th');
    }
  }

  lemma OuterTokenStep(s: State, s': State, t: nat)
    requires OuterToken(s) && StepOf(s, s', t)
    ensures OuterToken(s')
  {
    hide HasOuter, HasInner, Move;
    MoveEffect(s.g, s.threads[t], s'.g, s'.threads[t]);
    assert forall u :: u in s.threads && u != t ==> s'.threads[u] == s.threads[u];
  }

  lemma InnerTokenStep(s: State, s': State, t: nat)
    requires InnerToken(s) && StepOf(s, s', t)
    ensures InnerToken(s')
  {
    hide HasOuter, HasInner, Move;
    MoveEffect(s.g, s.threads[t], s'.g, s'.threads[t]);
    assert forall u :: u in s.threads && u != t ==> s'.threads[u] == s.threads[u];
  }

  /** No acquire is ever without its one release, and no release without its acquire. */
  lemma TokensStep(s: State, s': State)
    requires Tokens(s) && Step(s, s')
    ensures Tokens(s')
  {
    hide StepOf, OuterToken, InnerToken;
    var t :| StepOf(s, s', t);
    OuterTokenStep(s, s', t);
    InnerTokenStep(s, s', t);
  }

  // ----- what every reachable state satisfies -----

  predicate WholeData(fs: seq<Frame>) {
    fs != [] && IsData(fs[0].opcode) && WholeMessage(fs[0].opcode, fs[0].rsv1, fs)
  }

  predicate OpenData(fs: seq<Frame>) {
    fs != [] ==> IsData(fs[0].opcode) && OpenFragments(fs[0].opcode, fs[0].rsv1, fs)
  }

  predicate HasClose(log: seq<Frame>) {
    exists i :: 0 <= i < |log| && log[i].opcode == CLOSE
  }

  /** The wire is whole frames and at most one unfinished one; the data frames are messages in one piece each. */
  ghost predicate WireShape(g: Shared) {
    WireWhole(g) && Contiguous(g.log, g.messages, g.partial)
  }

  /** Frames in full, then the octets of an unfinished one. */
  ghost predicate WireWhole(g: Shared) {
    && (forall f :: f in g.log ==> Logged(g.masks, f))
    && g.wire == EncodeAll(g.log) + g.tail
  }

  /** Without its control frames the log is whole messages, each in one piece, and one that is not finished. */
  ghost predicate Contiguous(log: seq<Frame>, messages: seq<seq<Frame>>, partial: seq<Frame>) {
    && DataFrames(log) == Concat(messages) + partial
    && (forall m :: m in messages ==> WholeData(m)) && OpenData(partial)
  }

  /** A Close frame is the last frame, and no octet follows it. */
  predicate CloseIsLast(g: Shared) {
    && (forall i :: 0 <= i < |g.log| - 1 ==> g.log[i].opcode != CLOSE)
    && (HasClose(g.log) ==> g.tail == [])
  }

  /** No frame is in progress: the wire ends with a whole frame, or the network has failed for good. */
  predicate Quiet(g: Shared) {
    && (g.tail != [] ==> g.writeErr == Some(Network))
    && (HasClose(g.log) ==> g.writeErr.Some?)
  }

  /** The octets after the last whole frame begin another frame. */
  ghost predicate TailOfFrame(tail: seq<byte>) {
    tail == [] || exists f: Frame :: f.Encodable() && tail < Encode(f)
  }

  /** What a free token tells. */
  predicate Free(g: Shared) {
    && (g.writeMu ==> !g.writer && !g.buffer && Expects(g, []))
    && (g.mu ==> Quiet(g))
  }

  /** Unless writes have stopped, exactly these frames of a data message are unfinished, and all calls have returned. */
  predicate Expects(g: Shared, fs: seq<Frame>) {
    g.writeErr == None ==> g.partial == fs && g.returned == g.calls
  }

  /** The caller that holds writeMu has written no whole message yet. */
  predicate Unrecorded(g: Shared) {
    forall i :: 0 <= i < |g.calls| ==> g.calls[i].turn < g.turn
  }

  /** It has written the message m, and has not returned. */
  predicate Pending(g: Shared, m: Msg) {
    && g.calls == g.returned + [Call(g.turn, Said(m))]
    && (g.writeErr == None ==> g.partial == [])
  }

  predicate JobOK(g: Shared, job: Job) {
    && Logged(g.masks, job.f)
    && match job
       case Fragment(m, f) => FrameOf(m, f)
       case Control(f) => IsControl(f.opcode)
       case Prepared(m, f, more) => Sends(g.masks, m, f, more)
  }

  /** The frames of the message that a caller with writeMu has written before and after its frame. */
  function Before(job: Job): seq<Frame> {
    if job.Control? then [] else job.m.sent
  }

  function After(job: Job): seq<Frame> {
    if job.Control? || job.f.fin then [] else job.m.sent + [job.f]
  }

  predicate BufferOK(g: Shared, job: Job) {
    && (job.Prepared? ==> !g.writer && !g.buffer)
    && (job.Fragment? ==> g.buffer == g.pooled)
  }

  /** While the frame is still to be written. */
  predicate Early(g: Shared, job: Job) {
    !job.Control? ==> BufferOK(g, job) && Expects(g, Before(job)) && Unrecorded(g)
  }

  /** Once the frame is written. */
  predicate Late(g: Shared, job: Job) {
    !job.Control? ==>
      && BufferOK(g, job)
      && if job.f.fin && IsData(job.m.opcode) then Pending(g, job.m) else Expects(g, After(job)) && Unrecorded(g)
  }

  predicate ReturnOK(g: Shared, done: Option<Msg>) {
    if done.Some? then Pending(g, done.value) else Expects(g, [])
  }

  ghost predicate ThreadOK(g: Shared, th: Thread) {
    match th
    case Idle => true
    case Begin(m, _) =>
      && m.sent == [] && (m.rsv1 ==> IsData(m.opcode)) && !g.writer && !g.buffer
      && Expects(g, []) && Unrecorded(g)
    case Open(m) => MsgOK(m) && Expects(g, m.sent) && Unrecorded(g) && g.buffer == g.pooled
    case Waiting(job) => JobOK(g, job) && Early(g, job)
    case Holding(job) => JobOK(g, job) && Early(g, job) && Quiet(g)
    case Writing(job, left) =>
      && JobOK(g, job) && Early(g, job) && g.writeErr == None && !HasClose(g.log)
      && left != [] && g.tail + left == Encode(job.f)
    case Written(job) =>
      && JobOK(g, job) && Late(g, job) && g.writeErr == None && g.tail == []
      && (job.Prepared? ==> job.f.fin)
      && g.log != [] && g.log[|g.log| - 1] == job.f
    case Releasing(job, ok) =>
      && JobOK(g, job) && Quiet(g) && BufferOK(g, job)
      && if ok then Late(g, job) && (job.Prepared? ==> job.f.fin) else g.writeErr.Some?
    case Ending(done) => ReturnOK(g, done) && g.buffer == g.pooled
    case Leaving(done) => ReturnOK(g, done) && !g.writer && !g.buffer
  }

  /** The calls of the whole messages took writeMu in this order; all but the last have returned without an error. */
  predicate CallsOK(g: Shared) {
    InTurn(g.calls, g.messages, g.returned, g.turn)
  }

  predicate InTurn(calls: seq<Call>, messages: seq<seq<Frame>>, returned: seq<Call>, turn: nat) {
    && |calls| == |messages|
    && (forall i :: 0 <= i < |calls| ==> calls[i].message == MessageIn(messages[i]) && calls[i].turn <= turn)
    && (forall i, j :: 0 <= i < j < |calls| ==> calls[i].turn < calls[j].turn)
    && returned <= calls && |calls| <= |returned| + 1
  }

  ghost predicate SharedOK(g: Shared) {
    WireShape(g) && CloseIsLast(g) && TailOfFrame(g.tail) && Free(g) && CallsOK(g)
  }

  ghost predicate Inv(s: State) {
    && Tokens(s) && SharedOK(s.g)
    && forall t :: t in s.threads ==> ThreadOK(s.g, s.threads[t])
  }

  lemma RecordedOctets(log: seq<Frame>, tail: seq<byte>, f: Frame, left: seq<byte>)
    requires AllEncodable(log) && f.Encodable() && tail + left == Encode(f)
    ensures AllEncodable(log + [f]) && (EncodeAll(log) + tail) + left == EncodeAll(log + [f]) + []
  {
    hide Encode;
    EncodeAllConcat(log, [f]);
    assert EncodeAll([f]) == Encode(f) + EncodeAll([]);
    ConcatAssociative(EncodeAll(log), tail, left);
  }

  lemma RecordedWire(g: Shared, job: Job, left: seq<byte>)
    requires WireWhole(g) && Logged(g.masks, job.f) && g.tail + left == Encode(job.f)
    ensures WireWhole(Recorded(g.(wire := g.wire + left, tail := []), job))
  {
    hide Encode, EncodeAll;
    RecordedOctets(g.log, g.tail, job.f, left);
    var g' := Recorded(g.(wire := g.wire + left, tail := []), job);
    assert g'.log == g.log + [job.f] && g'.wire == g.wire + left && g'.tail == [] && g'.masks == g.masks;
  }

  lemma RecordedControl(log: seq<Frame>, messages: seq<seq<Frame>>, partial: seq<Frame>, f: Frame)
    requires Contiguous(log, messages, partial) && IsControl(f.opcode)
    ensures Contiguous(log + [f], messages, partial)
  {
    DataFramesAppend(log, f);
    assert DataFrames(log) + [] == DataFrames(log);
  }

  lemma RecordedLast(log: seq<Frame>, messages: seq<seq<Frame>>, partial: seq<Frame>, f: Frame)
    requires Contiguous(log, messages, partial) && !IsControl(f.opcode) && WholeData(partial + [f])
    ensures Contiguous(log + [f], messages + [partial + [f]], [])
  {
    hide WholeData;
    DataFramesAppend(log, f);
    ConcatAppend(messages, partial + [f]);
    ConcatAssociative(Concat(messages), partial, [f]);
    assert Concat(messages + [partial + [f]]) + [] == Concat(messages + [partial + [f]]);
  }

  lemma RecordedNext(log: seq<Frame>, messages: seq<seq<Frame>>, partial: seq<Frame>, f: Frame)
    requires Contiguous(log, messages, partial) && !IsControl(f.opcode) && OpenData(partial + [f])
    ensures Contiguous(log + [f], messages, partial + [f])
  {
    hide WholeData, OpenData;
    DataFramesAppend(log, f);
    ConcatAssociative(Concat(messages), partial, [f]);
  }

  lemma RecordedMessage(m: Msg, f: Frame)
    requires FrameOf(m, f) && !IsControl(f.opcode)
    ensures IsData(m.opcode)
    ensures var fs := m.sent + [f];
            if f.fin then WholeData(fs) && MessageIn(fs) == Said(m) else OpenData(fs)
  {
    FragmentAppended(m.opcode, m.rsv1, m.sent, f);
    var fs := m.sent + [f];
    assert fs[0].opcode == m.opcode && fs[0].rsv1 == m.rsv1;
    PayloadsConcat(m.sent, [f]);
    assert Payloads([f]) == f.payload + Payloads([]) == f.payload;
  }

  /** Recording a frame keeps the shape of the wire. */
  lemma RecordedShape(g: Shared, job: Job, left: seq<byte>)
    requires WireShape(g) && Logged(g.masks, job.f) && g.tail + left == Encode(job.f)
    requires if job.Control? then IsControl(job.f.opcode) else FrameOf(job.m, job.f) && g.partial == Before(job)
    ensures var g' := Recorded(g.(wire := g.wire + left, tail := []), job);
            WireShape(g') && (!job.Control? ==> g'.partial == After(job))
  {
    hide Encode, OpenFragments, WholeMessage, WireWhole, Contiguous, WholeData, OpenData;
    var f := job.f;
    RecordedWire(g, job, left);
    if IsControl(f.opcode) {
      RecordedControl(g.log, g.messages, g.partial, f);
      if !job.Control? {
        ControlAlone(job.m, f);
      }
    } else {
      RecordedMessage(job.m, f);
      if f.fin {
        RecordedLast(g.log, g.messages, g.partial, f);
      } else {
        RecordedNext(g.log, g.messages, g.partial, f);
      }
    }
  }

  /** A control message is one frame. */
  lemma ControlAlone(m: Msg, f: Frame)
    requires FrameOf(m, f) && IsControl(f.opcode)
    ensures IsControl(m.opcode) && m.sent == []
  {
  }

  lemma CallAdded(calls: seq<Call>, messages: seq<seq<Frame>>, turn: nat, m: Message, fs: seq<Frame>)
    requires InTurn(calls, messages, calls, turn) && MessageIn(fs) == m
    requires forall i :: 0 <= i < |calls| ==> calls[i].turn < turn
    ensures InTurn(calls + [Call(turn, m)], messages + [fs], calls, turn)
  {
    hide MessageIn;
  }

  /** Recording the last frame of a message makes its caller the last of the calls, not returned yet. */
  lemma RecordedCalls(g: Shared, job: Job, left: seq<byte>)
    requires CallsOK(g) && Early(g, job) && g.writeErr == None
    requires !job.Control? ==> FrameOf(job.m, job.f)
    ensures var g' := Recorded(g.(wire := g.wire + left, tail := []), job);
            && CallsOK(g')
            && (!job.Control? ==>
                  if job.f.fin && IsData(job.m.opcode) then g'.calls == g'.returned + [Call(g'.turn, Said(job.m))]
                  else g'.returned == g'.calls && Unrecorded(g'))
  {
    hide WholeData, OpenData, FrameOf, MessageIn, InTurn;
    var f := job.f;
    if !job.Control? {
      if IsControl(f.opcode) {
        ControlAlone(job.m, f);
      } else {
        RecordedMessage(job.m, f);
        if f.fin {
          CallAdded(g.calls, g.messages, g.turn, Said(job.m), job.m.sent + [f]);
        }
      }
    }
  }

  // ----- every step keeps the invariants -----

  ghost predicate Local(g: Shared, th: Thread) {
    && SharedOK(g) && ThreadOK(g, th)
    && (HasOuter(th) ==> !g.writeMu) && (HasInner(th) ==> !g.mu)
  }

  lemma AcquireOuterKeeps(g: Shared, th: Thread, g': Shared, th': Thread)
    requires Local(g, th) && AcquireOuter(g, th, g', th')
    ensures Local(g', th')
  {
  }

  lemma BeginFailsKeeps(g: Shared, th: Thread, g': Shared, th': Thread)
    requires Local(g, th) && BeginFails(g, th, g', th')
    ensures Local(g', th')
  {
  }

  lemma BeginSucceedsKeeps(g: Shared, th: Thread, g': Shared, th': Thread)
    requires Local(g, th) && BeginSucceeds(g, th, g', th')
    ensures Local(g', th')
  {
  }

  lemma StartPreparedKeeps(g: Shared, th: Thread, g': Shared, th': Thread)
    requires Local(g, th) && StartPrepared(g, th, g', th')
    ensures Local(g', th')
  {
  }

  lemma EndMessageKeeps(g: Shared, th: Thread, g': Shared, th': Thread)
    requires Local(g, th) && EndMessage(g, th, g', th')
    ensures Local(g', th')
  {
  }

  lemma LeaveKeeps(g: Shared, th: Thread, g': Shared, th': Thread)
    requires Local(g, th) && Leave(g, th, g', th')
    ensures Local(g', th')
  {
  }

  lemma StartFlushKeeps(g: Shared, th: Thread, g': Shared, th': Thread)
    requires Local(g, th) && StartFlush(g, th, g', th')
    ensures Local(g', th')
  {
  }

  lemma RefuseControlKeeps(g: Shared, th: Thread, g': Shared, th': Thread)
    requires Local(g, th) && RefuseControl(g, th, g', th')
    ensures Local(g', th')
  {
  }

  lemma StartControlKeeps(g: Shared, th: Thread, g': Shared, th': Thread)
    requires Local(g, th) && StartControl(g, th, g', th')
    ensures Local(g', th')
  {
  }

  lemma InnerTimeoutKeeps(g: Shared, th: Thread, g': Shared, th': Thread)
    requires Local(g, th) && InnerTimeout(g, th, g', th')
    ensures Local(g', th')
  {
  }

  lemma StartWriteKeeps(g: Shared, th: Thread, g': Shared, th': Thread)
    requires Local(g, th) && StartWrite(g, th, g', th')
    ensures Local(g', th')
  {
    assert [] + Encode(th.job.f) == Encode(th.job.f);
  }

  lemma WriteRefusedKeeps(g: Shared, th: Thread, g': Shared, th': Thread)
    requires Local(g, th) && WriteRefused(g, th, g', th')
    ensures Local(g', th')
  {
  }

  lemma AcquireInnerKeeps(g: Shared, th: Thread, g': Shared, th': Thread)
    requires Local(g, th) && AcquireInner(g, th, g', th')
    ensures Local(g', th')
  {
  }

  lemma NetworkFailsKeeps(g: Shared, th: Thread, g': Shared, th': Thread)
    requires Local(g, th) && NetworkFails(g, th, g', th')
    ensures Local(g', th')
  {
  }

  lemma WriteSomeKeeps(g: Shared, th: Thread, g': Shared, th': Thread)
    requires Local(g, th) && WriteSome(g, th, g', th')
    ensures Local(g', th')
  {
    hide Encode, EncodeAll, Contiguous, InTurn, FrameOf, Sends;
    var n :| 0 < n < |th.left| && th' == Writing(th.job, th.left[n..])
             && g' == g.(wire := g.wire + th.left[..n], tail := g.tail + th.left[..n]);
    ConcatAssociative(EncodeAll(g.log), g.tail, th.left[..n]);
    ConcatAssociative(g.tail, th.left[..n], th.left[n..]);
    assert th.left[..n] + th.left[n..] == th.left;
    assert g'.tail < Encode(th.job.f);
  }

  lemma WriteLastKeeps(g: Shared, th: Thread, g': Shared, th': Thread)
    requires Local(g, th) && WriteLast(g, th, g', th')
    ensures Local(g', th')
  {
    hide Encode, EncodeAll, FrameOf, WireShape, Unrecorded;
    OneFrame(g, th.job);
    RecordedShape(g, th.job, th.left);
    RecordedCalls(g, th.job, th.left);
    LogAppended(g.log, th.job.f);
  }

  lemma WriteNextKeeps(g: Shared, th: Thread, g': Shared, th': Thread)
    requires Local(g, th) && WriteNext(g, th, g', th')
    ensures Local(g', th')
  {
    hide EncodeAll, FrameOf, WireShape, Unrecorded;
    OneFrame(g, th.job);
    RecordedShape(g, th.job, th.left);
    RecordedCalls(g, th.job, th.left);
    LogAppended(g.log, th.job.f);
    var f := th.job.more[0];
    assert [] + Encode(f) == Encode(f);
  }

  lemma NotLast(masks: bool, f: Frame)
    ensures Logged(masks, f) && !f.fin ==> !IsControl(f.opcode)
  {
  }

  lemma OneFrame(g: Shared, job: Job)
    requires JobOK(g, job)
    ensures if job.Control? then IsControl(job.f.opcode) else FrameOf(job.m, job.f)
    ensures Logged(g.masks, job.f)
    ensures job.Prepared? ==> (job.f.fin <==> job.more == [])
    ensures job.Prepared? && job.more != [] ==> !IsControl(job.f.opcode) && JobOK(g, NextJob(job))
  {
    hide FrameOf, Logged;
    if job.Prepared? && job.more != [] {
      NotLast(g.masks, job.f);
      assert Sends(g.masks, NextJob(job).m, NextJob(job).f, NextJob(job).more);
    }
  }

  lemma LatchKeeps(g: Shared, th: Thread, g': Shared, th': Thread)
    requires Local(g, th) && Latch(g, th, g', th')
    ensures Local(g', th')
  {
  }

  lemma ReleaseInnerKeeps(g: Shared, th: Thread, g': Shared, th': Thread)
    requires Local(g, th) && ReleaseInner(g, th, g', th')
    ensures Local(g', th')
  {
  }

  lemma LogAppended(log: seq<Frame>, f: Frame)
    requires !HasClose(log)
    ensures forall i :: 0 <= i < |log + [f]| - 1 ==> (log + [f])[i].opcode != CLOSE
  {
  }

  lemma MoveKeeps(g: Shared, th: Thread, g': Shared, th': Thread)
    requires Local(g, th) && Move(g, th, g', th')
    ensures Local(g', th')
  {
    hide Local, AcquireOuter, BeginFails, BeginSucceeds, StartPrepared, EndMessage, Leave;
    hide StartFlush, RefuseControl, StartControl, InnerTimeout, StartWrite, WriteRefused;
    hide AcquireInner, NetworkFails, WriteSome, WriteLast, WriteNext, Latch, ReleaseInner;
    if AcquireOuter(g, th, g', th') {
      AcquireOuterKeeps(g, th, g', th');
    } else if BeginFails(g, th, g', th') {
      BeginFailsKeeps(g, th, g', th');
    } else if BeginSucceeds(g, th, g', th') {
      BeginSucceedsKeeps(g, th, g', th');
    } else if StartPrepared(g, th, g', th') {
      StartPreparedKeeps(g, th, g', th');
    } else if EndMessage(g, th, g', th') {
      EndMessageKeeps(g, th, g', th');
    } else if Leave(g, th, g', th') {
      LeaveKeeps(g, th, g', th');
    } else if StartFlush(g, th, g', th') {
      StartFlushKeeps(g, th, g', th');
    } else if RefuseControl(g, th, g', th') {
      RefuseControlKeeps(g, th, g', th');
    } else if StartControl(g, th, g', th') {
      StartControlKeeps(g, th, g', th');
    } else if InnerTimeout(g, th, g', th') {
      InnerTimeoutKeeps(g, th, g', th');
    } else if StartWrite(g, th, g', th') {
      StartWriteKeeps(g, th, g', th');
    } else if WriteRefused(g, th, g', th') {
      WriteRefusedKeeps(g, th, g', th');
    } else if AcquireInner(g, th, g', th') {
      AcquireInnerKeeps(g, th, g', th');
    } else if NetworkFails(g, th, g', th') {
      NetworkFailsKeeps(g, th, g', th');
    } else if WriteSome(g, th, g', th') {
      WriteSomeKeeps(g, th, g', th');
    } else if WriteLast(g, th, g', th') {
      WriteLastKeeps(g, th, g', th');
    } else if WriteNext(g, th, g', th') {
      WriteNextKeeps(g, th, g', th');
    } else if Latch(g, th, g', th') {
      LatchKeeps(g, th, g', th');
    } else {
      ReleaseInnerKeeps(g, th, g', th');
    }
  }

  /** A step of one caller leaves the others as they were. */
  lemma OthersKeep(g: Shared, th: Thread, g': Shared, th': Thread, u: Thread)
    requires Effect(g, th, g', th') && ThreadOK(g, u)
    requires HasOuter(u) ==> !HasOuter(th) && !HasOuter(th')
    requires HasInner(u) ==> !HasInner(th) && !HasInner(th')
    ensures ThreadOK(g', u)
  {
    hide Encode, OpenFragments;
  }

  lemma InvStep(s: State, s': State)
    requires Inv(s) && Step(s, s')
    ensures Inv(s')
  {
    hide Move, Effect, ThreadOK, SharedOK, HasOuter, HasInner, Conserved;
    TokensStep(s, s');
    var t :| StepOf(s, s', t);
    var g, th, g', th' := s.g, s.threads[t], s'.g, s'.threads[t];
    MoveEffect(g, th, g', th');
    MoveKeeps(g, th, g', th');
    forall u | u in s'.threads
      ensures ThreadOK(g', s'.threads[u])
    {
      if u != t {
        assert s'.threads[u] == s.threads[u];
        NotBoth(s, s', t, u);
        OthersKeep(g, th, g', th', s.threads[u]);
      }
    }
  }

  lemma NotBoth(s: State, s': State, t: nat, u: nat)
    requires Tokens(s) && Tokens(s') && t != u
    requires t in s.threads && u in s.threads && t in s'.threads && u in s'.threads && s'.threads[u] == s.threads[u]
    ensures HasOuter(s.threads[u]) ==> !HasOuter(s.threads[t]) && !HasOuter(s'.threads[t])
    ensures HasInner(s.threads[u]) ==> !HasInner(s.threads[t]) && !HasInner(s'.threads[t])
  {
  }

  lemma InitInv(s: State)
    requires Init(s)
    ensures Inv(s)
  {
  }

  /** Every state of every run satisfies the invariant. */
  lemma {:induction false} RunInv(ss: seq<State>, i: nat)
    requires Run(ss) && i < |ss|
    ensures Inv(ss[i])
    decreases i
  {
    hide Inv, Step, Init;
    if i == 0 {
      InitInv(ss[0]);
    } else {
      RunInv(ss, i - 1);
      assert Step(ss[i - 1], ss[i - 1 + 1]);
      InvStep(ss[i - 1], ss[i]);
    }
  }

  // ----- what follows for every run -----

  /**
   The wire is whole frames and at most one unfinished frame, which is being written or was cut off for good.
   Without control frames it is whole messages, each in one piece, and at most one unfinished message.
   */
  lemma WireOfRun(ss: seq<State>, i: nat)
    requires Run(ss) && i < |ss|
    ensures var g := ss[i].g;
            && AllEncodable(g.log) && g.wire == EncodeAll(g.log) + g.tail && TailOfFrame(g.tail)
            && Contiguous(g.log, g.messages, g.partial)
            && (g.tail != [] ==> g.writeErr == Some(Network) ||
                                 exists t :: t in ss[i].threads && ss[i].threads[t].Writing?)
            && (g.partial != [] ==> g.writeErr.Some? ||
                                    exists t :: t in ss[i].threads && HasOuter(ss[i].threads[t]))
  {
    hide Encode, OpenFragments, WholeData, OpenData, DataFrames, EncodeAll;
    RunInv(ss, i);
    var s := ss[i];
    if s.g.tail != [] && s.g.writeErr != Some(Network) {
      assert !s.g.mu;
      var t :| t in s.threads && HasInner(s.threads[t]);
      assert ThreadOK(s.g, s.threads[t]);
    }
  }

  /** Nothing may be written any more: a Close frame is on the wire, or an error has been latched. */
  predicate Stopped(g: Shared) {
    HasClose(g.log) || g.writeErr.Some?
  }

  lemma StoppedStep(s: State, s': State)
    requires Inv(s) && Step(s, s') && Stopped(s.g)
    ensures s'.g.wire == s.g.wire && s'.g.log == s.g.log && s'.g.messages == s.g.messages && Stopped(s'.g)
    ensures s.g.writeErr.Some? ==> s'.g.writeErr == s.g.writeErr
  {
    hide Move, SharedOK, HasOuter, HasInner, Tokens;
    var t :| StepOf(s, s', t);
    MoveEffect(s.g, s.threads[t], s'.g, s'.threads[t]);
    assert ThreadOK(s.g, s.threads[t]);
  }

  /** After a Close frame or an error nothing more reaches the wire, and the error latched first stays. */
  lemma {:induction false} NothingAfterStop(ss: seq<State>, i: nat, j: nat)
    requires Run(ss) && i <= j < |ss| && Stopped(ss[i].g)
    ensures ss[j].g.wire == ss[i].g.wire && ss[j].g.log == ss[i].g.log && ss[j].g.messages == ss[i].g.messages
    ensures Stopped(ss[j].g)
    ensures ss[i].g.writeErr.Some? ==> ss[j].g.writeErr == ss[i].g.writeErr
    decreases j
  {
    hide Inv, Step, Init, Stopped;
    if i < j {
      NothingAfterStop(ss, i, j - 1);
      RunInv(ss, j - 1);
      assert Step(ss[j - 1], ss[j - 1 + 1]);
      StoppedStep(ss[j - 1], ss[j]);
    }
  }

  /** In any run at most one Close frame is sent, and it is the last frame. */
  lemma OneClose(ss: seq<State>, i: nat, k: nat)
    requires Run(ss) && i < |ss| && k < |ss[i].g.log| && ss[i].g.log[k].opcode == CLOSE
    ensures AllEncodable(ss[i].g.log)
    ensures k == |ss[i].g.log| - 1 && ss[i].g.wire == EncodeAll(ss[i].g.log)
  {
    RunInv(ss, i);
    hide Encode, EncodeAll, ThreadOK, Contiguous;
    assert EncodeAll(ss[i].g.log) + [] == EncodeAll(ss[i].g.log);
  }

  /** A caller is in the middle of a message that it has a writer for. */
  predicate InMessage(th: Thread) {
    th.Open? || th.Ending? || (HasJob(th) && th.job.Fragment?)
  }

  /** beginMessage never finds a writer to close, and a pooled buffer is held exactly while a message is open. */
  lemma WriterAndBuffer(ss: seq<State>, i: nat)
    requires Run(ss) && i < |ss|
    ensures var s := ss[i];
            && (s.g.writeMu ==> !s.g.writer)
            && (forall t :: t in s.threads && s.threads[t].Begin? ==> !s.g.writer)
            && (s.g.pooled ==> (s.g.buffer <==> exists t :: t in s.threads && InMessage(s.threads[t])))
            && (!s.g.pooled ==> !s.g.buffer)
  {
    RunInv(ss, i);
    hide Encode, WireShape, Continues, OpenFragments;
    var s := ss[i];
    if s.g.buffer {
      assert !s.g.writeMu;
      var t :| t in s.threads && HasOuter(s.threads[t]);
      assert ThreadOK(s.g, s.threads[t]);
      assert InMessage(s.threads[t]);
    }
    if t :| t in s.threads && InMessage(s.threads[t]) {
      assert ThreadOK(s.g, s.threads[t]);
    }
  }
}
