/** The core bus server (`core-bus/src/server.c`) as a state machine: one dispatcher, any number of threads sending
    subscription events, partial writes, and connections that may close at any time. */
module BusServer {
  import opened Buffer

  datatype RequestType = Call | Notify | Subscribe

  /** The frames a server sends: a response, an error, an acceptance, or an event of a subscription. */
  datatype Frame = ResponseFrame | ErrorFrame | AcceptFrame | EventFrame

  /** What one partial write puts on the wire. */
  datatype Piece = Piece(job: nat, what: Frame, last: bool)

  datatype Stage = Fresh | Refused | Dispatched(ty: RequestType)

  /** A connection. `handled` is set when the current handle is cleared after its request; `broken` and `torn`
      record a failed write after which the socket takes no more, or possibly does. */
  datatype Conn = Conn(open: bool, stage: Stage, reply: Option<nat>, handled: bool, broken: bool, torn: bool,
                       stream: seq<Piece>)

  datatype Pc = Waiting | Locking | Sending | Closing | Unlocking | Clearing | Finished

  /** One call that sends a frame, and what it does afterwards. */
  datatype Job = Job(conn: nat, what: Frame, pc: Pc, sent: bool, clears: bool)

  datatype Dispatcher = Idle | Handling(conn: nat) | Replying(job: nat)

  datatype State = State(conns: seq<Conn>, jobs: seq<Job>, lock: Option<nat>, current: Option<nat>, disp: Dispatcher)

  datatype Step =
    | Connect
    | Hangup(c: nat)
    | Refuse(c: nat)
    | Dispatch(c: nat, ty: RequestType)
    | HandlerFails
    | Respond
    | Accept(checked: bool)
    | Emit(c: nat)
    | Pass(j: nat)
    | Acquire(j: nat)
    | Write(j: nat, last: bool)
    | Fail(j: nat, breaks: bool)
    | Close(j: nat)
    | Unlock(j: nat)
    | Clear(j: nat)
    | Return

  // ---- Steps ----

  function SetConn(s: State, c: nat, x: Conn): State
    requires c < |s.conns|
  {
    s.(conns := s.conns[c := x])
  }

  function SetPc(s: State, j: nat, pc: Pc): State
    requires j < |s.jobs|
  {
    s.(jobs := s.jobs[j := s.jobs[j].(pc := pc)])
  }

  predicate IsAt(s: State, j: nat, pc: Pc) {
    j < |s.jobs| && s.jobs[j].pc == pc && s.jobs[j].conn < |s.conns|
  }

  /** Where a call goes once it has stopped sending: an error closes the connection before it gives up the lock. */
  function AfterSending(what: Frame): Pc { if what == ErrorFrame then Closing else Unlocking }

  function AfterUnlocking(job: Job): Pc {
    match job.what
    case ResponseFrame => Closing
    case ErrorFrame => if job.clears then Clearing else Finished
    case AcceptFrame => if job.sent then Clearing else Closing
    case EventFrame => if job.sent then Finished else Closing
  }

  function AfterClosing(job: Job): Pc {
    match job.what
    case ErrorFrame => Unlocking
    case EventFrame => Finished
    case _ => Clearing
  }

  predicate Enabled(s: State, step: Step) {
    match step
    case Connect => true
    case Hangup(c) => c < |s.conns|
    case Refuse(c) => s.disp == Idle && c < |s.conns| && s.conns[c].stage == Fresh
    case Dispatch(c, ty) => s.disp == Idle && c < |s.conns| && s.conns[c].stage == Fresh
    case HandlerFails => s.disp.Handling? && s.disp.conn < |s.conns|
    case Respond =>
      s.disp.Handling? && s.disp.conn < |s.conns| && s.conns[s.disp.conn].stage in {Dispatched(Call), Dispatched(Notify)}
    case Accept(_) => s.disp.Handling? && s.disp.conn < |s.conns| && s.conns[s.disp.conn].stage == Dispatched(Subscribe)
    case Emit(c) => c < |s.conns| && s.conns[c].stage == Dispatched(Subscribe)
    case Pass(j) => IsAt(s, j, Waiting) && s.current != Some(s.jobs[j].conn)
    case Acquire(j) => IsAt(s, j, Locking) && s.lock == None
    case Write(j, _) => IsAt(s, j, Sending) && s.conns[s.jobs[j].conn].open && !s.conns[s.jobs[j].conn].broken
    case Fail(j, _) => IsAt(s, j, Sending)
    case Close(j) => IsAt(s, j, Closing)
    case Unlock(j) => IsAt(s, j, Unlocking)
    case Clear(j) => IsAt(s, j, Clearing)
    case Return => s.disp.Replying? && s.disp.job < |s.jobs| && s.jobs[s.disp.job].pc == Finished
  }

  /** Starts the one reply to a request. */
  function Reply(s: State, c: nat, what: Frame, pc: Pc, clears: bool): State
    requires c < |s.conns|
  {
    var j := |s.jobs|;
    State(s.conns[c := s.conns[c].(reply := Some(j))], s.jobs + [Job(c, what, pc, false, clears)], s.lock, s.current,
          Replying(j))
  }

  /** A socket that refuses bytes in the middle of a frame. */
  predicate Tears(s: State, j: nat, breaks: bool)
    requires j < |s.jobs| && s.jobs[j].conn < |s.conns|
  {
    var x := s.conns[s.jobs[j].conn];
    x.open && !breaks && x.stream != [] && x.stream[|x.stream| - 1].job == j
  }

  function Next(s: State, step: Step): State
    requires Enabled(s, step)
  {
    match step
    case Connect => s.(conns := s.conns + [Conn(true, Fresh, None, false, false, false, [])])
    case Hangup(c) => SetConn(s, c, s.conns[c].(open := false))
    case Refuse(c) => Reply(SetConn(s, c, s.conns[c].(stage := Refused)), c, ErrorFrame, Locking, false)
    case Dispatch(c, ty) =>
      SetConn(s, c, s.conns[c].(stage := Dispatched(ty))).(current := Some(c), disp := Handling(c))
    case HandlerFails => Reply(s, s.disp.conn, ErrorFrame, Locking, true)
    case Respond =>
      var x := s.conns[s.disp.conn];
      Reply(s, s.disp.conn, ResponseFrame,
            if !x.open then Clearing else if x.stage == Dispatched(Notify) then Closing else Locking, true)
    case Accept(checked) =>
      Reply(s, s.disp.conn, AcceptFrame, if checked && !s.conns[s.disp.conn].open then Clearing else Locking, true)
    case Emit(c) => s.(jobs := s.jobs + [Job(c, EventFrame, Waiting, false, false)])
    case Pass(j) => SetPc(s, j, Locking)
    case Acquire(j) => SetPc(s, j, Sending).(lock := Some(j))
    case Write(j, last) =>
      var job := s.jobs[j];
      var x := s.conns[job.conn];
      var s1 := SetConn(s, job.conn, x.(stream := x.stream + [Piece(j, job.what, last)]));
      if last then s1.(jobs := s.jobs[j := job.(pc := AfterSending(job.what), sent := true)]) else s1
    case Fail(j, breaks) =>
      var job := s.jobs[j];
      var x := s.conns[job.conn];
      SetPc(SetConn(s, job.conn, x.(broken := x.broken || breaks, torn := x.torn || Tears(s, j, breaks))),
            j, AfterSending(job.what))
    case Close(j) =>
      var job := s.jobs[j];
      SetPc(SetConn(s, job.conn, s.conns[job.conn].(open := false)), j, AfterClosing(job))
    case Unlock(j) => SetPc(s, j, AfterUnlocking(s.jobs[j])).(lock := None)
    case Clear(j) =>
      var c := s.jobs[j].conn;
      SetPc(SetConn(s, c, s.conns[c].(handled := true)), j, Finished)
      .(current := if s.current == Some(c) then None else s.current)
    case Return => s.(disp := Idle)
  }

  const INIT: State := State([], [], None, None, Idle)

  // ---- What clients can rely on ----

  /** The pieces of a frame follow each other without another frame in between. */
  ghost predicate NotInterleaved(t: seq<Piece>) {
    forall i, j, k | 0 <= i < j < k < |t| && t[i].job == t[k].job :: t[j].job == t[i].job
  }

  /** Nothing follows a response or an error. */
  ghost predicate EndsWithReply(t: seq<Piece>) {
    forall i, k | 0 <= i < k < |t| && (t[i].what == ResponseFrame || t[i].what == ErrorFrame) :: t[k].job == t[i].job
  }

  /** A whole acceptance stands before every event. */
  ghost predicate AcceptedFirst(t: seq<Piece>) {
    forall k | 0 <= k < |t| && t[k].what == EventFrame :: AcceptedBefore(t, k)
  }

  ghost predicate AcceptedBefore(t: seq<Piece>, k: nat)
    requires k <= |t|
  {
    exists i :: 0 <= i < k && t[i].what == AcceptFrame && t[i].last
  }

  /** Only the last frame can be incomplete. */
  ghost predicate WholeFrames(t: seq<Piece>) {
    forall i | 0 <= i < |t| - 1 && t[i].job != t[i + 1].job :: t[i].last
  }

  ghost predicate SafeStream(x: Conn) {
    && NotInterleaved(x.stream) && EndsWithReply(x.stream) && AcceptedFirst(x.stream)
    && (!x.torn ==> WholeFrames(x.stream))
  }

  // ---- The invariant ----

  predicate HoldsLock(job: Job) {
    job.pc == Sending || job.pc == Unlocking || (job.pc == Closing && job.what == ErrorFrame)
  }

  /** Exactly the holder of the lock is between acquiring and releasing it. */
  ghost predicate LockOk(s: State) {
    && (s.lock.Some? ==> s.lock.value < |s.jobs|)
    && forall j | 0 <= j < |s.jobs| :: HoldsLock(s.jobs[j]) <==> s.lock == Some(j)
  }

  /** Events belong to dispatched subscriptions and get past waiting only when the request has been handled. */
  ghost predicate EventOk(s: State, j: nat)
    requires j < |s.jobs| && s.jobs[j].conn < |s.conns|
  {
    var job := s.jobs[j];
    var x := s.conns[job.conn];
    && x.stage == Dispatched(Subscribe) && x.reply != Some(j) && job.pc != Clearing && !job.clears
    && (job.pc != Waiting ==> x.handled)
  }

  /** A reply is the only one on its connection; when it is over, an acceptance was sent or the connection is
      closed. */
  ghost predicate ReplyOk(s: State, j: nat)
    requires j < |s.jobs| && s.jobs[j].conn < |s.conns|
  {
    var job := s.jobs[j];
    var x := s.conns[job.conn];
    && x.reply == Some(j) && job.pc != Waiting && (job.what == AcceptFrame ==> x.stage == Dispatched(Subscribe))
    && (job.clears <==> x.stage.Dispatched?) && (job.what != ErrorFrame ==> job.clears)
    && (x.handled <==> job.clears && job.pc == Finished)
    && (job.pc == Clearing || job.pc == Finished || (job.pc == Unlocking && job.what == ErrorFrame) ==>
          !x.open || (job.what == AcceptFrame && job.sent))
    && (job.pc == Clearing ==> job.clears)
  }

  ghost predicate JobOk(s: State, j: nat)
    requires j < |s.jobs|
  {
    && s.jobs[j].conn < |s.conns|
    && (if s.jobs[j].what == EventFrame then EventOk(s, j) else ReplyOk(s, j))
    && (s.jobs[j].sent ==> WasSent(s.conns[s.jobs[j].conn].stream, j, s.jobs[j].what))
  }

  ghost predicate WasSent(t: seq<Piece>, j: nat, what: Frame) { Piece(j, what, true) in t }

  ghost predicate ConnOk(s: State, c: nat)
    requires c < |s.conns|
  {
    var x := s.conns[c];
    && (x.stage == Fresh ==> x.reply.None? && x.stream == [])
    && (x.reply.Some? ==> x.reply.value < |s.jobs| && s.jobs[x.reply.value].conn == c && s.jobs[x.reply.value].what != EventFrame)
    && (x.handled ==> x.reply.Some? && s.jobs[x.reply.value].pc == Finished)
    && (x.stage.Dispatched? && !x.handled <==> s.current == Some(c))
  }

  /** The pieces on a connection come from its own calls, which have begun to send. */
  ghost predicate PiecesOk(s: State, c: nat)
    requires c < |s.conns|
  {
    var x := s.conns[c];
    forall i | 0 <= i < |x.stream| ::
      var p := x.stream[i];
      && p.job < |s.jobs| && s.jobs[p.job].conn == c && s.jobs[p.job].what == p.what
      && s.jobs[p.job].pc != Waiting && s.jobs[p.job].pc != Locking
      && (s.jobs[p.job].pc == Sending ==> !p.last && x.stream[|x.stream| - 1].job == p.job)
  }

  /** On a connection that still takes bytes, a frame is whole or is being sent. */
  ghost predicate TailOk(s: State, c: nat)
    requires c < |s.conns|
  {
    var x := s.conns[c];
    x.open && !x.broken && !x.torn && x.stream != [] ==>
      var p := x.stream[|x.stream| - 1];
      p.last || (p.job < |s.jobs| && s.jobs[p.job].pc == Sending)
  }

  ghost predicate DispOk(s: State) {
    match s.disp
    case Idle => s.current.None?
    case Handling(c) => c < |s.conns| && s.current == Some(c) && s.conns[c].reply.None? && s.conns[c].stage.Dispatched?
    case Replying(j) =>
      && j < |s.jobs| && s.jobs[j].what != EventFrame && s.jobs[j].conn < |s.conns|
      && s.current == if s.jobs[j].clears && s.jobs[j].pc != Finished then Some(s.jobs[j].conn) else None
  }

  /** What the invariant says about one connection. */
  ghost predicate Healthy(s: State, c: nat)
    requires c < |s.conns|
  {
    ConnOk(s, c) && PiecesOk(s, c) && TailOk(s, c) && SafeStream(s.conns[c])
  }

  ghost predicate Inv(s: State) {
    && LockOk(s) && DispOk(s)
    && (forall j | 0 <= j < |s.jobs| :: JobOk(s, j))
    && (forall c | 0 <= c < |s.conns| :: Healthy(s, c))
  }

  // ---- Every step keeps the invariant ----

  /** Only call `j0` and connection `c0` may differ. */
  ghost predicate JobsBut(s: State, s1: State, j0: nat) {
    && |s.jobs| <= |s1.jobs|
    && forall j | 0 <= j < |s1.jobs| && j != j0 :: j < |s.jobs| && s1.jobs[j] == s.jobs[j]
  }

  ghost predicate ConnsBut(s: State, s1: State, c0: nat) {
    && c0 < |s.conns| == |s1.conns|
    && forall c | 0 <= c < |s.conns| && c != c0 ::
         s1.conns[c] == s.conns[c] && (s1.current == Some(c) <==> s.current == Some(c))
  }

  /** A step that touches one connection and at most one call on it need only be checked there. */
  lemma Locally(s: State, s1: State, c0: nat, j0: nat)
    requires Inv(s) && ConnsBut(s, s1, c0) && JobsBut(s, s1, j0)
    requires j0 < |s1.jobs| ==> s1.jobs[j0].conn == c0 && (j0 < |s.jobs| ==> s.jobs[j0].conn == c0)
    requires LockOk(s1) && DispOk(s1) && Healthy(s1, c0)
    requires forall j | 0 <= j < |s1.jobs| && s1.jobs[j].conn == c0 :: JobOk(s1, j)
    ensures Inv(s1)
  {
    hide SafeStream, LockOk, DispOk;
    forall j | 0 <= j < |s1.jobs| ensures JobOk(s1, j) {
      if s1.jobs[j].conn != c0 { assert JobOk(s, j); }
    }
    forall c | 0 <= c < |s1.conns| ensures Healthy(s1, c) {
      if c != c0 { Elsewhere(s, s1, c0, j0, c); }
    }
  }

  lemma Elsewhere(s: State, s1: State, c0: nat, j0: nat, c: nat)
    requires Inv(s) && ConnsBut(s, s1, c0) && JobsBut(s, s1, j0) && c < |s.conns| && c != c0
    requires j0 < |s.jobs| ==> s.jobs[j0].conn == c0
    ensures Healthy(s1, c)
  {
    hide SafeStream, LockOk, DispOk, JobOk;
    assert Healthy(s, c);
  }

  /** Connections that differ at most in being closed, broken or torn carry the same stream. */
  lemma SameStreamIsSafe(x: Conn, y: Conn)
    requires SafeStream(x) && y.stream == x.stream && (x.torn ==> y.torn)
    ensures SafeStream(y)
  {
  }

  /** The pieces on a connection stay in order when its stream does not grow and nobody stops sending. */
  lemma PiecesStay(s: State, s1: State, c: nat)
    requires c < |s.conns| && c < |s1.conns| && PiecesOk(s, c) && TailOk(s, c) && |s.jobs| <= |s1.jobs|
    requires var x, y := s.conns[c], s1.conns[c];
             y.stream == x.stream && (y.open ==> x.open) && (x.broken ==> y.broken) && (x.torn ==> y.torn)
    requires forall j | 0 <= j < |s.jobs| :: s1.jobs[j].conn == s.jobs[j].conn && s1.jobs[j].what == s.jobs[j].what
    requires forall j | 0 <= j < |s.jobs| && s.jobs[j].pc != Waiting && s.jobs[j].pc != Locking ::
               s1.jobs[j].pc == s.jobs[j].pc || (s.jobs[j].pc != Sending && s1.jobs[j].pc !in {Waiting, Locking, Sending})
    ensures PiecesOk(s1, c) && TailOk(s1, c)
  {
  }

  lemma ConnectKeeps(s: State)
    requires Inv(s)
    ensures Inv(Next(s, Connect))
  {
    hide SafeStream;
    var s1 := Next(s, Connect);
    forall j | 0 <= j < |s1.jobs| ensures JobOk(s1, j) { assert JobOk(s, j); }
    forall c | 0 <= c < |s1.conns| ensures Healthy(s1, c) {
      if c < |s.conns| {
        assert Healthy(s, c);
      } else {
        EmptyIsSafe(s1.conns[c]);
        assert s.current != Some(c);
      }
    }
  }

  lemma EmptyIsSafe(x: Conn)
    requires x.stream == []
    ensures SafeStream(x)
  {
  }

  /** A step on connection `c0` that neither sends nor stops sending. */
  lemma QuietStep(s: State, s1: State, c0: nat, j0: nat)
    requires Inv(s) && ConnsBut(s, s1, c0) && JobsBut(s, s1, j0)
    requires var x, y := s.conns[c0], s1.conns[c0];
             y.stream == x.stream && (y.open ==> x.open) && y.broken == x.broken && y.torn == x.torn
    requires j0 < |s1.jobs| ==> s1.jobs[j0].conn == c0
    requires j0 < |s.jobs| ==> s1.jobs[j0] == s.jobs[j0].(pc := s1.jobs[j0].pc)
    requires j0 < |s.jobs| ==> s.jobs[j0].pc != Sending && (s.jobs[j0].pc in {Waiting, Locking} || s1.jobs[j0].pc !in {Waiting, Locking, Sending})
    requires LockOk(s1) && DispOk(s1) && ConnOk(s1, c0)
    requires forall j | 0 <= j < |s1.jobs| && s1.jobs[j].conn == c0 :: JobOk(s1, j)
    ensures Inv(s1)
  {
    hide SafeStream, LockOk, DispOk, ConnOk, JobOk, PiecesOk, TailOk;
    assert Healthy(s, c0);
    PiecesStay(s, s1, c0);
    SameStreamIsSafe(s.conns[c0], s1.conns[c0]);
    Locally(s, s1, c0, j0);
  }

  lemma HangupKeeps(s: State, c0: nat)
    requires Inv(s) && c0 < |s.conns|
    ensures Inv(Next(s, Hangup(c0)))
  {
    hide SafeStream, PiecesOk, TailOk;
    var s1 := Next(s, Hangup(c0));
    assert Healthy(s, c0);
    forall j | 0 <= j < |s1.jobs| && s1.jobs[j].conn == c0 ensures JobOk(s1, j) { assert JobOk(s, j); }
    QuietStep(s, s1, c0, |s.jobs|);
  }

  lemma NoCallsYet(s: State, c0: nat)
    requires Inv(s) && c0 < |s.conns| && s.conns[c0].stage == Fresh
    ensures forall j | 0 <= j < |s.jobs| :: s.jobs[j].conn != c0
  {
    hide SafeStream, PiecesOk, TailOk;
    assert Healthy(s, c0);
    forall j | 0 <= j < |s.jobs| ensures s.jobs[j].conn != c0 { assert JobOk(s, j); }
  }

  lemma DispatchKeeps(s: State, c0: nat, ty: RequestType)
    requires Inv(s) && Enabled(s, Dispatch(c0, ty))
    ensures Inv(Next(s, Dispatch(c0, ty)))
  {
    hide SafeStream, PiecesOk, TailOk;
    var s1 := Next(s, Dispatch(c0, ty));
    assert Healthy(s, c0);
    NoCallsYet(s, c0);
    QuietStep(s, s1, c0, |s.jobs|);
  }

  /** Starting the one reply on a connection that has none. */
  lemma ReplyKeeps(s: State, c0: nat, what: Frame, pc: Pc, clears: bool)
    requires Inv(s) && s.disp == Handling(c0) && c0 < |s.conns| && what != EventFrame && clears
    requires what == AcceptFrame ==> s.conns[c0].stage == Dispatched(Subscribe)
    requires pc == Locking || (pc == Clearing && !s.conns[c0].open) || (pc == Closing && what == ResponseFrame)
    ensures Inv(Reply(s, c0, what, pc, clears))
  {
    hide SafeStream, PiecesOk, TailOk;
    var s1 := Reply(s, c0, what, pc, clears);
    assert Healthy(s, c0);
    forall j | 0 <= j < |s1.jobs| && s1.jobs[j].conn == c0 ensures JobOk(s1, j) {
      if j < |s.jobs| { assert JobOk(s, j); }
    }
    QuietStep(s, s1, c0, |s.jobs|);
  }

  lemma RefuseKeeps(s: State, c0: nat)
    requires Inv(s) && Enabled(s, Refuse(c0))
    ensures Inv(Next(s, Refuse(c0)))
  {
    hide SafeStream, PiecesOk, TailOk;
    var s1 := Next(s, Refuse(c0));
    assert Healthy(s, c0);
    NoCallsYet(s, c0);
    QuietStep(s, s1, c0, |s.jobs|);
  }

  lemma HandlerKeeps(s: State, step: Step)
    requires Inv(s) && Enabled(s, step) && (step.HandlerFails? || step.Respond? || step.Accept?)
    ensures Inv(Next(s, step))
  {
    hide SafeStream, JobOk, ConnOk, PiecesOk, TailOk, LockOk;
    var c := s.disp.conn;
    var x := s.conns[c];
    match step
    case HandlerFails => ReplyKeeps(s, c, ErrorFrame, Locking, true);
    case Respond =>
      ReplyKeeps(s, c, ResponseFrame,
                 if !x.open then Clearing else if x.stage == Dispatched(Notify) then Closing else Locking, true);
    case Accept(checked) => ReplyKeeps(s, c, AcceptFrame, if checked && !x.open then Clearing else Locking, true);
    case _ =>
  }

  lemma EmitKeeps(s: State, c0: nat)
    requires Inv(s) && Enabled(s, Emit(c0))
    ensures Inv(Next(s, Emit(c0)))
  {
    hide SafeStream, PiecesOk, TailOk;
    var s1 := Next(s, Emit(c0));
    assert Healthy(s, c0);
    forall j | 0 <= j < |s1.jobs| && s1.jobs[j].conn == c0 ensures JobOk(s1, j) {
      if j < |s.jobs| { assert JobOk(s, j); }
    }
    QuietStep(s, s1, c0, |s.jobs|);
  }

  /** A call waits, takes the lock, closes its connection, gives the lock back or clears the current handle. */
  predicate IsCallStep(step: Step, j: nat) { step in {Pass(j), Acquire(j), Close(j), Unlock(j), Clear(j)} }

  lemma CallJob(s: State, step: Step, j0: nat, j: nat)
    requires Inv(s) && Enabled(s, step) && IsCallStep(step, j0) && j < |s.jobs|
    ensures JobOk(Next(s, step), j)
  {
    hide SafeStream, LockOk, DispOk, PiecesOk, TailOk, WasSent;
    assert JobOk(s, j) && JobOk(s, j0) && Healthy(s, s.jobs[j0].conn);
  }

  lemma CallFrame(s: State, step: Step, j0: nat)
    requires Enabled(s, step) && IsCallStep(step, j0)
    ensures var s1 := Next(s, step); ConnsBut(s, s1, s.jobs[j0].conn) && JobsBut(s, s1, j0)
  {
  }

  lemma CallConn(s: State, step: Step, j0: nat)
    requires Inv(s) && Enabled(s, step) && IsCallStep(step, j0)
    ensures ConnOk(Next(s, step), s.jobs[j0].conn)
  {
    hide SafeStream, LockOk, DispOk, PiecesOk, TailOk, WasSent;
    assert JobOk(s, j0) && Healthy(s, s.jobs[j0].conn);
  }

  lemma CallLock(s: State, step: Step, j0: nat)
    requires LockOk(s) && Enabled(s, step) && IsCallStep(step, j0)
    ensures LockOk(Next(s, step))
  {
    assert HoldsLock(s.jobs[j0]) <==> s.lock == Some(j0);
  }

  lemma CallDisp(s: State, step: Step, j0: nat)
    requires Inv(s) && Enabled(s, step) && IsCallStep(step, j0)
    ensures DispOk(Next(s, step))
  {
    hide SafeStream, PiecesOk, TailOk, LockOk, WasSent;
    assert JobOk(s, j0) && Healthy(s, s.jobs[j0].conn);
    if s.disp.Replying? { assert JobOk(s, s.disp.job); }
  }

  lemma CallKeeps(s: State, step: Step, j0: nat)
    requires Inv(s) && Enabled(s, step) && IsCallStep(step, j0)
    ensures Inv(Next(s, step))
  {
    hide SafeStream, PiecesOk, TailOk, LockOk, DispOk, JobOk, ConnOk, ConnsBut, JobsBut;
    var s1 := Next(s, step);
    CallFrame(s, step, j0);
    CallConn(s, step, j0);
    CallLock(s, step, j0);
    CallDisp(s, step, j0);
    forall j | 0 <= j < |s1.jobs| && s1.jobs[j].conn == s.jobs[j0].conn ensures JobOk(s1, j) { CallJob(s, step, j0, j); }
    QuietStep(s, s1, s.jobs[j0].conn, j0);
  }

  lemma ReturnKeeps(s: State)
    requires Inv(s) && Enabled(s, Return)
    ensures Inv(Next(s, Return))
  {
    hide SafeStream;
    var s1 := Next(s, Return);
    forall j | 0 <= j < |s1.jobs| ensures JobOk(s1, j) { assert JobOk(s, j); }
    forall c | 0 <= c < |s1.conns| ensures Healthy(s1, c) { assert Healthy(s, c); }
  }

  lemma FailTail(s: State, j0: nat, breaks: bool, c: nat)
    requires Inv(s) && Enabled(s, Fail(j0, breaks)) && c == s.jobs[j0].conn
    ensures var s1 := Next(s, Fail(j0, breaks)); PiecesOk(s1, c) && TailOk(s1, c)
  {
    hide SafeStream, DispOk, JobOk, ConnOk;
    assert Healthy(s, c) && HoldsLock(s.jobs[j0]);
    var x := s.conns[c];
    if x.stream != [] { assert HoldsLock(s.jobs[x.stream[|x.stream| - 1].job]) ==> x.stream[|x.stream| - 1].job == j0; }
  }

  lemma FailKeeps(s: State, j0: nat, breaks: bool)
    requires Inv(s) && Enabled(s, Fail(j0, breaks))
    ensures Inv(Next(s, Fail(j0, breaks)))
  {
    hide SafeStream, PiecesOk, TailOk, Tears;
    var s1 := Next(s, Fail(j0, breaks));
    var c0 := s.jobs[j0].conn;
    assert Healthy(s, c0) && JobOk(s, j0) && HoldsLock(s.jobs[j0]);
    forall j | 0 <= j < |s1.jobs| && s1.jobs[j].conn == c0 ensures JobOk(s1, j) { assert JobOk(s, j); }
    FailTail(s, j0, breaks, c0);
    SameStreamIsSafe(s.conns[c0], s1.conns[c0]);
    Locally(s, s1, c0, j0);
  }

  // ---- Writing ----

  /** What the writer of a piece may assume about the stream. */
  ghost predicate MayWrite(s: State, j: nat)
    requires j < |s.jobs| && s.jobs[j].conn < |s.conns|
  {
    var t := s.conns[s.jobs[j].conn].stream;
    && (forall i | 0 <= i < |t| && t[i].job == j :: t[|t| - 1].job == j)
    && (forall i | 0 <= i < |t| && (t[i].what == ResponseFrame || t[i].what == ErrorFrame) :: t[i].job == j)
    && (s.jobs[j].what == EventFrame ==> AcceptedBefore(t, |t|))
  }

  lemma WriterMay(s: State, j: nat)
    requires Inv(s) && IsAt(s, j, Sending) && s.conns[s.jobs[j].conn].open
    ensures MayWrite(s, j)
  {
    hide SafeStream, TailOk, DispOk, LockOk;
    var c := s.jobs[j].conn;
    var x := s.conns[c];
    assert JobOk(s, j) && Healthy(s, c);
    if x.reply.Some? { assert JobOk(s, x.reply.value); }
    var t := x.stream;
    forall i | 0 <= i < |t| && (t[i].what == ResponseFrame || t[i].what == ErrorFrame)
      ensures t[i].job == j
    {
      assert JobOk(s, t[i].job);
    }
    if s.jobs[j].what == EventFrame {
      var r := x.reply.value;
      assert s.jobs[r].what == AcceptFrame && s.jobs[r].sent;
      assert Piece(r, AcceptFrame, true) in t;
      var i :| 0 <= i < |t| && t[i] == Piece(r, AcceptFrame, true);
      assert AcceptedBefore(t, |t|);
    }
  }

  lemma MoreAccepted(t: seq<Piece>, p: Piece, k: nat)
    requires k <= |t| && AcceptedBefore(t, k)
    ensures AcceptedBefore(t + [p], k)
  {
    var i :| 0 <= i < k && t[i].what == AcceptFrame && t[i].last;
    assert (t + [p])[i] == t[i];
  }

  lemma AppendNotInterleaved(t: seq<Piece>, p: Piece)
    requires NotInterleaved(t) && forall i | 0 <= i < |t| && t[i].job == p.job :: t[|t| - 1].job == p.job
    ensures NotInterleaved(t + [p])
  {
    var u := t + [p];
    forall i, j, k | 0 <= i < j < k < |u| && u[i].job == u[k].job
      ensures u[j].job == u[i].job
    {
      if k == |t| { assert t[i].job == p.job && t[|t| - 1].job == p.job; }
    }
  }

  lemma AppendEndsWithReply(t: seq<Piece>, p: Piece)
    requires EndsWithReply(t)
    requires forall i | 0 <= i < |t| && (t[i].what == ResponseFrame || t[i].what == ErrorFrame) :: t[i].job == p.job
    ensures EndsWithReply(t + [p])
  {
  }

  lemma AppendAcceptedFirst(t: seq<Piece>, p: Piece)
    requires AcceptedFirst(t) && (p.what == EventFrame ==> AcceptedBefore(t, |t|))
    ensures AcceptedFirst(t + [p])
  {
    hide AcceptedBefore;
    var u := t + [p];
    forall k | 0 <= k < |u| && u[k].what == EventFrame ensures AcceptedBefore(u, k) {
      assert k < |t| ==> u[k] == t[k];
      MoreAccepted(t, p, k);
    }
  }

  lemma AppendWholeFrames(t: seq<Piece>, p: Piece)
    requires WholeFrames(t) && (t != [] ==> t[|t| - 1].last || t[|t| - 1].job == p.job)
    ensures WholeFrames(t + [p])
  {
    var u := t + [p];
    forall i | 0 <= i < |u| - 1 && u[i].job != u[i + 1].job ensures u[i].last {
      assert u[i] == t[i] && (i < |t| - 1 ==> u[i + 1] == t[i + 1]);
    }
  }

  /** One more piece by a writer keeps a stream safe. */
  lemma WriteIsSafe(s: State, j: nat, p: Piece)
    requires j < |s.jobs| && s.jobs[j].conn < |s.conns| && MayWrite(s, j)
    requires p.job == j && p.what == s.jobs[j].what
    requires var x := s.conns[s.jobs[j].conn];
             && SafeStream(x)
             && (x.stream != [] && !x.torn ==> x.stream[|x.stream| - 1].last || x.stream[|x.stream| - 1].job == j)
    ensures var x := s.conns[s.jobs[j].conn]; SafeStream(x.(stream := x.stream + [p]))
  {
    hide NotInterleaved, EndsWithReply, AcceptedFirst, WholeFrames, AcceptedBefore;
    var x := s.conns[s.jobs[j].conn];
    AppendNotInterleaved(x.stream, p);
    AppendEndsWithReply(x.stream, p);
    AppendAcceptedFirst(x.stream, p);
    if !x.torn { AppendWholeFrames(x.stream, p); }
  }

  lemma WritePieces(s: State, j0: nat, last: bool)
    requires Inv(s) && Enabled(s, Write(j0, last))
    ensures var s1, c := Next(s, Write(j0, last)), s.jobs[j0].conn; PiecesOk(s1, c) && TailOk(s1, c)
  {
    hide SafeStream, DispOk, JobOk, ConnOk;
    var c := s.jobs[j0].conn;
    assert Healthy(s, c) && HoldsLock(s.jobs[j0]);
  }

  lemma WriteStream(s: State, j0: nat, last: bool)
    requires Inv(s) && Enabled(s, Write(j0, last))
    ensures SafeStream(Next(s, Write(j0, last)).conns[s.jobs[j0].conn])
  {
    hide SafeStream, DispOk, JobOk, ConnOk, MayWrite;
    var c := s.jobs[j0].conn;
    assert Healthy(s, c) && HoldsLock(s.jobs[j0]);
    WriterMay(s, j0);
    WriteIsSafe(s, j0, Piece(j0, s.jobs[j0].what, last));
  }

  lemma WriteKeeps(s: State, j0: nat, last: bool)
    requires Inv(s) && Enabled(s, Write(j0, last))
    ensures Inv(Next(s, Write(j0, last)))
  {
    hide SafeStream, PiecesOk, TailOk;
    var s1 := Next(s, Write(j0, last));
    var c0 := s.jobs[j0].conn;
    assert Healthy(s, c0) && JobOk(s, j0) && HoldsLock(s.jobs[j0]);
    forall j | 0 <= j < |s1.jobs| && s1.jobs[j].conn == c0 ensures JobOk(s1, j) { assert JobOk(s, j); }
    WritePieces(s, j0, last);
    WriteStream(s, j0, last);
    Locally(s, s1, c0, j0);
  }

  lemma StepKeeps(s: State, step: Step)
    requires Inv(s) && Enabled(s, step)
    ensures Inv(Next(s, step))
  {
    hide Inv, Next;
    match step
    case Connect => ConnectKeeps(s);
    case Hangup(c) => HangupKeeps(s, c);
    case Refuse(c) => RefuseKeeps(s, c);
    case Dispatch(c, ty) => DispatchKeeps(s, c, ty);
    case HandlerFails => HandlerKeeps(s, step);
    case Respond => HandlerKeeps(s, step);
    case Accept(_) => HandlerKeeps(s, step);
    case Emit(c) => EmitKeeps(s, c);
    case Pass(j) => CallKeeps(s, step, j);
    case Acquire(j) => CallKeeps(s, step, j);
    case Write(j, last) => WriteKeeps(s, j, last);
    case Fail(j, breaks) => FailKeeps(s, j, breaks);
    case Close(j) => CallKeeps(s, step, j);
    case Unlock(j) => CallKeeps(s, step, j);
    case Clear(j) => CallKeeps(s, step, j);
    case Return => ReturnKeeps(s);
  }

  ghost predicate IsRun(states: seq<State>, steps: seq<Step>) {
    && |states| == |steps| + 1 && states[0] == INIT
    && forall i | 0 <= i < |steps| :: Enabled(states[i], steps[i]) && states[i + 1] == Next(states[i], steps[i])
  }

  /** In every state of every run, every connection carries frames one after the other, nothing after a response
      or an error, and events only after a whole acceptance. */
  lemma {:induction false} RunIsSafe(states: seq<State>, steps: seq<Step>, n: nat, c: nat)
    requires IsRun(states, steps) && n < |states| && c < |states[n].conns|
    ensures SafeStream(states[n].conns[c])
  {
    hide SafeStream;
    RunKeepsInv(states, steps, n);
    assert Healthy(states[n], c);
  }

  lemma {:induction false} RunKeepsInv(states: seq<State>, steps: seq<Step>, n: nat)
    requires IsRun(states, steps) && n < |states|
    ensures Inv(states[n])
    decreases n
  {
    if n > 0 {
      hide Inv;
      RunKeepsInv(states, steps, n - 1);
      StepKeeps(states[n - 1], steps[n - 1]);
    }
  }

  /** The lock is given up before the connection is closed, so a second event can follow a torn one if the socket
      still takes bytes. */
  lemma TornFrame(s: State, a: nat, b: nat) returns (s1: State, s2: State, s3: State, s4: State)
    requires IsAt(s, a, Sending) && IsAt(s, b, Locking) && s.jobs[a].what == s.jobs[b].what == EventFrame
    requires !s.jobs[a].sent && s.jobs[a].conn == s.jobs[b].conn && s.lock == Some(a)
    requires var x := s.conns[s.jobs[a].conn];
             x.open && !x.broken && x.stream != [] && x.stream[|x.stream| - 1] == Piece(a, EventFrame, false)
    ensures Enabled(s, Fail(a, false)) && s1 == Next(s, Fail(a, false))
    ensures Enabled(s1, Unlock(a)) && s2 == Next(s1, Unlock(a))
    ensures Enabled(s2, Acquire(b)) && s3 == Next(s2, Acquire(b))
    ensures Enabled(s3, Write(b, true)) && s4 == Next(s3, Write(b, true))
    ensures s.jobs[a].conn < |s4.conns| && !WholeFrames(s4.conns[s.jobs[a].conn].stream)
  {
    hide WholeFrames;
    var c := s.jobs[a].conn;
    s1, s2 := Tearing(s, a);
    s3 := Next(s2, Acquire(b));
    s4 := Next(s3, Write(b, true));
    assert s4.conns[c].stream == s.conns[c].stream + [Piece(b, EventFrame, true)];
    NotWhole(s.conns[c].stream, Piece(b, EventFrame, true));
  }

  /** The first half: the write fails and the lock is free again while the connection is still open. */
  lemma Tearing(s: State, a: nat) returns (s1: State, s2: State)
    requires IsAt(s, a, Sending) && s.jobs[a].what == EventFrame && !s.jobs[a].sent
    ensures Enabled(s, Fail(a, false)) && s1 == Next(s, Fail(a, false))
    ensures Enabled(s1, Unlock(a)) && s2 == Next(s1, Unlock(a))
    ensures s2.lock.None? && |s2.conns| == |s.conns| && s2.jobs == s.jobs[a := s.jobs[a].(pc := Closing)]
    ensures var x, y := s.conns[s.jobs[a].conn], s2.conns[s.jobs[a].conn];
            y.open == x.open && y.broken == x.broken && y.stream == x.stream
  {
    hide Tears;
    s1 := Next(s, Fail(a, false));
    s2 := Next(s1, Unlock(a));
  }

  lemma NotWhole(t: seq<Piece>, p: Piece)
    requires t != [] && !t[|t| - 1].last && t[|t| - 1].job != p.job
    ensures !WholeFrames(t + [p])
  {
    var u := t + [p];
    assert u[|t| - 1] == t[|t| - 1] && u[|t| - 1].job != u[|t|].job;
  }

  // ---- Exactly when a frame is left unfinished ----

  /** Step `i` of a run tears a frame on connection `c`. */
  ghost predicate TornAt(states: seq<State>, steps: seq<Step>, i: nat, c: nat)
    requires IsRun(states, steps) && i < |steps|
  {
    steps[i].Fail? && states[i].jobs[steps[i].j].conn == c && Tears(states[i], steps[i].j, steps[i].breaks)
  }

  ghost predicate WritesOn(s: State, step: Step, c: nat)
    requires Enabled(s, step)
  {
    step.Write? && s.jobs[step.j].conn == c
  }

  ghost predicate TornBefore(states: seq<State>, steps: seq<Step>, n: nat, c: nat)
    requires IsRun(states, steps) && n <= |steps|
  {
    exists i: nat :: i < n && TornAt(states, steps, i, c)
  }

  /** Some frame on `c` was torn and something has been written on `c` since. */
  ghost predicate WrittenAfterTear(states: seq<State>, steps: seq<Step>, n: nat, c: nat)
    requires IsRun(states, steps) && n <= |steps|
  {
    exists k: nat :: k < n && WritesOn(states[k], steps[k], c) && TornBefore(states, steps, k, c)
  }

  lemma OnlyWritesWrite(s: State, step: Step, c: nat)
    requires Enabled(s, step) && c < |s.conns|
    ensures c < |Next(s, step).conns|
    ensures var t, t1 := s.conns[c].stream, Next(s, step).conns[c].stream;
            if WritesOn(s, step, c) then t1 == t + [Piece(step.j, s.jobs[step.j].what, step.last)] else t1 == t
    ensures Next(s, step).conns[c].torn <==>
            s.conns[c].torn || (step.Fail? && s.jobs[step.j].conn == c && Tears(s, step.j, step.breaks))
  {
    hide Tears;
  }

  predicate HasSent(pc: Pc) { pc !in {Waiting, Locking, Sending} }

  /** A call never sends again. */
  lemma SentForGood(s: State, step: Step, j: nat)
    requires Enabled(s, step) && j < |s.jobs| && HasSent(s.jobs[j].pc)
    ensures j < |Next(s, step).jobs| && HasSent(Next(s, step).jobs[j].pc)
  {
    hide Tears;
  }

  /** The stream ends within a frame whose call has given up. */
  ghost predicate LeftOff(s: State, c: nat) {
    && c < |s.conns| && s.conns[c].stream != []
    && var p := s.conns[c].stream[|s.conns[c].stream| - 1];
       !p.last && p.job < |s.jobs| && HasSent(s.jobs[p.job].pc)
  }

  lemma TearLeavesOff(s: State, j: nat, breaks: bool)
    requires Inv(s) && Enabled(s, Fail(j, breaks)) && Tears(s, j, breaks)
    ensures LeftOff(Next(s, Fail(j, breaks)), s.jobs[j].conn)
  {
    hide SafeStream, LockOk, DispOk, JobOk, ConnOk, TailOk;
    assert Healthy(s, s.jobs[j].conn);
  }

  lemma StillLeftOff(s: State, step: Step, c: nat)
    requires Enabled(s, step) && LeftOff(s, c) && !WritesOn(s, step, c)
    ensures LeftOff(Next(s, step), c)
  {
    hide Next;
    var t := s.conns[c].stream;
    OnlyWritesWrite(s, step, c);
    SentForGood(s, step, t[|t| - 1].job);
  }

  lemma {:induction false} LeftOffUntilWritten(states: seq<State>, steps: seq<Step>, i: nat, n: nat, c: nat)
    requires IsRun(states, steps) && i < n <= |steps| && TornAt(states, steps, i, c)
    requires forall k | i < k < n :: !WritesOn(states[k], steps[k], c)
    ensures LeftOff(states[n], c)
    decreases n
  {
    hide LeftOff, Next, Inv;
    if n == i + 1 {
      RunKeepsInv(states, steps, i);
      TearLeavesOff(states[i], steps[i].j, steps[i].breaks);
    } else {
      LeftOffUntilWritten(states, steps, i, n - 1, c);
      StillLeftOff(states[n - 1], steps[n - 1], c);
    }
  }

  lemma StaysBroken(t: seq<Piece>, p: Piece)
    requires !WholeFrames(t)
    ensures !WholeFrames(t + [p])
  {
    var i :| 0 <= i < |t| - 1 && t[i].job != t[i + 1].job && !t[i].last;
    assert (t + [p])[i] == t[i] && (t + [p])[i + 1] == t[i + 1];
  }

  lemma ConnsGrow(s: State, step: Step)
    requires Enabled(s, step)
    ensures |s.conns| <= |Next(s, step).conns|
    ensures forall c | |s.conns| <= c < |Next(s, step).conns| ::
              Next(s, step).conns[c] == Conn(true, Fresh, None, false, false, false, [])
  {
    hide Tears;
  }

  /** A connection that is not there yet has seen no write and no tear. */
  lemma {:induction false} NothingYet(states: seq<State>, steps: seq<Step>, n: nat, c: nat)
    requires IsRun(states, steps) && n <= |steps| && c >= |states[n].conns|
    ensures !TornBefore(states, steps, n, c) && !WrittenAfterTear(states, steps, n, c)
    decreases n
  {
    hide Next, Tears;
    if n > 0 {
      ConnsGrow(states[n - 1], steps[n - 1]);
      NothingYet(states, steps, n - 1, c);
    }
  }

  lemma TornOneMore(states: seq<State>, steps: seq<Step>, n: nat, c: nat)
    requires IsRun(states, steps) && n < |steps|
    ensures TornBefore(states, steps, n + 1, c) <==> TornBefore(states, steps, n, c) || TornAt(states, steps, n, c)
    ensures WrittenAfterTear(states, steps, n + 1, c) <==>
            || WrittenAfterTear(states, steps, n, c)
            || (WritesOn(states[n], steps[n], c) && TornBefore(states, steps, n, c))
  {
    hide TornAt, WritesOn, IsRun;
  }

  lemma {:induction false} TornIsRecorded(states: seq<State>, steps: seq<Step>, n: nat, c: nat)
    requires IsRun(states, steps) && n <= |steps| && c < |states[n].conns|
    ensures states[n].conns[c].torn <==> TornBefore(states, steps, n, c)
    decreases n
  {
    hide Next, Tears, TornBefore;
    if n > 0 {
      var s, step := states[n - 1], steps[n - 1];
      TornOneMore(states, steps, n - 1, c);
      ConnsGrow(s, step);
      if c < |s.conns| {
        TornIsRecorded(states, steps, n - 1, c);
        OnlyWritesWrite(s, step, c);
      } else {
        NothingYet(states, steps, n - 1, c);
      }
    }
  }

  /** Writing where a frame was left off makes it a broken one. */
  lemma WriteAfterLeavingOff(s: State, step: Step, c: nat)
    requires Enabled(s, step) && WritesOn(s, step, c) && LeftOff(s, c)
    ensures c < |Next(s, step).conns| && !WholeFrames(Next(s, step).conns[c].stream)
  {
    hide Next, WholeFrames;
    OnlyWritesWrite(s, step, c);
    NotWhole(s.conns[c].stream, Piece(step.j, s.jobs[step.j].what, step.last));
  }

  lemma TornFrom(states: seq<State>, steps: seq<Step>, n: nat, c: nat)
    requires IsRun(states, steps) && n <= |steps|
    requires TornBefore(states, steps, n, c) && !WrittenAfterTear(states, steps, n, c)
    ensures LeftOff(states[n], c)
  {
    hide TornAt, WritesOn, IsRun, LeftOff;
    var i: nat :| i < n && TornAt(states, steps, i, c);
    assert forall k | i < k < n :: TornBefore(states, steps, k, c);
    LeftOffUntilWritten(states, steps, i, n, c);
  }

  /** One write: the frames on its connection stop being whole exactly if a frame was torn before. */
  lemma TornByWrite(states: seq<State>, steps: seq<Step>, n: nat, c: nat)
    requires IsRun(states, steps) && n < |steps| && c < |states[n].conns| && WritesOn(states[n], steps[n], c)
    requires !WholeFrames(states[n].conns[c].stream) <==> WrittenAfterTear(states, steps, n, c)
    ensures c < |states[n + 1].conns|
    ensures !WholeFrames(states[n + 1].conns[c].stream) <==>
            WrittenAfterTear(states, steps, n, c) || TornBefore(states, steps, n, c)
  {
    hide Next, WholeFrames, TornBefore, WrittenAfterTear, LeftOff;
    var s, step := states[n], steps[n];
    OnlyWritesWrite(s, step, c);
    if WrittenAfterTear(states, steps, n, c) {
      StaysBroken(s.conns[c].stream, Piece(step.j, s.jobs[step.j].what, step.last));
    } else if TornBefore(states, steps, n, c) {
      TornFrom(states, steps, n, c);
      WriteAfterLeavingOff(s, step, c);
    } else {
      TornIsRecorded(states, steps, n, c);
      RunIsSafe(states, steps, n + 1, c);
    }
  }

  /** Over every run: a connection carries an unfinished frame before another exactly when a socket refused
      bytes within a frame, took the refusal as temporary, and was written to again. */
  lemma {:induction false} TornExactly(states: seq<State>, steps: seq<Step>, n: nat, c: nat)
    requires IsRun(states, steps) && n <= |steps| && c < |states[n].conns|
    ensures !WholeFrames(states[n].conns[c].stream) <==> WrittenAfterTear(states, steps, n, c)
    decreases n
  {
    hide Next, WholeFrames, TornBefore, WrittenAfterTear, WritesOn, LeftOff;
    if n == 0 { return; }
    var s, step := states[n - 1], steps[n - 1];
    ConnsGrow(s, step);
    TornOneMore(states, steps, n - 1, c);
    if c >= |s.conns| {
      NothingYet(states, steps, n - 1, c);
      EmptyIsSafe(states[n].conns[c]);
      return;
    }
    TornExactly(states, steps, n - 1, c);
    OnlyWritesWrite(s, step, c);
    if WritesOn(s, step, c) { TornByWrite(states, steps, n - 1, c); }
  }

  // ---- A run that tears a frame ----

  ghost predicate Reachable(s: State) { exists states, steps :: IsRun(states, steps) && states[|states| - 1] == s }

  lemma Onward(s: State, step: Step, s1: State)
    requires Reachable(s) && Enabled(s, step) && Next(s, step) == s1
    ensures Reachable(s1)
  {
    hide Enabled, Next;
    var states, steps :| IsRun(states, steps) && states[|states| - 1] == s;
    var states1, steps1 := states + [s1], steps + [step];
    forall i | 0 <= i < |steps1| ensures Enabled(states1[i], steps1[i]) && states1[i + 1] == Next(states1[i], steps1[i]) {
      if i < |steps| { assert states1[i] == states[i] && states1[i + 1] == states[i + 1] && steps1[i] == steps[i]; }
    }
    assert IsRun(states1, steps1);
  }

  function Client(reply: Option<nat>, handled: bool, stream: seq<Piece>): Conn {
    Conn(true, Dispatched(RequestType.Subscribe), reply, handled, false, false, stream)
  }

  function Accepting(pc: Pc, sent: bool): Job { Job(0, AcceptFrame, pc, sent, true) }

  function Event(pc: Pc): Job { Job(0, EventFrame, pc, false, false) }

  const ACCEPTED: Piece := Piece(0, AcceptFrame, true)

  /** One client connects and subscribes. */
  lemma SubscribeRun()
    ensures Reachable(State([Client(Some(0), false, [])], [Accepting(Locking, false)], None, Some(0), Replying(0)))
  {
    hide Reachable;
    Start();
    var x0 := Conn(true, Fresh, None, false, false, false, []);
    var s1 := State([x0], [], None, None, Idle);
    Onward(INIT, Connect, s1);
    assert [x0][0 := Client(None, false, [])] == [Client(None, false, [])];
    var s2 := State([Client(None, false, [])], [], None, Some(0), Handling(0));
    Onward(s1, Dispatch(0, RequestType.Subscribe), s2);
    assert s2.conns[0 := Client(Some(0), false, [])] == [Client(Some(0), false, [])];
    Onward(s2, Accept(true), State([Client(Some(0), false, [])], [Accepting(Locking, false)], None, Some(0), Replying(0)));
  }

  /** The acceptance is sent. */
  lemma AcceptRun()
    ensures Reachable(State([Client(Some(0), false, [ACCEPTED])], [Accepting(Unlocking, true)], Some(0), Some(0), Replying(0)))
  {
    hide Reachable;
    var x1, x2 := Client(Some(0), false, []), Client(Some(0), false, [ACCEPTED]);
    SubscribeRun();
    var s3 := State([x1], [Accepting(Locking, false)], None, Some(0), Replying(0));
    assert s3.jobs[0 := Accepting(Sending, false)] == [Accepting(Sending, false)];
    var s4 := State([x1], [Accepting(Sending, false)], Some(0), Some(0), Replying(0));
    Onward(s3, Acquire(0), s4);
    assert x1.stream + [ACCEPTED] == x2.stream;
    assert s4.conns[0 := x2] == [x2] && s4.jobs[0 := Accepting(Unlocking, true)] == [Accepting(Unlocking, true)];
    Onward(s4, Write(0, true), State([x2], [Accepting(Unlocking, true)], Some(0), Some(0), Replying(0)));
  }

  /** The dispatcher is done with the request. */
  lemma HandledRun()
    ensures Reachable(State([Client(Some(0), true, [ACCEPTED])], [Accepting(Finished, true)], None, None, Idle))
  {
    hide Reachable;
    var x2, x3 := Client(Some(0), false, [ACCEPTED]), Client(Some(0), true, [ACCEPTED]);
    AcceptRun();
    var s5 := State([x2], [Accepting(Unlocking, true)], Some(0), Some(0), Replying(0));
    assert s5.jobs[0 := Accepting(Clearing, true)] == [Accepting(Clearing, true)];
    var s6 := State([x2], [Accepting(Clearing, true)], None, Some(0), Replying(0));
    Onward(s5, Unlock(0), s6);
    assert s6.conns[0 := x3] == [x3] && s6.jobs[0 := Accepting(Finished, true)] == [Accepting(Finished, true)];
    var s7 := State([x3], [Accepting(Finished, true)], None, None, Replying(0));
    Onward(s6, Clear(0), s7);
    Onward(s7, Return, s7.(disp := Idle));
  }

  lemma Start()
    ensures Reachable(INIT)
  {
    assert IsRun([INIT], []);
  }

  /** Two events are sent to that client, and the first is half written. */
  lemma TwoEvents() returns (s: State)
    ensures Reachable(s)
    ensures s == State([Client(Some(0), true, [ACCEPTED, Piece(1, EventFrame, false)])],
                       [Accepting(Finished, true), Event(Sending), Event(Locking)], Some(1), None, Idle)
  {
    hide Reachable;
    var x, a := Client(Some(0), true, [ACCEPTED]), Accepting(Finished, true);
    HandledRun();
    var s0 := State([x], [a], None, None, Idle);
    var s1 := s0.(jobs := [a, Event(Waiting)]);
    Onward(s0, Emit(0), s1);
    var s2 := s0.(jobs := [a, Event(Waiting), Event(Waiting)]);
    Onward(s1, Emit(0), s2);
    var s3 := s0.(jobs := [a, Event(Locking), Event(Waiting)]);
    Onward(s2, Pass(1), s3);
    var s4 := s0.(jobs := [a, Event(Locking), Event(Locking)]);
    Onward(s3, Pass(2), s4);
    var s5 := s0.(jobs := [a, Event(Sending), Event(Locking)], lock := Some(1));
    Onward(s4, Acquire(1), s5);
    s := s5.(conns := [Client(Some(0), true, [ACCEPTED, Piece(1, EventFrame, false)])]);
    assert [ACCEPTED] + [Piece(1, EventFrame, false)] == [ACCEPTED, Piece(1, EventFrame, false)];
    assert s5.conns[0 := s.conns[0]] == s.conns;
    Onward(s5, Write(1, false), s);
  }

  /** The broken frame does occur: some run ends with it. */
  lemma TornRun() returns (s: State)
    ensures Reachable(s) && |s.conns| == 1 && !WholeFrames(s.conns[0].stream)
  {
    hide WholeFrames, Reachable;
    var s0 := TwoEvents();
    var s1, s2, s3;
    s1, s2, s3, s := TornFrame(s0, 1, 2);
    Onward(s0, Fail(1, false), s1);
    Onward(s1, Unlock(1), s2);
    Onward(s2, Acquire(2), s3);
    Onward(s3, Write(2, true), s);
  }
}
