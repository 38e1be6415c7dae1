/** The asynchronous logger: producers, worker threads and the shutdown protocol, one step per
    section under the queue's lock. */
module LoggerShutdown {
  import opened Flattening

  datatype Msg = Log(id: nat, flushes: bool) | Flush | Terminate

  /** What a worker is doing: waiting for a message, handling one, waiting to post the flush its
      message asks for, or gone. */
  datatype Worker = Idle | Busy(msg: Msg) | Posting | Exited

  datatype Policy = BlockRetry | Discard

  /** `room` messages fit the queue; `unposted` is how many TERMINATEs the destructor still has
      to post once it runs. */
  datatype State = State(queue: seq<Msg>, workers: seq<Worker>, destroying: bool, unposted: nat,
                         accepted: multiset<nat>, handled: multiset<nat>, dropped: multiset<nat>)

  datatype Config = Config(room: nat, threads: nat, policy: Policy) {
    /** A ring of size two or more, and at least one thread, as the pool demands. */
    predicate Ok() {
      room >= 1 && 1 <= threads < 1024
    }
  }

  datatype Step =
    | Accept(id: nat, flushes: bool)
    | AskFlush
    | Destroy
    | PostTerminate
    | Take(worker: nat)
    | Handle(worker: nat)
    | PostFlush(worker: nat)

  function Init(c: Config): (r: State) {
    State([], seq(c.threads, _ => Idle), false, c.threads, multiset{}, multiset{}, multiset{})
  }

  predicate Full(c: Config, s: State) {
    |s.queue| >= c.room
  }

  /** `HandleMsg`: what becomes of the worker. */
  function Handled(m: Msg): (r: Worker) {
    match m
    case Log(_, flushes) => if flushes then Posting else Idle
    case Flush => Idle
    case Terminate => Exited
  }

  /** One step, if it can happen. */
  function Next(c: Config, s: State, step: Step): (r: Option<State>) {
    match step
    case Accept(id, flushes) =>
      var m := Log(id, flushes);
      if s.destroying || (c.policy.BlockRetry? && Full(c, s)) then None
      else if !Full(c, s) then Some(s.(queue := s.queue + [m], accepted := s.accepted + multiset{id}))
      else Some(s.(queue := (s.queue + [m])[1..], accepted := s.accepted + multiset{id},
                   dropped := s.dropped + multiset(Ids((s.queue + [m])[0]))))
    case AskFlush =>
      if s.destroying || Full(c, s) then None else Some(s.(queue := s.queue + [Flush]))
    case Destroy =>
      if s.destroying then None else Some(s.(destroying := true))
    case PostTerminate =>
      if !s.destroying || s.unposted == 0 || Full(c, s) then None
      else Some(s.(queue := s.queue + [Terminate], unposted := s.unposted - 1))
    case Take(w) =>
      if w >= |s.workers| || s.workers[w] != Idle || s.queue == [] then None
      else Some(s.(queue := s.queue[1..], workers := s.workers[w := Busy(s.queue[0])]))
    case Handle(w) =>
      if w >= |s.workers| || !s.workers[w].Busy? then None
      else
        var m := s.workers[w].msg;
        Some(s.(workers := s.workers[w := Handled(m)], handled := s.handled + multiset(Ids(m))))
    case PostFlush(w) =>
      if w >= |s.workers| || s.workers[w] != Posting || Full(c, s) then None
      else Some(s.(queue := s.queue + [Flush], workers := s.workers[w := Idle]))
  }

  function Exec(c: Config, s: State, steps: seq<Step>): (r: Option<State>)
    decreases steps
  {
    if steps == [] then Some(s)
    else match Next(c, s, steps[0])
      case None => None
      case Some(t) => Exec(c, t, steps[1..])
  }

  // Accounts: the log messages and the TERMINATEs in a queue and in the workers' hands.

  function Ids(m: Msg): (r: seq<nat>) {
    if m.Log? then [m.id] else []
  }

  /** A mark for each copy of message `x`. */
  function Mark(x: nat): (f: Msg -> seq<bool>) {
    (m: Msg) => if m.Log? && m.id == x then [true] else []
  }

  function HeldMark(x: nat): (f: Worker -> seq<bool>) {
    (w: Worker) => if w.Busy? then Mark(x)(w.msg) else []
  }

  function Ends(m: Msg): (r: seq<bool>) {
    if m.Terminate? then [true] else []
  }

  /** One mark for every worker that lives, less one for a TERMINATE in its hand. */
  function Owed(w: Worker): (r: seq<bool>) {
    if w.Exited? || (w.Busy? && w.msg.Terminate?) then [] else [true]
  }

  ghost predicate Gone(s: State) {
    exists i :: 0 <= i < |s.workers| && (s.workers[i].Exited? || s.workers[i] == Busy(Terminate))
  }

  ghost predicate LogsFirst(q: seq<Msg>) {
    forall i, j :: 0 <= i < j < |q| && q[i].Terminate? ==> !q[j].Log?
  }

  /** The workers not yet told to go are as many as the TERMINATEs they can still be told by. */
  ghost predicate Counted(c: Config, s: State) {
    && |s.workers| == c.threads && |s.queue| <= c.room
    && |Joined(Owed, s.workers)| == s.unposted + |Joined(Ends, s.queue)|
    && (!s.destroying ==> s.unposted == c.threads)
  }

  /** Message `x` has been handled or dropped, is queued or in a worker's hand, as many times as it
      was accepted. */
  ghost predicate Accounted(s: State, x: nat) {
    s.accepted[x] == s.handled[x] + s.dropped[x] + |Joined(Mark(x), s.queue)| + |Joined(HeldMark(x), s.workers)|
  }

  /** Log messages are ahead of the TERMINATEs. */
  ghost predicate Ordered(s: State) {
    LogsFirst(s.queue) && (Gone(s) ==> Joined(Ids, s.queue) == [])
  }

  ghost predicate Inv(c: Config, s: State) {
    && Counted(c, s) && Ordered(s)
    && (forall x: nat :: Accounted(s, x))
    && (c.policy.BlockRetry? ==> s.dropped == multiset{})
  }

  lemma InitInv(c: Config)
    requires c.Ok()
    ensures Inv(c, Init(c))
  {
    AllOwe(c.threads);
    forall x: nat ensures Accounted(Init(c), x) {
      JoinedEmpty(HeldMark(x), Init(c).workers);
    }
  }

  lemma {:induction false} AllOwe(n: nat)
    ensures |Joined(Owed, seq(n, _ => Idle))| == n
  {
    if n > 0 {
      AllOwe(n - 1);
      assert seq(n, _ => Idle)[1..] == seq(n - 1, _ => Idle);
    }
  }

  lemma {:induction false} OwedBound(ws: seq<Worker>)
    ensures |Joined(Owed, ws)| <= |ws|
  {
    if ws != [] {
      OwedBound(ws[1..]);
    }
  }

  /** A worker that has left, or been told to, is one less. */
  lemma OneTold(ws: seq<Worker>, i: nat)
    requires i < |ws| && Owed(ws[i]) == []
    ensures |Joined(Owed, ws)| < |ws|
  {
    JoinedAt(Owed, ws, i);
    OwedBound(ws[..i]);
    OwedBound(ws[i + 1..]);
  }

  /** Until the logger is destroyed nobody is told to go. */
  lemma NobodyGone(c: Config, s: State)
    requires Inv(c, s) && !s.destroying
    ensures !Gone(s) && Joined(Ends, s.queue) == [] && forall i :: 0 <= i < |s.queue| ==> !s.queue[i].Terminate?
  {
    OwedBound(s.workers);
    forall i | 0 <= i < |s.workers| ensures Owed(s.workers[i]) != [] {
      if Owed(s.workers[i]) == [] {
        OneTold(s.workers, i);
      }
    }
    forall i | 0 <= i < |s.queue| ensures !s.queue[i].Terminate? {
      JoinedAt(Ends, s.queue, i);
    }
  }

  /** A message at the end of the queue. */
  lemma QueueMore<T>(f: Msg -> seq<T>, q: seq<Msg>, m: Msg)
    ensures Joined(f, q + [m]) == Joined(f, q) + f(m)
  {
    JoinedConcat(f, q, [m]);
    JoinedSingle(f, m);
  }

  /** Another state for one worker. */
  lemma WorkerSet<T>(f: Worker -> seq<T>, ws: seq<Worker>, i: nat, w: Worker)
    requires i < |ws|
    ensures |Joined(f, ws[i := w])| + |f(ws[i])| == |Joined(f, ws)| + |f(w)|
  {
    JoinedAt(f, ws, i);
    JoinedSet(f, ws, i, w);
  }

  lemma GoneSet(s: State, i: nat, w: Worker)
    requires i < |s.workers| && Owed(w) != []
    ensures Gone(s.(workers := s.workers[i := w])) ==> Gone(s)
  {
    var t := s.(workers := s.workers[i := w]);
    if Gone(t) {
      var k :| 0 <= k < |t.workers| && (t.workers[k].Exited? || t.workers[k] == Busy(Terminate));
      assert t.workers[k] == s.workers[k];
    }
  }

  lemma LogsFirstSnoc(q: seq<Msg>, m: Msg)
    requires LogsFirst(q) && (m.Log? ==> forall i :: 0 <= i < |q| ==> !q[i].Terminate?)
    ensures LogsFirst(q + [m])
  {
  }

  lemma LogsFirstTail(q: seq<Msg>)
    requires LogsFirst(q) && q != []
    ensures LogsFirst(q[1..])
  {
  }

  /** After a TERMINATE nothing is left to log. */
  lemma NoLogsAfter(q: seq<Msg>)
    requires LogsFirst(q) && q != [] && q[0].Terminate?
    ensures Joined(Ids, q[1..]) == []
  {
    JoinedEmpty(Ids, q[1..]);
  }

  lemma AcceptKeeps(c: Config, s: State, id: nat, flushes: bool, t: State)
    requires c.Ok() && Inv(c, s) && Next(c, s, Accept(id, flushes)) == Some(t)
    ensures Counted(c, t) && Ordered(t)
  {
    var m := Log(id, flushes);
    NobodyGone(c, s);
    QueueMore(Ends, s.queue, m);
    LogsFirstSnoc(s.queue, m);
    if Full(c, s) {
      LogsFirstTail(s.queue + [m]);
    }
  }

  lemma PostKeeps(c: Config, s: State, m: Msg, t: State)
    requires c.Ok() && Counted(c, s) && Ordered(s) && !m.Log? && |s.queue| < c.room
    requires t == s.(queue := s.queue + [m], unposted := t.unposted) && t.unposted == s.unposted - |Ends(m)|
    requires m.Terminate? ==> s.destroying
    ensures Counted(c, t) && Ordered(t)
  {
    QueueMore(Ends, s.queue, m);
    QueueMore(Ids, s.queue, m);
    LogsFirstSnoc(s.queue, m);
    assert Gone(t) ==> Gone(s);
  }

  lemma TakeKeeps(c: Config, s: State, w: nat, t: State)
    requires c.Ok() && Counted(c, s) && Ordered(s) && Next(c, s, Take(w)) == Some(t)
    ensures Counted(c, t) && Ordered(t)
  {
    var m := s.queue[0];
    WorkerSet(Owed, s.workers, w, Busy(m));
    LogsFirstTail(s.queue);
    if m.Terminate? {
      NoLogsAfter(s.queue);
    } else {
      GoneSet(s, w, Busy(m));
      assert Gone(t) ==> Gone(s);
    }
  }

  lemma WorkerKeeps(c: Config, s: State, w: nat, t: State)
    requires c.Ok() && Counted(c, s) && Ordered(s) && w < |s.workers|
    requires |t.workers| == |s.workers| && t == s.(workers := s.workers[w := t.workers[w]], handled := t.handled)
    requires Owed(t.workers[w]) == Owed(s.workers[w])
    ensures Counted(c, t) && Ordered(t)
  {
    WorkerSet(Owed, s.workers, w, t.workers[w]);
    if Owed(t.workers[w]) != [] {
      GoneSet(s, w, t.workers[w]);
    }
    assert Gone(t) ==> Gone(s);
  }

  lemma MarksIds(m: Msg, x: nat)
    ensures |Mark(x)(m)| == multiset(Ids(m))[x]
  {
  }

  lemma AcceptAccount(c: Config, s: State, id: nat, flushes: bool, t: State, x: nat)
    requires Accounted(s, x) && Next(c, s, Accept(id, flushes)) == Some(t)
    ensures Accounted(t, x)
  {
    var f, all := Mark(x), s.queue + [Log(id, flushes)];
    QueueMore(f, s.queue, Log(id, flushes));
    assert Joined(f, all) == f(all[0]) + Joined(f, all[1..]);
    MarksIds(all[0], x);
    MarksIds(Log(id, flushes), x);
  }

  lemma HandleAccount(c: Config, s: State, w: nat, t: State, x: nat)
    requires Accounted(s, x) && Next(c, s, Handle(w)) == Some(t)
    ensures Accounted(t, x)
  {
    WorkerSet(HeldMark(x), s.workers, w, Handled(s.workers[w].msg));
    MarksIds(s.workers[w].msg, x);
  }

  /** Every step keeps the account of every message. */
  lemma AccountKept(c: Config, s: State, step: Step, t: State, x: nat)
    requires Accounted(s, x) && Next(c, s, step) == Some(t)
    ensures Accounted(t, x)
  {
    var f, h := Mark(x), HeldMark(x);
    match step
    case Accept(id, flushes) => AcceptAccount(c, s, id, flushes, t, x);
    case AskFlush => QueueMore(f, s.queue, Flush);
    case Destroy =>
    case PostTerminate => QueueMore(f, s.queue, Terminate);
    case Take(w) => WorkerSet(h, s.workers, w, Busy(s.queue[0]));
    case Handle(w) => HandleAccount(c, s, w, t, x);
    case PostFlush(w) =>
      QueueMore(f, s.queue, Flush);
      WorkerSet(h, s.workers, w, Idle);
  }

  lemma PostFlushKeeps(c: Config, s: State, w: nat, t: State)
    requires c.Ok() && Counted(c, s) && Ordered(s) && Next(c, s, PostFlush(w)) == Some(t)
    ensures Counted(c, t) && Ordered(t)
  {
    var idle := s.(workers := s.workers[w := Idle]);
    WorkerKeeps(c, s, w, idle);
    PostKeeps(c, idle, Flush, t);
  }

  lemma AskFlushKeeps(c: Config, s: State, t: State)
    requires c.Ok() && Counted(c, s) && Ordered(s) && Next(c, s, AskFlush) == Some(t)
    ensures Counted(c, t) && Ordered(t)
  {
    PostKeeps(c, s, Flush, t);
  }

  lemma PostTerminateKeeps(c: Config, s: State, t: State)
    requires c.Ok() && Counted(c, s) && Ordered(s) && Next(c, s, PostTerminate) == Some(t)
    ensures Counted(c, t) && Ordered(t)
  {
    PostKeeps(c, s, Terminate, t);
  }

  lemma HandleKeeps(c: Config, s: State, w: nat, t: State)
    requires c.Ok() && Counted(c, s) && Ordered(s) && Next(c, s, Handle(w)) == Some(t)
    ensures Counted(c, t) && Ordered(t)
  {
    WorkerKeeps(c, s, w, t);
  }

  lemma DestroyKeeps(c: Config, s: State, t: State)
    requires c.Ok() && Counted(c, s) && Ordered(s) && Next(c, s, Destroy) == Some(t)
    ensures Counted(c, t) && Ordered(t)
  {
    assert Gone(t) ==> Gone(s);
  }

  lemma ShapeKept(c: Config, s: State, step: Step, t: State)
    requires c.Ok() && Inv(c, s) && Next(c, s, step) == Some(t)
    ensures Counted(c, t) && Ordered(t)
  {
    match step
    case Accept(id, flushes) => AcceptKeeps(c, s, id, flushes, t);
    case AskFlush => AskFlushKeeps(c, s, t);
    case Destroy => DestroyKeeps(c, s, t);
    case PostTerminate => PostTerminateKeeps(c, s, t);
    case Take(w) => TakeKeeps(c, s, w, t);
    case Handle(w) => HandleKeeps(c, s, w, t);
    case PostFlush(w) => PostFlushKeeps(c, s, w, t);
  }

  /** Every step keeps the invariant. */
  lemma NextKeeps(c: Config, s: State, step: Step, t: State)
    requires c.Ok() && Inv(c, s) && Next(c, s, step) == Some(t)
    ensures Inv(c, t)
  {
    ShapeKept(c, s, step, t);
    forall x: nat ensures Accounted(t, x) {
      AccountKept(c, s, step, t, x);
    }
  }

  lemma {:induction false} ExecKeeps(c: Config, s: State, steps: seq<Step>)
    requires c.Ok() && Inv(c, s) && Exec(c, s, steps).Some?
    ensures Inv(c, Exec(c, s, steps).value)
    decreases steps
  {
    if steps != [] {
      var t := Next(c, s, steps[0]).value;
      NextKeeps(c, s, steps[0], t);
      ExecKeeps(c, t, steps[1..]);
    }
  }

  // Safety.

  function Alive(w: Worker): (r: seq<bool>) {
    if w.Exited? then [] else [true]
  }

  function Told(w: Worker): (r: seq<bool>) {
    if w == Busy(Terminate) then [true] else []
  }

  predicate AllExited(s: State) {
    forall i :: 0 <= i < |s.workers| ==> s.workers[i].Exited?
  }

  lemma {:induction false} AliveOwedOrTold(ws: seq<Worker>)
    ensures |Joined(Alive, ws)| == |Joined(Owed, ws)| + |Joined(Told, ws)|
  {
    if ws != [] {
      AliveOwedOrTold(ws[1..]);
    }
  }

  /** In every run the living workers are as many as the TERMINATEs still to be posted, queued
      and in hand. */
  lemma LivingWorkers(c: Config, steps: seq<Step>)
    requires c.Ok() && Exec(c, Init(c), steps).Some?
    ensures var s := Exec(c, Init(c), steps).value;
            |Joined(Alive, s.workers)| == s.unposted + |Joined(Ends, s.queue)| + |Joined(Told, s.workers)|
  {
    InitInv(c);
    ExecKeeps(c, Init(c), steps);
    AliveOwedOrTold(Exec(c, Init(c), steps).value.workers);
  }

  lemma OnlyFlushesLeft(c: Config, s: State)
    requires c.Ok() && Counted(c, s) && Ordered(s) && AllExited(s)
    ensures s.destroying && s.unposted == 0 && forall i :: 0 <= i < |s.queue| ==> s.queue[i] == Flush
  {
    JoinedEmpty(Owed, s.workers);
    assert s.workers[0].Exited?;
    assert Gone(s);
    forall i | 0 <= i < |s.queue| ensures s.queue[i] == Flush {
      JoinedAt(Ends, s.queue, i);
      JoinedAt(Ids, s.queue, i);
    }
  }

  lemma AllAccounted(s: State)
    requires AllExited(s) && (forall i :: 0 <= i < |s.queue| ==> s.queue[i] == Flush) && forall x: nat :: Accounted(s, x)
    ensures s.accepted == s.handled + s.dropped
  {
    forall x: nat ensures s.accepted[x] == (s.handled + s.dropped)[x] {
      JoinedEmpty(Mark(x), s.queue);
      JoinedEmpty(HeldMark(x), s.workers);
      assert Accounted(s, x);
    }
  }

  /** Once every worker has left, in any run: every message accepted has been handled, or under
      `Discard` dropped, exactly as often; and only flushes can still be queued. */
  lemma ShutdownComplete(c: Config, steps: seq<Step>)
    requires c.Ok() && Exec(c, Init(c), steps).Some? && AllExited(Exec(c, Init(c), steps).value)
    ensures var s := Exec(c, Init(c), steps).value;
            && s.destroying && s.unposted == 0
            && s.accepted == s.handled + s.dropped
            && (c.policy.BlockRetry? ==> s.accepted == s.handled)
            && forall i :: 0 <= i < |s.queue| ==> s.queue[i] == Flush
  {
    InitInv(c);
    ExecKeeps(c, Init(c), steps);
    var s := Exec(c, Init(c), steps).value;
    OnlyFlushesLeft(c, s);
    AllAccounted(s);
  }

  // Progress, once the destructor runs.

  ghost predicate Stuck(c: Config, s: State) {
    forall step :: Next(c, s, step).None?
  }

  /** The queue is full and every living worker waits to post its own flush. */
  ghost predicate Deadlocked(c: Config, s: State) {
    && Full(c, s) && !AllExited(s)
    && forall i :: 0 <= i < |s.workers| ==> s.workers[i].Exited? || s.workers[i].Posting?
  }

  /** A worker still waiting has a message to take or a TERMINATE to come. */
  lemma WaitedFor(c: Config, s: State, w: nat)
    requires Counted(c, s) && w < |s.workers| && s.workers[w] == Idle
    ensures s.queue != [] || s.unposted > 0
  {
    JoinedAt(Owed, s.workers, w);
  }

  lemma NoneNext(c: Config, s: State)
    requires Counted(c, s) && s.destroying && (AllExited(s) || Deadlocked(c, s))
    ensures Stuck(c, s)
  {
    if AllExited(s) {
      JoinedEmpty(Owed, s.workers);
    }
    forall step ensures Next(c, s, step).None? {
      if step.Take? || step.Handle? || step.PostFlush? {
        assert step.worker < |s.workers| ==>
                 s.workers[step.worker].Exited? || (s.workers[step.worker].Posting? && Full(c, s));
      }
    }
  }

  /** The only states without a next step are the finished one and the deadlock. */
  lemma StuckStates(c: Config, s: State)
    requires c.Ok() && Counted(c, s) && s.destroying
    ensures Stuck(c, s) <==> AllExited(s) || Deadlocked(c, s)
  {
    if AllExited(s) || Deadlocked(c, s) {
      NoneNext(c, s);
    } else {
      var w: nat :| w < |s.workers| && !s.workers[w].Exited? && (s.workers[w].Posting? ==> !Full(c, s));
      if s.workers[w].Busy? {
        assert Next(c, s, Handle(w)).Some?;
      } else if s.workers[w].Posting? {
        assert Next(c, s, PostFlush(w)).Some?;
      } else {
        WaitedFor(c, s, w);
        assert Next(c, s, if s.queue != [] then Take(w) else PostTerminate).Some?;
      }
    }
  }

  // Every run of the destructor is finite: each message has only so many steps in it.

  function Marks(n: nat): (r: seq<bool>)
    ensures |r| == n
  {
    seq(n, _ => true)
  }

  function QueuedWork(m: Msg): (r: seq<bool>) {
    Marks(if m.Log? && m.flushes then 5 else 2)
  }

  function WorkerWork(w: Worker): (r: seq<bool>) {
    match w
    case Idle => []
    case Exited => []
    case Posting => Marks(3)
    case Busy(m) => Marks(if m.Log? && m.flushes then 4 else 1)
  }

  ghost function Work(s: State): (r: nat) {
    3 * s.unposted + |Joined(QueuedWork, s.queue)| + |Joined(WorkerWork, s.workers)|
  }

  lemma WorkShrinks(c: Config, s: State, step: Step, t: State)
    requires s.destroying && Next(c, s, step) == Some(t)
    ensures t.destroying && Work(t) == Work(s) - 1
  {
    match step
    case PostTerminate => QueueMore(QueuedWork, s.queue, Terminate);
    case Take(w) =>
      WorkerSet(WorkerWork, s.workers, w, Busy(s.queue[0]));
      assert |Joined(QueuedWork, s.queue)| == |QueuedWork(s.queue[0])| + |Joined(QueuedWork, t.queue)|;
    case Handle(w) => WorkerSet(WorkerWork, s.workers, w, Handled(s.workers[w].msg));
    case PostFlush(w) =>
      QueueMore(QueuedWork, s.queue, Flush);
      WorkerSet(WorkerWork, s.workers, w, Idle);
  }

  lemma {:induction false} DestructorEnds(c: Config, s: State, steps: seq<Step>)
    requires s.destroying && Exec(c, s, steps).Some?
    ensures |steps| == Work(s) - Work(Exec(c, s, steps).value) && Exec(c, s, steps).value.destroying
    decreases steps
  {
    if steps != [] {
      var t := Next(c, s, steps[0]).value;
      WorkShrinks(c, s, steps[0], t);
      DestructorEnds(c, t, steps[1..]);
    }
  }

  // Without messages at flush level there is no deadlock.

  predicate Quiet(steps: seq<Step>) {
    forall i :: 0 <= i < |steps| ==> !(steps[i].Accept? && steps[i].flushes)
  }

  predicate Calm(m: Msg) {
    !(m.Log? && m.flushes)
  }

  predicate CalmWorker(w: Worker) {
    !w.Posting? && (w.Busy? ==> Calm(w.msg))
  }

  predicate CalmQueue(q: seq<Msg>) {
    forall i :: 0 <= i < |q| ==> Calm(q[i])
  }

  predicate NoFlushes(s: State) {
    CalmQueue(s.queue) && forall i :: 0 <= i < |s.workers| ==> CalmWorker(s.workers[i])
  }

  lemma CalmMoves(q: seq<Msg>, m: Msg)
    requires CalmQueue(q) && Calm(m)
    ensures CalmQueue(q + [m]) && CalmQueue((q + [m])[1..]) && (q != [] ==> CalmQueue(q[1..]))
  {
  }

  lemma QuietStep(c: Config, s: State, step: Step, t: State)
    requires NoFlushes(s) && !(step.Accept? && step.flushes) && Next(c, s, step) == Some(t)
    ensures NoFlushes(t)
  {
    match step
    case Accept(id, _) => CalmMoves(s.queue, Log(id, false));
    case AskFlush => CalmMoves(s.queue, Flush);
    case Destroy =>
    case PostTerminate => CalmMoves(s.queue, Terminate);
    case Take(_) => CalmMoves(s.queue, Flush);
    case Handle(w) => assert CalmWorker(s.workers[w]);
    case PostFlush(_) => CalmMoves(s.queue, Flush);
  }

  lemma {:induction false} QuietRun(c: Config, s: State, steps: seq<Step>)
    requires NoFlushes(s) && Quiet(steps) && Exec(c, s, steps).Some?
    ensures NoFlushes(Exec(c, s, steps).value)
    decreases steps
  {
    if steps != [] {
      var t := Next(c, s, steps[0]).value;
      QuietStep(c, s, steps[0], t);
      QuietRun(c, t, steps[1..]);
    }
  }

  /** A run whose destructor can go no further has ended with every worker gone, or in the
      deadlock; without messages at flush level, always with every worker gone. */
  lemma ShutdownProgress(c: Config, steps: seq<Step>)
    requires c.Ok() && Exec(c, Init(c), steps).Some?
    requires Exec(c, Init(c), steps).value.destroying && Stuck(c, Exec(c, Init(c), steps).value)
    ensures var s := Exec(c, Init(c), steps).value;
            && (AllExited(s) || Deadlocked(c, s))
            && (Quiet(steps) ==> AllExited(s))
  {
    InitInv(c);
    ExecKeeps(c, Init(c), steps);
    StuckStates(c, Exec(c, Init(c), steps).value);
    if Quiet(steps) {
      QuietRun(c, Init(c), steps);
    }
  }

  // With them, whatever the configuration, the deadlock can be reached.

  lemma {:induction false} ExecMore(c: Config, s: State, steps: seq<Step>, step: Step)
    requires Exec(c, s, steps).Some?
    ensures Exec(c, s, steps + [step]) == Next(c, Exec(c, s, steps).value, step)
    decreases steps
  {
    if steps == [] {
      assert ([step] + [])[1..] == [];
    } else {
      assert (steps + [step])[1..] == steps[1..] + [step];
      ExecMore(c, Next(c, s, steps[0]).value, steps[1..], step);
    }
  }

  /** A run to a state where nobody has been told to go, with this queue and these workers. */
  ghost predicate Reaches(c: Config, steps: seq<Step>, queue: seq<Msg>, workers: seq<Worker>) {
    && Exec(c, Init(c), steps).Some?
    && var s := Exec(c, Init(c), steps).value;
       s.queue == queue && s.workers == workers && !s.destroying
  }

  function Split(n: nat, k: nat, done: Worker, rest: Worker): (r: seq<Worker>) {
    seq(n, i => if i < k then done else rest)
  }

  /** The first `k` workers each hold a message at flush level. */
  lemma {:induction false} Occupied(c: Config, k: nat) returns (steps: seq<Step>)
    requires c.Ok() && k <= c.threads
    ensures Reaches(c, steps, [], Split(c.threads, k, Busy(Log(0, true)), Idle))
  {
    if k == 0 {
      steps := [];
      assert Init(c).workers == Split(c.threads, 0, Busy(Log(0, true)), Idle);
    } else {
      var before := Occupied(c, k - 1);
      ExecMore(c, Init(c), before, Accept(0, true));
      ExecMore(c, Init(c), before + [Accept(0, true)], Take(k - 1));
      steps := before + [Accept(0, true)] + [Take(k - 1)];
      assert Split(c.threads, k - 1, Busy(Log(0, true)), Idle)[k - 1 := Busy(Log(0, true))]
          == Split(c.threads, k, Busy(Log(0, true)), Idle);
    }
  }

  /** Then `k` more messages are queued. */
  lemma {:induction false} Queued(c: Config, k: nat) returns (steps: seq<Step>)
    requires c.Ok() && k <= c.room
    ensures Reaches(c, steps, seq(k, _ => Log(1, false)), Split(c.threads, 0, Posting, Busy(Log(0, true))))
  {
    if k == 0 {
      steps := Occupied(c, c.threads);
      assert Split(c.threads, c.threads, Busy(Log(0, true)), Idle) == Split(c.threads, 0, Posting, Busy(Log(0, true)));
    } else {
      var before := Queued(c, k - 1);
      ExecMore(c, Init(c), before, Accept(1, false));
      steps := before + [Accept(1, false)];
      assert seq(k - 1, _ => Log(1, false)) + [Log(1, false)] == seq(k, _ => Log(1, false));
    }
  }

  /** Then the first `k` workers have handled theirs. */
  lemma {:induction false} Posted(c: Config, k: nat) returns (steps: seq<Step>)
    requires c.Ok() && k <= c.threads
    ensures Reaches(c, steps, seq(c.room, _ => Log(1, false)), Split(c.threads, k, Posting, Busy(Log(0, true))))
  {
    if k == 0 {
      steps := Queued(c, c.room);
    } else {
      var before := Posted(c, k - 1);
      ExecMore(c, Init(c), before, Handle(k - 1));
      steps := before + [Handle(k - 1)];
      assert Split(c.threads, k - 1, Posting, Busy(Log(0, true)))[k - 1 := Posting]
          == Split(c.threads, k, Posting, Busy(Log(0, true)));
    }
  }

  /** However long the queue and however many the workers, some run deadlocks the destructor. */
  lemma DeadlockReachable(c: Config) returns (steps: seq<Step>)
    requires c.Ok()
    ensures Exec(c, Init(c), steps).Some?
    ensures var s := Exec(c, Init(c), steps).value; s.destroying && Deadlocked(c, s) && Stuck(c, s)
  {
    var before := Posted(c, c.threads);
    ExecMore(c, Init(c), before, Destroy);
    steps := before + [Destroy];
    var s := Exec(c, Init(c), steps).value;
    assert s.workers[0].Posting?;
    InitInv(c);
    ExecKeeps(c, Init(c), steps);
    StuckStates(c, s);
  }
}
