/** The order in which the logger's messages leave its queue, over whole runs. */
module LoggerOrder {
  import opened Flattening
  import opened LoggerShutdown
  import Queues

  /** What leaves the queue: taken by a worker, or dropped to make room. */
  datatype Leaving = Taken(worker: nat, msg: Msg) | Dropped(msg: Msg)

  /** The message a step brings to the queue. */
  function Brought(step: Step): (r: seq<Msg>) {
    match step
    case Accept(id, flushes) => [Log(id, flushes)]
    case AskFlush => [Flush]
    case PostTerminate => [Terminate]
    case PostFlush(_) => [Flush]
    case _ => []
  }

  /** What leaves the queue at a step from `s` to `t`: what a worker is seen to hold then, or the oldest
      message if one came and the queue is no longer. */
  function Lost(s: State, step: Step, t: State): (r: seq<Leaving>) {
    match step
    case Take(w) => if w < |t.workers| && t.workers[w].Busy? then [Taken(w, t.workers[w].msg)] else []
    case Accept(_, _) => if |t.queue| <= |s.queue| && s.queue != [] then [Dropped(s.queue[0])] else []
    case _ => []
  }

  /** What leaves the queue over a run, in order. */
  function Leavings(c: Config, s: State, steps: seq<Step>): (r: seq<Leaving>)
    requires Exec(c, s, steps).Some?
    decreases steps
  {
    if steps == [] then []
    else
      var t := Next(c, s, steps[0]).value;
      Lost(s, steps[0], t) + Leavings(c, t, steps[1..])
  }

  function MsgOf(l: Leaving): (r: seq<Msg>) {
    [l.msg]
  }

  function TakenIds(l: Leaving): (r: seq<nat>) {
    if l.Taken? then Ids(l.msg) else []
  }

  function DroppedIds(l: Leaving): (r: seq<nat>) {
    if l.Dropped? then Ids(l.msg) else []
  }

  function LeftIds(l: Leaving): (r: seq<nat>) {
    Ids(l.msg)
  }

  function AcceptedId(step: Step): (r: seq<nat>) {
    if step.Accept? then [step.id] else []
  }

  /** The queue is the ring of `Queues`, one larger than what fits: a message comes in as it is pushed
      there, its oldest dropped when over, and a worker takes the oldest. */
  lemma StepIsRing(c: Config, s: State, step: Step, t: State)
    requires c.Ok() && |s.queue| <= c.room && Next(c, s, step) == Some(t)
    ensures |t.queue| <= c.room
    ensures Brought(step) != [] ==> t.queue == Queues.Pushed(s.queue, c.room + 1, Brought(step)[0])
    ensures step.Take? ==> s.queue != [] && t.queue == s.queue[1..] && t.workers[step.worker] == Busy(s.queue[0])
    ensures Brought(step) == [] && !step.Take? ==> t.queue == s.queue
  {
  }

  /** When a step can happen: who posts waits exactly while the ring would drop something, unless the
      policy is to let it; a worker that has nothing to do takes what there is. */
  lemma WaitsForRing(c: Config, s: State, id: nat, flushes: bool, w: nat)
    requires c.Ok() && |s.queue| <= c.room && w < |s.workers|
    ensures var fits := !Queues.Drops(|s.queue|, c.room + 1);
            && (Next(c, s, Accept(id, flushes)).Some? <==> !s.destroying && (fits || c.policy.Discard?))
            && (Next(c, s, AskFlush).Some? <==> !s.destroying && fits)
            && (Next(c, s, PostTerminate).Some? <==> s.destroying && s.unposted > 0 && fits)
            && (Next(c, s, PostFlush(w)).Some? <==> s.workers[w] == Posting && fits)
    ensures Next(c, s, Destroy).Some? <==> !s.destroying
    ensures Next(c, s, Take(w)).Some? <==> s.workers[w] == Idle && s.queue != []
    ensures Next(c, s, Handle(w)).Some? <==> s.workers[w].Busy?
  {
  }

  /** One step: what was queued and what comes is what leaves and what is queued then. */
  lemma InOrderStep(c: Config, s: State, step: Step, t: State)
    requires c.Ok() && |s.queue| <= c.room && Next(c, s, step) == Some(t)
    ensures s.queue + Brought(step) == Joined(MsgOf, Lost(s, step, t)) + t.queue && |t.queue| <= c.room
  {
    StepIsRing(c, s, step, t);
    var lost := Lost(s, step, t);
    if lost != [] {
      assert lost == [lost[0]];
      JoinedSingle(MsgOf, lost[0]);
      assert s.queue == [s.queue[0]] + s.queue[1..];
    }
  }

  lemma Regroup<T>(a: seq<T>, b: seq<T>, c: seq<T>, l: seq<T>, m: seq<T>, q: seq<T>, r: seq<T>)
    requires a + b == l + q && q + c == m + r
    ensures a + (b + c) == (l + m) + r
  {
    assert a + (b + c) == (l + q) + c == l + (q + c) == l + (m + r);
  }

  /** First in, first out over any run, for messages of every kind: what was queued followed by what came
      is what left followed by what is queued. */
  lemma {:induction false} MessagesInOrder(c: Config, s: State, steps: seq<Step>)
    requires c.Ok() && |s.queue| <= c.room && Exec(c, s, steps).Some?
    ensures s.queue + Joined(Brought, steps) == Joined(MsgOf, Leavings(c, s, steps)) + Exec(c, s, steps).value.queue
    decreases steps
  {
    if steps != [] {
      var t := Next(c, s, steps[0]).value;
      var lost, rest := Lost(s, steps[0], t), Leavings(c, t, steps[1..]);
      InOrderStep(c, s, steps[0], t);
      MessagesInOrder(c, t, steps[1..]);
      JoinedConcat(MsgOf, lost, rest);
      Regroup(s.queue, Brought(steps[0]), Joined(Brought, steps[1..]), Joined(MsgOf, lost), Joined(MsgOf, rest),
              t.queue, Exec(c, s, steps).value.queue);
    }
  }

  lemma {:induction false} IdsBrought(steps: seq<Step>)
    ensures Joined(Ids, Joined(Brought, steps)) == Joined(AcceptedId, steps)
  {
    if steps != [] {
      IdsBrought(steps[1..]);
      var b := Brought(steps[0]);
      JoinedConcat(Ids, b, Joined(Brought, steps[1..]));
      if b != [] {
        assert b == [b[0]];
        JoinedSingle(Ids, b[0]);
      }
    }
  }

  lemma {:induction false} IdsLeft(log: seq<Leaving>)
    ensures Joined(Ids, Joined(MsgOf, log)) == Joined(LeftIds, log)
  {
    if log != [] {
      IdsLeft(log[1..]);
      JoinedConcat(Ids, [log[0].msg], Joined(MsgOf, log[1..]));
      JoinedSingle(Ids, log[0].msg);
    }
  }

  lemma {:induction false} NoneDropped(c: Config, s: State, steps: seq<Step>)
    requires c.policy.BlockRetry? && Exec(c, s, steps).Some?
    ensures Joined(LeftIds, Leavings(c, s, steps)) == Joined(TakenIds, Leavings(c, s, steps))
    ensures Joined(DroppedIds, Leavings(c, s, steps)) == []
    decreases steps
  {
    if steps != [] {
      var t := Next(c, s, steps[0]).value;
      var lost, rest := Lost(s, steps[0], t), Leavings(c, t, steps[1..]);
      NoneDropped(c, t, steps[1..]);
      assert lost == [] || (lost == [lost[0]] && lost[0].Taken?);
      JoinedConcat(LeftIds, lost, rest);
      JoinedConcat(TakenIds, lost, rest);
      JoinedConcat(DroppedIds, lost, rest);
      if lost != [] {
        JoinedSingle(LeftIds, lost[0]);
        JoinedSingle(TakenIds, lost[0]);
        JoinedSingle(DroppedIds, lost[0]);
      }
    }
  }

  /** In every run the messages accepted, in order, are those that left the queue, taken by a worker or
      dropped, followed by those queued. Under `BlockRetry` they are those taken, in the order they are
      taken, followed by those queued. */
  lemma LogsInOrder(c: Config, steps: seq<Step>)
    requires c.Ok() && Exec(c, Init(c), steps).Some?
    ensures var s, log := Exec(c, Init(c), steps).value, Leavings(c, Init(c), steps);
            && Joined(AcceptedId, steps) == Joined(LeftIds, log) + Joined(Ids, s.queue)
            && (c.policy.BlockRetry? ==> Joined(AcceptedId, steps) == Joined(TakenIds, log) + Joined(Ids, s.queue))
  {
    var s, log := Exec(c, Init(c), steps).value, Leavings(c, Init(c), steps);
    MessagesInOrder(c, Init(c), steps);
    IdsBrought(steps);
    IdsLeft(log);
    JoinedConcat(Ids, Joined(MsgOf, log), s.queue);
    assert [] + Joined(Brought, steps) == Joined(Brought, steps);
    if c.policy.BlockRetry? {
      NoneDropped(c, Init(c), steps);
    }
  }

  lemma MultisetMore<T>(a: seq<T>, b: seq<T>)
    ensures multiset(a + b) == multiset(a) + multiset(b)
  {
  }

  /** The counts kept are those of the steps: of the messages accepted, and of those dropped. */
  lemma {:induction false} CountsAreOfRun(c: Config, s: State, steps: seq<Step>)
    requires c.Ok() && |s.queue| <= c.room && Exec(c, s, steps).Some?
    ensures var t := Exec(c, s, steps).value;
            && t.accepted == s.accepted + multiset(Joined(AcceptedId, steps))
            && t.dropped == s.dropped + multiset(Joined(DroppedIds, Leavings(c, s, steps)))
    decreases steps
  {
    if steps != [] {
      var t := Next(c, s, steps[0]).value;
      var lost, rest := Lost(s, steps[0], t), Leavings(c, t, steps[1..]);
      StepIsRing(c, s, steps[0], t);
      StepCounts(c, s, steps[0], t);
      CountsAreOfRun(c, t, steps[1..]);
      JoinedConcat(DroppedIds, lost, rest);
      MultisetMore(Joined(DroppedIds, lost), Joined(DroppedIds, rest));
      MultisetMore(AcceptedId(steps[0]), Joined(AcceptedId, steps[1..]));
    }
  }

  lemma StepCounts(c: Config, s: State, step: Step, t: State)
    requires c.Ok() && |s.queue| <= c.room && Next(c, s, step) == Some(t)
    ensures t.accepted == s.accepted + multiset(AcceptedId(step))
    ensures t.dropped == s.dropped + multiset(Joined(DroppedIds, Lost(s, step, t)))
  {
    var lost := Lost(s, step, t);
    if lost != [] {
      assert lost == [lost[0]];
      JoinedSingle(DroppedIds, lost[0]);
      assert step.Accept? ==> (s.queue + [Log(step.id, step.flushes)])[0] == s.queue[0];
    }
  }

  // What each worker does with what it takes.

  /** What a step handles, and who. */
  function Handling(s: State, step: Step): (r: seq<Leaving>) {
    if step.Handle? && step.worker < |s.workers| && s.workers[step.worker].Busy?
    then [Taken(step.worker, s.workers[step.worker].msg)] else []
  }

  function Handlings(c: Config, s: State, steps: seq<Step>): (r: seq<Leaving>)
    requires Exec(c, s, steps).Some?
    decreases steps
  {
    if steps == [] then [] else Handling(s, steps[0]) + Handlings(c, Next(c, s, steps[0]).value, steps[1..])
  }

  /** What worker `w` has to do with. */
  function Of(w: nat): (f: Leaving -> seq<Msg>) {
    (l: Leaving) => if l.Taken? && l.worker == w then [l.msg] else []
  }

  function InHand(s: State, w: nat): (r: seq<Msg>) {
    if w < |s.workers| && s.workers[w].Busy? then [s.workers[w].msg] else []
  }

  /** Only its own steps change a worker. */
  lemma WorkerAfter(c: Config, s: State, step: Step, t: State, w: nat)
    requires Next(c, s, step) == Some(t)
    ensures |t.workers| == |s.workers| && (step == Take(w) || step == Handle(w) ==> w < |s.workers|)
    ensures step == Take(w) ==> s.workers[w] == Idle && s.queue != [] && t.workers[w] == Busy(s.queue[0])
    ensures step == Handle(w) ==> s.workers[w].Busy? && t.workers[w] == Handled(s.workers[w].msg)
    ensures w < |s.workers| && step != Take(w) && step != Handle(w) ==>
              t.workers[w] == if step == PostFlush(w) then Idle else s.workers[w]
    ensures step == PostFlush(w) ==> w < |s.workers| && s.workers[w] == Posting
  {
  }

  /** What a step does to what worker `w` holds. */
  lemma HandAfter(c: Config, s: State, step: Step, t: State, w: nat)
    requires Next(c, s, step) == Some(t)
    ensures step == Take(w) ==> InHand(s, w) == [] && InHand(t, w) == [s.queue[0]]
    ensures step == Handle(w) ==> InHand(s, w) == [s.workers[w].msg] && InHand(t, w) == []
    ensures step != Take(w) && step != Handle(w) ==> InHand(t, w) == InHand(s, w)
  {
    WorkerAfter(c, s, step, t, w);
  }

  lemma LostTo(c: Config, s: State, step: Step, t: State, w: nat)
    requires Next(c, s, step) == Some(t)
    ensures Joined(Of(w), Lost(s, step, t)) == if step == Take(w) then [s.queue[0]] else []
  {
    var lost := Lost(s, step, t);
    if lost != [] {
      assert lost == [lost[0]];
      JoinedSingle(Of(w), lost[0]);
    }
  }

  lemma HandledOf(c: Config, s: State, step: Step, t: State, w: nat)
    requires Next(c, s, step) == Some(t)
    ensures Joined(Of(w), Handling(s, step)) == if step == Handle(w) then [s.workers[w].msg] else []
  {
    var done := Handling(s, step);
    if done != [] {
      assert done == [done[0]];
      JoinedSingle(Of(w), done[0]);
    }
  }

  lemma HandledStep(c: Config, s: State, step: Step, t: State, w: nat)
    requires Next(c, s, step) == Some(t)
    ensures InHand(s, w) + Joined(Of(w), Lost(s, step, t)) == Joined(Of(w), Handling(s, step)) + InHand(t, w)
  {
    HandAfter(c, s, step, t, w);
    LostTo(c, s, step, t, w);
    HandledOf(c, s, step, t, w);
  }

  lemma HandledCounts(c: Config, s: State, step: Step, t: State)
    requires Next(c, s, step) == Some(t)
    ensures t.handled == s.handled + multiset(Joined(TakenIds, Handling(s, step)))
  {
    var done := Handling(s, step);
    if done != [] {
      JoinedSingle(TakenIds, done[0]);
    }
  }

  /** Each worker handles what it takes, one after another in that order, and what it has not handled it
      holds; what is handled is counted. */
  lemma {:induction false} WorkersInOrder(c: Config, s: State, steps: seq<Step>, w: nat)
    requires Exec(c, s, steps).Some?
    ensures var t := Exec(c, s, steps).value;
            && InHand(s, w) + Joined(Of(w), Leavings(c, s, steps)) == Joined(Of(w), Handlings(c, s, steps)) + InHand(t, w)
            && t.handled == s.handled + multiset(Joined(TakenIds, Handlings(c, s, steps)))
    decreases steps
  {
    if steps != [] {
      var t := Next(c, s, steps[0]).value;
      var lost, rest := Lost(s, steps[0], t), Leavings(c, t, steps[1..]);
      var done, more := Handling(s, steps[0]), Handlings(c, t, steps[1..]);
      HandledStep(c, s, steps[0], t, w);
      HandledCounts(c, s, steps[0], t);
      WorkersInOrder(c, t, steps[1..], w);
      JoinedConcat(Of(w), lost, rest);
      JoinedConcat(Of(w), done, more);
      JoinedConcat(TakenIds, done, more);
      MultisetMore(Joined(TakenIds, done), Joined(TakenIds, more));
      Regroup(InHand(s, w), Joined(Of(w), lost), Joined(Of(w), rest), Joined(Of(w), done), Joined(Of(w), more),
              InHand(t, w), InHand(Exec(c, s, steps).value, w));
    }
  }

  /** A flush asked for at step `i` comes behind every message that came before: it is still queued, or
      they have all left the queue before it. */
  lemma FlushComesAfter(c: Config, steps: seq<Step>, i: nat)
    requires c.Ok() && Exec(c, Init(c), steps).Some? && i < |steps| && steps[i].AskFlush?
    ensures var s, left, before := Exec(c, Init(c), steps).value, Joined(MsgOf, Leavings(c, Init(c), steps)),
                                   Joined(Brought, steps[..i]);
            if |left| <= |before| then |before| - |left| < |s.queue| && s.queue[|before| - |left|] == Flush
            else left[..|before|] == before && left[|before|] == Flush
  {
    var s, left, before := Exec(c, Init(c), steps).value, Joined(MsgOf, Leavings(c, Init(c), steps)),
                           Joined(Brought, steps[..i]);
    MessagesInOrder(c, Init(c), steps);
    JoinedAt(Brought, steps, i);
    assert Init(c).queue + Joined(Brought, steps) == Joined(Brought, steps);
    Placed(before, Flush, Joined(Brought, steps[i + 1..]), left, s.queue);
  }

  lemma Placed<T>(before: seq<T>, x: T, after: seq<T>, left: seq<T>, queue: seq<T>)
    requires before + [x] + after == left + queue
    ensures if |left| <= |before| then |before| - |left| < |queue| && queue[|before| - |left|] == x
            else left[..|before|] == before && left[|before|] == x
  {
    var all := before + [x] + after;
    assert |all| == |left| + |queue| && all[|before|] == x && all[..|before|] == before;
    assert |left| > |before| ==> left[..|before|] == all[..|before|] && left[|before|] == all[|before|];
    assert |left| <= |before| ==> queue[|before| - |left|] == all[|before|];
  }
}
