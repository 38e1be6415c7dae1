/** One-shot timers of a cycle: the events by id, the heap of stamps, and what becomes of each. */
module Timers {
  datatype TimerElem = TimerElem(id: nat, stamp: int)

  /** What happens to timers, in order. A timer is the user's `own` if they have made the event, and the
      cycle's if `RunAfter` has. To trigger it is to call `HandleEvent`, at a time when the object it is
      tied to is `alive` or not; its task may then be called. Its heap entry is popped apart from that. */
  datatype Entry =
    | Armed(id: nat, stamp: int, own: bool)
    | Tied(id: nat)
    | Cancelled(id: nat)
    | Triggered(id: nat, at: int, alive: bool)
    | Called(id: nat)
    | Popped(id: nat)

  /** What is asked of the cycle, by a callback or otherwise; only the user's own events can be tied. */
  datatype Call =
    | After(now: int, delay: int)
    | Start(now: int, delay: int)
    | Fasten(id: nat)
    | Drop(id: nat)

  /** A trigger: whether the tied object is alive, and what its task does if called. */
  datatype Shot = Shot(alive: bool, calls: seq<Call>)

  // What the history of a cycle is like.

  /** Nothing has happened to the timer but being armed and tied. */
  predicate Fresh(e: Entry) {
    e.Armed? || e.Tied?
  }

  /** Entry `i`, a trigger, is of a timer armed before with a stamp that has come, neither cancelled
      nor triggered before, and still with its heap entry. */
  ghost predicate Fair(h: seq<Entry>, i: nat)
    requires i < |h| && h[i].Triggered?
  {
    && (exists k :: 0 <= k < i && h[k].Armed? && h[k].id == h[i].id && h[k].stamp <= h[i].at)
    && (forall j :: 0 <= j < i && h[j].id == h[i].id ==> Fresh(h[j]))
  }

  /** Every timer is armed once, and every trigger is fair: none before its stamp, none after
      cancelling, none twice. */
  ghost predicate Safe(h: seq<Entry>) {
    && (forall i, j :: 0 <= i < j < |h| && h[j].Armed? ==> h[i].id != h[j].id)
    && (forall i :: 0 <= i < |h| && h[i].Triggered? ==> Fair(h, i))
  }

  /** Only the user's own timers are ever tied. */
  ghost predicate OwnTied(h: seq<Entry>) {
    forall i :: 0 <= i < |h| && h[i].Tied? ==> Own(h, h[i].id)
  }

  ghost predicate Own(h: seq<Entry>, id: nat) {
    exists k :: 0 <= k < |h| && h[k].Armed? && h[k].own && h[k].id == id
  }

  /** Entry `i` triggers a timer tied before, to an object that is alive. */
  ghost predicate Calls(h: seq<Entry>, i: nat)
    requires i < |h|
  {
    h[i].Triggered? && h[i].alive && Tied(h[i].id) in h[..i]
  }

  ghost predicate CalledAt(h: seq<Entry>, i: nat)
    requires i < |h|
  {
    && (h[i].Called? <==> i > 0 && Calls(h, i - 1))
    && (h[i].Called? ==> h[i].id == h[i - 1].id)
    && (Calls(h, i) ==> i + 1 < |h|)
  }

  /** A task is called if and only if its timer is triggered while tied to a living object, and then at
      once. */
  ghost predicate CalledExactly(h: seq<Entry>) {
    forall i :: 0 <= i < |h| ==> CalledAt(h, i)
  }

  /** No timer that `RunAfter` has made is called. */
  ghost predicate OwnCalled(h: seq<Entry>) {
    forall i, k :: 0 <= i < |h| && 0 <= k < |h| && h[i].Called? && h[k].Armed? && h[k].id == h[i].id ==> h[k].own
  }

  ghost predicate Known(h: seq<Entry>, heap: seq<TimerElem>, nextId: nat) {
    && (forall i :: 0 <= i < |h| ==> h[i].id < nextId)
    && (forall i :: 0 <= i < |heap| ==> heap[i].id < nextId && Listed(h, heap[i]))
  }

  ghost predicate Listed(h: seq<Entry>, e: TimerElem) {
    exists k :: 0 <= k < |h| && h[k].Armed? && h[k].id == e.id && h[k].stamp == e.stamp
  }

  predicate Ends(e: Entry, id: nat) {
    (e.Triggered? || e.Cancelled? || e.Called?) && e.id == id
  }

  /** Timer `id` has been triggered or cancelled. */
  ghost predicate Over(h: seq<Entry>, id: nat) {
    exists i :: 0 <= i < |h| && Ends(h[i], id)
  }

  ghost predicate InHeap(heap: seq<TimerElem>, id: nat) {
    exists i :: 0 <= i < |heap| && heap[i].id == id
  }

  predicate DistinctIds(heap: seq<TimerElem>) {
    forall i, j :: 0 <= i < j < |heap| ==> heap[i].id != heap[j].id
  }

  /** The timers in the table are those neither triggered nor cancelled, and those with a heap entry are
      those whose entry has not been popped: so a timer in the table has none left exactly if that has
      been popped. */
  ghost predicate Ledger(h: seq<Entry>, live: set<nat>, heap: seq<TimerElem>, nextId: nat) {
    && (forall id :: id in live ==> id < nextId)
    && (forall id :: 0 <= id < nextId ==> (id in live <==> !Over(h, id)) && (InHeap(heap, id) <==> Popped(id) !in h))
  }

  ghost predicate Inv(h: seq<Entry>, live: set<nat>, heap: seq<TimerElem>, nextId: nat) {
    Safe(h) && Known(h, heap, nextId) && Ledger(h, live, heap, nextId) && DistinctIds(heap)
  }

  /** The sets kept are those of the history. */
  ghost predicate Ties(h: seq<Entry>, own: set<nat>, tied: set<nat>) {
    && OwnTied(h) && CalledExactly(h)
    && (forall id :: id in own ==> Own(h, id))
    && (forall id :: id in tied <==> Tied(id) in h)
  }

  ghost predicate Kept(h: seq<Entry>, live: set<nat>, heap: seq<TimerElem>, nextId: nat, own: set<nat>, tied: set<nat>)
  {
    && Inv(h, live, heap, nextId) && Ties(h, own, tied)
    && forall id :: id in own ==> id < nextId
  }

  lemma FairMore(h: seq<Entry>, e: Entry, i: nat)
    requires i < |h| && h[i].Triggered? && Fair(h, i)
    ensures Fair(h + [e], i)
  {
    var k :| 0 <= k < i && h[k].Armed? && h[k].id == h[i].id && h[k].stamp <= h[i].at;
    assert (h + [e])[k] == h[k];
  }

  lemma ListedMore(h: seq<Entry>, e: Entry, x: TimerElem)
    requires Listed(h, x)
    ensures Listed(h + [e], x)
  {
    var k :| 0 <= k < |h| && h[k].Armed? && h[k].id == x.id && h[k].stamp == x.stamp;
    assert (h + [e])[k] == h[k];
  }

  lemma OverMore(h: seq<Entry>, e: Entry, id: nat)
    ensures Over(h + [e], id) <==> Over(h, id) || Ends(e, id)
  {
    if Over(h, id) {
      var i :| 0 <= i < |h| && Ends(h[i], id);
      assert Ends((h + [e])[i], id);
    }
    if Ends(e, id) {
      assert Ends((h + [e])[|h|], id);
    }
  }

  /** One entry more, of a timer given out by then. */
  lemma EntryMore(h: seq<Entry>, heap: seq<TimerElem>, nextId: nat, e: Entry)
    requires Safe(h) && Known(h, heap, nextId)
    requires e.Armed? ==> e.id == nextId
    requires !e.Armed? ==> e.id < nextId
    requires e.Triggered? ==> Fair(h + [e], |h|)
    ensures Safe(h + [e]) && Known(h + [e], heap, if e.Armed? then nextId + 1 else nextId)
  {
    var g := h + [e];
    forall i | 0 <= i < |g| && g[i].Triggered? ensures Fair(g, i) {
      if i < |h| {
        FairMore(h, e, i);
      }
    }
    forall i | 0 <= i < |heap| ensures Listed(g, heap[i]) {
      ListedMore(h, e, heap[i]);
    }
  }

  /** One entry more that is neither an arming nor a pop: who is in the table then. */
  lemma LedgerMore(h: seq<Entry>, live: set<nat>, heap: seq<TimerElem>, nextId: nat, e: Entry)
    requires Ledger(h, live, heap, nextId) && !e.Armed? && !e.Popped?
    ensures Ledger(h + [e], live - (if Ends(e, e.id) then {e.id} else {}), heap, nextId)
  {
    forall id | 0 <= id < nextId ensures Over(h + [e], id) <==> Over(h, id) || Ends(e, id) {
      OverMore(h, e, id);
    }
  }

  lemma Unused(h: seq<Entry>, heap: seq<TimerElem>, nextId: nat)
    requires Known(h, heap, nextId)
    ensures !Over(h, nextId) && !InHeap(heap, nextId) && Popped(nextId) !in h
  {
  }

  lemma LedgerArmed(h: seq<Entry>, live: set<nat>, heap: seq<TimerElem>, nextId: nat, stamp: int, own: bool)
    requires Ledger(h, live, heap, nextId) && Known(h, heap, nextId)
    ensures Ledger(h + [Armed(nextId, stamp, own)], live + {nextId}, heap + [TimerElem(nextId, stamp)], nextId + 1)
  {
    var more := heap + [TimerElem(nextId, stamp)];
    Unused(h, heap, nextId);
    forall id | 0 <= id < nextId + 1
      ensures Over(h + [Armed(nextId, stamp, own)], id) <==> Over(h, id)
      ensures InHeap(more, id) <==> InHeap(heap, id) || id == nextId
    {
      OverMore(h, Armed(nextId, stamp, own), id);
      InHeapMore(heap, TimerElem(nextId, stamp), id);
    }
  }

  lemma InHeapMore(heap: seq<TimerElem>, e: TimerElem, id: nat)
    ensures InHeap(heap + [e], id) <==> InHeap(heap, id) || id == e.id
  {
    if InHeap(heap, id) {
      var i :| 0 <= i < |heap| && heap[i].id == id;
      assert (heap + [e])[i].id == id;
    }
    assert (heap + [e])[|heap|] == e;
  }

  /** The heap without entry `k`. */
  function Without(heap: seq<TimerElem>, k: nat): (r: seq<TimerElem>)
    requires k < |heap|
  {
    heap[..k] + heap[k + 1..]
  }

  lemma InHeapLess(heap: seq<TimerElem>, k: nat, id: nat)
    requires k < |heap| && DistinctIds(heap)
    ensures InHeap(Without(heap, k), id) <==> InHeap(heap, id) && id != heap[k].id
  {
    var less := Without(heap, k);
    if InHeap(heap, id) && id != heap[k].id {
      var i :| 0 <= i < |heap| && heap[i].id == id;
      assert less[if i < k then i else i - 1].id == id;
    }
    if InHeap(less, id) {
      var i :| 0 <= i < |less| && less[i].id == id;
      assert heap[if i < k then i else i + 1].id == id;
    }
  }

  lemma LedgerPopped(h: seq<Entry>, live: set<nat>, heap: seq<TimerElem>, nextId: nat, k: nat)
    requires Ledger(h, live, heap, nextId) && k < |heap| && DistinctIds(heap)
    ensures Ledger(h + [Popped(heap[k].id)], live, Without(heap, k), nextId)
  {
    forall id | 0 <= id < nextId
      ensures Over(h + [Popped(heap[k].id)], id) <==> Over(h, id)
      ensures InHeap(Without(heap, k), id) <==> InHeap(heap, id) && id != heap[k].id
    {
      OverMore(h, Popped(heap[k].id), id);
      InHeapLess(heap, k, id);
    }
  }

  lemma ArmedKeeps(h: seq<Entry>, live: set<nat>, heap: seq<TimerElem>, nextId: nat, stamp: int, own: bool)
    requires Inv(h, live, heap, nextId)
    ensures Inv(h + [Armed(nextId, stamp, own)], live + {nextId}, heap + [TimerElem(nextId, stamp)], nextId + 1)
  {
    EntryMore(h, heap, nextId, Armed(nextId, stamp, own));
    LedgerArmed(h, live, heap, nextId, stamp, own);
    assert (h + [Armed(nextId, stamp, own)])[|h|] == Armed(nextId, stamp, own);
    assert Listed(h + [Armed(nextId, stamp, own)], TimerElem(nextId, stamp));
  }

  /** Tying, cancelling and calling. */
  lemma MoreKeeps(h: seq<Entry>, live: set<nat>, heap: seq<TimerElem>, nextId: nat, e: Entry)
    requires Inv(h, live, heap, nextId) && e.id < nextId && (e.Tied? || e.Cancelled? || e.Called?)
    ensures Inv(h + [e], live - (if e.Tied? then {} else {e.id}), heap, nextId)
  {
    EntryMore(h, heap, nextId, e);
    LedgerMore(h, live, heap, nextId, e);
  }

  /** A timer in the table and in the heap can be triggered once its stamp has come. */
  lemma TriggerFair(h: seq<Entry>, live: set<nat>, heap: seq<TimerElem>, nextId: nat, k: nat, at: int, alive: bool)
    requires Inv(h, live, heap, nextId) && k < |heap| && heap[k].id in live && heap[k].stamp <= at
    ensures Fair(h + [Triggered(heap[k].id, at, alive)], |h|)
  {
    var id, g := heap[k].id, h + [Triggered(heap[k].id, at, alive)];
    assert InHeap(heap, id) && !Over(h, id) && Listed(h, heap[k]);
    var a :| 0 <= a < |h| && h[a].Armed? && h[a].id == id && h[a].stamp == heap[k].stamp;
    assert g[a] == h[a];
    forall j | 0 <= j < |h| && g[j].id == id ensures Fresh(g[j]) {
      assert g[j] == h[j] && !Ends(h[j], id);
    }
  }

  lemma TriggeredKeeps(h: seq<Entry>, live: set<nat>, heap: seq<TimerElem>, nextId: nat, k: nat, at: int, alive: bool)
    requires Inv(h, live, heap, nextId) && k < |heap| && heap[k].id in live && heap[k].stamp <= at
    ensures Inv(h + [Triggered(heap[k].id, at, alive)], live - {heap[k].id}, heap, nextId)
  {
    TriggerFair(h, live, heap, nextId, k, at, alive);
    EntryMore(h, heap, nextId, Triggered(heap[k].id, at, alive));
    LedgerMore(h, live, heap, nextId, Triggered(heap[k].id, at, alive));
  }

  lemma PoppedKeeps(h: seq<Entry>, live: set<nat>, heap: seq<TimerElem>, nextId: nat, k: nat)
    requires Inv(h, live, heap, nextId) && k < |heap|
    ensures Inv(h + [Popped(heap[k].id)], live, Without(heap, k), nextId)
  {
    EntryMore(h, heap, nextId, Popped(heap[k].id));
    LedgerPopped(h, live, heap, nextId, k);
    assert forall i :: 0 <= i < |heap| - 1 ==> Without(heap, k)[i] == heap[if i < k then i else i + 1];
  }

  lemma OwnMore(h: seq<Entry>, e: Entry, id: nat)
    requires Own(h, id)
    ensures Own(h + [e], id)
  {
    var k :| 0 <= k < |h| && h[k].Armed? && h[k].own && h[k].id == id;
    assert (h + [e])[k] == h[k];
  }

  /** The past calls what it called. */
  lemma CallsMore(h: seq<Entry>, e: Entry, i: nat)
    requires i < |h|
    ensures Calls(h + [e], i) <==> Calls(h, i)
  {
    assert (h + [e])[..i] == h[..i];
  }

  /** One entry more that is no call and leads to none. */
  lemma CalledMore(h: seq<Entry>, e: Entry)
    requires CalledExactly(h) && !e.Called? && !(e.Triggered? && e.alive && Tied(e.id) in h)
    ensures CalledExactly(h + [e])
  {
    var g := h + [e];
    forall i | 0 <= i < |g| ensures CalledAt(g, i) {
      if i > 0 {
        CallsMore(h, e, i - 1);
        assert CalledAt(h, i - 1);
      }
      if i < |h| {
        CallsMore(h, e, i);
        assert CalledAt(h, i);
      } else {
        assert g[..i] == h;
      }
    }
  }

  /** A trigger that leads to a call, and the call. */
  lemma CalledTwo(h: seq<Entry>, e: Entry)
    requires CalledExactly(h) && e.Triggered? && e.alive && Tied(e.id) in h
    ensures CalledExactly(h + [e] + [Called(e.id)])
  {
    var f := h + [e];
    var g := f + [Called(e.id)];
    assert f[..|h|] == h;
    assert Calls(f, |h|);
    forall i | 0 <= i < |g| ensures CalledAt(g, i) {
      if i > 0 {
        CallsMore(f, Called(e.id), i - 1);
        if i <= |h| {
          CallsMore(h, e, i - 1);
          assert CalledAt(h, i - 1);
        }
      }
      if i < |h| {
        CallsMore(f, Called(e.id), i);
        CallsMore(h, e, i);
        assert CalledAt(h, i);
      }
    }
  }

  /** An entry that ties nothing and calls nothing. */
  lemma TiesMore(h: seq<Entry>, own: set<nat>, tied: set<nat>, e: Entry)
    requires Ties(h, own, tied) && !e.Tied? && !e.Called? && !(e.Triggered? && e.alive && e.id in tied)
    ensures Ties(h + [e], own + (if e.Armed? && e.own then {e.id} else {}), tied)
  {
    CalledMore(h, e);
    var g := h + [e];
    forall i | 0 <= i < |g| && g[i].Tied? ensures Own(g, g[i].id) {
      OwnMore(h, e, g[i].id);
    }
    forall id | id in own ensures Own(g, id) {
      OwnMore(h, e, id);
    }
    assert g[|h|] == e;
  }

  lemma TiesTied(h: seq<Entry>, own: set<nat>, tied: set<nat>, id: nat)
    requires Ties(h, own, tied) && id in own
    ensures Ties(h + [Tied(id)], own, tied + {id})
  {
    CalledMore(h, Tied(id));
    var g := h + [Tied(id)];
    forall i | i in own ensures Own(g, i) {
      OwnMore(h, Tied(id), i);
    }
    forall i | 0 <= i < |g| && g[i].Tied? ensures Own(g, g[i].id) {
      if i < |h| {
        OwnMore(h, Tied(id), g[i].id);
      }
    }
    assert g[|h|] == Tied(id);
  }

  lemma TiesCalled(h: seq<Entry>, own: set<nat>, tied: set<nat>, e: Entry)
    requires Ties(h, own, tied) && e.Triggered? && e.alive && e.id in tied
    ensures Ties(h + [e] + [Called(e.id)], own, tied)
  {
    CalledTwo(h, e);
    var f := h + [e];
    var g := f + [Called(e.id)];
    forall i | i in own ensures Own(g, i) {
      OwnMore(h, e, i);
      OwnMore(f, Called(e.id), i);
    }
    forall i | 0 <= i < |g| && g[i].Tied? ensures Own(g, g[i].id) {
      OwnMore(h, e, g[i].id);
      OwnMore(f, Called(e.id), g[i].id);
    }
  }

  lemma KeptArmed(h: seq<Entry>, live: set<nat>, heap: seq<TimerElem>, nextId: nat, own: set<nat>, tied: set<nat>,
                  stamp: int, mine: bool)
    requires Kept(h, live, heap, nextId, own, tied)
    ensures Kept(h + [Armed(nextId, stamp, mine)], live + {nextId}, heap + [TimerElem(nextId, stamp)], nextId + 1,
                 own + (if mine then {nextId} else {}), tied)
  {
    ArmedKeeps(h, live, heap, nextId, stamp, mine);
    TiesMore(h, own, tied, Armed(nextId, stamp, mine));
  }

  /** What a trigger adds to the history. */
  function Shown(id: nat, time: int, alive: bool, tied: set<nat>): seq<Entry> {
    [Triggered(id, time, alive)] + if alive && id in tied then [Called(id)] else []
  }

  lemma KeptShown(h: seq<Entry>, live: set<nat>, heap: seq<TimerElem>, nextId: nat, own: set<nat>, tied: set<nat>,
                  k: nat, at: int, alive: bool)
    requires Kept(h, live, heap, nextId, own, tied) && k < |heap| && heap[k].id in live && heap[k].stamp <= at
    ensures Kept(h + Shown(heap[k].id, at, alive, tied), live - {heap[k].id}, heap, nextId, own, tied)
  {
    var e := Triggered(heap[k].id, at, alive);
    TriggeredKeeps(h, live, heap, nextId, k, at, alive);
    if alive && e.id in tied {
      TiesCalled(h, own, tied, e);
      MoreKeeps(h + [e], live - {e.id}, heap, nextId, Called(e.id));
      assert live - {e.id} - {e.id} == live - {e.id};
      assert h + Shown(e.id, at, alive, tied) == h + [e] + [Called(e.id)];
    } else {
      TiesMore(h, own, tied, e);
      assert h + Shown(e.id, at, alive, tied) == h + [e];
    }
  }

  /** The user alone can tie a timer, so the tasks called are those of the user's own timers. */
  lemma OnlyOwn(h: seq<Entry>)
    requires Safe(h) && OwnTied(h) && CalledExactly(h)
    ensures OwnCalled(h)
  {
    forall i, k | 0 <= i < |h| && 0 <= k < |h| && h[i].Called? && h[k].Armed? && h[k].id == h[i].id
      ensures h[k].own
    {
      assert CalledAt(h, i);
      assert Tied(h[i].id) in h[..i - 1];
      var t :| 0 <= t < i - 1 && h[t] == Tied(h[i].id);
      assert Own(h, h[t].id);
      var a :| 0 <= a < |h| && h[a].Armed? && h[a].own && h[a].id == h[i].id;
      assert k == a;
    }
  }

  /** So of a timer made by `RunAfter`. */
  lemma NotCalled(h: seq<Entry>, id: nat, stamp: int)
    requires Safe(h) && OwnTied(h) && CalledExactly(h) && Armed(id, stamp, false) in h
    ensures Called(id) !in h
  {
    OnlyOwn(h);
    var k :| 0 <= k < |h| && h[k] == Armed(id, stamp, false);
    assert forall i :: 0 <= i < |h| && h[i].Called? && h[k].id == h[i].id ==> h[k].own;
  }

  // What the cycle does, step by step, to all that is kept of timers.

  datatype Core = Core(nextId: nat, events: set<nat>, own: set<nat>, tied: set<nat>, heap: seq<TimerElem>, log: seq<Entry>)

  function Arms(c: Core, stamp: int, mine: bool): (r: Core) {
    var id := c.nextId;
    Core(id + 1, c.events + {id}, c.own + (if mine then {id} else {}), c.tied, c.heap + [TimerElem(id, stamp)],
         c.log + [Armed(id, stamp, mine)])
  }

  function Does(c: Core, call: Call): (r: Core)
    ensures c.heap <= r.heap && c.log <= r.log
  {
    match call
    case After(now, delay) => Arms(c, now + delay, false)
    case Start(now, delay) => Arms(c, now + delay, true)
    case Fasten(id) => if id in c.own then c.(tied := c.tied + {id}, log := c.log + [Tied(id)]) else c
    case Drop(id) => if id in c.events then c.(events := c.events - {id}, log := c.log + [Cancelled(id)]) else c
  }

  /** The calls made for timer `self`, which does not cancel itself. */
  function DoesAll(c: Core, calls: seq<Call>, self: nat): (r: Core)
    ensures c.heap <= r.heap && c.log <= r.log
  {
    if calls == [] then c
    else
      var b, last := DoesAll(c, calls[..|calls| - 1], self), calls[|calls| - 1];
      if last == Drop(self) then b else Does(b, last)
  }

  /** `HandleEvent` for timer `id`. */
  function Handles(c: Core, id: nat, at: int, shot: Shot): (r: Core)
    ensures c.heap <= r.heap && c.log <= r.log
  {
    var shown := c.(log := c.log + Shown(id, at, shot.alive, c.tied));
    if shot.alive && id in c.tied then DoesAll(shown, shot.calls, id) else shown
  }

  /** The timer of heap entry `k` is triggered, unless it is gone, and leaves the table. */
  function Triggers(c: Core, k: nat, at: int, shot: Shot): (r: Core)
    requires k < |c.heap|
    ensures c.heap <= r.heap && c.log <= r.log
  {
    var id := c.heap[k].id;
    if id in c.events then var h := Handles(c, id, at, shot); h.(events := h.events - {id}) else c
  }

  function Pops(c: Core, k: nat): (r: Core)
    requires k < |c.heap|
  {
    c.(heap := Without(c.heap, k), log := c.log + [Popped(c.heap[k].id)])
  }

  /** `top` gives the top of every heap. */
  ghost predicate Tops(top: seq<TimerElem> -> nat) {
    forall h :: h != [] ==> top(h) < |h|
  }

  /** One round of the loop: what is popped is what is on top after a task has been called. */
  ghost function Round(c: Core, at: int, top: seq<TimerElem> -> nat, shot: Shot): (r: Core)
    requires Tops(top) && c.heap != []
  {
    var t := Triggers(c, top(c.heap), at, shot);
    assert t.heap != [];
    Pops(t, top(t.heap))
  }

  /** What happens at a trigger: the next shot, or nothing more. */
  ghost function NextShot(c: Core, k: nat, shots: seq<Shot>, living: set<nat>): (r: (Shot, seq<Shot>))
    requires k < |c.heap|
  {
    if c.heap[k].id in c.events && shots != [] then (shots[0], shots[1..]) else (Shot(c.heap[k].id in living, []), shots)
  }

  lemma RoundShrinks(c: Core, at: int, top: seq<TimerElem> -> nat, shots: seq<Shot>, living: set<nat>)
    requires Tops(top) && c.heap != []
    ensures var next := NextShot(c, top(c.heap), shots, living);
            |next.1| < |shots| || (next.1 == shots && |Round(c, at, top, next.0).heap| < |c.heap|)
  {
  }

  ghost function Notifies(c: Core, at: int, shots: seq<Shot>, living: set<nat>, top: seq<TimerElem> -> nat): (r: Core)
    requires Tops(top)
    decreases |shots|, |c.heap|
  {
    if c.heap == [] || at < c.heap[top(c.heap)].stamp then c
    else
      var next := NextShot(c, top(c.heap), shots, living);
      RoundShrinks(c, at, top, shots, living);
      Notifies(Round(c, at, top, next.0), at, next.1, living, top)
  }

  /** It ends when no entry is left or the one on top is not due. */
  lemma {:induction false} NotifyEnds(c: Core, at: int, shots: seq<Shot>, living: set<nat>, top: seq<TimerElem> -> nat)
    requires Tops(top)
    ensures var r := Notifies(c, at, shots, living, top);
            (r.heap == [] || at < r.heap[top(r.heap)].stamp) && c.log <= r.log
    decreases |shots|, |c.heap|
  {
    if c.heap != [] && at >= c.heap[top(c.heap)].stamp {
      var next := NextShot(c, top(c.heap), shots, living);
      RoundShrinks(c, at, top, shots, living);
      NotifyEnds(Round(c, at, top, next.0), at, next.1, living, top);
    }
  }

  /** In the table, but without a heap entry: no trigger will find it. */
  ghost predicate LeftBehind(c: Core, id: nat) {
    id in c.events && !InHeap(c.heap, id)
  }

  /** A round leaves one more timer behind exactly if the entry on top after a task has been called is
      that of another timer in the table. */
  lemma RoundLeaves(c: Core, at: int, top: seq<TimerElem> -> nat, shot: Shot, id: nat)
    requires Tops(top) && c.heap != [] && DistinctIds(Triggers(c, top(c.heap), at, shot).heap)
    ensures var t := Triggers(c, top(c.heap), at, shot);
            LeftBehind(Round(c, at, top, shot), id) <==>
            LeftBehind(t, id) || (id in t.events && id == t.heap[top(t.heap)].id)
  {
    var t := Triggers(c, top(c.heap), at, shot);
    InHeapLess(t.heap, top(t.heap), id);
  }

  /** A timer whose heap entry has been popped is not triggered any more. */
  lemma PoppedIsLost(h: seq<Entry>, i: nat, j: nat)
    requires Safe(h) && i < |h| && j < |h| && h[i].Popped? && h[j].Triggered? && h[i].id == h[j].id
    ensures j < i
  {
    assert Fair(h, j);
  }

  /** All is well while the timers of `busy` are being handled. */
  ghost predicate Ok(c: Core, busy: set<nat>) {
    Kept(c.log, c.events - busy, c.heap, c.nextId, c.own, c.tied) && forall b :: b in busy ==> b < c.nextId
  }

  lemma ArmsOk(c: Core, busy: set<nat>, stamp: int, mine: bool)
    requires Ok(c, busy)
    ensures Ok(Arms(c, stamp, mine), busy)
  {
    KeptArmed(c.log, c.events - busy, c.heap, c.nextId, c.own, c.tied, stamp, mine);
    assert c.events + {c.nextId} - busy == c.events - busy + {c.nextId};
  }

  lemma TiesOk(c: Core, busy: set<nat>, id: nat)
    requires Ok(c, busy) && id in c.own
    ensures Ok(Does(c, Fasten(id)), busy)
  {
    MoreKeeps(c.log, c.events - busy, c.heap, c.nextId, Tied(id));
    assert c.events - busy - {} == c.events - busy;
    TiesTied(c.log, c.own, c.tied, id);
  }

  lemma DropsOk(c: Core, busy: set<nat>, id: nat)
    requires Ok(c, busy) && id in c.events && id !in busy
    ensures Ok(Does(c, Drop(id)), busy)
  {
    assert id in c.events - busy;
    MoreKeeps(c.log, c.events - busy, c.heap, c.nextId, Cancelled(id));
    TiesMore(c.log, c.own, c.tied, Cancelled(id));
    assert c.events - {id} - busy == c.events - busy - {id};
  }

  lemma PopsOk(c: Core, busy: set<nat>, k: nat)
    requires Ok(c, busy) && k < |c.heap|
    ensures Ok(Pops(c, k), busy)
  {
    PoppedKeeps(c.log, c.events - busy, c.heap, c.nextId, k);
    TiesMore(c.log, c.own, c.tied, Popped(c.heap[k].id));
  }

  lemma ShowsOk(c: Core, k: nat, at: int, alive: bool)
    requires Ok(c, {}) && k < |c.heap| && c.heap[k].id in c.events && c.heap[k].stamp <= at
    ensures Ok(c.(log := c.log + Shown(c.heap[k].id, at, alive, c.tied)), {c.heap[k].id})
  {
    assert c.events - {} == c.events;
    KeptShown(c.log, c.events, c.heap, c.nextId, c.own, c.tied, k, at, alive);
  }

  lemma GoneOk(c: Core, id: nat)
    requires Ok(c, {id})
    ensures Ok(c.(events := c.events - {id}), {})
  {
    assert c.events - {id} - {} == c.events - {id};
  }

  // The order of the code: the latest stamp on top.

  /** The heap's comparison puts the latest stamp on top. */
  ghost predicate IsTop(heap: seq<TimerElem>, k: nat) {
    k < |heap| && forall i :: 0 <= i < |heap| ==> heap[i].stamp <= heap[k].stamp
  }

  ghost predicate LatestFirst(top: seq<TimerElem> -> nat) {
    forall h :: h != [] ==> IsTop(h, top(h))
  }

  ghost predicate AllDue(heap: seq<TimerElem>, time: int) {
    forall i :: 0 <= i < |heap| ==> heap[i].stamp <= time
  }

  ghost predicate NoneDue(heap: seq<TimerElem>, events: set<nat>, time: int) {
    forall e :: e in heap && e.stamp <= time ==> e.id !in events
  }

  /** Of the timers `were` in the table, those gone have been triggered, and those of them tied to a
      living object called; the heap entries gone are of timers gone. */
  ghost predicate Spent(was: seq<TimerElem>, were: set<nat>, c: Core, time: int, living: set<nat>, tied: set<nat>) {
    && c.tied == tied && c.events <= were
    && (forall id :: id in were - c.events ==> Triggered(id, time, id in living) in c.log)
    && (forall id :: id in were - c.events && id in living && id in tied ==> Called(id) in c.log)
    && (forall e :: e in c.heap ==> e in was)
    && (forall e :: e in was ==> e in c.heap || e.id !in c.events)
  }

  lemma WithoutOne(heap: seq<TimerElem>, k: nat)
    requires k < |heap|
    ensures forall e :: e in heap ==> e == heap[k] || e in Without(heap, k)
    ensures forall e :: e in Without(heap, k) ==> e in heap
  {
    forall e | e in heap ensures e == heap[k] || e in Without(heap, k) {
      var i :| 0 <= i < |heap| && heap[i] == e;
      assert i != k ==> Without(heap, k)[if i < k then i else i - 1] == e;
    }
  }

  /** A round in which no task does anything. */
  lemma QuietRound(c: Core, at: int, top: seq<TimerElem> -> nat, alive: bool)
    requires Tops(top) && c.heap != []
    ensures var r, k := Round(c, at, top, Shot(alive, [])), top(c.heap);
            && r.heap == Without(c.heap, k) && r.events == c.events - {c.heap[k].id} && r.tied == c.tied
            && r.log == c.log + (if c.heap[k].id in c.events then Shown(c.heap[k].id, at, alive, c.tied) else [])
                        + [Popped(c.heap[k].id)]
  {
  }

  lemma SpentRound(was: seq<TimerElem>, were: set<nat>, c: Core, time: int, living: set<nat>, tied: set<nat>,
                   top: seq<TimerElem> -> nat)
    requires Tops(top) && c.heap != [] && Spent(was, were, c, time, living, tied)
    ensures Spent(was, were, Round(c, time, top, Shot(c.heap[top(c.heap)].id in living, [])), time, living, tied)
  {
    var k := top(c.heap);
    var id := c.heap[k].id;
    QuietRound(c, time, top, id in living);
    WithoutOne(c.heap, k);
    var r := Round(c, time, top, Shot(id in living, []));
    if id in c.events {
      var shown := Shown(id, time, id in living, tied);
      assert shown[0] == Triggered(id, time, id in living) && r.log[|c.log|] == shown[0];
      assert id in living && id in tied ==> shown[1] == Called(id) && r.log[|c.log| + 1] == shown[1];
    }
    assert forall e :: e in c.log ==> e in r.log;
  }

  lemma {:induction false} SpentAll(was: seq<TimerElem>, were: set<nat>, c: Core, time: int, living: set<nat>,
                                    tied: set<nat>, top: seq<TimerElem> -> nat)
    requires Tops(top) && Spent(was, were, c, time, living, tied)
    ensures Spent(was, were, Notifies(c, time, [], living, top), time, living, tied)
    decreases |c.heap|
  {
    if c.heap != [] && time >= c.heap[top(c.heap)].stamp {
      var shot := Shot(c.heap[top(c.heap)].id in living, []);
      RoundShrinks(c, time, top, [], living);
      SpentRound(was, were, c, time, living, tied, top);
      SpentAll(was, were, Round(c, time, top, shot), time, living, tied, top);
    }
  }

  /** When tasks do nothing, and with the order of the code: timers are triggered all together, once the
      latest stamp has come, and none before. */
  lemma QuietNotify(c: Core, time: int, living: set<nat>, top: seq<TimerElem> -> nat)
    requires LatestFirst(top) && Tops(top)
    ensures var r := Notifies(c, time, [], living, top);
            && (AllDue(c.heap, time) ==> r.heap == [] && Spent(c.heap, c.events, r, time, living, c.tied))
            && (!AllDue(c.heap, time) ==> r == c)
            && (NoneDue(c.heap, r.events, time) <==> AllDue(c.heap, time) || NoneDue(c.heap, c.events, time))
  {
    SpentAll(c.heap, c.events, c, time, living, c.tied, top);
    NotifyEnds(c, time, [], living, top);
    var r := Notifies(c, time, [], living, top);
    assert AllDue(c.heap, time) ==> forall e :: e in r.heap ==> e.stamp <= time;
    if !AllDue(c.heap, time) {
      assert IsTop(c.heap, top(c.heap));
    }
  }

  /** Whatever tasks do, a timer in the table at the end either waits behind one whose stamp is still to
      come, or has been left behind. */
  lemma WhoIsLeft(c: Core, time: int, top: seq<TimerElem> -> nat, id: nat)
    requires Tops(top) && (c.heap == [] || time < c.heap[top(c.heap)].stamp)
    requires Ledger(c.log, c.events, c.heap, c.nextId) && id in c.events
    ensures if Popped(id) in c.log then LeftBehind(c, id) else InHeap(c.heap, id) && time < c.heap[top(c.heap)].stamp
  {
  }

  class Cycle {
    var nextId: nat
    /** The timers in the table of events. */
    var events: set<nat>
    /** Those that are the user's own events, and those that are tied. */
    var own: set<nat>
    var tied: set<nat>
    var heap: seq<TimerElem>
    var reactorTime: int
    ghost var history: seq<Entry>
    /** The timer whose task runs, if any. */
    ghost var busy: set<nat>

    ghost predicate Valid()
      reads this
    {
      Ok(Now(), busy)
    }

    ghost function Now(): (r: Core)
      reads this
    {
      Core(nextId, events, own, tied, heap, history)
    }

    constructor ()
      ensures Valid() && Now() == Core(0, {}, {}, {}, [], []) && busy == {}
    {
      nextId, events, own, tied, heap, reactorTime, history, busy := 0, {}, {}, {}, [], 0, [], {};
    }

    method Poll(now: int)
      requires Valid()
      modifies `reactorTime
      ensures Valid() && reactorTime == now
    {
      reactorTime := now;
    }

    /** A timer without a descriptor, due `delay` after `now`. */
    method Arm(now: int, delay: int, mine: bool) returns (id: nat)
      requires Valid()
      modifies `nextId, `events, `own, `heap, `history
      ensures Valid() && id == old(nextId) && Now() == Arms(old(Now()), now + delay, mine)
    {
      ArmsOk(Now(), busy, now + delay, mine);
      id := nextId;
      nextId, events, own := id + 1, events + {id}, own + if mine then {id} else {};
      heap, history := heap + [TimerElem(id, now + delay)], history + [Armed(id, now + delay, mine)];
      assert Now() == Arms(old(Now()), now + delay, mine);
    }

    /** The event is made here, and nobody else has it. */
    method RunAfter(now: int, delay: int) returns (id: nat)
      requires Valid()
      modifies `nextId, `events, `own, `heap, `history
      ensures Valid() && id == old(nextId) && nextId == id + 1 && events == old(events) + {id} && own == old(own)
      ensures heap == old(heap) + [TimerElem(id, now + delay)]
      ensures history == old(history) + [Armed(id, now + delay, false)]
    {
      id := Arm(now, delay, false);
    }

    /** An event of the user's own, with a timeout and no descriptor, comes to the cycle. */
    method EventUpdate(now: int, delay: int) returns (id: nat)
      requires Valid()
      modifies `nextId, `events, `own, `heap, `history
      ensures Valid() && id == old(nextId) && nextId == id + 1 && events == old(events) + {id}
      ensures own == old(own) + {id} && heap == old(heap) + [TimerElem(id, now + delay)]
      ensures history == old(history) + [Armed(id, now + delay, true)]
    {
      id := Arm(now, delay, true);
    }

    /** `Event::Tie`, for whoever has the event. */
    method Tie(id: nat)
      requires Valid()
      modifies `tied, `history
      ensures Valid() && tied == old(tied) + (if id in own then {id} else {})
      ensures history == old(history) + if id in own then [Tied(id)] else []
    {
      if id in own {
        TiesOk(Now(), busy, id);
        tied := tied + {id};
        history := history + [Tied(id)];
      }
    }

    /** The heap keeps its entry. */
    method Cancel(id: nat)
      requires Valid() && id !in busy
      modifies `events, `history
      ensures Valid() && events == old(events) - {id}
      ensures history == old(history) + if id in old(events) then [Cancelled(id)] else []
    {
      if id in events {
        DropsOk(Now(), busy, id);
        history := history + [Cancelled(id)];
        events := events - {id};
      }
    }

    method Do(call: Call)
      requires Valid() && (call.Drop? ==> call.id !in busy)
      modifies `nextId, `events, `own, `tied, `heap, `history
      ensures Valid() && Now() == Does(old(Now()), call)
    {
      match call
      case After(now, delay) => var _ := RunAfter(now, delay);
      case Start(now, delay) => var _ := EventUpdate(now, delay);
      case Fasten(id) => Tie(id);
      case Drop(id) => Cancel(id);
    }

    /** What is called for timer `self` makes its calls; it does not cancel its own timer. */
    method Callback(calls: seq<Call>, self: nat)
      requires Valid() && busy == {self}
      modifies `nextId, `events, `own, `tied, `heap, `history
      ensures Valid() && Now() == DoesAll(old(Now()), calls, self)
    {
      assert calls[..0] == [];
      for n := 0 to |calls|
        invariant Valid() && Now() == DoesAll(old(Now()), calls[..n], self)
      {
        assert calls[..n + 1][..n] == calls[..n];
        if calls[n] != Drop(self) {
          Do(calls[n]);
        }
      }
      assert calls[..|calls|] == calls;
    }

    method Pop(k: nat)
      requires Valid() && k < |heap|
      modifies `heap, `history
      ensures Valid() && Now() == Pops(old(Now()), k)
    {
      PopsOk(Now(), busy, k);
      history := history + [Popped(heap[k].id)];
      heap := Without(heap, k);
    }

    /** `HandleEvent` for the timer of heap entry `k`: only a tied event with a living object has its
        callback called, and only then does its task do anything. */
    method HandleEvent(k: nat, shot: Shot)
      requires Valid() && busy == {} && k < |heap| && heap[k].stamp <= reactorTime && heap[k].id in events
      modifies `nextId, `events, `own, `tied, `heap, `history, `busy
      ensures Valid() && busy == {old(heap[k].id)} && Now() == Handles(old(Now()), old(heap[k].id), reactorTime, shot)
    {
      var id := heap[k].id;
      ShowsOk(Now(), k, reactorTime, shot.alive);
      busy := {id};
      history := history + Shown(id, reactorTime, shot.alive, tied);
      if shot.alive && id in tied {
        Callback(shot.calls, id);
      }
    }

    /** Triggers the timer of heap entry `k` unless it is gone. */
    method Trigger(k: nat, shot: Shot)
      requires Valid() && busy == {} && k < |heap| && heap[k].stamp <= reactorTime
      modifies `nextId, `events, `own, `tied, `heap, `history, `busy
      ensures Valid() && busy == {} && Now() == Triggers(old(Now()), k, reactorTime, shot)
    {
      var id := heap[k].id;
      if id in events {
        HandleEvent(k, shot);
        GoneOk(Now(), id);
        events := events - {id};
        busy := {};
      }
    }

    /** The top entry, which is due. Its task is called first; what goes then is the entry on top, of the
        heap with what that has `armed`. */
    method TriggerTop(shot: Shot, top: seq<TimerElem> -> nat) returns (ghost armed: seq<TimerElem>)
      requires Valid() && busy == {} && heap != [] && Tops(top) && heap[top(heap)].stamp <= reactorTime
      modifies `nextId, `events, `own, `tied, `heap, `history, `busy
      ensures Valid() && busy == {} && Now() == Round(old(Now()), reactorTime, top, shot)
      ensures heap == Without(old(heap) + armed, top(old(heap) + armed))
    {
      Trigger(top(heap), shot);
      armed := heap[|old(heap)|..];
      assert heap == old(heap) + armed;
      Pop(top(heap));
    }

    /** The same, with the next shot or none. */
    method NotifyTop(shots: seq<Shot>, living: set<nat>, top: seq<TimerElem> -> nat) returns (left: seq<Shot>)
      requires Valid() && busy == {} && heap != [] && Tops(top) && heap[top(heap)].stamp <= reactorTime
      modifies `nextId, `events, `own, `tied, `heap, `history, `busy
      ensures Valid() && busy == {} && (|left| < |shots| || (left == shots && |heap| < old(|heap|)))
      ensures Notifies(Now(), reactorTime, left, living, top) == Notifies(old(Now()), reactorTime, shots, living, top)
    {
      var id := heap[top(heap)].id;
      RoundShrinks(Now(), reactorTime, top, shots, living);
      ghost var armed;
      if id in events && shots != [] {
        left := shots[1..];
        armed := TriggerTop(shots[0], top);
      } else {
        left := shots;
        armed := TriggerTop(Shot(id in living, []), top);
      }
    }

    /** `top` is how the heap is ordered; `shots` is what happens at the first triggers, one after
        another, and after them the timers of `living` are tied to living objects and no task does
        anything. It ends once no entry is left or the one on top is not due. With the order of the code,
        and when tasks do nothing, the timers left are triggered all together, once the latest stamp of
        all has come, and none before: so every due timer is triggered exactly if all are due, or no due
        one is left. The tasks called are those of the timers tied to living objects. */
    method NotifyTimer(shots: seq<Shot>, living: set<nat>, top: seq<TimerElem> -> nat)
      requires Valid() && busy == {} && Tops(top)
      modifies `nextId, `events, `own, `tied, `heap, `history, `busy
      ensures Valid() && busy == {} && old(history) <= history
      ensures Now() == Notifies(old(Now()), reactorTime, shots, living, top)
      ensures heap == [] || reactorTime < heap[top(heap)].stamp
      ensures LatestFirst(top) && shots == [] && AllDue(old(heap), reactorTime) ==>
                heap == [] && Spent(old(heap), old(events), Now(), reactorTime, living, old(tied))
      ensures LatestFirst(top) && shots == [] && !AllDue(old(heap), reactorTime) ==> Now() == old(Now())
      ensures LatestFirst(top) && shots == [] ==>
                (NoneDue(old(heap), events, reactorTime) <==>
                 AllDue(old(heap), reactorTime) || NoneDue(old(heap), old(events), reactorTime))
    {
      var left := shots;
      while heap != []
        invariant Valid() && busy == {}
        invariant Notifies(Now(), reactorTime, left, living, top) == Notifies(old(Now()), reactorTime, shots, living, top)
        decreases |left|, |heap|
      {
        if reactorTime < heap[top(heap)].stamp {
          break;
        }
        left := NotifyTop(left, living, top);
      }
      NotifyEnds(old(Now()), reactorTime, shots, living, top);
      if LatestFirst(top) {
        QuietNotify(old(Now()), reactorTime, living, top);
      }
    }
  }

  datatype Op = Polled(now: int) | Asked(call: Call) | Notified(shots: seq<Shot>, living: set<nat>)

  /** Whatever is asked for and however the heap is ordered, no timer is triggered before its stamp,
      twice, after being cancelled, or after its heap entry has been popped; a task is called if and only
      if its timer is triggered while tied to a living object; and so no task of a timer made by
      `RunAfter` is ever called. A timer is in the table exactly if it has been neither triggered nor
      cancelled, and has no heap entry exactly if that has been popped. */
  method Run(ops: seq<Op>, top: seq<TimerElem> -> nat) returns (c: Cycle)
    requires Tops(top)
    ensures c.Valid() && Safe(c.history) && CalledExactly(c.history) && OwnCalled(c.history)
    ensures Ledger(c.history, c.events, c.heap, c.nextId)
  {
    c := new Cycle();
    for n := 0 to |ops|
      invariant fresh(c) && c.Valid() && c.busy == {}
    {
      match ops[n]
      case Polled(now) => c.Poll(now);
      case Asked(call) => c.Do(call);
      case Notified(shots, living) => c.NotifyTimer(shots, living, top);
    }
    assert c.events - {} == c.events;
    OnlyOwn(c.history);
  }

  /** A cycle with one timer, which is due: the user has made and tied the event, or `RunAfter` has made it. */
  method DueTimer(delay: int, mine: bool) returns (c: Cycle)
    ensures fresh(c) && c.Valid() && c.busy == {} && c.reactorTime == delay
    ensures c.Now() == if mine then Core(1, {0}, {0}, {0}, [TimerElem(0, delay)], [Armed(0, delay, true), Tied(0)])
                       else Core(1, {0}, {}, {}, [TimerElem(0, delay)], [Armed(0, delay, false)])
  {
    FirstTimer(delay, mine);
    c := OneTimer(delay, mine);
    c.Do(Fasten(0));
  }

  method OneTimer(delay: int, mine: bool) returns (c: Cycle)
    ensures fresh(c) && c.Valid() && c.busy == {} && c.reactorTime == delay
    ensures c.Now() == Does(Core(0, {}, {}, {}, [], []), if mine then Start(0, delay) else After(0, delay))
  {
    c := new Cycle();
    c.Poll(delay);
    c.Do(if mine then Start(0, delay) else After(0, delay));
  }

  lemma FirstTimer(delay: int, mine: bool)
    ensures var one := Does(Core(0, {}, {}, {}, [], []), if mine then Start(0, delay) else After(0, delay));
            Does(one, Fasten(0)) ==
            if mine then Core(1, {0}, {0}, {0}, [TimerElem(0, delay)], [Armed(0, delay, true), Tied(0)])
            else Core(1, {0}, {}, {}, [TimerElem(0, delay)], [Armed(0, delay, false)])
  {
    var one := Does(Core(0, {}, {}, {}, [], []), if mine then Start(0, delay) else After(0, delay));
    assert one.events == {0} && one.own == (if mine then {0} else {}) && one.heap == [TimerElem(0, delay)];
    assert one.log == [Armed(0, delay, mine)];
    var two := Does(one, Fasten(0));
    assert mine ==> two.tied == {0} && two.log == [Armed(0, delay, true), Tied(0)];
  }

  lemma SpentOne(e: TimerElem, c: Core, tied: set<nat>)
    requires Spent([e], {e.id}, c, e.stamp, {e.id}, tied) && c.heap == []
    ensures Triggered(e.id, e.stamp, true) in c.log && (e.id in tied ==> Called(e.id) in c.log)
  {
    assert e in [e];
    assert e.id in {e.id} - c.events;
  }

  /** The user of the timer lives on, so its task is called if the event is theirs, and never if it is
      that of `RunAfter`. */
  method DueTask(delay: int, mine: bool, top: seq<TimerElem> -> nat) returns (c: Cycle)
    requires LatestFirst(top)
    ensures c.Valid() && Armed(0, delay, mine) in c.history && Triggered(0, delay, true) in c.history
    ensures Called(0) in c.history <==> mine
  {
    c := DueTimer(delay, mine);
    ghost var was := c.Now();
    c.NotifyTimer([], {0}, top);
    DueOutcome(was, c.Now(), delay, mine);
  }

  lemma DueOutcome(c: Core, r: Core, delay: int, mine: bool)
    requires c.heap == [TimerElem(0, delay)] && c.events == {0} && c.tied == (if mine then {0} else {})
    requires c.log != [] && c.log[0] == Armed(0, delay, mine) && c.log <= r.log && Ok(r, {})
    requires r.heap == [] && Spent(c.heap, c.events, r, delay, {0}, c.tied)
    ensures Armed(0, delay, mine) in r.log && Triggered(0, delay, true) in r.log && (Called(0) in r.log <==> mine)
  {
    SpentOne(TimerElem(0, delay), r, c.tied);
    assert r.log[0] == Armed(0, delay, mine);
    if !mine {
      NotCalled(r.log, 0, delay);
    }
  }

  /** A due timer whose task arms another one for later: the new entry is on top when one is popped, */
  lemma LaterIsPopped(c: Core, delay: int, later: int, top: seq<TimerElem> -> nat)
    requires LatestFirst(top) && Tops(top) && later > 0
    requires c == Core(1, {0}, {0}, {0}, [TimerElem(0, delay)], [Armed(0, delay, true), Tied(0)])
    ensures var r := Round(c, delay, top, Shot(true, [After(delay, later)]));
            r.heap == [TimerElem(0, delay)] && r.events == {1} && Popped(1) in r.log
  {
    var shot := Shot(true, [After(delay, later)]);
    assert top(c.heap) == 0 && shot.calls[..0] == [];
    var shown := c.(log := c.log + Shown(0, delay, true, c.tied));
    assert DoesAll(shown, shot.calls, 0) == Does(shown, After(delay, later));
    var t := Triggers(c, 0, delay, shot);
    assert t.heap == [TimerElem(0, delay), TimerElem(1, delay + later)] && t.events == {1};
    assert IsTop(t.heap, top(t.heap)) && t.heap[0].stamp < t.heap[1].stamp;
    assert Round(c, delay, top, shot).log[|t.log|] == Popped(1);
  }

  /** and the old one after it. */
  lemma BothArePopped(c: Core, delay: int, later: int, top: seq<TimerElem> -> nat)
    requires LatestFirst(top) && Tops(top) && later > 0
    requires c == Core(1, {0}, {0}, {0}, [TimerElem(0, delay)], [Armed(0, delay, true), Tied(0)])
    ensures var r := Notifies(c, delay, [Shot(true, [After(delay, later)])], {}, top);
            r.heap == [] && r.events == {1} && Popped(1) in r.log
  {
    var shots := [Shot(true, [After(delay, later)])];
    LaterIsPopped(c, delay, later, top);
    var one := Round(c, delay, top, shots[0]);
    assert top(c.heap) == 0 && NextShot(c, 0, shots, {}) == (shots[0], shots[1..]) && shots[1..] == [];
    QuietRound(one, delay, top, false);
    var two := Round(one, delay, top, Shot(false, []));
    assert top(one.heap) == 0 && two.heap == [] && two.events == {1};
    assert Notifies(two, delay, [], {}, top) == two;
    assert Notifies(one, delay, [], {}, top) == two;
  }

  /** So that one stays in the table and is never triggered. */
  method LosesTimer(delay: int, later: int, top: seq<TimerElem> -> nat) returns (c: Cycle)
    requires LatestFirst(top) && later > 0
    ensures c.Valid() && c.busy == {} && c.events == {1} && c.heap == [] && LeftBehind(c.Now(), 1)
    ensures Popped(1) in c.history
  {
    c := DueTimer(delay, true);
    BothArePopped(c.Now(), delay, later, top);
    c.NotifyTimer([Shot(true, [After(delay, later)])], {}, top);
  }
}
