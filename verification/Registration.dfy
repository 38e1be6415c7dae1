/** Event registration in a cycle with the epoll reactor: the events by id, the ids by descriptor
    and the kernel's interest set. */
module Registration {
  import opened Flattening
  import opened EventBits

  // epoll bits.
  const EPOLLIN: bv32 := 0x001
  const EPOLLPRI: bv32 := 0x002
  const EPOLLOUT: bv32 := 0x004
  const EPOLLERR: bv32 := 0x008
  const EPOLLHUP: bv32 := 0x010
  const EPOLLRDHUP: bv32 := 0x2000
  const EPOLLET: bv32 := 0x8000_0000

  function DecodeEpoll(events: bv8): (r: bv32) {
    (if events & EVENT_READ != 0 then EPOLLIN | EPOLLPRI else 0)
    | (if events & EVENT_WRITE != 0 then EPOLLOUT else 0)
    | (if events & EVENT_ET != 0 then EPOLLET else 0)
  }

  function EncodeEpoll(events: bv32): (r: bv8) {
    if events & EPOLLERR != 0 || (events & EPOLLHUP != 0 && events & EPOLLRDHUP == 0) then EVENT_READ | EVENT_WRITE
    else
      (if events & EPOLLIN != 0 then EVENT_READ else 0)
      | (if events & EPOLLOUT != 0 then EVENT_WRITE else 0)
      | (if events & EPOLLRDHUP != 0 then EVENT_CLOSED else 0)
  }

  /** What epoll is asked for: input and urgent data to read, output to write, edges if wanted, and no
      more. */
  lemma AsksFor(events: bv8)
    ensures var mask := DecodeEpoll(events);
            && (mask & EPOLLIN != 0 <==> events & EVENT_READ != 0) && (mask & EPOLLPRI != 0 <==> events & EVENT_READ != 0)
            && (mask & EPOLLOUT != 0 <==> events & EVENT_WRITE != 0) && (mask & EPOLLET != 0 <==> events & EVENT_ET != 0)
            && mask & (EPOLLIN | EPOLLPRI | EPOLLOUT | EPOLLET) == mask
  {
  }

  /** What an event is told of a report: after an error, or a hang-up that is not just the peer's, READ
      and WRITE; otherwise what is reported. */
  lemma Tells(report: bv32)
    ensures report & EPOLLERR != 0 || (report & EPOLLHUP != 0 && report & EPOLLRDHUP == 0) ==>
              EncodeEpoll(report) == EVENT_READ | EVENT_WRITE
    ensures report & EPOLLERR == 0 && (report & EPOLLHUP == 0 || report & EPOLLRDHUP != 0) ==>
              && (EncodeEpoll(report) & EVENT_READ != 0 <==> report & EPOLLIN != 0)
              && (EncodeEpoll(report) & EVENT_WRITE != 0 <==> report & EPOLLOUT != 0)
              && (EncodeEpoll(report) & EVENT_CLOSED != 0 <==> report & EPOLLRDHUP != 0)
    ensures EncodeEpoll(report) & (EVENT_READ | EVENT_WRITE | EVENT_CLOSED) == EncodeEpoll(report)
  {
  }

  /** epoll reports nothing but what was asked for, errors and hang-ups: an event is then only ever
      told READ or WRITE, never CLOSED. */
  lemma OnlyReadOrWrite(events: bv8, report: bv32)
    requires report & (DecodeEpoll(events) | EPOLLERR | EPOLLHUP) == report
    ensures EncodeEpoll(report) & (EVENT_READ | EVENT_WRITE) == EncodeEpoll(report)
    ensures report & (EPOLLERR | EPOLLHUP) == 0 ==> EncodeEpoll(report) & events == EncodeEpoll(report)
    ensures EncodeEpoll(DecodeEpoll(events)) == events & (EVENT_READ | EVENT_WRITE)
  {
  }

  class Event {
    const fd: int
    var events: bv8
    var cycle: Cycle?
    var id: int

    constructor (fd: int, events: bv8)
      ensures this.fd == fd && this.events == events && Out()
    {
      this.fd, this.events, cycle, id := fd, events, null, -1;
    }

    /** In no cycle. */
    ghost predicate Out()
      reads this
    {
      id == -1 && cycle == null
    }

    method Active(c: Cycle, i: int)
      modifies this
      ensures cycle == c && id == i && events == old(events)
    {
      cycle, id := c, i;
    }

    method Reset()
      modifies this
      ensures Out() && events == old(events)
    {
      cycle, id := null, -1;
    }
  }

  datatype Interest = Interest(event: Event, mask: bv32)

  datatype Report = Report(fd: int, bits: bv32)

  datatype Active = Active(event: Event, revents: bv8)

  class Cycle {
    var nextId: nat
    var events: map<int, Event>
    var inverse: map<int, int>
    /** What epoll has been asked for, by descriptor. */
    var kernel: map<int, Interest>

    /** The three tables describe the same events, each under its own id and descriptor. */
    ghost predicate Valid()
      reads this, events.Values
    {
      && (forall i :: i in events ==> 0 <= i < nextId && events[i].id == i && events[i].cycle == this
                                      && (events[i].fd >= 0 ==> events[i].fd in inverse && inverse[events[i].fd] == i))
      && (forall fd :: fd in inverse ==> 0 <= fd && inverse[fd] in events && events[inverse[fd]].fd == fd)
      && kernel.Keys == inverse.Keys
      && (forall fd :: fd in inverse ==> kernel[fd].event == events[inverse[fd]])
    }

    /** An event is in this cycle only by being in its table. */
    ghost predicate Member(e: Event)
      reads this, e
    {
      e.Out() || (e.id != -1 && e.cycle != null && (e.cycle == this ==> e.id in events && events[e.id] == e))
    }

    /** epoll is asked for the events' own masks. */
    ghost predicate InStep()
      reads this, events.Values
    {
      forall fd :: fd in inverse && inverse[fd] in events && fd in kernel ==>
                     kernel[fd] == Interest(events[inverse[fd]], DecodeEpoll(events[inverse[fd]].events))
    }

    /** The table of the events in the cycle. */
    function Here(): (r: Table)
      reads this
    {
      Table(nextId, events)
    }

    constructor ()
      ensures Valid() && events == map[] && inverse == map[] && nextId == 0
    {
      nextId, events, inverse, kernel := 0, map[], map[], map[];
    }

    /** `ok` is what `epoll_ctl` answers; the code asserts that a descriptor is registered once. */
    method EventUpdate(e: Event, ok: bool)
      requires Valid() && Member(e) && (e.Out() ==> e.fd !in inverse)
      modifies this, e
      ensures Valid() && Member(e) && e.events == old(e.events)
      ensures var added := old(e.Out()) && (e.fd < 0 || ok);
              && (added ==> e.id == old(nextId) && e.cycle == this)
              && (!added ==> e.id == old(e.id) && e.cycle == old(e.cycle))
              && nextId == old(nextId) + (if added then 1 else 0)
              && events == (if added then old(events)[e.id := e] else old(events))
              && inverse == (if added && e.fd >= 0 then old(inverse)[e.fd := e.id] else old(inverse))
      ensures kernel == if ok && e.fd >= 0 && e.cycle == this then old(kernel)[e.fd := Interest(e, DecodeEpoll(e.events))]
                        else old(kernel)
    {
      if (e.cycle != this && e.id != -1) || (e.fd >= 0 && !ok) {
        return;
      }
      if e.id == -1 {
        Enter(e);
      } else if e.fd >= 0 {
        Submit(e);
      }
    }

    /** epoll is asked for the event's mask. */
    method Submit(e: Event)
      requires Valid() && e.id in events && events[e.id] == e && e.fd >= 0
      modifies `kernel
      ensures Valid() && kernel == old(kernel)[e.fd := Interest(e, DecodeEpoll(e.events))]
    {
      kernel := kernel[e.fd := Interest(e, DecodeEpoll(e.events))];
    }

    /** A new event: epoll is asked for its mask, if it has a descriptor, and the tables have it. */
    method Enter(e: Event)
      requires Valid() && e.Out() && e.fd !in inverse
      modifies this, e
      ensures Valid() && e.id == old(nextId) && e.cycle == this && e.events == old(e.events) && nextId == old(nextId) + 1
      ensures events == old(events)[e.id := e]
      ensures inverse == if e.fd >= 0 then old(inverse)[e.fd := e.id] else old(inverse)
      ensures kernel == if e.fd >= 0 then old(kernel)[e.fd := Interest(e, DecodeEpoll(e.events))] else old(kernel)
    {
      if e.fd >= 0 {
        kernel := kernel[e.fd := Interest(e, DecodeEpoll(e.events))];
      }
      e.Active(this, nextId);
      nextId := nextId + 1;
      events := events[e.id := e];
      if e.fd >= 0 {
        inverse := inverse[e.fd := e.id];
      }
    }

    method EventRemove(e: Event)
      requires Valid() && Member(e)
      modifies this, e
      ensures Valid() && Member(e) && e.events == old(e.events) && nextId == old(nextId)
      ensures old(e.cycle) != this ==> unchanged(this) && unchanged(e)
      ensures old(e.cycle) == this ==>
                && e.Out() && events == old(events) - {old(e.id)}
                && inverse == old(inverse) - {e.fd} && kernel == old(kernel) - {e.fd}
    {
      if e.cycle != this || e.id == -1 {
        return;
      }
      var id := e.id;
      assert id in events && events[id] == e;
      e.Reset();
      if e.fd >= 0 {
        assert e.fd in inverse && e.id == -1;
        kernel := kernel - {e.fd};
        inverse := inverse - {e.fd};
      }
      events := events - {id};
    }

    /** Only an event without a descriptor can be cancelled. */
    method Cancel(id: int)
      requires Valid()
      modifies this, if id in events then {events[id]} else {}
      ensures Valid() && nextId == old(nextId) && inverse == old(inverse) && kernel == old(kernel)
      ensures var gone := id in old(events) && old(events)[id].fd < 0;
              && (gone ==> events == old(events) - {id} && old(events)[id].Out())
              && (!gone ==> events == old(events) && (id in events ==> unchanged(events[id])))
    {
      if id in events {
        var e := events[id];
        if e.fd < 0 {
          e.Reset();
          events := events - {id};
        }
      }
    }

    /** `a` is the registered event of the reported descriptor, with what was reported of it. */
    ghost predicate Answers(r: Report, a: Active)
      reads this, a.event
    {
      && a.event.fd == r.fd && a.event.cycle == this && a.event.id in events && events[a.event.id] == a.event
      && a.revents == EncodeEpoll(r.bits)
    }

    /** Each report names a registered descriptor; the event it carries is the one found through the
        tables, as the code asserts. */
    method FillActiveEvents(reports: seq<Report>) returns (active: seq<Active>)
      requires Valid() && forall i :: 0 <= i < |reports| ==> reports[i].fd in kernel
      ensures |active| == |reports| && forall i :: 0 <= i < |reports| ==> Answers(reports[i], active[i])
    {
      active := [];
      for n := 0 to |reports|
        invariant Valid() && |active| == n && forall i :: 0 <= i < n ==> Answers(reports[i], active[i])
      {
        var e := kernel[reports[n].fd].event;
        assert e.fd in inverse;
        var id := inverse[e.fd];
        assert id in events;
        var found := events[id];
        assert found == e;
        var a := Active(found, EncodeEpoll(reports[n].bits));
        assert Answers(reports[n], a);
        active := active + [a];
      }
    }

    /** How `Exec` ends: every event left is reset and forgotten, but the descriptors and epoll are
        not, so that the tables agree afterwards exactly if no descriptor was registered. */
    method Stop()
      requires Valid()
      modifies this, events.Values
      ensures events == map[] && inverse == old(inverse) && kernel == old(kernel) && nextId == old(nextId)
      ensures forall i :: i in old(events) ==> old(events)[i].Out()
      ensures Valid() <==> forall fd :: fd !in old(inverse)
    {
      for n := 0 to nextId
        invariant events == old(events) && inverse == old(inverse) && kernel == old(kernel) && nextId == old(nextId)
        invariant forall i :: i in events && i < n ==> events[i].Out()
      {
        if n in events {
          events[n].Reset();
        }
      }
      events := map[];
    }
  }

  /** `EnableRead`, `DisableRead`, `EnableWrite` and `DisableWrite`: an event's mask is changed and
      its cycle, if it has one, brought up to date. */
  method SetEvents(e: Event, events: bv8, ok: bool)
    requires e.cycle != null ==> e.cycle.Valid() && e.cycle.Member(e)
    modifies e, e.cycle
    ensures e.events == events && e.id == old(e.id) && e.cycle == old(e.cycle)
    ensures e.cycle != null ==> Asked(e.cycle, e, ok, old(e.cycle.kernel))
  {
    e.events := events;
    if e.cycle != null {
      e.cycle.EventUpdate(e, ok);
    }
  }

  /** Everything is as it was, but that epoll is asked for the event's mask. */
  twostate predicate Asked(c: Cycle, e: Event, ok: bool, kernel: map<int, Interest>)
    reads c, c.events.Values, e
  {
    && c.Valid() && c.Member(e) && c.events == old(c.events) && c.inverse == old(c.inverse) && c.nextId == old(c.nextId)
    && c.kernel == if ok && e.fd >= 0 then kernel[e.fd := Interest(e, DecodeEpoll(e.events))] else kernel
  }

  // Runs over any events.

  datatype Op =
    | Update(index: nat, ok: bool)
    | Remove(index: nat)
    | Set(index: nat, events: bv8, ok: bool)
    | Withdraw(id: int)
    | Poll(reports: seq<Report>)

  /** The tables agree, they hold none but the given events, and hold each that is in the cycle. */
  ghost predicate Coherent(c: Cycle, all: seq<Event>)
    reads c, all
  {
    && (forall i :: i in c.events ==> c.events[i] in all) && c.Valid()
    && forall e :: e in all ==> c.Member(e)
  }

  /** The tables still agree; an event that has joined has an id never given before; and epoll is
      still asked for the events' own masks, if it has not refused. */
  twostate predicate Kept(c: Cycle, all: seq<Event>, ok: bool)
    reads c, c.events.Values, all
  {
    && Coherent(c, all) && old(c.nextId) <= c.nextId <= old(c.nextId) + 1
    && (forall e :: e in all && e.id != old(e.id) ==>
                      e.Out() || (e.cycle == c && e.id == old(c.nextId) && c.nextId == old(c.nextId) + 1))
    && (forall i :: i in c.events ==> i in old(c.events) || (i == old(c.nextId) && c.nextId == old(c.nextId) + 1))
    && (ok && old(c.InStep()) ==> c.InStep())
  }

  // The same on a plain table of the events in the cycle.

  datatype Table = Table(nextId: int, events: map<int, Event>)

  function Less(events: map<int, Event>, e: Event): (r: map<int, Event>) {
    map i | i in events && events[i] != e :: events[i]
  }

  /** No event in the table is `e`, or has its descriptor. */
  ghost predicate Free(events: map<int, Event>, e: Event) {
    forall i :: i in events ==> events[i] != e && (e.fd >= 0 ==> events[i].fd != e.fd)
  }

  /** A new event comes in under the next id, unless its descriptor is taken or epoll refuses it; an
      event leaves, or one without a descriptor by its id; nothing else changes the table. */
  ghost function After(t: Table, all: seq<Event>, op: Op): (r: Table) {
    match op
    case Update(k, ok) =>
      if k < |all| && Free(t.events, all[k]) && (all[k].fd < 0 || ok)
      then Table(t.nextId + 1, t.events[t.nextId := all[k]]) else t
    case Remove(k) => if k < |all| then t.(events := Less(t.events, all[k])) else t
    case Withdraw(id) => if id in t.events && t.events[id].fd < 0 then t.(events := t.events - {id}) else t
    case _ => t
  }

  /** The events are in this cycle or in none. */
  ghost predicate AllHere(c: Cycle, all: seq<Event>)
    reads all
  {
    forall e :: e in all ==> e.cycle == null || e.cycle == c
  }

  lemma FreeIf(c: Cycle, all: seq<Event>, e: Event)
    requires Coherent(c, all) && e in all && (e.cycle == null || e.cycle == c)
    ensures Free(c.events, e) <==> e.Out() && e.fd !in c.inverse
  {
    if e.fd in c.inverse {
      var id := c.inverse[e.fd];
      assert id in c.events && c.events[id].fd == e.fd;
    }
    if e.cycle == c {
      var id := e.id;
      assert id in c.events && c.events[id] == e;
    }
  }

  lemma LessOne(c: Cycle, all: seq<Event>, e: Event)
    requires Coherent(c, all) && e in all
    ensures Less(c.events, e) == if e.cycle == c then c.events - {e.id} else c.events
  {
    forall i | i in c.events ensures c.events[i] == e <==> e.cycle == c && i == e.id {
    }
  }

  /** What an operation does to the mask of its event. */
  twostate predicate MaskSet(c: Cycle, all: seq<Event>, op: Op)
    reads c, all
  {
    op.Set? && op.index < |all| && old(all[op.index].cycle == null || all[op.index].cycle == c) ==>
      all[op.index].events == op.events
  }

  method Updated(c: Cycle, all: seq<Event>, e: Event, ok: bool)
    requires Coherent(c, all) && e in all && (e.Out() ==> e.fd !in c.inverse)
    modifies c, e
    ensures Kept(c, all, ok)
    ensures if old(e.Out()) && (e.fd < 0 || ok)
            then e.cycle == c && c.nextId == old(c.nextId) + 1 && c.events == old(c.events)[old(c.nextId) := e]
            else e.cycle == old(e.cycle) && c.nextId == old(c.nextId) && c.events == old(c.events)
  {
    c.EventUpdate(e, ok);
  }

  method UpdatedAt(c: Cycle, all: seq<Event>, k: nat, ok: bool)
    requires Coherent(c, all) && k < |all| && (all[k].Out() ==> all[k].fd !in c.inverse)
    modifies c, all[k]
    ensures Kept(c, all, ok)
    ensures old(AllHere(c, all)) ==> AllHere(c, all) && c.Here() == After(old(c.Here()), all, Update(k, ok))
  {
    if all[k].cycle == null || all[k].cycle == c {
      FreeIf(c, all, all[k]);
    }
    Updated(c, all, all[k], ok);
  }

  method Removed(c: Cycle, all: seq<Event>, k: nat)
    requires Coherent(c, all) && k < |all|
    modifies c, all[k]
    ensures Kept(c, all, true)
    ensures old(AllHere(c, all)) ==> AllHere(c, all) && c.Here() == After(old(c.Here()), all, Remove(k))
  {
    LessOne(c, all, all[k]);
    c.EventRemove(all[k]);
  }

  method Masked(c: Cycle, all: seq<Event>, e: Event, events: bv8, ok: bool)
    requires Coherent(c, all) && e in all && (e.cycle == null || e.cycle == c)
    modifies c, e
    ensures Kept(c, all, ok) && c.Here() == old(c.Here()) && e.events == events && e.cycle == old(e.cycle)
  {
    SetEvents(e, events, ok);
    if ok && old(c.InStep()) {
      forall fd | fd in c.inverse && c.inverse[fd] in c.events && fd in c.kernel
        ensures c.kernel[fd] == Interest(c.events[c.inverse[fd]], DecodeEpoll(c.events[c.inverse[fd]].events))
      {
        var i := c.inverse[fd];
        var other := c.events[i];
        assert i in old(c.events) && old(c.events[i].cycle) == c;
        assert other != e ==> old(c.kernel)[fd] == Interest(other, DecodeEpoll(old(other.events)));
      }
    }
  }

  method Withdrawn(c: Cycle, all: seq<Event>, id: int)
    requires Coherent(c, all)
    modifies c, all
    ensures Kept(c, all, true)
    ensures old(AllHere(c, all)) ==> AllHere(c, all) && c.Here() == After(old(c.Here()), all, Withdraw(id))
  {
    c.Cancel(id);
  }

  predicate Answered(op: Op) {
    (op.Update? || op.Set?) ==> op.ok
  }

  function Passing(kernel: map<int, Interest>): (f: Report -> seq<Report>) {
    (r: Report) => if r.fd in kernel then [r] else []
  }

  /** The reports of descriptors epoll has been asked for, in order: it makes no others. */
  function Possible(reports: seq<Report>, kernel: map<int, Interest>): (r: seq<Report>) {
    Joined(Passing(kernel), reports)
  }

  /** Each of them as often as it is made. */
  lemma {:induction false} PossibleExactly(reports: seq<Report>, kernel: map<int, Interest>, r: Report)
    ensures multiset(Possible(reports, kernel))[r] == if r.fd in kernel then multiset(reports)[r] else 0
  {
    if reports != [] {
      PossibleExactly(reports[1..], kernel, r);
      assert reports == [reports[0]] + reports[1..];
    }
  }

  lemma PossibleOnly(reports: seq<Report>, kernel: map<int, Interest>)
    ensures forall r :: r in Possible(reports, kernel) ==> r.fd in kernel && r in reports
  {
    forall r | r in Possible(reports, kernel) ensures r.fd in kernel && r in reports {
      PossibleExactly(reports, kernel, r);
      assert multiset(Possible(reports, kernel))[r] > 0;
    }
  }

  /** The reports before others are passed on before them. */
  lemma PossibleInOrder(a: seq<Report>, b: seq<Report>, kernel: map<int, Interest>)
    ensures Possible(a + b, kernel) == Possible(a, kernel) + Possible(b, kernel)
  {
    JoinedConcat(Passing(kernel), a, b);
  }

  /** What a poll hands on is told of events of the cycle, as reported. */
  predicate Told(all: seq<Event>, reports: seq<Report>, a: Active) {
    a.event in all && exists r :: r in reports && a.event.fd == r.fd && a.revents == EncodeEpoll(r.bits)
  }

  predicate AllTold(all: seq<Event>, op: Op, active: seq<Active>) {
    forall i :: 0 <= i < |active| ==> op.Poll? && Told(all, op.reports, active[i])
  }

  /** What a poll hands on answers the reports of the descriptors asked for, one by one. */
  ghost predicate AllAnswered(c: Cycle, reports: seq<Report>, active: seq<Active>)
    reads c, set i | 0 <= i < |active| :: active[i].event
  {
    var possible := Possible(reports, c.kernel);
    |active| == |possible| && forall i :: 0 <= i < |active| ==> c.Answers(possible[i], active[i])
  }

  method Polled(c: Cycle, all: seq<Event>, reports: seq<Report>) returns (active: seq<Active>)
    requires Coherent(c, all)
    ensures AllAnswered(c, reports, active) && forall i :: 0 <= i < |active| ==> Told(all, reports, active[i])
  {
    var possible := Possible(reports, c.kernel);
    PossibleOnly(reports, c.kernel);
    active := c.FillActiveEvents(possible);
    forall i | 0 <= i < |active| ensures Told(all, reports, active[i]) {
      var id := active[i].event.id;
      assert c.Answers(possible[i], active[i]) && possible[i] in reports && c.events[id] in all;
    }
  }

  /** One operation, where it meets what the code asserts: that a new event's descriptor is not yet
      registered. `issued` is the id it has given out, if any. */
  method Step(c: Cycle, all: seq<Event>, op: Op) returns (issued: seq<int>, active: seq<Active>)
    requires Coherent(c, all)
    modifies c, all
    ensures Kept(c, all, Answered(op)) && issued == if c.nextId == old(c.nextId) then [] else [old(c.nextId)]
    ensures MaskSet(c, all, op) && AllTold(all, op, active)
    ensures op.Poll? ==> unchanged(c) && AllAnswered(c, op.reports, active)
    ensures old(AllHere(c, all)) ==> AllHere(c, all) && c.Here() == After(old(c.Here()), all, op)
  {
    var first := c.nextId;
    active := [];
    match op {
      case Update(k, ok) =>
        if k < |all| && (all[k].id == -1 ==> all[k].fd !in c.inverse) {
          UpdatedAt(c, all, k, ok);
        } else if k < |all| {
          FreeIf(c, all, all[k]);
        }
      case Remove(k) =>
        if k < |all| {
          Removed(c, all, k);
        }
      case Set(k, events, ok) =>
        if k < |all| && (all[k].cycle == null || all[k].cycle == c) {
          Masked(c, all, all[k], events, ok);
        }
      case Withdraw(id) =>
        Withdrawn(c, all, id);
      case Poll(reports) =>
        active := Polled(c, all, reports);
    }
    issued := if c.nextId == first then [] else [first];
  }

  /** Every id given out is greater than those before it. */
  predicate Rising(ids: seq<int>) {
    forall i, j :: 0 <= i < j < |ids| ==> ids[i] < ids[j]
  }

  /** Any operations on any events: the tables agree, no id is given out twice, the events in the
      cycle have ids given out, and every poll finds the events reported, as the code asserts. The
      events in the cycle are at each step those of the plain table. */
  method Run(all: seq<Event>, ops: seq<Op>)
    returns (c: Cycle, ids: seq<int>, told: seq<seq<Active>>, trace: seq<Table>)
    requires forall e :: e in all ==> e.Out()
    modifies all
    ensures Coherent(c, all) && Rising(ids) && forall i :: i in c.events ==> i in ids
    ensures Heard(all, ops, told, |ops|)
    ensures (forall i :: 0 <= i < |ops| ==> Answered(ops[i])) ==> c.InStep()
    ensures Traced(trace, all, ops, |ops|) && trace[|ops|] == c.Here()
  {
    c := new Cycle();
    ids, told, trace := [], [], [c.Here()];
    for n := 0 to |ops|
      invariant fresh(c) && Coherent(c, all) && AllHere(c, all)
      invariant RisingBelow(ids, c.nextId) && forall i :: i in c.events ==> i in ids
      invariant Heard(all, ops, told, n) && Traced(trace, all, ops, n) && trace[n] == c.Here()
      invariant (forall i :: 0 <= i < n ==> Answered(ops[i])) ==> c.InStep()
    {
      ghost var first := c.nextId;
      var issued, active := Step(c, all, ops[n]);
      RisingMore(ids, first, c.nextId);
      HeardMore(all, ops, told, n, active);
      TracedMore(trace, all, ops, n, c.Here());
      ids, told, trace := ids + issued, told + [active], trace + [c.Here()];
    }
  }

  ghost predicate RisingBelow(ids: seq<int>, n: int) {
    Rising(ids) && forall i :: 0 <= i < |ids| ==> ids[i] < n
  }

  lemma RisingMore(ids: seq<int>, n: int, next: int)
    requires RisingBelow(ids, n) && n <= next <= n + 1
    ensures RisingBelow(ids + (if next == n then [] else [n]), next)
  {
    assert ids + [] == ids;
  }

  /** Every poll is told as it should be. */
  ghost predicate Heard(all: seq<Event>, ops: seq<Op>, told: seq<seq<Active>>, n: nat) {
    n <= |ops| && |told| == n && forall m :: 0 <= m < n ==> AllTold(all, ops[m], told[m])
  }

  lemma HeardMore(all: seq<Event>, ops: seq<Op>, told: seq<seq<Active>>, n: nat, active: seq<Active>)
    requires Heard(all, ops, told, n) && n < |ops| && AllTold(all, ops[n], active)
    ensures Heard(all, ops, told + [active], n + 1)
  {
  }

  /** The plain table, operation after operation. */
  ghost predicate Traced(trace: seq<Table>, all: seq<Event>, ops: seq<Op>, n: nat) {
    && n <= |ops| && |trace| == n + 1 && trace[0] == Table(0, map[])
    && forall m :: 0 <= m < n ==> trace[m + 1] == After(trace[m], all, ops[m])
  }

  lemma TracedMore(trace: seq<Table>, all: seq<Event>, ops: seq<Op>, n: nat, t: Table)
    requires Traced(trace, all, ops, n) && n < |ops| && t == After(trace[n], all, ops[n])
    ensures Traced(trace + [t], all, ops, n + 1)
  {
  }
}
