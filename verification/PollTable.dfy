/** The poll reactor's table: one slot per registered descriptor, found through a map from
    descriptor to slot, and removed by swapping with the last. */
module PollTable {
  import opened EventBits

  // poll() bits.
  const POLLIN: bv16 := 0x0001
  const POLLOUT: bv16 := 0x0004
  const POLLERR: bv16 := 0x0008
  const POLLHUP: bv16 := 0x0010
  const POLLNVAL: bv16 := 0x0020
  const POLLRDHUP: bv16 := 0x2000

  const INIT_EVENTS_COUNT := 16

  datatype PollFd = PollFd(fd: int, events: bv16, revents: bv16)

  function DecodePoll(events: bv8): (r: bv16) {
    (if events & EVENT_WRITE != 0 then POLLOUT else 0)
    | (if events & EVENT_READ != 0 then POLLIN else 0)
    | (if events & EVENT_CLOSED != 0 then POLLRDHUP else 0)
  }

  function EncodePoll(events: bv16): (r: bv8) {
    var all := if events & (POLLHUP | POLLERR | POLLNVAL) != 0 then events | POLLIN | POLLOUT else events;
    (if all & POLLIN != 0 then EVENT_READ else 0)
    | (if all & POLLOUT != 0 then EVENT_WRITE else 0)
    | (if all & POLLRDHUP != 0 then EVENT_CLOSED else 0)
  }

  /** A report of what was asked for reads back as the events asked for; a report of an error as
      readable and writeable. */
  lemma ReportReadsBack(events: bv8, report: bv16)
    ensures EncodePoll(DecodePoll(events)) == events & (EVENT_READ | EVENT_WRITE | EVENT_CLOSED)
    ensures report & (POLLHUP | POLLERR | POLLNVAL) != 0 ==>
              EncodePoll(report) & (EVENT_READ | EVENT_WRITE) == EVENT_READ | EVENT_WRITE
  {
  }

  /** What poll() is asked for, and what an event is told of a report: each bit exactly, an error or a
      hang-up standing for both input and output. */
  lemma AsksAndTells(events: bv8, report: bv16)
    ensures var mask := DecodePoll(events);
            && (mask & POLLIN != 0 <==> events & EVENT_READ != 0) && (mask & POLLOUT != 0 <==> events & EVENT_WRITE != 0)
            && (mask & POLLRDHUP != 0 <==> events & EVENT_CLOSED != 0) && mask & (POLLIN | POLLOUT | POLLRDHUP) == mask
    ensures var told, failed := EncodePoll(report), report & (POLLHUP | POLLERR | POLLNVAL) != 0;
            && (told & EVENT_READ != 0 <==> failed || report & POLLIN != 0)
            && (told & EVENT_WRITE != 0 <==> failed || report & POLLOUT != 0)
            && (told & EVENT_CLOSED != 0 <==> report & POLLRDHUP != 0)
            && told & (EVENT_READ | EVENT_WRITE | EVENT_CLOSED) == told
  {
  }

  /** The map is a bijection from the registered descriptors to the slots after the first ones. */
  ghost predicate Bijection(slots: seq<PollFd>, inverse: map<int, nat>) {
    && |slots| >= INIT_EVENTS_COUNT
    && (forall i :: 0 <= i < INIT_EVENTS_COUNT ==> slots[i].fd == 0 && slots[i].events == 0)
    && (forall fd :: fd in inverse ==> 0 <= fd && INIT_EVENTS_COUNT <= inverse[fd] < |slots|
                                       && slots[inverse[fd]].fd == fd)
    && (forall i {:trigger slots[i]} :: INIT_EVENTS_COUNT <= i < |slots| ==>
          slots[i].fd in inverse && inverse[slots[i].fd] == i)
  }

  /** What is asked of poll() for each registered descriptor. */
  ghost function Asked(slots: seq<PollFd>, inverse: map<int, nat>): (r: map<int, bv16>)
    requires Bijection(slots, inverse)
  {
    map fd | fd in inverse :: slots[inverse[fd]].events
  }

  lemma AskedIs(slots: seq<PollFd>, inverse: map<int, nat>, asked: map<int, bv16>)
    requires Bijection(slots, inverse) && asked.Keys == inverse.Keys
    requires forall fd :: fd in asked ==> asked[fd] == slots[inverse[fd]].events
    ensures Asked(slots, inverse) == asked
  {
    forall fd | fd in asked ensures Asked(slots, inverse)[fd] == asked[fd] {
    }
  }

  lemma AskedMore(slots: seq<PollFd>, inverse: map<int, nat>, fd: int, mask: bv16)
    requires Bijection(slots, inverse) && 0 <= fd && fd !in inverse
    ensures Bijection(slots + [PollFd(fd, mask, 0)], inverse[fd := |slots|])
    ensures Asked(slots + [PollFd(fd, mask, 0)], inverse[fd := |slots|]) == Asked(slots, inverse)[fd := mask]
  {
    AskedIs(slots + [PollFd(fd, mask, 0)], inverse[fd := |slots|], Asked(slots, inverse)[fd := mask]);
  }

  lemma AskedAgain(slots: seq<PollFd>, inverse: map<int, nat>, fd: int, mask: bv16)
    requires Bijection(slots, inverse) && fd in inverse
    ensures Bijection(slots[inverse[fd] := PollFd(fd, mask, 0)], inverse)
    ensures Asked(slots[inverse[fd] := PollFd(fd, mask, 0)], inverse) == Asked(slots, inverse)[fd := mask]
  {
    AskedIs(slots[inverse[fd] := PollFd(fd, mask, 0)], inverse, Asked(slots, inverse)[fd := mask]);
  }

  lemma LastRemoved(slots: seq<PollFd>, inverse: map<int, nat>, fd: int, left: seq<PollFd>, left': map<int, nat>)
    requires Bijection(slots, inverse) && fd in inverse && inverse[fd] == |slots| - 1
    requires left == slots[..|slots| - 1] && left' == inverse - {fd}
    ensures Bijection(left, left') && Asked(left, left') == Asked(slots, inverse) - {fd}
  {
    AskedIs(left, left', Asked(slots, inverse) - {fd});
  }

  /** The last slot takes the place of the removed one. */
  lemma SwapRemoved(slots: seq<PollFd>, inverse: map<int, nat>, fd: int, left: seq<PollFd>, left': map<int, nat>)
    requires Bijection(slots, inverse) && fd in inverse && inverse[fd] != |slots| - 1
    requires left == slots[inverse[fd] := slots[|slots| - 1]][..|slots| - 1]
    requires left' == inverse[slots[|slots| - 1].fd := inverse[fd]] - {fd}
    ensures Bijection(left, left') && Asked(left, left') == Asked(slots, inverse) - {fd}
  {
    assert inverse[slots[|slots| - 1].fd] == |slots| - 1;
    assert Bijection(left, left');
    AskedIs(left, left', Asked(slots, inverse) - {fd});
  }

  class ReactorPoll {
    var pollFds: seq<PollFd>
    var inverse: map<int, nat>

    ghost predicate Valid()
      reads this
    {
      Bijection(pollFds, inverse)
    }

    ghost function Interest(): (r: map<int, bv16>)
      requires Valid()
      reads this
      ensures r.Keys == inverse.Keys
    {
      Asked(pollFds, inverse)
    }

    constructor ()
      ensures Valid() && Interest() == map[] && |pollFds| == INIT_EVENTS_COUNT
    {
      pollFds := seq(INIT_EVENTS_COUNT, _ => PollFd(0, 0, 0));
      inverse := map[];
    }

    /** poll() writes what it reports of each slot, whatever that is, and nothing else. */
    method Poll(reported: nat -> bv16)
      requires Valid()
      modifies `pollFds
      ensures Valid() && Interest() == old(Interest()) && |pollFds| == old(|pollFds|)
      ensures forall i :: 0 <= i < |pollFds| ==> pollFds[i] == old(pollFds)[i].(revents := reported(i))
    {
      for n := 0 to |pollFds|
        invariant |pollFds| == old(|pollFds|)
        invariant forall i :: 0 <= i < n ==> pollFds[i] == old(pollFds)[i].(revents := reported(i))
        invariant forall i :: n <= i < |pollFds| ==> pollFds[i] == old(pollFds)[i]
      {
        pollFds := pollFds[n := pollFds[n].(revents := reported(n))];
      }
      AskedIs(pollFds, inverse, old(Interest()));
    }

    /** `registered` is whether the event has an id; the code asserts that it then has a slot, and
        that otherwise it has none. */
    method EventUpdate(fd: int, events: bv8, registered: bool)
      requires Valid() && fd >= 0 && (registered <==> fd in inverse)
      modifies this
      ensures Valid() && Interest() == old(Interest())[fd := DecodePoll(events)]
      ensures |pollFds| == old(|pollFds|) + (if registered then 0 else 1)
    {
      if !registered {
        AskedMore(pollFds, inverse, fd, DecodePoll(events));
        pollFds := pollFds + [PollFd(fd, DecodePoll(events), 0)];
        inverse := inverse[fd := |pollFds| - 1];
      } else {
        var index := inverse[fd];
        AskedAgain(pollFds, inverse, fd, DecodePoll(events));
        pollFds := pollFds[index := PollFd(fd, DecodePoll(events), 0)];
      }
    }

    /** The code asserts that the event's mask is the one last asked for. */
    method EventRemove(fd: int, events: bv8)
      requires Valid() && fd in inverse && Interest()[fd] == DecodePoll(events)
      modifies this
      ensures Valid() && Interest() == old(Interest()) - {fd} && |pollFds| == old(|pollFds|) - 1
    {
      var index := inverse[fd];
      var last := |pollFds| - 1;
      ghost var slots, were := pollFds, inverse;
      if index == last {
        pollFds, inverse := pollFds[..last], inverse - {fd};
        LastRemoved(slots, were, fd, pollFds, inverse);
      } else {
        var swapFd := pollFds[last].fd;
        pollFds, inverse := pollFds[index := pollFds[last]][..last], inverse[swapFd := index] - {fd};
        SwapRemoved(slots, were, fd, pollFds, inverse);
      }
    }
  }

  datatype Op =
    | Register(fd: int, events: bv8)
    | Update(fd: int, events: bv8)
    | Remove(fd: int)
    | Poll(reported: nat -> bv16)

  /** What is wanted of each registered descriptor after one operation more. */
  function After(wanted: map<int, bv8>, op: Op): (r: map<int, bv8>) {
    match op
    case Remove(fd) => wanted - {fd}
    case Poll(_) => wanted
    case _ => wanted[op.fd := op.events]
  }

  function Wanted(ops: seq<Op>): (r: map<int, bv8>) {
    if ops == [] then map[] else After(Wanted(ops[..|ops| - 1]), ops[|ops| - 1])
  }

  /** What the code asserts: only what is not registered is registered, and only what is, updated
      or removed. */
  predicate Allowed(op: Op, wanted: map<int, bv8>) {
    !op.Poll? ==> op.fd >= 0 && (op.Register? <==> op.fd !in wanted)
  }

  predicate Lawful(ops: seq<Op>, n: nat)
    requires n < |ops|
  {
    Allowed(ops[n], Wanted(ops[..n]))
  }

  /** poll() is asked for exactly what is wanted. */
  ghost predicate Serves(t: ReactorPoll, wanted: map<int, bv8>)
    reads t
  {
    && t.Valid() && |t.pollFds| == INIT_EVENTS_COUNT + |wanted|
    && t.Interest().Keys == wanted.Keys
    && forall fd :: fd in wanted ==> t.Interest()[fd] == DecodePoll(wanted[fd])
  }

  method Ask(t: ReactorPoll, wanted: map<int, bv8>, fd: int, events: bv8, registered: bool)
    requires Serves(t, wanted) && fd >= 0 && (registered <==> fd in wanted)
    modifies t
    ensures Serves(t, wanted[fd := events])
  {
    t.EventUpdate(fd, events, registered);
  }

  method Forget(t: ReactorPoll, wanted: map<int, bv8>, fd: int)
    requires Serves(t, wanted) && fd in wanted
    modifies t
    ensures Serves(t, wanted - {fd})
  {
    t.EventRemove(fd, wanted[fd]);
  }

  method Step(t: ReactorPoll, wanted: map<int, bv8>, op: Op)
    requires Serves(t, wanted) && Allowed(op, wanted)
    modifies t
    ensures Serves(t, After(wanted, op))
  {
    match op
    case Register(fd, events) => Ask(t, wanted, fd, events, false);
    case Update(fd, events) => Ask(t, wanted, fd, events, true);
    case Remove(fd) => Forget(t, wanted, fd);
    case Poll(reported) => t.Poll(reported);
  }

  /** After any lawful operations poll() is asked for exactly what was last wanted of each
      descriptor still registered. */
  method Run(ops: seq<Op>) returns (t: ReactorPoll)
    requires forall n :: 0 <= n < |ops| ==> Lawful(ops, n)
    ensures Serves(t, Wanted(ops))
  {
    t := new ReactorPoll();
    for n := 0 to |ops|
      invariant fresh(t) && Serves(t, Wanted(ops[..n]))
    {
      assert Lawful(ops, n) && ops[..n + 1][..n] == ops[..n];
      Step(t, Wanted(ops[..n]), ops[n]);
    }
    assert ops[..|ops|] == ops;
  }
}
