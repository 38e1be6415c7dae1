/** The ring-array queue, and the blocking queue over it. */
module Queues {
  import opened Flattening

  /** One place further round a ring of `n`. */
  lemma Around(x: nat, n: nat)
    requires x < n
    ensures (x + 1) % n == if x + 1 == n then 0 else x + 1
  {
  }

  /** What a ring holds from `head` round to `tail`. */
  function Ring<T>(a: seq<T>, head: nat, tail: nat): (r: seq<T>)
    requires head <= |a| && tail <= |a|
  {
    if tail >= head then a[head..tail] else a[head..] + a[..tail]
  }

  lemma RingPush<T>(a: seq<T>, head: nat, tail: nat, x: T, next: nat)
    requires head < |a| && tail < |a| && next == (if tail + 1 == |a| then 0 else tail + 1) && next != head
    ensures Ring(a[tail := x], head, next) == Ring(a, head, tail) + [x]
  {
  }

  lemma RingOver<T>(a: seq<T>, head: nat, tail: nat, x: T, next: nat)
    requires head < |a| && tail < |a| && head == (if tail + 1 == |a| then 0 else tail + 1)
    requires next == if head + 1 == |a| then 0 else head + 1
    ensures Ring(a[tail := x], next, head) == (Ring(a, head, tail) + [x])[1..]
  {
  }

  /** A first-in first-out queue with room for `n - 1` items that drops its oldest when over. */
  function Pushed<T>(q: seq<T>, n: nat, x: T): (r: seq<T>)
    ensures n > 0 && |q| < n ==> |r| < n
  {
    if n == 0 then q else if |q| + 1 < n then q + [x] else (q + [x])[1..]
  }

  predicate Drops(len: nat, n: nat) {
    n > 0 && len + 1 >= n
  }

  class CircularQueue<T(0)> {
    const maxCapacity: nat
    const sequence: array<T>
    var overCounter: nat
    var head: nat
    var tail: nat

    ghost predicate Valid()
      reads this
    {
      sequence.Length == maxCapacity && if maxCapacity == 0 then head == tail == 0 else head < maxCapacity && tail < maxCapacity
    }

    ghost function Contents(): (r: seq<T>)
      requires Valid()
      reads this, sequence
    {
      Ring(sequence[..], head, tail)
    }

    constructor (max: nat)
      ensures Valid() && maxCapacity == max && Contents() == [] && overCounter == 0 && fresh(sequence)
    {
      maxCapacity := max;
      sequence := new T[max];
      overCounter, head, tail := 0, 0, 0;
    }

    /** Adds an item; on a full ring the oldest one goes, and is counted. */
    method PushBack(item: T)
      requires Valid()
      modifies this, sequence
      ensures Valid() && Contents() == Pushed(old(Contents()), maxCapacity, item)
      ensures overCounter == old(overCounter) + if Drops(|old(Contents())|, maxCapacity) then 1 else 0
    {
      if maxCapacity > 0 {
        Around(tail, maxCapacity);
        Around(head, maxCapacity);
        ghost var before, last := sequence[..], tail;
        sequence[tail] := item;
        assert sequence[..] == before[last := item];
        tail := (tail + 1) % maxCapacity;
        if tail == head {
          head := (head + 1) % maxCapacity;
          overCounter := overCounter + 1;
          RingOver(before, tail, last, item, head);
        } else {
          RingPush(before, head, last, item, tail);
        }
      }
    }

    method PopFront() returns (item: T)
      requires Valid() && Contents() != []
      modifies this`head
      ensures Valid() && [item] + Contents() == old(Contents())
    {
      Around(head, maxCapacity);
      item := sequence[head];
      head := (head + 1) % maxCapacity;
    }

    method Size() returns (n: nat)
      requires Valid()
      ensures n == |Contents()|
    {
      n := if tail >= head then tail - head else maxCapacity - head + tail;
    }

    method At(i: nat) returns (item: T)
      requires Valid() && i < |Contents()|
      ensures item == Contents()[i]
    {
      Wrapped(head, i, maxCapacity);
      item := sequence[(head + i) % maxCapacity];
    }

    method Empty() returns (b: bool)
      requires Valid()
      ensures b == (Contents() == [])
    {
      b := tail == head;
    }

    method Full() returns (b: bool)
      requires Valid()
      ensures b == Drops(|Contents()|, maxCapacity)
    {
      if maxCapacity == 0 {
        return false;
      }
      Around(tail, maxCapacity);
      b := (tail + 1) % maxCapacity == head;
    }
  }

  lemma Wrapped(head: nat, i: nat, n: nat)
    requires head < n && i < n
    ensures (head + i) % n == if head + i < n then head + i else head + i - n
  {
    if head + i >= n {
      assert (head + i) % n == (head + i - n) % n;
    }
  }

  class BlockingQueue<T(0)> {
    const circular: CircularQueue<T>

    constructor (max: nat)
      ensures fresh(circular) && fresh(circular.sequence) && circular.Valid()
      ensures circular.maxCapacity == max && circular.Contents() == []
    {
      circular := new CircularQueue<T>(max);
    }

    /** The section under the lock, once there is room: nothing is ever dropped. */
    method Enqueue(item: T)
      requires circular.Valid() && !Drops(|circular.Contents()|, circular.maxCapacity)
      modifies circular, circular.sequence
      ensures circular.Valid()
      ensures circular.Contents() == old(circular.Contents()) + if circular.maxCapacity > 0 then [item] else []
      ensures circular.overCounter == old(circular.overCounter)
    {
      circular.PushBack(item);
    }

    /** Without waiting: the oldest item makes room if need be. */
    method EnqueueNoWait(item: T)
      requires circular.Valid()
      modifies circular, circular.sequence
      ensures circular.Valid() && circular.Contents() == Pushed(old(circular.Contents()), circular.maxCapacity, item)
      ensures circular.overCounter
           == old(circular.overCounter) + if Drops(|old(circular.Contents())|, circular.maxCapacity) then 1 else 0
    {
      circular.PushBack(item);
    }

    /** The section under the lock, once there is an item. */
    method Dequeue() returns (item: T)
      requires circular.Valid() && circular.Contents() != []
      modifies circular`head
      ensures circular.Valid() && [item] + circular.Contents() == old(circular.Contents())
    {
      item := circular.PopFront();
    }
  }

  // Whole runs.

  datatype Op<T> = Push(item: T) | Pop

  /** How an item left the queue. */
  datatype Leaving<T> = Taken(item: T) | Dropped(item: T)

  function Left<T>(l: Leaving<T>): (r: seq<T>) {
    [l.item]
  }

  function TakenItem<T>(l: Leaving<T>): (r: seq<T>) {
    if l.Taken? then [l.item] else []
  }

  function DroppedItem<T>(l: Leaving<T>): (r: seq<T>) {
    if l.Dropped? then [l.item] else []
  }

  /** A queue under a run: what it holds, and what has left it, in order. A take from an empty queue
      does nothing. */
  datatype Trace<T> = Trace(held: seq<T>, gone: seq<Leaving<T>>)

  function Step<T>(t: Trace<T>, n: nat, op: Op<T>): (r: Trace<T>) {
    match op
    case Push(x) =>
      Trace(Pushed(t.held, n, x), if Drops(|t.held|, n) then t.gone + [Dropped((t.held + [x])[0])] else t.gone)
    case Pop =>
      if t.held == [] then t else Trace(t.held[1..], t.gone + [Taken(t.held[0])])
  }

  function Steps<T>(t: Trace<T>, n: nat, ops: seq<Op<T>>): (r: Trace<T>) {
    if ops == [] then t else Step(Steps(t, n, ops[..|ops| - 1]), n, ops[|ops| - 1])
  }

  function Item<T>(op: Op<T>): (r: seq<T>) {
    match op case Push(x) => [x] case Pop => []
  }

  /** One more leaving. */
  lemma GoneMore<T>(gone: seq<Leaving<T>>, l: Leaving<T>)
    ensures Joined(Left<T>, gone + [l]) == Joined(Left<T>, gone) + [l.item]
    ensures Joined(TakenItem<T>, gone + [l]) == Joined(TakenItem<T>, gone) + TakenItem(l)
    ensures Joined(DroppedItem<T>, gone + [l]) == Joined(DroppedItem<T>, gone) + DroppedItem(l)
  {
    JoinedConcat(Left<T>, gone, [l]);
    JoinedSingle(Left<T>, l);
    JoinedConcat(TakenItem<T>, gone, [l]);
    JoinedSingle(TakenItem<T>, l);
    JoinedConcat(DroppedItem<T>, gone, [l]);
    JoinedSingle(DroppedItem<T>, l);
  }

  lemma FirstLeaves<T>(gone: seq<T>, all: seq<T>)
    requires all != []
    ensures gone + [all[0]] + all[1..] == gone + all
  {
  }

  lemma StepAccounted<T>(t: Trace<T>, n: nat, op: Op<T>)
    requires n > 0
    ensures Joined(Left<T>, Step(t, n, op).gone) + Step(t, n, op).held == Joined(Left<T>, t.gone) + (t.held + Item(op))
  {
    var all, next := t.held + Item(op), Step(t, n, op);
    if next.gone != t.gone {
      var l := next.gone[|t.gone|];
      assert next.gone == t.gone + [l] && l.item == all[0] && next.held == all[1..];
      GoneMore(t.gone, l);
      FirstLeaves(Joined(Left<T>, t.gone), all);
    } else {
      assert next.held == all;
    }
  }

  lemma {:induction false} TakenOrDropped<T>(gone: seq<Leaving<T>>)
    ensures |Joined(Left<T>, gone)| == |Joined(TakenItem<T>, gone)| + |Joined(DroppedItem<T>, gone)|
  {
    if gone != [] {
      TakenOrDropped(gone[1..]);
    }
  }

  function Items<T>(ops: seq<Op<T>>): (r: seq<T>) {
    if ops == [] then []
    else Items(ops[..|ops| - 1]) + Item(ops[|ops| - 1])
  }

  lemma AddLast<T>(gone: seq<T>, held: seq<T>, last: seq<T>, start: seq<T>, came: seq<T>)
    requires gone + held == start + came
    ensures gone + (held + last) == start + (came + last)
  {
    assert gone + (held + last) == (gone + held) + last;
  }

  /** First in, first out: what has left, in order, followed by what is held is what was there
      followed by what came in. */
  lemma {:induction false} InOrder<T>(t: Trace<T>, n: nat, ops: seq<Op<T>>)
    requires n > 0 && |t.held| < n
    ensures var u := Steps(t, n, ops);
            Joined(Left<T>, u.gone) + u.held == Joined(Left<T>, t.gone) + t.held + Items(ops) && |u.held| < n
  {
    if ops != [] {
      var before, last := Steps(t, n, ops[..|ops| - 1]), Item(ops[|ops| - 1]);
      InOrder(t, n, ops[..|ops| - 1]);
      StepAccounted(before, n, ops[|ops| - 1]);
      AddLast(Joined(Left<T>, before.gone), before.held, last, Joined(Left<T>, t.gone) + t.held, Items(ops[..|ops| - 1]));
    }
  }

  /** The ring queue does what the plain queue does, over any run: the items taken are those of the
      trace, and the counter counts those dropped, so that nothing is unaccounted for. */
  method Run<T(0)>(q: CircularQueue<T>, ops: seq<Op<T>>) returns (taken: seq<T>, ghost t: Trace<T>)
    requires q.Valid() && q.maxCapacity > 0
    modifies q, q.sequence
    ensures q.Valid() && q.Contents() == t.held && t == Steps(Trace(old(q.Contents()), []), q.maxCapacity, ops)
    ensures taken == Joined(TakenItem<T>, t.gone)
    ensures q.overCounter == old(q.overCounter) + |Joined(DroppedItem<T>, t.gone)|
    ensures Joined(Left<T>, t.gone) + q.Contents() == old(q.Contents()) + Items(ops)
    ensures |old(q.Contents())| + |Items(ops)| == |taken| + (q.overCounter - old(q.overCounter)) + |q.Contents()|
  {
    ghost var t0 := Trace(q.Contents(), []);
    t, taken := t0, [];
    assert ops[..0] == [];
    for i := 0 to |ops|
      invariant q.Valid() && q.Contents() == t.held && t == Steps(t0, q.maxCapacity, ops[..i])
      invariant taken == Joined(TakenItem<T>, t.gone)
      invariant q.overCounter == old(q.overCounter) + |Joined(DroppedItem<T>, t.gone)|
    {
      assert ops[..i + 1][..i] == ops[..i];
      ghost var was := t;
      t := Step(t, q.maxCapacity, ops[i]);
      if t.gone != was.gone {
        GoneMore(was.gone, t.gone[|was.gone|]);
      }
      match ops[i] {
        case Push(x) =>
          q.PushBack(x);
        case Pop =>
          var empty := q.Empty();
          if !empty {
            var x := q.PopFront();
            taken := taken + [x];
          }
      }
    }
    assert ops[..|ops|] == ops;
    InOrder(t0, q.maxCapacity, ops);
    assert Joined(Left<T>, t0.gone) + t0.held == t0.held;
    TakenOrDropped(t.gone);
  }
}
