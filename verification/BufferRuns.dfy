/** Every run of operations on two buffers against two plain byte queues. */
module BufferRuns {
  import opened Flattening
  import opened Blocks
  import opened Chain
  import opened Layouts
  import opened Buffers

  /** Operations on one buffer; the last two with the other one. */
  datatype Op =
    | Add(bytes: seq<byte>)
    | Skip(n: nat)
    | Clear
    | Remove(n: nat)
    | Read(pending: nat, howmuch: nat, arrived: seq<byte>)
    | Write(howmuch: nat, accepted: nat)
    | Append
    | Move

  /** An operation, and whether it is on the first buffer. */
  datatype Turn = Turn(first: bool, op: Op)

  /** Bytes that came in at the end of a queue, or went out at its front. */
  datatype Event = In(bytes: seq<byte>) | Out(bytes: seq<byte>)

  /** A queue, how much it reads at most, how much a write gives the socket at most, how many nodes its
      list counts, how many nodes there are after `write`, and whether `head` is on the ring. */
  datatype Queue = Queue(bytes: seq<byte>, maxRead: nat, sendable: nat, nodes: nat, spare: nat, onRing: bool)

  /** What each operation may do to its queue and to the other one. */
  predicate Matches(op: Op, q: Queue, other: Queue, mine: seq<Event>, theirs: seq<Event>) {
    match op
    case Add(bytes) => theirs == [] && mine == [In(if |q.bytes| + |bytes| <= MAX_SIZE then bytes else [])]
    case Skip(n) => theirs == [] && mine == [Out(q.bytes[..Min(n, |q.bytes|)])]
    case Clear => theirs == [] && mine == [Out(q.bytes)]
    case Remove(n) => theirs == [] && mine == [Out(q.bytes[..Min(n, |q.bytes|)])]
    case Read(pending, howmuch, arrived) =>
      && theirs == [] && |mine| == 1 && mine[0].In? && mine[0].bytes <= arrived
      && (|| mine[0].bytes == arrived || |mine[0].bytes| >= (if pending == 0 then q.maxRead else pending)
          || (howmuch != 0 && |mine[0].bytes| >= howmuch))
    case Write(howmuch, accepted) =>
      && theirs == [] && |mine| == 1 && mine[0].Out? && mine[0].bytes <= q.bytes
      && |mine[0].bytes| == Min(accepted, Min(if howmuch == 0 then |q.bytes| else howmuch, q.sendable))
    case Append => mine == [In(other.bytes)] && theirs == [Out(other.bytes)]
    case Move => mine == [Out(q.bytes), In(other.bytes)] && theirs == [Out(other.bytes), In(q.bytes)]
  }

  /** The queue after a log, when everything that went out was at its front. */
  function Replay(q: seq<byte>, log: seq<Event>): (r: Option<seq<byte>>)
    decreases log
  {
    if log == [] then Some(q)
    else match log[0]
      case In(b) => Replay(q + b, log[1..])
      case Out(b) => if b <= q then Replay(q[|b|..], log[1..]) else None
  }

  function Came(e: Event): (r: seq<byte>) {
    if e.In? then e.bytes else []
  }

  function Went(e: Event): (r: seq<byte>) {
    if e.Out? then e.bytes else []
  }

  /** First in, first out: over a whole log, what went out followed by what is left is what was
      there followed by what came in. */
  lemma {:induction false} FirstInFirstOut(q: seq<byte>, log: seq<Event>)
    requires Replay(q, log).Some?
    ensures Joined(Went, log) + Replay(q, log).value == q + Joined(Came, log)
    decreases log
  {
    if log != [] {
      match log[0]
      case In(b) =>
        FirstInFirstOut(q + b, log[1..]);
        assert q + b + Joined(Came, log[1..]) == q + Joined(Came, log);
      case Out(b) =>
        FirstInFirstOut(q[|b|..], log[1..]);
        assert q == b + q[|b|..];
        assert Joined(Went, log) + Replay(q, log).value == b + (q[|b|..] + Joined(Came, log[1..]));
    }
  }

  lemma {:induction false} ReplayMore(q: seq<byte>, log: seq<Event>, more: seq<Event>)
    requires Replay(q, log).Some?
    ensures Replay(q, log + more) == Replay(Replay(q, log).value, more)
    decreases log
  {
    if log == [] {
      assert log + more == more;
    } else {
      assert (log + more)[1..] == log[1..] + more;
      match log[0]
      case In(b) => ReplayMore(q + b, log[1..], more);
      case Out(b) => ReplayMore(q[|b|..], log[1..], more);
    }
  }

  lemma ReplayOne(q: seq<byte>, e: Event)
    ensures Replay(q, [e]) == if e.In? then Some(q + e.bytes) else if e.bytes <= q then Some(q[|e.bytes|..]) else None
  {
    assert [e][1..] == [];
  }

  /** Everything out, then the other's in. */
  lemma ReplayMove(q: seq<byte>, other: seq<byte>)
    ensures Replay(q, [Out(q), In(other)]) == Some(other)
  {
    ReplayOne([], In(other));
    assert [Out(q), In(other)][1..] == [In(other)] && q[|q|..] == [] && [] + other == other;
  }

  lemma ReplayAppend(q: seq<byte>, other: seq<byte>)
    ensures Replay(q, [In(other)]) == Some(q + other) && Replay(other, [Out(other)]) == Some([])
  {
    ReplayOne(q, In(other));
    ReplayOne(other, Out(other));
    assert other[|other|..] == [];
  }

  // One operation on a buffer.

  /** Removing into memory of just the right size: the bytes delivered. */
  method RemoveSome(b: Buffer, n: nat) returns (bytes: seq<byte>)
    requires b.Valid()
    modifies b`totalLen, b`g, b.chain, b.g.nodes
    ensures b.Valid() && NoForeign(old(b.g), b.g) && b.chain.head == old(b.chain.head)
    ensures bytes == old(b.Bytes())[..Min(n, |old(b.Bytes())|)] && b.Bytes() == old(b.Bytes())[|bytes|..]
    ensures b.HeadOnRing() <==>
              if bytes == [] then old(b.HeadOnRing()) else Stays(old(b.g), old(b.chain.nodeSize), b.chain.head, |bytes|)
  {
    var dest := new byte[Min(n, b.totalLen)];
    var taken := b.Remove(dest, n);
    bytes := dest[..taken];
  }

  /** What a buffer stands for, and what matters of its list. A write can send all there is if the list
      counts no more nodes than a gather write takes. */
  ghost function View(b: Buffer): (r: Queue)
    requires b.Valid()
    reads b, b.chain, b.g.nodes
    ensures r.nodes <= WRITE_IOVEC ==> r.sendable == |r.bytes|
  {
    Queue(b.Bytes(), b.maxRead, b.g.Held(WRITE_IOVEC), b.chain.nodeSize, |b.g.nodes| - (b.g.w + 1), b.HeadOnRing())
  }

  /** An operation that starts over from `head` needs it on the ring. */
  predicate Possible(op: Op, q: Queue) {
    op.Clear? || (op.Skip? && op.n >= |q.bytes|) ==> q.onRing
  }

  /** What the operation must meet for no `head` to be lost: a drain, a list that counts at most
      `MAX_CHAIN_SIZE` nodes, as `ChainSize` tells; a splice, a ring without spare nodes to splice onto,
      which `ChainSize` does not tell unless it is 1. */
  predicate Careful(op: Op, q: Queue, other: Queue) {
    match op
    case Skip(n) => n >= |q.bytes| || q.nodes <= MAX_CHAIN_SIZE
    case Remove(_) => q.nodes <= MAX_CHAIN_SIZE
    case Write(_, _) => q.nodes <= MAX_CHAIN_SIZE
    case Append => q.bytes == [] || other.bytes == [] || q.spare == 0
    case _ => true
  }

  /** Few enough nodes, and no node is freed. */
  lemma FewStay(g: Layout, nodeSize: nat, x: Node, n: nat)
    requires g.Ok() && Distinct(g.nodes) && nodeSize <= MAX_CHAIN_SIZE && x in g.nodes
    ensures Stays(g, nodeSize, x, n)
  {
    var p: nat :| p < |g.nodes| && g.nodes[p] == x;
    StaysExactly(g, nodeSize, p, n);
  }

  lemma StillThere(before: seq<Node>, after: seq<Node>, x: Node)
    requires |before| <= |after| && x in before
    requires forall i {:trigger after[i]} :: 0 <= i < |before| ==> after[i] == before[i]
    ensures x in after
  {
    var p :| 0 <= p < |before| && before[p] == x;
    assert after[p] == x;
  }

  predicate Incoming(op: Op) {
    op.Add? || op.Read?
  }

  predicate Outgoing(op: Op) {
    op.Skip? || op.Clear? || op.Remove? || op.Write?
  }

  /** What an operation on one buffer keeps and does. */
  twostate predicate Done(b: Buffer, op: Op, e: Event)
    requires old(b.Valid())
    reads b, b.chain, b.g.nodes
  {
    && b.Valid() && NoForeign(old(b.g), b.g)
    && Matches(op, old(View(b)), old(View(b)), [e], [])
    && Replay(old(b.Bytes()), [e]) == Some(b.Bytes())
    && (old(b.HeadOnRing()) && Careful(op, old(View(b)), old(View(b))) ==> b.HeadOnRing())
  }

  method StepIn(b: Buffer, op: Op) returns (ghost e: Event)
    requires b.Valid() && Incoming(op)
    modifies b`totalLen, b`g, b.chain, b.g.nodes
    ensures Done(b, op, e)
  {
    ghost var q := b.Bytes();
    match op {
      case Add(bytes) =>
        var ok := b.Add(bytes);
        e := In(if ok then bytes else []);
      case Read(pending, howmuch, arrived) =>
        var n := b.Read(pending, howmuch, arrived);
        e := In(arrived[..n]);
    }
    assert q + [] == q;
    ReplayOne(q, e);
    if b.chain.head in old(b.g).nodes {
      StillThere(old(b.g).nodes, b.g.nodes, b.chain.head);
    }
  }

  /** Some of the bytes at the front went out: what that means for the log and for `head`. */
  lemma WentOut(q: seq<byte>, e: Event, left: seq<byte>, g: Layout, size: nat, head: Node)
    requires e.Out? && q == e.bytes + left && g.Ok() && Distinct(g.nodes)
    ensures e.bytes <= q && Replay(q, [e]) == Some(left)
    ensures size <= MAX_CHAIN_SIZE && head in g.nodes ==> Stays(g, size, head, |e.bytes|)
  {
    assert q[|e.bytes|..] == left;
    ReplayOne(q, e);
    if size <= MAX_CHAIN_SIZE && head in g.nodes {
      FewStay(g, size, head, |e.bytes|);
    }
  }

  method StepDrop(b: Buffer, op: Op) returns (ghost e: Event)
    requires b.Valid() && (op.Skip? || op.Clear?) && Possible(op, View(b))
    modifies b`totalLen, b`g, b.chain, b.g.nodes
    ensures Done(b, op, e)
  {
    ghost var q, g, size, head := b.Bytes(), b.g, b.chain.nodeSize, b.chain.head;
    e := Out(q[..if op.Skip? then Min(op.n, |q|) else |q|]);
    assert q == q[..|e.bytes|] + q[|e.bytes|..] && q[..|q|] == q && q[|q|..] == [];
    WentOut(q, e, q[|e.bytes|..], g, size, head);
    if op.Skip? {
      b.Skip(op.n);
    } else {
      b.ClearAll();
    }
  }

  method StepRemove(b: Buffer, op: Op) returns (ghost e: Event)
    requires b.Valid() && op.Remove?
    modifies b`totalLen, b`g, b.chain, b.g.nodes
    ensures Done(b, op, e)
  {
    ghost var q, g, size, head := b.Bytes(), b.g, b.chain.nodeSize, b.chain.head;
    var bytes := RemoveSome(b, op.n);
    e := Out(bytes);
    assert q == bytes + b.Bytes();
    WentOut(q, e, b.Bytes(), g, size, head);
  }

  method StepWrite(b: Buffer, op: Op) returns (ghost e: Event)
    requires b.Valid() && op.Write?
    modifies b`totalLen, b`g, b.chain, b.g.nodes
    ensures Done(b, op, e)
  {
    ghost var q, g, size, head := b.Bytes(), b.g, b.chain.nodeSize, b.chain.head;
    var _, sent := b.Write(op.howmuch, op.accepted);
    e := Out(sent);
    WentOut(q, e, b.Bytes(), g, size, head);
  }

  method StepOut(b: Buffer, op: Op) returns (ghost e: Event)
    requires b.Valid() && Outgoing(op) && Possible(op, View(b))
    modifies b`totalLen, b`g, b.chain, b.g.nodes
    ensures Done(b, op, e)
  {
    if op.Skip? || op.Clear? {
      e := StepDrop(b, op);
    } else if op.Remove? {
      e := StepRemove(b, op);
    } else {
      e := StepWrite(b, op);
    }
  }

  // With the other buffer.

  ghost predicate Both(x: Buffer, y: Buffer)
    reads x, x.chain, x.g.nodes, y, y.chain, y.g.nodes
  {
    x != y && x.Valid() && y.Valid() && x.Apart(y)
  }

  /** Every node of the two rings was on one of them before, or is new. */
  twostate predicate OfBoth(x: Buffer, y: Buffer)
    reads x, y
  {
    && (forall i :: 0 <= i < |x.g.nodes| ==>
                      x.g.nodes[i] in old(x.g.nodes) || x.g.nodes[i] in old(y.g.nodes) || fresh(x.g.nodes[i]))
    && (forall i :: 0 <= i < |y.g.nodes| ==>
                      y.g.nodes[i] in old(x.g.nodes) || y.g.nodes[i] in old(y.g.nodes) || fresh(y.g.nodes[i]))
  }

  /** What an operation does to its queue `p` and to the other one `q`. */
  ghost predicate Change(op: Op, p: Queue, q: Queue, p': Queue, q': Queue, mine: seq<Event>, theirs: seq<Event>) {
    && Matches(op, p, q, mine, theirs)
    && Replay(p.bytes, mine) == Some(p'.bytes) && Replay(q.bytes, theirs) == Some(q'.bytes)
    && (if op.Move? then p'.maxRead == q.maxRead && q'.maxRead == p.maxRead
        else p'.maxRead == p.maxRead && q'.maxRead == q.maxRead)
    && (p.onRing && q.onRing && Careful(op, p, q) ==> p'.onRing && q'.onRing)
  }

  /** What an operation on `x`, with `y` beside it, keeps and does. */
  twostate predicate DoneWith(x: Buffer, y: Buffer, op: Op, mine: seq<Event>, theirs: seq<Event>)
    requires old(x.Valid() && y.Valid())
    reads x, x.chain, x.g.nodes, y, y.chain, y.g.nodes
  {
    Both(x, y) && OfBoth(x, y) && Change(op, old(View(x)), old(View(y)), View(x), View(y), mine, theirs)
  }

  /** A ring that has changed by none but its own and new nodes is still apart from the other. */
  lemma ApartStill(was: seq<Node>, now: seq<Node>, others: seq<Node>)
    requires NoShared(was, others) && forall i :: 0 <= i < |now| ==> now[i] in was || now[i] !in others
    ensures NoShared(now, others)
  {
    forall i, j | 0 <= i < |now| && 0 <= j < |others| ensures Differ(now[i], others[j]) {
      if now[i] in was {
        var k :| 0 <= k < |was| && was[k] == now[i];
        assert Differ(was[k], others[j]);
      }
    }
  }

  lemma Disjoint(a: seq<Node>, b: seq<Node>)
    requires NoShared(a, b)
    ensures forall x :: x in b ==> x !in a
  {
    forall i, j | 0 <= i < |a| && 0 <= j < |b| ensures a[i] != b[j] {
      assert Differ(a[i], b[j]);
    }
  }

  method StepOne(b: Buffer, op: Op) returns (ghost e: Event)
    requires b.Valid() && (Incoming(op) || Outgoing(op)) && Possible(op, View(b))
    modifies b`totalLen, b`g, b.chain, b.g.nodes
    ensures Done(b, op, e)
  {
    if Incoming(op) {
      e := StepIn(b, op);
    } else {
      e := StepOut(b, op);
    }
  }

  /** An operation on one buffer, the other one beside it. */
  method StepAlone(x: Buffer, y: Buffer, op: Op) returns (ghost e: Event)
    requires Both(x, y) && (Incoming(op) || Outgoing(op)) && Possible(op, View(x))
    modifies x`totalLen, x`g, x.chain, x.g.nodes
    ensures Both(x, y) && Done(x, op, e) && y.Bytes() == old(y.Bytes())
    ensures unchanged(y) && unchanged(y.chain) && x.maxRead == old(x.maxRead)
  {
    ghost var was := x.g.nodes;
    Disjoint(was, y.g.nodes);
    assert forall i {:trigger y.g.nodes[i]} :: 0 <= i < |y.g.nodes| ==> y.g.nodes[i] !in was;
    e := StepOne(x, op);
    assert unchanged(y) && unchanged(y.chain);
    assert forall i {:trigger y.g.nodes[i]} :: 0 <= i < |y.g.nodes| ==> unchanged(y.g.nodes[i]);
    ApartStill(was, x.g.nodes, y.g.nodes);
  }

  lemma JoinsWithin(p: Layout, q: Layout, r: Layout)
    requires Joins(p, q, r)
    ensures forall i :: 0 <= i < |r.nodes| ==> r.nodes[i] in p.nodes || r.nodes[i] in q.nodes
  {
  }

  lemma JoinsHead(p: Layout, q: Layout, r: Layout, head: Node)
    requires Joins(p, q, r) && p.w + 1 == |p.nodes| && head in p.nodes
    ensures head in r.nodes
  {
    assert p.nodes[..p.w + 1] == p.nodes;
  }

  method StepAppend(x: Buffer, y: Buffer)
    requires Both(x, y)
    modifies x`totalLen, x`g, x.chain, x.g.nodes, y`totalLen, y`g, y.chain, y.g.nodes
    ensures Both(x, y) && OfBoth(x, y) && x.Bytes() == old(x.Bytes()) + old(y.Bytes()) && y.Bytes() == []
    ensures old(x.HeadOnRing() && y.HeadOnRing()) && Careful(Append, old(View(x)), old(View(y))) ==>
              x.HeadOnRing() && y.HeadOnRing()
  {
    ghost var p, q, head := x.g, y.g, x.chain.head;
    var spliced := x.totalLen > 0 && y.totalLen > 0;
    ghost var careful := x.HeadOnRing() && Careful(Append, View(x), View(y));
    assert spliced && careful ==> p.w + 1 == |p.nodes|;
    x.Append(y);
    if spliced {
      JoinsWithin(p, q, x.g);
      if careful {
        JoinsHead(p, q, x.g, head);
      }
    }
  }

  method StepMove(x: Buffer, y: Buffer)
    requires Both(x, y)
    modifies x, x.chain, y, y.chain
    ensures Both(x, y) && OfBoth(x, y) && x.Bytes() == old(y.Bytes()) && y.Bytes() == old(x.Bytes())
    ensures x.maxRead == old(y.maxRead) && y.maxRead == old(x.maxRead)
    ensures old(x.HeadOnRing() && y.HeadOnRing()) ==> x.HeadOnRing() && y.HeadOnRing()
  {
    NoSharedSwap(x.g.nodes, y.g.nodes);
    x.Move(y);
  }

  method AppendDone(x: Buffer, y: Buffer) returns (ghost mine: seq<Event>, ghost theirs: seq<Event>)
    requires Both(x, y)
    modifies x`totalLen, x`g, x.chain, x.g.nodes, y`totalLen, y`g, y.chain, y.g.nodes
    ensures DoneWith(x, y, Append, mine, theirs)
  {
    ghost var p, q := x.Bytes(), y.Bytes();
    mine, theirs := [In(q)], [Out(q)];
    ReplayAppend(p, q);
    StepAppend(x, y);
    assert x.maxRead == old(x.maxRead) && y.maxRead == old(y.maxRead);
  }

  method MoveDone(x: Buffer, y: Buffer) returns (ghost mine: seq<Event>, ghost theirs: seq<Event>)
    requires Both(x, y)
    modifies x, x.chain, y, y.chain
    ensures DoneWith(x, y, Move, mine, theirs)
  {
    mine, theirs := [Out(x.Bytes()), In(y.Bytes())], [Out(y.Bytes()), In(x.Bytes())];
    ReplayMove(x.Bytes(), y.Bytes());
    ReplayMove(y.Bytes(), x.Bytes());
    StepMove(x, y);
  }

  lemma MatchesAlone(op: Op, q: Queue, other: Queue, e: Event)
    requires (Incoming(op) || Outgoing(op)) && Matches(op, q, q, [e], [])
    ensures Matches(op, q, other, [e], []) && (Careful(op, q, other) <==> Careful(op, q, q))
  {
  }

  method AloneDone(x: Buffer, y: Buffer, op: Op) returns (ghost mine: seq<Event>, ghost theirs: seq<Event>)
    requires Both(x, y) && (Incoming(op) || Outgoing(op)) && Possible(op, View(x))
    modifies x`totalLen, x`g, x.chain, x.g.nodes
    ensures DoneWith(x, y, op, mine, theirs)
  {
    ghost var p, q := View(x), View(y);
    ghost var e := StepAlone(x, y, op);
    mine, theirs := [e], [];
    MatchesAlone(op, p, q, e);
    assert Replay(q.bytes, theirs) == Some(q.bytes);
  }

  /** One operation on `x`, with `y` beside it. */
  method Step(x: Buffer, y: Buffer, op: Op) returns (ghost mine: seq<Event>, ghost theirs: seq<Event>)
    requires Both(x, y) && Possible(op, View(x))
    modifies x, x.chain, x.g.nodes, y, y.chain, y.g.nodes
    ensures DoneWith(x, y, op, mine, theirs)
  {
    if op.Append? {
      mine, theirs := AppendDone(x, y);
    } else if op.Move? {
      mine, theirs := MoveDone(x, y);
    } else {
      mine, theirs := AloneDone(x, y, op);
    }
  }

  // Whole runs.

  /** What one turn did to the first queue and to the second. */
  datatype Effect = Effect(first: seq<Event>, second: seq<Event>)

  function First(e: Effect): (r: seq<Event>) {
    e.first
  }

  function Second(e: Effect): (r: seq<Event>) {
    e.second
  }

  /** The two queues. */
  datatype Pair = Pair(first: Queue, second: Queue)

  /** The queues after one turn with this effect, if it is what the turn does to them. */
  ghost predicate Follows(t: Turn, p: Pair, e: Effect, r: Pair) {
    if t.first then Change(t.op, p.first, p.second, r.first, r.second, e.first, e.second)
    else Change(t.op, p.second, p.first, r.second, r.first, e.second, e.first)
  }

  ghost predicate Took(turns: seq<Turn>, pairs: seq<Pair>, log: seq<Effect>, i: nat)
    requires i < |turns| && i < |log| && i + 1 < |pairs|
  {
    Follows(turns[i], pairs[i], log[i], pairs[i + 1])
  }

  /** The queues, turn after turn: `pairs` has one more than `log`. */
  ghost predicate Logged(turns: seq<Turn>, pairs: seq<Pair>, log: seq<Effect>) {
    && |log| <= |turns| && |pairs| == |log| + 1
    && forall i :: 0 <= i < |log| ==> Took(turns, pairs, log, i)
  }

  lemma LoggedMore(turns: seq<Turn>, pairs: seq<Pair>, log: seq<Effect>, e: Effect, r: Pair)
    requires Logged(turns, pairs, log) && |log| < |turns| && Follows(turns[|log|], pairs[|log|], e, r)
    ensures Logged(turns, pairs + [r], log + [e])
  {
    forall i | 0 <= i < |log| + 1 ensures Took(turns, pairs + [r], log + [e], i) {
      if i < |log| {
        assert Took(turns, pairs, log, i);
      }
    }
  }

  lemma LoggedLess(turns: seq<Turn>, pairs: seq<Pair>, log: seq<Effect>, less: seq<Pair>, part: seq<Effect>)
    requires Logged(turns, pairs, log) && less <= pairs && part <= log && |less| == |part| + 1
    ensures Logged(turns, less, part)
  {
    forall i | 0 <= i < |part| ensures Took(turns, less, part, i) {
      assert Took(turns, pairs, log, i);
    }
  }

  lemma TookReplays(turns: seq<Turn>, pairs: seq<Pair>, log: seq<Effect>, i: nat)
    requires Logged(turns, pairs, log) && i < |log|
    ensures Replay(pairs[i].first.bytes, log[i].first) == Some(pairs[i + 1].first.bytes)
    ensures Replay(pairs[i].second.bytes, log[i].second) == Some(pairs[i + 1].second.bytes)
  {
    assert Took(turns, pairs, log, i);
  }

  lemma ReplayLast(start: seq<byte>, f: Effect -> seq<Event>, log: seq<Effect>, n: nat, before: seq<byte>, after: seq<byte>)
    requires n + 1 == |log| && Replay(start, Joined(f, log[..n])) == Some(before)
    requires Replay(before, f(log[n])) == Some(after)
    ensures Replay(start, Joined(f, log)) == Some(after)
  {
    JoinedSnoc(f, log, n);
    assert log[..n + 1] == log;
    ReplayMore(start, Joined(f, log[..n]), f(log[n]));
  }

  /** Each queue ends as its own log says, and so first in, first out. */
  lemma {:induction false} LoggedReplays(turns: seq<Turn>, pairs: seq<Pair>, log: seq<Effect>)
    requires Logged(turns, pairs, log)
    ensures Replay(pairs[0].first.bytes, Joined(First, log)) == Some(pairs[|log|].first.bytes)
    ensures Replay(pairs[0].second.bytes, Joined(Second, log)) == Some(pairs[|log|].second.bytes)
    decreases log
  {
    if log != [] {
      var n := |log| - 1;
      LoggedLess(turns, pairs, log, pairs[..n + 1], log[..n]);
      LoggedReplays(turns, pairs[..n + 1], log[..n]);
      TookReplays(turns, pairs, log, n);
      ReplayLast(pairs[0].first.bytes, First, log, n, pairs[n].first.bytes, pairs[n + 1].first.bytes);
      ReplayLast(pairs[0].second.bytes, Second, log, n, pairs[n].second.bytes, pairs[n + 1].second.bytes);
    }
  }

  ghost function Now(a: Buffer, b: Buffer): (r: Pair)
    requires a.Valid() && b.Valid()
    reads a, a.chain, a.g.nodes, b, b.chain, b.g.nodes
  {
    Pair(View(a), View(b))
  }

  predicate Watched(t: Turn, p: Pair) {
    if t.first then Careful(t.op, p.first, p.second) else Careful(t.op, p.second, p.first)
  }

  predicate Takes(t: Turn, p: Pair) {
    Possible(t.op, if t.first then p.first else p.second)
  }

  predicate OnRings(p: Pair) {
    p.first.onRing && p.second.onRing
  }

  /** Careful turns lose no `head`. */
  lemma {:induction false} HeadsStay(turns: seq<Turn>, pairs: seq<Pair>, log: seq<Effect>, n: nat)
    requires Logged(turns, pairs, log) && n <= |log| && OnRings(pairs[0])
    requires forall i :: 0 <= i < n ==> Watched(turns[i], pairs[i])
    ensures OnRings(pairs[n])
  {
    if n > 0 {
      HeadsStay(turns, pairs, log, n - 1);
      assert Took(turns, pairs, log, n - 1);
    }
  }

  method TakeTurn(a: Buffer, b: Buffer, t: Turn) returns (ghost e: Effect)
    requires Both(a, b) && Takes(t, Now(a, b))
    modifies a, a.chain, a.g.nodes, b, b.chain, b.g.nodes
    ensures Both(a, b) && OfBoth(a, b) && Follows(t, old(Now(a, b)), e, Now(a, b))
  {
    ghost var mine, theirs;
    if t.first {
      mine, theirs := Step(a, b, t.op);
      e := Effect(mine, theirs);
    } else {
      NoSharedSwap(a.g.nodes, b.g.nodes);
      mine, theirs := Step(b, a, t.op);
      NoSharedSwap(b.g.nodes, a.g.nodes);
      e := Effect(theirs, mine);
    }
  }

  /** A run of turns on two buffers that share no node. The queues go through what the turns do to
      plain queues, each first in, first out. The run stops early only before an operation that starts
      over from a `head` that is off the ring, so not at all if both heads are on it to begin with and
      every turn is careful. */
  method Run(a: Buffer, b: Buffer, turns: seq<Turn>)
    returns (done: nat, ghost pairs: seq<Pair>, ghost log: seq<Effect>)
    requires Both(a, b)
    modifies a, a.chain, a.g.nodes, b, b.chain, b.g.nodes
    ensures Both(a, b) && done == |log| <= |turns| && Logged(turns, pairs, log)
    ensures pairs[0] == old(Now(a, b)) && pairs[done] == Now(a, b)
    ensures Joined(Went, Joined(First, log)) + a.Bytes() == old(a.Bytes()) + Joined(Came, Joined(First, log))
    ensures Joined(Went, Joined(Second, log)) + b.Bytes() == old(b.Bytes()) + Joined(Came, Joined(Second, log))
    ensures done < |turns| ==> !Takes(turns[done], pairs[done])
    ensures OnRings(pairs[0]) && (forall i :: 0 <= i < done ==> Watched(turns[i], pairs[i])) ==> done == |turns|
  {
    done, pairs, log := Play(a, b, turns, 0, Now(a, b), [Now(a, b)], []);
    LoggedReplays(turns, pairs, log);
    FirstInFirstOut(pairs[0].first.bytes, Joined(First, log));
    FirstInFirstOut(pairs[0].second.bytes, Joined(Second, log));
    if OnRings(pairs[0]) && forall i :: 0 <= i < done ==> Watched(turns[i], pairs[i]) {
      HeadsStay(turns, pairs, log, done);
    }
  }

  /** The log of the first `n` turns, from `start` to `now`. */
  ghost predicate SoFar(turns: seq<Turn>, n: nat, start: Pair, pairs: seq<Pair>, log: seq<Effect>, now: Pair) {
    Logged(turns, pairs, log) && |log| == n && pairs[0] == start && pairs[n] == now
  }

  lemma OneTurn(turns: seq<Turn>, n: nat, start: Pair, pairs: seq<Pair>, log: seq<Effect>, now: Pair, e: Effect, next: Pair)
    requires SoFar(turns, n, start, pairs, log, now) && n < |turns| && Follows(turns[n], now, e, next)
    ensures SoFar(turns, n + 1, start, pairs + [next], log + [e], next)
  {
    LoggedMore(turns, pairs, log, e, next);
  }

  /** The turns from `n` on. */
  method Play(a: Buffer, b: Buffer, turns: seq<Turn>, n: nat, ghost start: Pair, ghost pairs: seq<Pair>,
              ghost log: seq<Effect>)
    returns (done: nat, ghost pairs': seq<Pair>, ghost log': seq<Effect>)
    requires Both(a, b) && n <= |turns| && SoFar(turns, n, start, pairs, log, Now(a, b))
    modifies a, a.chain, a.g.nodes, b, b.chain, b.g.nodes
    ensures Both(a, b) && done <= |turns| && SoFar(turns, done, start, pairs', log', Now(a, b))
    ensures done < |turns| ==> !Takes(turns[done], Now(a, b))
    decreases |turns| - n
  {
    done, pairs', log' := n, pairs, log;
    if n < |turns| {
      var possible := CheckTurn(a, b, turns[n]);
      if possible {
        pairs', log' := RunTurn(a, b, turns, n, start, pairs, log);
        done, pairs', log' := Play(a, b, turns, n + 1, start, pairs', log');
      }
    }
  }

  method RunTurn(a: Buffer, b: Buffer, turns: seq<Turn>, n: nat, ghost start: Pair, ghost pairs: seq<Pair>,
                 ghost log: seq<Effect>)
    returns (ghost pairs': seq<Pair>, ghost log': seq<Effect>)
    requires Both(a, b) && n < |turns| && SoFar(turns, n, start, pairs, log, Now(a, b)) && Takes(turns[n], Now(a, b))
    modifies a, a.chain, a.g.nodes, b, b.chain, b.g.nodes
    ensures Both(a, b) && OfBoth(a, b) && SoFar(turns, n + 1, start, pairs', log', Now(a, b))
  {
    ghost var now := Now(a, b);
    ghost var e := TakeTurn(a, b, turns[n]);
    OneTurn(turns, n, start, pairs, log, now, e, Now(a, b));
    pairs', log' := pairs + [Now(a, b)], log + [e];
  }

  /** Whether an operation is possible. */
  method Check(b: Buffer, op: Op) returns (possible: bool)
    requires b.Valid()
    ensures possible == Possible(op, View(b))
  {
    possible := true;
    if op.Clear? || (op.Skip? && op.n >= b.totalLen) {
      possible := b.chain.OnRing(b.chain.head, b.g);
    }
  }

  method CheckTurn(a: Buffer, b: Buffer, t: Turn) returns (possible: bool)
    requires a.Valid() && b.Valid()
    ensures possible == Takes(t, Now(a, b))
  {
    if t.first {
      possible := Check(a, t.op);
    } else {
      possible := Check(b, t.op);
    }
  }
}
