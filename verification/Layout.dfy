/** The blocks of a ring in order from `read`: what they hold, what they offer, which are spare. */
module Layouts {
  import opened Flattening
  import opened Blocks
  import opened Chain

  type Slot = Option<Block>

  /** The bytes a node's block holds. */
  function View(s: Slot): (r: seq<byte>) {
    if s.Some? && s.value.Ok() then s.value.Readable() else []
  }

  /** The memory a node's block still offers. */
  function Room(s: Slot): (r: seq<byte>) {
    if s.Some? && s.value.Ok() then s.value.Writeable() else []
  }

  predicate Spare(s: Slot) {
    s.Some? && s.value.Ok() && s.value.size == 0
  }

  /** What position `i` may hold when `write` is at `k`. */
  predicate Fits(s: Slot, i: int, k: int) {
    && (s.Some? ==> s.value.Ok())
    && (i != k ==> s.Some?)
    && (i > k ==> Spare(s))
  }

  predicate Shape(blocks: seq<Slot>, k: int) {
    forall i {:trigger Fits(blocks[i], i, k)} :: 0 <= i < |blocks| ==> Fits(blocks[i], i, k)
  }

  lemma ShapeSet(blocks: seq<Slot>, k: int, i: nat, s: Slot)
    requires Shape(blocks, k) && i < |blocks| && Fits(s, i, k)
    ensures Shape(blocks[i := s], k)
  {
    var after := blocks[i := s];
    forall j | 0 <= j < |after| ensures Fits(after[j], j, k) {
      assert Fits(blocks[j], j, k);
    }
  }

  lemma ShapeSnoc(blocks: seq<Slot>, k: int, s: Slot, k': int)
    requires Shape(blocks, k) && Fits(s, |blocks|, k')
    requires k' == k || (k' == |blocks| && 0 <= k < |blocks| && blocks[k].Some?)
    ensures Shape(blocks + [s], k')
  {
    forall j | 0 <= j < |blocks + [s]| ensures Fits((blocks + [s])[j], j, k') {
      if j < |blocks| {
        assert Fits(blocks[j], j, k);
      }
    }
  }

  lemma TakeMore<T>(content: seq<T>, offered: seq<T>, a: nat, b: nat)
    requires a + b <= |offered|
    ensures content + offered[..a] + offered[a..][..b] == content + offered[..a + b]
    ensures offered[a..][b..] == offered[a + b..]
  {
  }

  /** Adding to the block at `i` moves bytes from what is offered to what is held. */
  lemma AddStep(blocks: seq<Slot>, i: nat, s: Slot, n: nat)
    requires i < |blocks| && n <= |Room(blocks[i])|
    requires View(s) == View(blocks[i]) + Room(blocks[i])[..n] && Room(s) == Room(blocks[i])[n..]
    ensures n <= |Joined(Room, blocks[i..])|
    ensures Joined(View, blocks[i := s][..i + 1]) == Joined(View, blocks[..i + 1]) + Joined(Room, blocks[i..])[..n]
    ensures Joined(Room, blocks[i := s][i..]) == Joined(Room, blocks[i..])[n..]
    ensures Joined(Room, blocks[i := s][i..]) == Room(s) + Joined(Room, blocks[i + 1..])
  {
    AddSlices(blocks, i, s);
    JoinedSnoc(View, blocks, i);
    JoinedSnoc(View, blocks[i := s], i);
  }

  lemma AddSlices<T>(s: seq<T>, i: nat, x: T)
    requires i < |s|
    ensures s[i := x][..i] == s[..i] && s[i..][1..] == s[i + 1..] == s[i := x][i..][1..]
    ensures s[i..][0] == s[i] && s[i := x][i..][0] == x
  {
  }

  /** The first `done` bytes are in place, in the blocks from `w` up to `i`. */
  ghost predicate Filled(blocks: seq<Slot>, w: nat, i: nat, bytes: seq<byte>, done: nat)
    requires w <= i <= |blocks|
  {
    && done <= |bytes| <= |Joined(Room, blocks[w..])|
    && Joined(Room, blocks[w..])[..done] == bytes[..done]
    && (done == |bytes| || done == |Joined(Room, blocks[w..i])|)
  }

  /** How many bytes a block still offers memory for, of those from `done` on. */
  function FillCount(s: Slot, bytes: seq<byte>, done: nat): (r: nat)
    requires done <= |bytes|
  {
    Min(|bytes| - done, |Room(s)|)
  }

  function FilledBlock(s: Slot, bytes: seq<byte>, done: nat): (r: Slot)
    requires done <= |bytes|
  {
    if s.Some? && s.value.Ok() then Some(s.value.Fill(bytes[done..done + FillCount(s, bytes, done)])) else s
  }

  lemma FilledFits(s: Slot, bytes: seq<byte>, done: nat, i: int, w: int)
    requires done <= |bytes| && Fits(s, i, w)
    ensures Fits(FilledBlock(s, bytes, done), i, w)
  {
  }

  /** Block `r` is `s` with the next bytes in the memory it offers. */
  ghost predicate Fills(s: Slot, bytes: seq<byte>, done: nat, r: Slot)
    requires done <= |bytes|
  {
    var n := FillCount(s, bytes, done);
    View(r) == View(s) && (s.Some? <==> r.Some?) && Room(r) == bytes[done..done + n] + Room(s)[n..]
  }

  lemma FilledRoom(s: Slot, bytes: seq<byte>, done: nat)
    requires done <= |bytes|
    ensures Fills(s, bytes, done, FilledBlock(s, bytes, done))
  {
  }

  /** The blocks once the bytes from `done` on are in the memory offered from block `i` on, if they
      fit. */
  function Spread(blocks: seq<Slot>, i: nat, bytes: seq<byte>, done: nat): (r: Option<seq<Slot>>)
    requires done <= |bytes|
    decreases |blocks| - i
  {
    if done == |bytes| then Some(blocks)
    else if i >= |blocks| then None
    else
      Spread(blocks[i := FilledBlock(blocks[i], bytes, done)], i + 1, bytes, done + FillCount(blocks[i], bytes, done))
  }

  lemma FillBytes(before: seq<byte>, room: seq<byte>, after: seq<byte>, bytes: seq<byte>, count: nat)
    requires |before| < |bytes| && (before + room + after)[..|before|] == bytes[..|before|]
    requires count == Min(|bytes| - |before|, |room|)
    ensures (before + (bytes[|before|..|before| + count] + room[count..]) + after)[..|before| + count]
         == bytes[..|before| + count]
  {
    assert (before + room + after)[..|before|] == before;
  }

  /** What the blocks from `w` offer, around block `i` and with another in its place. */
  lemma FillParts(blocks: seq<Slot>, w: nat, i: nat, s: Slot)
    requires w <= i < |blocks|
    ensures Joined(Room, blocks[w..]) == Joined(Room, blocks[w..i]) + Room(blocks[i]) + Joined(Room, blocks[i + 1..])
    ensures Joined(Room, blocks[i := s][w..]) == Joined(Room, blocks[w..i]) + Room(s) + Joined(Room, blocks[i + 1..])
    ensures Joined(Room, blocks[i := s][w..i + 1]) == Joined(Room, blocks[w..i]) + Room(s)
  {
    FillSlices(blocks, w, i, s);
    var rest, rest' := blocks[w..], blocks[i := s][w..];
    JoinedAt(Room, rest, i - w);
    JoinedSet(Room, rest, i - w, s);
    JoinedSnoc(Room, rest', i - w);
  }

  lemma FillSlices<T>(s: seq<T>, w: nat, i: nat, x: T)
    requires w <= i < |s|
    ensures s[i := x][w..] == s[w..][i - w := x]
    ensures s[w..][..i - w] == s[w..i] == s[i := x][w..][..i - w] && s[w..][i - w + 1..] == s[i + 1..]
    ensures s[i := x][w..][..i - w + 1] == s[i := x][w..i + 1] && s[w..][i - w] == s[i] && s[i := x][w..][i - w] == x
  {
  }

  /** Filling the block at `i` changes what it offers and not what it holds. */
  lemma FillStep(blocks: seq<Slot>, w: nat, i: nat, bytes: seq<byte>, done: nat, s: Slot, count: nat)
    requires w <= i < |blocks| && Filled(blocks, w, i, bytes, done) && done < |bytes|
    requires count == Min(|bytes| - done, |Room(blocks[i])|) && View(s) == View(blocks[i])
    requires Room(s) == bytes[done..done + count] + Room(blocks[i])[count..]
    ensures Filled(blocks[i := s], w, i + 1, bytes, done + count)
    ensures |Joined(Room, blocks[i := s][w..])| == |Joined(Room, blocks[w..])|
  {
    FillParts(blocks, w, i, s);
    FillBytes(Joined(Room, blocks[w..i]), Room(blocks[i]), Joined(Room, blocks[i + 1..]), bytes, count);
  }

  lemma FillKeeps(blocks: seq<Slot>, w: nat, i: nat, s: Slot)
    requires w <= i < |blocks| && View(s) == View(blocks[i])
    ensures Joined(View, blocks[i := s][..w + 1]) == Joined(View, blocks[..w + 1])
  {
    JoinedSnoc(View, blocks, w);
    JoinedSnoc(View, blocks[i := s], w);
    assert blocks[i := s][..w] == blocks[..w];
  }

  /** The content is the same, and so is how much memory is offered. */
  ghost predicate SameSize(x: seq<Slot>, y: seq<Slot>, w: nat) {
    && w < |x| == |y| && (x[w].Some? ==> y[w].Some?) && Joined(View, y[..w + 1]) == Joined(View, x[..w + 1])
    && |Joined(Room, y[w..])| == |Joined(Room, x[w..])|
  }

  lemma FillOn(blocks: seq<Slot>, w: nat, i: nat, bytes: seq<byte>, done: nat)
    requires w <= i <= |blocks| && Filled(blocks, w, i, bytes, done) && done < |bytes|
    ensures i < |blocks|
  {
    assert blocks[w..|blocks|] == blocks[w..];
  }

  lemma FillSame(blocks: seq<Slot>, w: nat, i: nat, s: Slot)
    requires w <= i < |blocks| && View(s) == View(blocks[i]) && (blocks[i].Some? ==> s.Some?)
    requires |Room(s)| == |Room(blocks[i])|
    ensures SameSize(blocks, blocks[i := s], w)
  {
    FillKeeps(blocks, w, i, s);
    FillParts(blocks, w, i, s);
  }

  lemma FillNext(blocks: seq<Slot>, w: nat, i: nat, bytes: seq<byte>, done: nat, s: Slot)
    requires w <= i < |blocks| && Filled(blocks, w, i, bytes, done) && done < |bytes| && Fills(blocks[i], bytes, done, s)
    ensures SameSize(blocks, blocks[i := s], w)
    ensures Filled(blocks[i := s], w, i + 1, bytes, done + FillCount(blocks[i], bytes, done))
  {
    FillSame(blocks, w, i, s);
    FillStep(blocks, w, i, bytes, done, s, FillCount(blocks[i], bytes, done));
  }

  lemma FillRound(blocks: seq<Slot>, w: nat, i: nat, bytes: seq<byte>, done: nat, next: seq<Slot>)
    requires w <= i < |blocks| && Filled(blocks, w, i, bytes, done) && done < |bytes|
    requires next == blocks[i := FilledBlock(blocks[i], bytes, done)]
    ensures SameSize(blocks, next, w) && Filled(next, w, i + 1, bytes, done + FillCount(blocks[i], bytes, done))
  {
    FilledRoom(blocks[i], bytes, done);
    FillNext(blocks, w, i, bytes, done, FilledBlock(blocks[i], bytes, done));
  }

  /** They fit if that much memory is offered, and it begins with them then. */
  lemma {:induction false} SpreadFills(blocks: seq<Slot>, w: nat, i: nat, bytes: seq<byte>, done: nat)
    requires w < |blocks| && w <= i <= |blocks| && Filled(blocks, w, i, bytes, done)
    ensures var r := Spread(blocks, i, bytes, done);
            r.Some? && SameSize(blocks, r.value, w) && Joined(Room, r.value[w..])[..|bytes|] == bytes
    decreases |blocks| - i
  {
    if done == |bytes| {
      assert bytes[..|bytes|] == bytes;
    } else {
      FillOn(blocks, w, i, bytes, done);
      var next := blocks[i := FilledBlock(blocks[i], bytes, done)];
      FillRound(blocks, w, i, bytes, done, next);
      SpreadFills(next, w, i + 1, bytes, done + FillCount(blocks[i], bytes, done));
    }
  }

  lemma SpreadStep(g: Layout, i: nat, bytes: seq<byte>, done: nat, h: Layout, done': nat)
    requires i < |g.blocks| && done < |bytes|
    requires h == g.(blocks := g.blocks[i := FilledBlock(g.blocks[i], bytes, done)])
    requires done' == done + FillCount(g.blocks[i], bytes, done)
    ensures done' <= |bytes| && Spread(h.blocks, i + 1, bytes, done') == Spread(g.blocks, i, bytes, done)
  {
  }

  /** Where `write` goes next, and what the blocks are then. */
  function NextWrite(blocks: seq<Slot>, w: nat): (r: (seq<Slot>, nat))
    requires w < |blocks| && Shape(blocks, w)
    ensures r.1 < |r.0| && Shape(r.0, r.1) && (r.0[r.1].Some? ==> Spare(r.0[r.1]))
  {
    assert Fits(blocks[w], w, w);
    if blocks[w].None? then (blocks, w)
    else if blocks[w].value.Empty() then
      ShapeSet(blocks, w, w, Some(blocks[w].value.Clear())); (blocks[w := Some(blocks[w].value.Clear())], w)
    else if w + 1 == |blocks| then
      ShapeSnoc(blocks, w, None, w + 1); (blocks + [None], w + 1)
    else
      ShapeNext(blocks, w); (blocks, w + 1)
  }

  /** The blocks with an empty one at `write`, as a scatter read of `n` bytes starts from. */
  function Begun(blocks: seq<Slot>, w: nat, n: nat): (r: (seq<Slot>, nat))
    requires w < |blocks| && Shape(blocks, w)
  {
    var next := NextWrite(blocks, w);
    if next.0[next.1].None? then (next.0[next.1 := Some(NewBlock(Min(Rounded(n), MAX_TO_ALLOC)))], next.1) else next
  }

  /** The blocks with new ones behind them, each as large as needed or as a block is at most, until
      `size` more bytes fit. */
  function Enlarged(blocks: seq<Slot>, size: nat): (r: seq<Slot>)
    ensures |r| >= |blocks|
    decreases size
  {
    var alloc := Min(Rounded(size), MAX_TO_ALLOC);
    if size == 0 || alloc == 0 then blocks else Enlarged(blocks + [Some(NewBlock(alloc))], size - Min(alloc, size))
  }

  /** The blocks a scatter read of `n` bytes gets, and which of them is the first. */
  function Expanded(blocks: seq<Slot>, w: nat, n: nat): (r: (seq<Slot>, nat))
    requires w < |blocks| && Shape(blocks, w)
    ensures r.1 < |r.0|
  {
    var begun := Begun(blocks, w, n);
    assert begun.1 < |begun.0|;
    (Enlarged(begun.0, n - Min(n, |Joined(Room, begun.0[begun.1..])|)), begun.1)
  }

  /** The blocks with room for `n` more bytes at `write`. */
  function Checked(blocks: seq<Slot>, w: nat, n: nat): (r: (seq<Slot>, nat))
    requires w < |blocks| && Shape(blocks, w)
    ensures r.1 < |r.0| && Shape(r.0, r.1) && r.0[r.1].Some? && |Room(r.0[r.1])| >= n
  {
    assert Fits(blocks[w], w, w);
    if blocks[w].None? then
      ShapeSet(blocks, w, w, Some(NewBlock(Rounded(n)))); (blocks[w := Some(NewBlock(Rounded(n)))], w)
    else if blocks[w].value.CanRealign(n) then
      ShapeSet(blocks, w, w, Some(blocks[w].value.Realign(n))); (blocks[w := Some(blocks[w].value.Realign(n))], w)
    else
      var next := NextWrite(blocks, w);
      if next.0[next.1].None? || next.0[next.1].value.size < n then
        ShapeSet(next.0, next.1, next.1, Some(NewBlock(Rounded(n))));
        (next.0[next.1 := Some(NewBlock(Rounded(n)))], next.1)
      else next
  }

  /** The blocks after `bytes` have been added. */
  function Added(blocks: seq<Slot>, w: nat, bytes: seq<byte>): (r: (seq<Slot>, nat))
    requires w < |blocks| && Shape(blocks, w)
  {
    var ready := Checked(blocks, w, |bytes|);
    (Stored(ready.0, ready.1, bytes), ready.1)
  }

  /** The blocks with `bytes` in the room at `write`. */
  function Stored(blocks: seq<Slot>, w: nat, bytes: seq<byte>): (r: seq<Slot>)
    requires w < |blocks| && Shape(blocks, w) && blocks[w].Some? && |bytes| <= |Room(blocks[w])|
  {
    assert Fits(blocks[w], w, w);
    blocks[w := Some(blocks[w].value.Append(bytes))]
  }

  lemma ShapeNext(blocks: seq<Slot>, k: nat)
    requires Shape(blocks, k) && k + 1 < |blocks| && blocks[k].Some?
    ensures Shape(blocks, k + 1) && Spare(blocks[k + 1])
  {
    assert Fits(blocks[k + 1], k + 1, k);
    forall j | 0 <= j < |blocks| ensures Fits(blocks[j], j, k + 1) {
      assert Fits(blocks[j], j, k);
    }
  }

  /** How many blocks from `k` on a drain of `size` bytes empties and goes past. */
  function Emptied(blocks: seq<Slot>, k: nat, w: nat, size: nat): (r: nat)
    requires k <= w < |blocks|
    ensures k + r <= w
    decreases w - k
  {
    if k == w || |View(blocks[k])| > size then 0
    else if |View(blocks[k])| == size then 1
    else 1 + Emptied(blocks, k + 1, w, size - |View(blocks[k])|)
  }

  /** The blocks after the one at `k` are as before, `k` places nearer. */
  predicate KeptFrom(before: seq<Slot>, after: seq<Slot>, k: nat, w: nat) {
    k <= w < |before| && w - k < |after| && forall i {:trigger after[i]} :: 0 < i <= w - k ==> after[i] == before[i + k]
  }

  lemma KeptBlocks(before: seq<Slot>, drained: seq<Slot>, after: seq<Slot>, k: nat, w: nat)
    requires k <= w < |before| == |drained| && |after| >= |drained| - k && after[..|drained| - k] == drained[k..]
    requires forall i :: k < i < |before| ==> drained[i] == before[i]
    ensures KeptFrom(before, after, k, w)
  {
    forall i | 0 < i <= w - k ensures after[i] == before[i + k] {
      assert after[..|drained| - k][i] == drained[k..][i];
    }
  }

  predicate Cleared(blocks: seq<Slot>, k: nat)
    requires k <= |blocks|
  {
    forall i :: 0 <= i < k ==> Spare(blocks[i])
  }

  /** With `size` bytes still to drop from the blocks `k..w`, `goal` is what will be left. */
  ghost predicate Pending(blocks: seq<Slot>, k: nat, w: nat, size: nat, goal: seq<byte>)
    requires k <= w < |blocks|
  {
    && Cleared(blocks, k)
    && size <= |Joined(View, blocks[k..w + 1])|
    && Joined(View, blocks[k..w + 1])[size..] == goal
  }

  /** Draining the first of the blocks `k..w` takes its bytes off the front of what they hold;
      once it is cleared, only the blocks after it matter. */
  lemma DrainStep(blocks: seq<Slot>, k: nat, w: nat, size: nat, goal: seq<byte>, s: Slot, left: nat)
    requires k <= w < |blocks| && Pending(blocks, k, w, size, goal)
    requires left == size - Min(size, |View(blocks[k])|) && View(s) == View(blocks[k])[size - left..]
    ensures Pending(blocks[k := s], k, w, left, goal)
    ensures Spare(s) && k < w ==> Pending(blocks[k := s], k + 1, w, left, goal)
  {
    var after := blocks[k := s];
    assert blocks[k..w + 1][1..] == blocks[k + 1..w + 1] == after[k + 1..w + 1];
    assert after[k..w + 1][1..] == after[k + 1..w + 1];
    var tail := Joined(View, blocks[k + 1..w + 1]);
    assert Joined(View, blocks[k..w + 1]) == View(blocks[k]) + tail;
    assert Joined(View, after[k..w + 1]) == View(s) + tail;
  }

  /** The ring seen from position `k`, when the blocks before it are cleared. */
  lemma RotateShape(blocks: seq<Slot>, w: nat, k: nat)
    requires k <= w < |blocks| && Shape(blocks, w) && Cleared(blocks, k)
    ensures Shape(blocks[k..] + blocks[..k], w - k)
    ensures (blocks[k..] + blocks[..k])[..w - k + 1] == blocks[k..w + 1]
  {
    var r := blocks[k..] + blocks[..k];
    forall i | 0 <= i < |r| ensures Fits(r[i], i, w - k) {
      if i < |blocks| - k {
        assert Fits(blocks[i + k], i + k, w);
      } else {
        assert r[i] == blocks[i + k - |blocks|];
      }
    }
  }

  lemma ShapeTrim(blocks: seq<Slot>, w: nat)
    requires 2 <= w < |blocks| && Shape(blocks, w)
    ensures Shape(blocks[..1] + blocks[2..], w - 1)
  {
    var r := blocks[..1] + blocks[2..];
    forall i | 0 <= i < |r| ensures Fits(r[i], i, w - 1) {
      assert Fits(blocks[if i == 0 then 0 else i + 1], if i == 0 then 0 else i + 1, w);
    }
  }

  ghost predicate Within(nodes: seq<Node>, dom: set<Node>) {
    forall i :: 0 <= i < |nodes| ==> nodes[i] in dom
  }

  lemma TrimmedBlocks(blocks: seq<Slot>, left: seq<Slot>, n: nat, w: nat)
    requires 1 <= n <= w < |blocks| && left == blocks[..1] + blocks[2..]
    ensures left[n..w] == blocks[n + 1..w + 1] && left[n..] == blocks[n + 1..]
  {
  }

  lemma DropSecond<T>(x: T, mid: seq<T>, rest: seq<T>)
    ensures mid != [] ==> ([x] + mid + rest)[..1] + ([x] + mid + rest)[2..] == [x] + mid[1..] + rest
  {
  }

  /** `mid` lies between the first node and the one at `index`, and `rest` comes after, with its blocks;
      those before hold nothing, and those of `rest` up to `write` hold `goal`. */
  ghost predicate Between(first: Node, index: Node, g: Layout, mid: seq<Node>, rest: Layout, goal: seq<byte>) {
    && g.nodes == [first] + mid + rest.nodes && rest.nodes != [] && index == rest.nodes[0]
    && g.w == |mid| + 1 + rest.w < |g.blocks| == |g.nodes| && g.blocks[|mid| + 1..] == rest.blocks
    && g.blocks[g.w].Some? && Cleared(g.blocks, |mid| + 1) && Joined(View, g.blocks[|mid| + 1..g.w + 1]) == goal
  }

  lemma BetweenWrite(first: Node, index: Node, g: Layout, mid: seq<Node>, rest: Layout, goal: seq<byte>)
    requires Between(first, index, g, mid, rest, goal) && mid != []
    ensures g.w >= 2
  {
  }

  /** The first of them less. */
  lemma BetweenLess(first: Node, index: Node, g: Layout, mid: seq<Node>, rest: Layout, goal: seq<byte>, g': Layout)
    requires Between(first, index, g, mid, rest, goal) && mid != []
    requires g' == Layout(g.nodes[..1] + g.nodes[2..], g.blocks[..1] + g.blocks[2..], g.w - 1)
    ensures Between(first, index, g', mid[1..], rest, goal)
  {
    DropSecond(first, mid, rest.nodes);
    TrimmedBlocks(g.blocks, g'.blocks, |mid|, g.w);
  }

  /** The ring from position `k` on, after a drain that emptied the first `k` blocks. */
  ghost function Rest(nodes: seq<Node>, k: nat, nodeSize: nat): (r: seq<Node>)
    requires k < |nodes|
  {
    nodes[k..] + if k > 0 && nodeSize > MAX_CHAIN_SIZE then nodes[..1] else nodes[..k]
  }

  /** A drain takes a node off the ring exactly when the chain is long and the node lies
      strictly between the old first block and the new one. */
  lemma RestKeeps(nodes: seq<Node>, k: nat, nodeSize: nat, p: nat)
    requires Distinct(nodes) && k < |nodes| && p < |nodes|
    ensures nodes[p] in Rest(nodes, k, nodeSize) <==> !(nodeSize > MAX_CHAIN_SIZE && 0 < p < k)
  {
    var r := Rest(nodes, k, nodeSize);
    Unique(nodes, p);
    if p >= k {
      assert r[p - k] == nodes[p];
    } else if p == 0 || nodeSize <= MAX_CHAIN_SIZE {
      assert r[|nodes| - k + p] == nodes[p];
    } else {
      assert forall i :: 0 <= i < |r| ==> r[i] == if i < |nodes| - k then nodes[i + k] else nodes[0];
    }
  }

  lemma RestWithin(nodes: seq<Node>, k: nat, nodeSize: nat)
    requires k < |nodes|
    ensures forall i :: 0 <= i < |Rest(nodes, k, nodeSize)| ==> Rest(nodes, k, nodeSize)[i] in nodes
  {
  }

  /** A node is on the ring after a drain of `n` bytes. */
  ghost predicate Stays(g: Layout, nodeSize: nat, x: Node, n: nat)
    requires g.Ok()
  {
    x in Rest(g.nodes, Emptied(g.blocks, 0, g.w, n), nodeSize)
  }

  /** It is exactly if it was, and if the list counts few enough nodes or the node is not one of those
      the drain empties, other than the first. */
  lemma StaysExactly(g: Layout, nodeSize: nat, p: nat, n: nat)
    requires g.Ok() && Distinct(g.nodes) && p < |g.nodes|
    ensures Stays(g, nodeSize, g.nodes[p], n) <==> nodeSize <= MAX_CHAIN_SIZE || p == 0 || p >= Emptied(g.blocks, 0, g.w, n)
    ensures forall x :: Stays(g, nodeSize, x, n) ==> x in g.nodes
  {
    RestKeeps(g.nodes, Emptied(g.blocks, 0, g.w, n), nodeSize, p);
  }

  /** Node by node, the blocks the ring's nodes own. */
  ghost predicate Caches(nodes: seq<Node>, blocks: seq<Slot>)
    requires |nodes| == |blocks|
    reads nodes`cache
  {
    forall i {:trigger nodes[i].cache} :: 0 <= i < |nodes| ==> nodes[i].cache == blocks[i]
  }

  lemma CachesSnoc(nodes: seq<Node>, blocks: seq<Slot>, n: Node)
    requires |nodes| == |blocks| && Caches(nodes, blocks)
    ensures Caches(nodes + [n], blocks + [n.cache])
  {
  }

  lemma CachesPart(nodes: seq<Node>, blocks: seq<Slot>, i: nat, j: nat)
    requires |nodes| == |blocks| && i <= j <= |nodes| && Caches(nodes, blocks)
    ensures Caches(nodes[i..j], blocks[i..j])
  {
    forall x | 0 <= x < j - i ensures nodes[i..j][x].cache == blocks[i..j][x] {
      assert nodes[i + x].cache == blocks[i + x];
    }
  }

  lemma CachesConcat(a: seq<Node>, x: seq<Slot>, b: seq<Node>, y: seq<Slot>)
    requires |a| == |x| && |b| == |y| && Caches(a, x) && Caches(b, y)
    ensures Caches(a + b, x + y)
  {
  }

  lemma CachesTrim(nodes: seq<Node>, blocks: seq<Slot>)
    requires |nodes| == |blocks| >= 2 && Caches(nodes, blocks)
    ensures Caches(nodes[..1] + nodes[2..], blocks[..1] + blocks[2..])
  {
  }

  lemma CachesRotate(nodes: seq<Node>, blocks: seq<Slot>, k: nat)
    requires |nodes| == |blocks| > k && Caches(nodes, blocks)
    ensures Caches(nodes[k..] + nodes[..k], blocks[k..] + blocks[..k])
  {
    var ns, bs := nodes[k..] + nodes[..k], blocks[k..] + blocks[..k];
    forall i | 0 <= i < |ns| ensures ns[i].cache == bs[i] {
      assert nodes[if i < |nodes| - k then i + k else i + k - |nodes|].cache == bs[i];
    }
  }

  /** A ring in order from `read`, the blocks its nodes own, and the position of `write`. */
  datatype Layout = Layout(nodes: seq<Node>, blocks: seq<Slot>, w: nat) {
    ghost predicate Ok() {
      w < |nodes| == |blocks| && Shape(blocks, w)
    }

    /** The blocks from `read` to `write` joined: what a reader gets. */
    ghost function Content(): (r: seq<byte>)
      requires w < |blocks|
    {
      Joined(View, blocks[..w + 1])
    }

    /** How many bytes the first `n` blocks hold, or all up to `write`. */
    ghost function Held(n: nat): (r: nat)
      requires w < |blocks|
      ensures r <= |Content()| && (n >= w + 1 ==> r == |Content()|)
    {
      JoinedSplit(View, blocks[..w + 1], Min(n, w + 1));
      assert blocks[..w + 1][..Min(n, w + 1)] == blocks[..Min(n, w + 1)];
      |Joined(View, blocks[..Min(n, w + 1)])|
    }

    /** The memory from `write` on joined: what a socket may fill. */
    ghost function Offered(): (r: seq<byte>)
      requires w <= |blocks|
    {
      Joined(Room, blocks[w..])
    }

    /** New blocks behind the others hold nothing, and offer as much as is missing. */
    lemma {:induction false} EnlargedOffers(size: nat)
      requires w < |blocks|
      ensures var g := this.(blocks := Enlarged(blocks, size));
              g.Content() == Content() && |g.Offered()| >= |Offered()| + size
      decreases size
    {
      var alloc := Min(Rounded(size), MAX_TO_ALLOC);
      if size > 0 && alloc > 0 {
        var next := this.(blocks := blocks + [Some(NewBlock(alloc))]);
        AddSpare(next, Some(NewBlock(alloc)));
        next.EnlargedOffers(size - Min(alloc, size));
      }
    }

    /** How much a scatter read of `n` bytes can take. */
    ghost function RoomFor(n: nat): (r: nat)
      requires Ok()
    {
      var e := Expanded(blocks, w, n);
      |Joined(Room, e.0[e.1..])|
    }

    /** Blocks after `write` hold nothing readable. */
    lemma SpareBlocksEmpty()
      requires Ok()
      ensures forall i :: w < i < |blocks| ==> View(blocks[i]) == []
      ensures Content() == Joined(View, blocks)
    {
      forall i | w < i < |blocks| ensures View(blocks[i]) == [] {
        assert Fits(blocks[i], i, w);
      }
      JoinedSplit(View, blocks, w + 1);
      JoinedEmpty(View, blocks[w + 1..]);
    }

    /** The write block replaced: the content changes at its end only. */
    lemma SetWrite(s: Slot)
      requires Ok()
      ensures Content() == Joined(View, blocks[..w]) + View(blocks[w])
      ensures this.(blocks := blocks[w := s]).Content() == Joined(View, blocks[..w]) + View(s)
    {
      JoinedSnoc(View, blocks, w);
      JoinedSnoc(View, blocks[w := s], w);
      assert blocks[w := s][..w] == blocks[..w];
    }

    /** The cursor one block further, on an empty one: nothing new to read. */
    lemma StepWrite(next: Layout)
      requires w < |blocks| && next.w == w + 1 < |next.blocks| && View(next.blocks[w + 1]) == []
      requires next.blocks[..w + 1] == blocks[..w + 1]
      ensures next.Content() == Content()
    {
      JoinedSnoc(View, next.blocks, w + 1);
    }

    /** A spare block at the end of the ring adds to what is offered, not to what is held. */
    lemma AddSpare(next: Layout, s: Slot)
      requires w < |blocks| && next.w == w && next.blocks == blocks + [s]
      ensures next.Content() == Content() && next.Offered() == Offered() + Room(s)
    {
      JoinedConcat(Room, blocks[w..], [s]);
      JoinedSingle(Room, s);
      assert next.blocks[w..] == blocks[w..] + [s];
      assert next.blocks[..w + 1] == blocks[..w + 1];
    }

    /** Where the bytes of block `i` are in the content. */
    lemma BlockInContent(i: nat, p: nat)
      requires Ok() && i <= w && p == |Joined(View, blocks[..i])|
      ensures |Joined(View, blocks[..i + 1])| == p + |View(blocks[i])| <= |Content()|
      ensures Content()[p..p + |View(blocks[i])|] == View(blocks[i])
    {
      JoinedAt(View, blocks[..w + 1], i);
      JoinedSnoc(View, blocks, i);
      assert blocks[..w + 1][..i] == blocks[..i];
    }

    /** Two rings joined from `read` to `write` each: the contents follow one another. */
    lemma Join(o: Layout, j: Layout)
      requires Ok() && o.Ok() && blocks[w].Some? && o.blocks[o.w].Some?
      requires j == Layout(nodes[..w + 1] + o.nodes[..o.w + 1], blocks[..w + 1] + o.blocks[..o.w + 1], w + o.w + 1)
      ensures j.Ok() && j.Stocked() && j.Content() == Content() + o.Content()
    {
      JoinedConcat(View, blocks[..w + 1], o.blocks[..o.w + 1]);
      assert j.blocks[..j.w + 1] == j.blocks;
      forall i | 0 <= i < |j.blocks| ensures Fits(j.blocks[i], i, j.w) {
        if i <= w {
          assert Fits(blocks[i], i, w);
        } else {
          assert Fits(o.blocks[i - w - 1], i - w - 1, o.w);
        }
      }
    }

    /** The spare blocks alone, as a ring of their own: nothing to read. */
    lemma Leftover(r: Layout)
      requires Ok() && w + 1 < |nodes| && r == Layout(nodes[w + 1..], blocks[w + 1..], 0)
      ensures r.Ok() && r.Stocked() && r.Content() == []
    {
      forall i | 0 <= i < |r.blocks| ensures Fits(r.blocks[i], i, 0) {
        assert Fits(blocks[w + 1 + i], w + 1 + i, w);
      }
      assert Fits(blocks[w + 1], w + 1, w);
      assert r.blocks[..1] == [blocks[w + 1]];
      JoinedSingle(View, blocks[w + 1]);
    }

    /** Unless it is a lone node that never got a block, the write node has one. */
    ghost predicate Stocked() {
      w < |blocks| && (blocks[w].None? ==> |nodes| == 1)
    }

    lemma ContentHasBlock()
      requires Ok() && Stocked() && Content() != []
      ensures blocks[w].Some?
    {
      JoinedSingle(View, blocks[0]);
      assert w == 0 ==> blocks[..w + 1] == [blocks[0]];
    }
  }

  /** The stretches from `read` to `write` of two rings have become the ring `r`. */
  ghost predicate Joins(x: Layout, y: Layout, r: Layout) {
    x.w < |x.nodes| && y.w < |y.nodes| && r.nodes == x.nodes[..x.w + 1] + y.nodes[..y.w + 1]
  }

  /** A ring that has lost its stretch from `read` to `write` has its spare nodes left, or just one if
      there were none; so the list that counted `size` nodes counts `left`. */
  ghost predicate Leaves(o: Layout, size: nat, r: Layout, left: nat) {
    && o.w < |o.nodes|
    && if o.w + 1 == |o.nodes| then |r.nodes| == 1 == left
       else
         && |r.nodes| == |o.nodes| - (o.w + 1) && left == size - (o.w + 1)
         && forall i {:trigger r.nodes[i]} :: 0 <= i < |r.nodes| ==> r.nodes[i] == o.nodes[o.w + 1 + i]
  }

  /** `g` has taken the first `n` of the bytes offered into the content. */
  ghost predicate Takes(g: Layout, content: seq<byte>, offered: seq<byte>, n: nat) {
    && g.w < |g.blocks| && n <= |offered|
    && g.Content() == content + offered[..n] && g.Offered() == offered[n..]
  }

  /** The first `n` bytes offered move into the content. */
  ghost predicate Moves(g: Layout, h: Layout, n: nat) {
    && g.w < |g.blocks| && h.w < |h.blocks| && n <= |g.Offered()|
    && h.Content() == g.Content() + g.Offered()[..n] && h.Offered() == g.Offered()[n..]
  }

  lemma TakesRoom(g: Layout, content: seq<byte>, offered: seq<byte>, n: nat)
    requires Takes(g, content, offered, n)
    ensures |g.Offered()| == |offered| - n
  {
  }

  lemma TakesMore(g: Layout, h: Layout, content: seq<byte>, offered: seq<byte>, a: nat, b: nat, c: nat)
    requires Takes(g, content, offered, a) && Moves(g, h, b) && c == a + b
    ensures Takes(h, content, offered, c)
  {
    TakeMore(content, offered, a, b);
  }

  lemma ExpandedIs(g: Layout, n: nat, begun: Layout, h: Layout)
    requires g.w < |g.blocks| && Shape(g.blocks, g.w) && (begun.blocks, begun.w) == Begun(g.blocks, g.w, n)
    requires begun.w < |begun.blocks| && h.w == begun.w
    requires h.blocks == Enlarged(begun.blocks, n - Min(n, |begun.Offered()|))
    ensures (h.blocks, h.w) == Expanded(g.blocks, g.w, n)
  {
  }

  /** No node joins the ring but new ones. */
  twostate predicate NoForeign(before: Layout, new after: Layout) {
    forall i :: 0 <= i < |after.nodes| ==> after.nodes[i] in before.nodes || fresh(after.nodes[i])
  }

  /** The ring keeps its nodes, and any others are new and come after them. */
  twostate predicate Grown(before: Layout, new after: Layout) {
    && |before.nodes| <= |after.nodes|
    && (forall i {:trigger after.nodes[i]} :: 0 <= i < |before.nodes| ==> after.nodes[i] == before.nodes[i])
    && (forall i :: |before.nodes| <= i < |after.nodes| ==> fresh(after.nodes[i]))
  }
}
