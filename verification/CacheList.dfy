/** The list of blocks: cursors, node count and the operations on the ring. Methods take the
    layout of the ring as a ghost argument and hand back the one they leave. */
module CacheLists {
  import opened Flattening
  import opened Blocks
  import opened Chain
  import opened Layouts

  method CopyBytes(dest: array<byte>, at: nat, bytes: seq<byte>)
    requires at + |bytes| <= dest.Length
    modifies dest
    ensures dest[..at + |bytes|] == old(dest[..at]) + bytes
    ensures dest[at + |bytes|..] == old(dest[at + |bytes|..])
  {
    forall j | 0 <= j < |bytes| {
      dest[at + j] := bytes[j];
    }
  }

  lemma SliceMore<T>(s: seq<T>, a: nat, len: nat, n: nat)
    requires n <= len && a + len <= |s|
    ensures s[..a + n] == s[..a] + s[a..a + len][..n]
  {
  }

  class CacheList {
    var head: Node
    var read: Node
    var write: Node
    var nodeSize: nat

    /** The ring is sound and laid out as `g`, wherever `write` is. */
    ghost predicate Linked(g: Layout)
      reads this, g.nodes
    {
      && g.Ok() && |g.nodes| <= nodeSize
      && Ring(g.nodes)
      && Caches(g.nodes, g.blocks)
      && read == g.nodes[0]
    }

    ghost predicate Is(g: Layout)
      reads this, g.nodes
    {
      Linked(g) && write == g.nodes[g.w]
    }

    ghost predicate Valid(g: Layout)
      reads this, g.nodes
    {
      Is(g) && g.Stocked()
    }

    constructor ()
      ensures fresh(head) && nodeSize == 1
      ensures Valid(Layout([head], [None], 0)) && Layout([head], [None], 0).Content() == []
    {
      var n := new Node();
      head, read, write, nodeSize := n, n, n, 1;
      new;
      n.next := n;
      n.prev := n;
      ghost var blocks: seq<Slot> := [None];
      assert blocks[..1] == [None];
    }

    /** One block changes; the others, the links and the cursors do not. */
    method SetBlock(node: Node, s: Slot, ghost g: Layout, ghost i: nat) returns (ghost g': Layout)
      requires Linked(g) && i < |g.nodes| && node == g.nodes[i] && Fits(s, i, g.w)
      modifies node`cache
      ensures g' == g.(blocks := g.blocks[i := s]) && Linked(g')
    {
      ShapeSet(g.blocks, g.w, i, s);
      Unique(g.nodes, i);
      node.cache := s;
      g' := g.(blocks := g.blocks[i := s]);
    }

    /** A new node with the empty block `b` between the last node and `read`. */
    method AppendSpare(index: Node, b: Block, ghost g: Layout) returns (ghost g': Layout, ghost n: Node)
      requires Is(g) && index == g.nodes[|g.nodes| - 1] && Spare(Some(b))
      modifies this`nodeSize, index`next, read`prev
      ensures Is(g') && nodeSize == old(nodeSize) + 1
      ensures g'.nodes == g.nodes + [n] && fresh(n)
      ensures g'.blocks == g.blocks + [Some(b)] && g'.w == g.w
    {
      ShapeSnoc(g.blocks, g.w, Some(b), g.w);
      var tmp := new Node();
      tmp.cache := Some(b);
      LinkLast(index, tmp, g.nodes);
      CachesSnoc(g.nodes, g.blocks, tmp);
      nodeSize := nodeSize + 1;
      g', n := Layout(g.nodes + [tmp], g.blocks + [Some(b)], g.w), tmp;
    }

    /** A new node, without a block yet, after `write` on a full ring. */
    method AppendWrite(ghost g: Layout) returns (ghost g': Layout, ghost n: Node)
      requires Is(g) && g.blocks[g.w].Some? && g.w == |g.nodes| - 1
      modifies this`write, this`nodeSize, g.nodes`next, g.nodes`prev
      ensures Is(g') && nodeSize == old(nodeSize) + 1
      ensures g'.nodes == g.nodes + [n] && fresh(n)
      ensures g'.blocks == g.blocks + [None] && g'.w == g.w + 1
    {
      ShapeSnoc(g.blocks, g.w, None, g.w + 1);
      var tmp := new Node();
      LinkLast(write, tmp, g.nodes);
      CachesSnoc(g.nodes, g.blocks, tmp);
      nodeSize := nodeSize + 1;
      write := tmp;
      g', n := Layout(g.nodes + [tmp], g.blocks + [None], g.w + 1), tmp;
    }

    /** On to the spare node after `write`. */
    method TakeSpare(ghost g: Layout) returns (ghost g': Layout)
      requires Is(g) && g.blocks[g.w].Some? && g.w + 1 < |g.nodes|
      modifies this`write
      ensures Is(g') && g' == g.(w := g.w + 1) && Spare(g'.blocks[g'.w])
    {
      ShapeNext(g.blocks, g.w);
      write, g' := write.next, g.(w := g.w + 1);
    }

    /** On to the next node, there or new, as `write` holds bytes. */
    method StepWrite(ghost g: Layout) returns (ghost g': Layout)
      requires Is(g) && g.blocks[g.w].Some? && !g.blocks[g.w].value.Empty()
      modifies this`write, this`nodeSize, g.nodes
      ensures Is(g') && g'.Content() == g.Content() && (g'.blocks, g'.w) == NextWrite(g.blocks, g.w)
      ensures Grown(g, g') && nodeSize - |g'.nodes| == old(nodeSize) - |g.nodes|
    {
      Unique(g.nodes, 0);
      if write.next == read {
        assert g.w == |g.nodes| - 1;
        ghost var n;
        g', n := AppendWrite(g);
      } else {
        g' := TakeSpare(g);
      }
      g.StepWrite(g');
    }

    /** The write block changes but not the bytes it holds: the content stays. */
    method SetWrite(s: Slot, ghost g: Layout) returns (ghost g': Layout)
      requires Is(g) && Fits(s, g.w, g.w) && View(s) == View(g.blocks[g.w])
      modifies write`cache
      ensures Is(g') && g' == g.(blocks := g.blocks[g.w := s]) && g'.Content() == g.Content()
    {
      g.SetWrite(s);
      g' := SetBlock(write, s, g, g.w);
    }

    /** Moves `write` to an empty block: the next spare one, or a new node on a full ring. */
    method GetNextWrite(ghost g: Layout) returns (ghost g': Layout)
      requires Is(g)
      modifies this`write, this`nodeSize, g.nodes
      ensures Is(g') && g'.Content() == g.Content() && (g'.blocks, g'.w) == NextWrite(g.blocks, g.w)
      ensures g'.blocks[g'.w].Some? ==> Spare(g'.blocks[g'.w])
      ensures Grown(g, g') && nodeSize - |g'.nodes| == old(nodeSize) - |g.nodes|
    {
      g' := g;
      assert Fits(g.blocks[g.w], g.w, g.w);
      if write.cache.None? || write.cache.value.Empty() {
        if write.cache.Some? {
          g' := SetWrite(Some(write.cache.value.Clear()), g);
        }
      } else {
        g' := StepWrite(g);
      }
    }

    /** Gives the write node a new block, in place of an empty one or of none. */
    method NewWriteBlock(n: nat, ghost g: Layout) returns (ghost g': Layout)
      requires Is(g) && View(g.blocks[g.w]) == []
      modifies write`cache
      ensures Is(g') && g' == g.(blocks := g.blocks[g.w := Some(NewBlock(n))]) && g'.Content() == g.Content()
      ensures Spare(g'.blocks[g'.w]) && |Room(g'.blocks[g'.w])| == n
    {
      g' := SetWrite(Some(NewBlock(n)), g);
    }

    /** Room for `n` more bytes at `write`, the content unchanged. */
    method CheckSize(n: nat, ghost g: Layout) returns (ghost g': Layout)
      requires Valid(g)
      modifies this`write, this`nodeSize, g.nodes
      ensures Valid(g') && g'.Content() == g.Content() && (g'.blocks, g'.w) == Checked(g.blocks, g.w, n)
      ensures g'.blocks[g'.w].Some? && |Room(g'.blocks[g'.w])| >= n
      ensures Grown(g, g') && nodeSize - |g'.nodes| == old(nodeSize) - |g.nodes|
    {
      assert Fits(g.blocks[g.w], g.w, g.w);
      if write.cache.None? {
        var size := RoundUp(n);
        g' := NewWriteBlock(size, g);
      } else if write.cache.value.CanRealign(n) {
        g' := SetWrite(Some(write.cache.value.Realign(n)), g);
      } else {
        g' := CheckNext(n, g);
      }
    }

    /** The write block has not got the room: on to the next one. */
    method CheckNext(n: nat, ghost g: Layout) returns (ghost g': Layout)
      requires Valid(g) && g.blocks[g.w].Some? && g.blocks[g.w].value.Ok() && !g.blocks[g.w].value.CanRealign(n)
      modifies this`write, this`nodeSize, g.nodes
      ensures Valid(g') && g'.Content() == g.Content() && (g'.blocks, g'.w) == Checked(g.blocks, g.w, n)
      ensures Grown(g, g') && nodeSize - |g'.nodes| == old(nodeSize) - |g.nodes|
    {
      g' := GetNextWrite(g);
      if write.cache.None? || write.cache.value.size < n {
        var size := RoundUp(n);
        g' := NewWriteBlock(size, g');
      }
    }

    /** Copies bytes into the room of the write block. */
    method Store(bytes: seq<byte>, ghost g: Layout) returns (ghost g': Layout)
      requires Is(g) && g.blocks[g.w].Some? && |bytes| <= |Room(g.blocks[g.w])|
      modifies write`cache
      ensures Valid(g') && g' == g.(blocks := Stored(g.blocks, g.w, bytes))
      ensures g'.Content() == g.Content() + bytes
    {
      assert Fits(g.blocks[g.w], g.w, g.w);
      var s := Some(write.cache.value.Append(bytes));
      g.SetWrite(s);
      g' := SetBlock(write, s, g, g.w);
    }

    /** Adds bytes at the end. */
    method Put(bytes: seq<byte>, ghost g: Layout) returns (ghost g': Layout)
      requires Valid(g)
      modifies this`write, this`nodeSize, g.nodes
      ensures Valid(g') && g'.Content() == g.Content() + bytes && (g'.blocks, g'.w) == Added(g.blocks, g.w, bytes)
      ensures Grown(g, g') && nodeSize - |g'.nodes| == old(nodeSize) - |g.nodes|
    {
      g' := CheckSize(|bytes|, g);
      g' := Store(bytes, g');
    }

    /** At position `k` with `size` bytes still to drop, `goal` is what will be left. */
    ghost predicate Draining(g: Layout, k: nat, size: nat, goal: seq<byte>)
      reads this, g.nodes
    {
      Is(g) && g.blocks[g.w].Some? && k <= g.w && Pending(g.blocks, k, g.w, size, goal)
    }

    /** The first `k` blocks are cleared and the rest hold `goal`. */
    ghost predicate Drained(g: Layout, k: nat, goal: seq<byte>)
      reads this, g.nodes
    {
      Is(g) && g.blocks[g.w].Some? && k <= g.w && Cleared(g.blocks, k) && Joined(View, g.blocks[k..g.w + 1]) == goal
    }

    /** Drains the block at `index`, and clears it when that empties it. */
    method DrainAt(index: Node, size: nat, ghost g: Layout, ghost k: nat, ghost goal: seq<byte>)
      returns (left: nat, ghost g': Layout)
      requires Draining(g, k, size, goal) && index == g.nodes[k]
      modifies index`cache
      ensures Draining(g', k, left, goal) && g'.nodes == g.nodes && g'.w == g.w
      ensures left == size - Min(size, |View(g.blocks[k])|) && g'.blocks == g.blocks[k := index.cache]
      ensures index.cache.Some? && (index.cache.value.Empty() <==> |View(g.blocks[k])| <= size)
      ensures index.cache.value.Empty() && k < g.w ==> Draining(g', k + 1, left, goal)
    {
      assert Fits(g.blocks[k], k, g.w);
      var drainSize := Min(size, index.cache.value.ReadableSize());
      var b := index.cache.value.Drain(drainSize);
      if b.Empty() {
        b := b.Clear();
      }
      left := size - drainSize;
      DrainStep(g.blocks, k, g.w, size, goal, Some(b), left);
      g' := SetBlock(index, Some(b), g, k);
    }

    /** One round: drains the block at `index`; when that empties it, goes on to the next. */
    method DrainOne(index: Node, size: nat, ghost g: Layout, ghost k: nat, ghost goal: seq<byte>)
      returns (next: Node, left: nat, ghost g': Layout, ghost k': nat)
      requires Draining(g, k, size, goal) && index == g.nodes[k]
      modifies index`cache
      ensures Draining(g', k', left, goal) && next == g'.nodes[k'] && g'.nodes == g.nodes && g'.w == g.w
      ensures left == size - Min(size, |View(g.blocks[k])|)
      ensures k' == if k < g.w && |View(g.blocks[k])| <= size then k + 1 else k
      ensures forall i :: 0 <= i < |g.blocks| && i != k ==> g'.blocks[i] == g.blocks[i]
    {
      next, k' := index, k;
      left, g' := DrainAt(index, size, g, k, goal);
      Unique(g.nodes, g.w);
      if index.cache.value.Empty() && index != write {
        next, k' := index.next, k + 1;
      }
    }

    /** So far `k` blocks have been emptied, and those after are as they were. */
    ghost predicate Counting(g: Layout, g': Layout, k: nat, size: nat, n: nat, again: bool) {
      && k <= g.w < |g.blocks| == |g'.blocks|
      && (forall i {:trigger g'.blocks[i]} :: k < i < |g.blocks| ==> g'.blocks[i] == g.blocks[i])
      && (again ==> g'.blocks[k] == g.blocks[k])
      && Emptied(g.blocks, 0, g.w, n) == k + if again then Emptied(g.blocks, k, g.w, size) else 0
    }

    lemma CountOne(g: Layout, g': Layout, k: nat, size: nat, n: nat)
      requires Counting(g, g', k, size, n, true)
      ensures var left := size - Min(size, |View(g'.blocks[k])|);
              var k' := if k < g.w && |View(g'.blocks[k])| <= size then k + 1 else k;
              Emptied(g.blocks, 0, g.w, n) == k' + if left != 0 && k' != g.w then Emptied(g.blocks, k', g.w, left) else 0
    {
    }

    method DrainRound(index: Node, size: nat, ghost g: Layout, ghost h: Layout, ghost k: nat, ghost n: nat,
                      ghost goal: seq<byte>)
      returns (again: bool, next: Node, left: nat, ghost h': Layout, ghost k': nat)
      requires Draining(h, k, size, goal) && index == h.nodes[k] && h.nodes == g.nodes && h.w == g.w
      requires Counting(g, h, k, size, n, true)
      modifies index`cache
      ensures Draining(h', k', left, goal) && next == h'.nodes[k'] && h'.nodes == g.nodes && h'.w == g.w
      ensures Counting(g, h', k', left, n, again) && (if again then k < k' else left == 0 || k' == g.w)
    {
      CountOne(g, h, k, size, n);
      next, left, h', k' := DrainOne(index, size, h, k, goal);
      Unique(g.nodes, g.w);
      again := left != 0 && next != write;
    }

    /** Takes bytes off the blocks from `read` on, clearing each block it empties. */
    method DrainBlocks(n: nat, ghost g: Layout) returns (index: Node, ghost g': Layout, ghost k: nat)
      requires Valid(g) && g.Content() != [] && n <= |g.Content()|
      modifies g.nodes`cache
      ensures Drained(g', k, g.Content()[n..]) && index == g'.nodes[k] && g'.nodes == g.nodes && g'.w == g.w
      ensures k == Emptied(g.blocks, 0, g.w, n) && forall i :: k < i < |g.blocks| ==> g'.blocks[i] == g.blocks[i]
    {
      index, k, g' := read, 0, g;
      var size := n;
      var again := true;
      assert g.blocks[0..g.w + 1] == g.blocks[..g.w + 1];
      g.ContentHasBlock();
      ghost var goal := g.Content()[n..];
      while again
        invariant size >= 0 && Draining(g', k, size, goal) && index == g'.nodes[k]
        invariant g'.nodes == g.nodes && g'.w == g.w && (!again ==> size == 0 || k == g.w)
        invariant Counting(g, g', k, size, n, again)
        decreases g.w - k, again
      {
        again, index, size, g', k := DrainRound(index, size, g, g', k, n, goal);
      }
      if size > 0 {
        g' := DrainLast(index, size, g', goal);
      }
    }

    method DrainLast(index: Node, size: nat, ghost g: Layout, ghost goal: seq<byte>) returns (ghost g': Layout)
      requires Draining(g, g.w, size, goal) && index == g.nodes[g.w]
      modifies index`cache
      ensures Drained(g', g.w, goal) && g'.nodes == g.nodes && g'.w == g.w
      ensures forall i :: g.w < i < |g.blocks| ==> g'.blocks[i] == g.blocks[i]
    {
      assert Fits(g.blocks[g.w], g.w, g.w);
      assert g.blocks[g.w..g.w + 1] == [g.blocks[g.w]];
      JoinedSingle(View, g.blocks[g.w]);
      assert size <= index.cache.value.ReadableSize();
      var b := index.cache.value.Drain(size);
      DrainStep(g.blocks, g.w, g.w, size, goal, Some(b), 0);
      g' := SetBlock(index, Some(b), g, g.w);
    }

    /** Frees the node after `read`, which must not be the write node. */
    method TrimSecond(ghost dom: set<Node>, ghost g: Layout) returns (ghost g': Layout)
      requires Is(g) && g.w >= 2 && Within(g.nodes, dom)
      modifies this`nodeSize, dom`next, dom`prev
      ensures Is(g') && nodeSize == old(nodeSize) - 1 && Within(g'.nodes, dom)
      ensures g' == Layout(g.nodes[..1] + g.nodes[2..], g.blocks[..1] + g.blocks[2..], g.w - 1)
    {
      ShapeTrim(g.blocks, g.w);
      assert (g.nodes[..1] + g.nodes[2..])[g.w - 1] == write;
      UnlinkSecond(read, g.nodes);
      CachesTrim(g.nodes, g.blocks);
      nodeSize := nodeSize - 1;
      g' := Layout(g.nodes[..1] + g.nodes[2..], g.blocks[..1] + g.blocks[2..], g.w - 1);
    }

    /** `mid` is what lies between `read` and the node at `index`, `rest` what comes after, with its
        blocks. */
    ghost predicate Trimming(index: Node, g: Layout, mid: seq<Node>, rest: Layout, goal: seq<byte>, dom: set<Node>)
      reads this, g.nodes
    {
      Is(g) && Within(g.nodes, dom) && Between(read, index, g, mid, rest, goal)
    }

    lemma TrimmingAt(index: Node, g: Layout, mid: seq<Node>, rest: Layout, goal: seq<byte>, dom: set<Node>)
      requires Trimming(index, g, mid, rest, goal, dom)
      ensures read.next == index <==> mid == []
    {
      assert index == g.nodes[|mid| + 1];
      Unique(g.nodes, 1);
    }

    lemma TrimmingStarts(index: Node, g: Layout, k: nat, rest: Layout, goal: seq<byte>, dom: set<Node>)
      requires Drained(g, k, goal) && 1 <= k && index == g.nodes[k] && Within(g.nodes, dom)
      requires rest == Layout(g.nodes[k..], g.blocks[k..], g.w - k)
      ensures Trimming(index, g, g.nodes[1..k], rest, goal, dom)
    {
      assert g.nodes == [read] + g.nodes[1..k] + rest.nodes;
    }

    lemma TrimmingEnds(index: Node, g: Layout, rest: Layout, goal: seq<byte>, dom: set<Node>)
      requires Trimming(index, g, [], rest, goal, dom)
      ensures Drained(g, 1, goal) && index == g.nodes[1] && g.nodes == [read] + rest.nodes
      ensures g.w == rest.w + 1 && g.blocks[1..] == rest.blocks
    {
      assert [read] + [] + rest.nodes == [read] + rest.nodes;
    }

    method TrimStep(index: Node, ghost g: Layout, ghost mid: seq<Node>, ghost rest: Layout, ghost goal: seq<byte>,
                    ghost dom: set<Node>) returns (ghost g': Layout)
      requires Trimming(index, g, mid, rest, goal, dom) && mid != []
      modifies this`nodeSize, dom`next, dom`prev
      ensures Trimming(index, g', mid[1..], rest, goal, dom) && nodeSize - |g'.nodes| == old(nodeSize) - |g.nodes|
    {
      BetweenWrite(read, index, g, mid, rest, goal);
      g' := TrimSecond(dom, g);
      BetweenLess(read, index, g, mid, rest, goal, g');
    }

    /** Frees the nodes between `read` and the one at `index`. */
    method TrimBetween(index: Node, ghost g: Layout, ghost between: seq<Node>, ghost rest: Layout, ghost goal: seq<byte>,
                       ghost dom: set<Node>) returns (ghost g': Layout)
      requires Trimming(index, g, between, rest, goal, dom)
      modifies this`nodeSize, dom`next, dom`prev
      ensures Trimming(index, g', [], rest, goal, dom) && nodeSize - |g'.nodes| == old(nodeSize) - |g.nodes|
    {
      ghost var mid := between;
      g' := g;
      TrimmingAt(index, g', mid, rest, goal, dom);
      while read.next != index
        invariant Trimming(index, g', mid, rest, goal, dom) && (read.next == index <==> mid == [])
        invariant nodeSize - |g'.nodes| == old(nodeSize) - |g.nodes|
        decreases |mid|
      {
        g' := TrimStep(index, g', mid, rest, goal, dom);
        mid := mid[1..];
        TrimmingAt(index, g', mid, rest, goal, dom);
      }
    }

    /** Frees the nodes between `read` and the one at position `k`. */
    method Trim(index: Node, ghost g: Layout, ghost k: nat, ghost goal: seq<byte>) returns (ghost g': Layout)
      requires Drained(g, k, goal) && 1 <= k && index == g.nodes[k]
      modifies this`nodeSize, g.nodes`next, g.nodes`prev
      ensures Drained(g', 1, goal) && index == g'.nodes[1]
      ensures nodeSize - |g'.nodes| == old(nodeSize) - |g.nodes| && g'.nodes == [read] + g.nodes[k..]
      ensures g'.w == g.w - k + 1 && g'.blocks[1..] == g.blocks[k..]
    {
      ghost var rest, dom := Layout(g.nodes[k..], g.blocks[k..], g.w - k), set x | x in g.nodes;
      TrimmingStarts(index, g, k, rest, goal, dom);
      g' := TrimBetween(index, g, g.nodes[1..k], rest, goal, dom);
      TrimmingEnds(index, g', rest, goal, dom);
    }

    /** Moves `read` to position `k`, behind which the blocks are cleared. */
    method MoveRead(index: Node, ghost g: Layout, ghost k: nat, ghost goal: seq<byte>) returns (ghost g': Layout)
      requires Drained(g, k, goal) && index == g.nodes[k]
      modifies this`read
      ensures Is(g') && g'.Content() == goal && g'.blocks[g'.w].Some?
      ensures g' == Layout(g.nodes[k..] + g.nodes[..k], g.blocks[k..] + g.blocks[..k], g.w - k)
    {
      RotateRing(g.nodes, k);
      RotateShape(g.blocks, g.w, k);
      CachesRotate(g.nodes, g.blocks, k);
      read := index;
      g' := Layout(g.nodes[k..] + g.nodes[..k], g.blocks[k..] + g.blocks[..k], g.w - k);
    }

    /** The same after freeing the nodes in between. */
    method TrimRead(index: Node, ghost g: Layout, ghost k: nat, ghost goal: seq<byte>) returns (ghost g': Layout)
      requires Drained(g, k, goal) && 1 <= k && index == g.nodes[k]
      modifies this`read, this`nodeSize, g.nodes`next, g.nodes`prev
      ensures Is(g') && g'.Content() == goal && g'.blocks[g'.w].Some? && g'.w == g.w - k
      ensures g'.nodes == g.nodes[k..] + g.nodes[..1] && g'.blocks[..|g.blocks| - k] == g.blocks[k..]
      ensures nodeSize - |g'.nodes| == old(nodeSize) - |g.nodes|
    {
      g' := Trim(index, g, k, goal);
      assert g'.nodes[1..] == g.nodes[k..] && g'.nodes[..1] == g.nodes[..1];
      g' := MoveRead(index, g', 1, goal);
    }

    /** Drops the first `n` bytes. The `k` blocks that empties go behind `write` as spare ones;
        on a chain of more than `MAX_CHAIN_SIZE` nodes they are freed, all but the first. */
    method Drain(n: nat, ghost g: Layout) returns (ghost g': Layout, ghost k: nat)
      requires Valid(g) && g.Content() != [] && n <= |g.Content()|
      modifies this`read, this`nodeSize, g.nodes
      ensures Valid(g') && g'.Content() == g.Content()[n..]
      ensures nodeSize - |g'.nodes| == old(nodeSize) - |g.nodes|
      ensures k == Emptied(g.blocks, 0, g.w, n) && g'.nodes == Rest(g.nodes, k, old(nodeSize)) && g'.w == g.w - k
      ensures KeptFrom(g.blocks, g'.blocks, k, g.w)
    {
      ghost var goal := g.Content()[n..];
      var index;
      index, g', k := DrainBlocks(n, g);
      ghost var left := g'.blocks;
      g' := DropRead(index, g', k, goal);
      KeptBlocks(g.blocks, left, g'.blocks, k, g.w);
    }

    /** Goes on from the node at position `k`, and frees those before it or keeps them. */
    method DropRead(index: Node, ghost g: Layout, ghost k: nat, ghost goal: seq<byte>) returns (ghost g': Layout)
      requires Drained(g, k, goal) && index == g.nodes[k]
      modifies this`read, this`nodeSize, g.nodes`next, g.nodes`prev
      ensures Is(g') && g'.Content() == goal && g'.blocks[g'.w].Some? && g'.w == g.w - k
      ensures g'.nodes == Rest(g.nodes, k, old(nodeSize)) && g'.blocks[..|g.blocks| - k] == g.blocks[k..]
      ensures nodeSize - |g'.nodes| == old(nodeSize) - |g.nodes|
    {
      Unique(g.nodes, 0);
      if index != read && nodeSize > MAX_CHAIN_SIZE {
        g' := TrimRead(index, g, k, goal);
      } else {
        g' := MoveRead(index, g, k, goal);
      }
    }

    /** The blocks from `write` to the end of the ring, and how much of `n` they do not offer. */
    method CountRoom(n: nat, ghost g: Layout) returns (cnt: nat, size: nat, index: Node)
      requires Is(g) && g.blocks[g.w].Some?
      ensures index == g.nodes[|g.nodes| - 1] && cnt == |g.nodes| - g.w
      ensures size == n - Min(n, |g.Offered()|)
    {
      size, index, cnt := n, write, 0;
      ghost var i, rest := g.w, g.blocks[g.w..];
      Unique(g.nodes, 0);
      while true
        invariant g.w <= i < |g.nodes| && index == g.nodes[i] && cnt == i - g.w
        invariant size == n - Min(n, |Joined(Room, rest[..cnt])|)
        decreases |g.nodes| - i
      {
        assert Fits(g.blocks[i], i, g.w);
        JoinedSnoc(Room, rest, cnt);
        size := size - Min(index.cache.value.WriteableSize(), size);
        cnt := cnt + 1;
        if index.next == read {
          break;
        }
        index, i := index.next, i + 1;
      }
      assert rest[..cnt] == rest;
    }

    /** A new block at the end of the ring, for `size` bytes or as many as a block has at most. */
    method GrowOne(last: Node, size: nat, ghost g: Layout) returns (allocSize: nat, last': Node, ghost g': Layout)
      requires Is(g) && g.blocks[g.w].Some? && last == g.nodes[|g.nodes| - 1]
      modifies this`nodeSize, last`next, read`prev
      ensures allocSize == Min(Rounded(size), MAX_TO_ALLOC) && allocSize > 0 && nodeSize == old(nodeSize) + 1
      ensures Is(g') && g'.blocks[g'.w].Some? && g'.Content() == g.Content() && g'.w == g.w
      ensures g'.nodes == g.nodes + [last'] && fresh(last') && |g'.Offered()| == |g.Offered()| + allocSize
      ensures g'.blocks == g.blocks + [Some(NewBlock(allocSize))]
    {
      allocSize := RoundUp(size);
      allocSize := Min(allocSize, MAX_TO_ALLOC);
      ghost var n;
      g', n := AppendSpare(last, NewBlock(allocSize), g);
      assert g'.nodes[|g.nodes| - 1] == last;
      g.AddSpare(g', Some(NewBlock(allocSize)));
      last' := last.next;
    }

    /** The growth loop: new blocks at the end of the ring until `size` more bytes fit. */
    method Grow(index0: Node, size0: nat, ghost g: Layout) returns (added: nat, ghost g': Layout)
      requires Is(g) && g.blocks[g.w].Some? && index0 == g.nodes[|g.nodes| - 1]
      modifies this`nodeSize, g.nodes
      ensures Is(g') && g'.blocks[g'.w].Some? && g'.Content() == g.Content() && g'.w == g.w
      ensures |g'.nodes| == |g.nodes| + added && |g'.Offered()| >= |g.Offered()| + size0
      ensures g'.blocks == Enlarged(g.blocks, size0)
      ensures Grown(g, g') && nodeSize == old(nodeSize) + added
    {
      var size, index := size0, index0;
      added, g' := 0, g;
      g.EnlargedOffers(size0);
      while size > 0
        invariant 0 <= size && Is(g') && g'.blocks[g'.w].Some? && g'.w == g.w && index == g'.nodes[|g'.nodes| - 1]
        invariant |g'.nodes| == |g.nodes| + added && Grown(g, g') && nodeSize == old(nodeSize) + added
        invariant Enlarged(g'.blocks, size) == Enlarged(g.blocks, size0)
        decreases size
      {
        size, index, g' := GrowNext(index, size, g');
        added := added + 1;
      }
    }

    method GrowNext(last: Node, size: nat, ghost g: Layout) returns (left: nat, last': Node, ghost g': Layout)
      requires Is(g) && g.blocks[g.w].Some? && last == g.nodes[|g.nodes| - 1] && size > 0
      modifies this`nodeSize, last`next, read`prev
      ensures left < size && nodeSize == old(nodeSize) + 1 && Enlarged(g'.blocks, left) == Enlarged(g.blocks, size)
      ensures Is(g') && g'.blocks[g'.w].Some? && g'.w == g.w && g'.nodes == g.nodes + [last'] && fresh(last')
    {
      var allocSize;
      allocSize, last', g' := GrowOne(last, size, g);
      left := size - Min(allocSize, size);
    }

    /** An empty block at `write`. */
    method FirstBlock(n: nat, ghost g: Layout) returns (ghost g': Layout)
      requires Is(g)
      modifies this`write, this`nodeSize, g.nodes
      ensures Is(g') && g'.Content() == g.Content() && g'.blocks[g'.w].Some?
      ensures (g'.blocks, g'.w) == Begun(g.blocks, g.w, n)
      ensures Grown(g, g') && nodeSize - |g'.nodes| == old(nodeSize) - |g.nodes|
    {
      g' := GetNextWrite(g);
      if write.cache.None? {
        var first := RoundUp(n);
        g' := NewWriteBlock(Min(first, MAX_TO_ALLOC), g');
      }
    }

    /** Readies the blocks from `write` on for a scatter read: together they offer at least
        `n` bytes, and `cnt` is how many there are. */
    method FastExpand(n: nat, ghost g: Layout) returns (cnt: nat, ghost g': Layout)
      requires Valid(g)
      modifies this`write, this`nodeSize, g.nodes
      ensures Valid(g') && g'.Content() == g.Content() && g'.blocks[g'.w].Some?
      ensures cnt == |g'.nodes| - g'.w && |g'.Offered()| >= n && (g'.blocks, g'.w) == Expanded(g.blocks, g.w, n)
      ensures Grown(g, g') && nodeSize - |g'.nodes| == old(nodeSize) - |g.nodes|
    {
      ghost var begun := FirstBlock(n, g);
      cnt, g' := MakeRoom(n, begun);
      ExpandedIs(g, n, begun, g');
    }

    /** Grows the ring by what the blocks from `write` on do not offer. */
    method MakeRoom(n: nat, ghost g: Layout) returns (cnt: nat, ghost g': Layout)
      requires Is(g) && g.blocks[g.w].Some?
      modifies this`nodeSize, g.nodes
      ensures Is(g') && g'.Content() == g.Content() && g'.blocks[g'.w].Some? && g'.w == g.w
      ensures cnt == |g'.nodes| - g'.w && |g'.Offered()| >= n
      ensures g'.blocks == Enlarged(g.blocks, n - Min(n, |g.Offered()|))
      ensures Grown(g, g') && nodeSize - |g'.nodes| == old(nodeSize) - |g.nodes|
    {
      var size, index, added;
      cnt, size, index := CountRoom(n, g);
      added, g' := Grow(index, size, g);
      cnt := cnt + added;
    }

    /** What `readv` does with the blocks it is offered: fills their writeable regions in
        order with the bytes that arrive, and moves no cursor. */
    method Scatter(incoming: seq<byte>, ghost g: Layout) returns (ghost g': Layout)
      requires Is(g) && g.blocks[g.w].Some? && |incoming| <= |g.Offered()|
      modifies g.nodes`cache
      ensures Is(g') && g'.blocks[g'.w].Some? && g'.nodes == g.nodes && g'.w == g.w && g'.Content() == g.Content()
      ensures |g'.Offered()| == |g.Offered()| && g'.Offered()[..|incoming|] == incoming
    {
      assert g.blocks[g.w..g.w] == [];
      SpreadFills(g.blocks, g.w, g.w, incoming, 0);
      g' := ScatterAll(incoming, g);
    }

    method ScatterAll(incoming: seq<byte>, ghost g: Layout) returns (ghost g': Layout)
      requires Is(g) && Spread(g.blocks, g.w, incoming, 0).Some?
      modifies g.nodes`cache
      ensures Is(g') && g' == g.(blocks := Spread(g.blocks, g.w, incoming, 0).value)
    {
      g' := g;
      var done, block := 0, write;
      ghost var i := g.w;
      while done < |incoming|
        invariant 0 <= done <= |incoming| && g.w <= i <= |g.nodes| && (i < |g.nodes| ==> block == g.nodes[i])
        invariant Is(g') && g'.nodes == g.nodes && g'.w == g.w
        invariant Spread(g'.blocks, i, incoming, done) == Spread(g.blocks, g.w, incoming, 0)
        decreases |g.nodes| - i
      {
        done, block, g' := FillNext(block, incoming, done, g', i);
        i := i + 1;
      }
    }

    method FillNext(block: Node, incoming: seq<byte>, done: nat, ghost g: Layout, ghost i: nat)
      returns (done': nat, next: Node, ghost g': Layout)
      requires Is(g) && i < |g.nodes| && block == g.nodes[i] && done < |incoming|
      modifies block`cache
      ensures Is(g') && g'.nodes == g.nodes && g'.w == g.w && done' <= |incoming|
      ensures next == (if i + 1 < |g.nodes| then g.nodes[i + 1] else g.nodes[0])
      ensures Spread(g'.blocks, i + 1, incoming, done') == Spread(g.blocks, i, incoming, done)
    {
      done', g' := FillOne(block, incoming, done, g, i);
      SpreadStep(g, i, incoming, done, g', done');
      next := block.next;
    }

    /** Fills the writeable region of one block. */
    method FillOne(block: Node, incoming: seq<byte>, done: nat, ghost g: Layout, ghost i: nat)
      returns (done': nat, ghost g': Layout)
      requires Is(g) && i < |g.nodes| && block == g.nodes[i] && done < |incoming|
      modifies block`cache
      ensures Is(g') && g' == g.(blocks := g.blocks[i := FilledBlock(g.blocks[i], incoming, done)])
      ensures done' == done + FillCount(g.blocks[i], incoming, done)
    {
      assert Fits(g.blocks[i], i, g.w);
      FilledFits(g.blocks[i], incoming, done, i, g.w);
      done' := done + FillCount(block.cache, incoming, done);
      g' := SetBlock(block, FilledBlock(block.cache, incoming, done), g, i);
    }

    /** Takes the next `m` bytes of the offered memory, in block order, into the content. */
    method Add(m: nat, ghost g: Layout) returns (ghost g': Layout)
      requires Is(g) && g.blocks[g.w].Some? && m <= |g.Offered()|
      modifies this`write, g.nodes`cache
      ensures Valid(g') && g'.nodes == g.nodes && g.w <= g'.w && g'.Content() == g.Content() + g.Offered()[..m]
      ensures g'.Offered() == g.Offered()[m..]
    {
      g' := g;
      var size, index := m, write;
      ghost var content, offered := g.Content(), g.Offered();
      assert content + offered[..0] == content;
      while size > 0
        invariant 0 <= size <= m && Linked(g') && g'.nodes == g.nodes && g.w <= g'.w && index == g.nodes[g'.w]
        invariant g'.blocks[g'.w].Some? && Takes(g', content, offered, m - size)
        decreases |g.nodes| - g'.w, size
      {
        size, index, g' := AddNext(index, size, g', content, offered, m);
      }
      write := index;
    }

    method AddNext(index: Node, size: nat, ghost g: Layout, ghost content: seq<byte>, ghost offered: seq<byte>, ghost m: nat)
      returns (left: nat, next: Node, ghost g': Layout)
      requires Linked(g) && index == g.nodes[g.w] && g.blocks[g.w].Some? && 0 < size <= m <= |offered|
      requires Takes(g, content, offered, m - size)
      modifies index`cache
      ensures Linked(g') && g'.nodes == g.nodes && next == g.nodes[g'.w] && g'.blocks[g'.w].Some?
      ensures (g'.w == g.w + 1 || (g'.w == g.w && left == 0)) && left <= size && Takes(g', content, offered, m - left)
    {
      TakesRoom(g, content, offered, m - size);
      left, next, g' := AddOne(index, size, g);
      TakesMore(g, g', content, offered, m - size, size - left, m - left);
    }

    /** Takes what the block at `index` offers of the next `size` bytes. */
    method TakeRoom(index: Node, size: nat, ghost g: Layout) returns (left: nat, ghost g': Layout)
      requires Linked(g) && index == g.nodes[g.w] && g.blocks[g.w].Some? && 0 < size <= |g.Offered()|
      modifies index`cache
      ensures Linked(g') && g'.nodes == g.nodes && g'.w == g.w && g'.blocks[g.w] == index.cache && index.cache.Some?
      ensures left <= size && Moves(g, g', size - left)
      ensures |g'.Offered()| == |Room(g'.blocks[g.w])| + |Joined(Room, g.blocks[g.w + 1..])|
      ensures left == 0 || Room(g'.blocks[g.w]) == []
    {
      assert Fits(g.blocks[g.w], g.w, g.w);
      var writeSize := Min(size, index.cache.value.WriteableSize());
      var b := index.cache.value.Add(writeSize);
      AddStep(g.blocks, g.w, Some(b), writeSize);
      g' := SetBlock(index, Some(b), g, g.w);
      left := size - writeSize;
    }

    /** The write position goes on over a full block. */
    lemma OverFull(g: Layout)
      requires Linked(g) && g.blocks[g.w].Some? && Room(g.blocks[g.w]) == [] && g.w + 1 < |g.nodes|
      ensures var next := g.(w := g.w + 1);
              Linked(next) && next.Content() == g.Content() && next.Offered() == g.Offered() && next.blocks[next.w].Some?
    {
      ShapeNext(g.blocks, g.w);
      g.StepWrite(g.(w := g.w + 1));
      assert g.blocks[g.w..][1..] == g.blocks[g.w + 1..];
    }

    /** One round: fills the block at `index`; once full, goes on to the next if there is one.
        Otherwise everything has been taken. */
    method AddOne(index: Node, size: nat, ghost g: Layout) returns (left: nat, next: Node, ghost g': Layout)
      requires Linked(g) && index == g.nodes[g.w] && g.blocks[g.w].Some? && 0 < size <= |g.Offered()|
      modifies index`cache
      ensures Linked(g') && g'.nodes == g.nodes && next == g.nodes[g'.w] && g'.blocks[g'.w].Some?
      ensures (g'.w == g.w + 1 || (g'.w == g.w && left == 0)) && left <= size && Moves(g, g', size - left)
    {
      left, g' := TakeRoom(index, size, g);
      next := index;
      Unique(g.nodes, 0);
      assert Fits(g'.blocks[g.w], g.w, g.w);
      if index.cache.value.Full() && index.next != read {
        OverFull(g');
        next, g' := index.next, g'.(w := g'.w + 1);
      } else {
        assert g.w == |g.nodes| - 1 ==> g.blocks[g.w + 1..] == [];
      }
    }

    /** The lengths of the stretches `readv` is given, added up. */
    method RoomOffered(cnt: nat, ghost g: Layout) returns (room: nat)
      requires Is(g) && g.blocks[g.w].Some? && cnt == |g.nodes| - g.w
      ensures room == |g.Offered()|
    {
      room := 0;
      var block := write;
      ghost var rest := g.blocks[g.w..];
      for i := 0 to cnt
        invariant (i < cnt ==> block == g.nodes[g.w + i]) && room == |Joined(Room, rest[..i])|
      {
        assert Fits(g.blocks[g.w + i], g.w + i, g.w);
        JoinedSnoc(Room, rest, i);
        room := room + block.cache.value.WriteableSize();
        block := block.next;
      }
      assert rest[..cnt] == rest;
    }

    /** Whether a node is on the ring, by going round it once. */
    method OnRing(node: Node, ghost g: Layout) returns (found: bool)
      requires Is(g)
      ensures found == (node in g.nodes)
    {
      var index := read;
      ghost var i := 0;
      Unique(g.nodes, 0);
      while index != node
        invariant 0 <= i < |g.nodes| && index == g.nodes[i]
        invariant forall j :: 0 <= j < i ==> g.nodes[j] != node
        decreases |g.nodes| - i
      {
        index := index.next;
        if index == read {
          return false;
        }
        i := i + 1;
      }
      return true;
    }

    /** A scatter read of `incoming`: the blocks filled, then taken into the content. */
    method Receive(incoming: seq<byte>, ghost g: Layout) returns (ghost g': Layout)
      requires Is(g) && g.blocks[g.w].Some? && |incoming| <= |g.Offered()|
      modifies this`write, g.nodes`cache
      ensures Valid(g') && g'.nodes == g.nodes && g'.Content() == g.Content() + incoming
    {
      g' := Scatter(incoming, g);
      g' := Add(|incoming|, g');
    }

    /** Makes room for `readable` bytes, and takes what has arrived as far as there is room. */
    method ReadIn(readable: nat, arrived: seq<byte>, ghost g: Layout) returns (n: nat, ghost g': Layout)
      requires Valid(g)
      modifies this`write, this`nodeSize, g.nodes
      ensures Valid(g') && n == Min(|arrived|, g.RoomFor(readable)) && (n == |arrived| || n >= readable)
      ensures g'.Content() == g.Content() + arrived[..n] && Grown(g, g')
    {
      var blocks;
      ghost var h;
      blocks, h := FastExpand(readable, g);
      g' := h;
      var room := RoomOffered(blocks, g');
      n := Min(|arrived|, room);
      if n > 0 {
        g' := Receive(arrived[..n], g');
      }
    }

    /** How many blocks lie from `read` to `write`. */
    method ChainSize(ghost g: Layout) returns (n: nat)
      requires Is(g)
      ensures n == g.w + 1
    {
      n := 1;
      var begin := read;
      Unique(g.nodes, g.w);
      while begin != write
        invariant n <= g.w + 1 && begin == g.nodes[n - 1]
        decreases g.w + 1 - n
      {
        n := n + 1;
        begin := begin.next;
      }
    }

    /** Takes over the blocks of another list from its `read` to its `write`. The spare nodes of
        this list drop out of its ring, though `nodeSize` goes on counting them; the other list
        is left with its own spare nodes, or with a new node if it had none. */
    method Append(other: CacheList, ghost g: Layout, ghost o: Layout) returns (ghost g': Layout, ghost o': Layout)
      requires Valid(g) && other.Valid(o) && other != this && NoShared(g.nodes, o.nodes)
      requires g.Content() != [] && o.Content() != []
      modifies this`write, this`nodeSize, other, g.nodes, o.nodes
      ensures Valid(g') && other.Valid(o') && NoShared(g'.nodes, o'.nodes) && head == old(head) && other.head in o'.nodes
      ensures g'.Content() == g.Content() + o.Content() && o'.Content() == []
      ensures Joins(g, o, g') && nodeSize - |g'.nodes| == old(nodeSize) - (g.w + 1)
      ensures Leaves(o, old(other.nodeSize), o', other.nodeSize) && NoForeign(o, o')
      ensures o.w + 1 == |o.nodes| ==> fresh(o'.nodes[0])
    {
      var chainSize, alone, afterEnd;
      chainSize, alone, afterEnd, g' := TakeStretch(other, g, o);
      o' := other.Detach(alone, afterEnd, chainSize, g'.nodes, o);
    }

    method TakeStretch(other: CacheList, ghost g: Layout, ghost o: Layout)
      returns (chainSize: nat, alone: bool, afterEnd: Node, ghost g': Layout)
      requires Valid(g) && other.Valid(o) && other != this && NoShared(g.nodes, o.nodes)
      requires g.Content() != [] && o.Content() != []
      modifies this`write, this`nodeSize, g.nodes`next, g.nodes`prev, o.nodes`next, o.nodes`prev
      ensures Valid(g') && g'.Content() == g.Content() + o.Content()
      ensures Joins(g, o, g') && nodeSize - |g'.nodes| == old(nodeSize) - (g.w + 1)
      ensures other.Parted(alone, afterEnd, chainSize, g'.nodes, o)
    {
      g.ContentHasBlock();
      o.ContentHasBlock();
      chainSize, alone, afterEnd := other.Stretch(o);
      g' := Attach(other.read, other.write, chainSize, g, o);
    }

    /** The nodes from `read` to `write` of this list, laid out as `o`, are `gone` to another one. */
    ghost predicate Parted(alone: bool, afterEnd: Node, chainSize: nat, gone: seq<Node>, o: Layout)
      reads this, o.nodes
    {
      && o.Ok() && |o.nodes| <= nodeSize && Caches(o.nodes, o.blocks) && chainSize == o.w + 1
      && (alone <==> o.w + 1 == |o.nodes|)
      && (!alone ==> Ring(o.nodes[o.w + 1..]) && afterEnd == o.nodes[o.w + 1])
      && NoShared(gone, o.nodes[o.w + 1..])
    }

    /** How many nodes there are from `read` to `write`, whether those are all, and the one after them. */
    method Stretch(ghost o: Layout) returns (chainSize: nat, alone: bool, afterEnd: Node)
      requires Is(o)
      ensures chainSize == o.w + 1 && (alone <==> o.w + 1 == |o.nodes|)
      ensures afterEnd == if alone then read else o.nodes[o.w + 1]
    {
      chainSize := ChainSize(o);
      alone := read.prev == write;
      afterEnd := write.next;
      Unique(o.nodes, o.w);
    }

    /** What the other list is left with once its nodes from `read` to `write` are gone. */
    method Detach(alone: bool, afterEnd: Node, chainSize: nat, ghost gone: seq<Node>, ghost o: Layout)
      returns (ghost o': Layout)
      requires Parted(alone, afterEnd, chainSize, gone, o)
      modifies this
      ensures Valid(o') && o'.Content() == [] && head in o'.nodes && NoShared(gone, o'.nodes)
      ensures Leaves(o, old(nodeSize), o', nodeSize) && NoForeign(o, o') && (alone ==> fresh(o'.nodes[0]))
    {
      if alone {
        o' := Renew();
      } else {
        o' := Release(afterEnd, chainSize, o);
      }
    }

    /** The links and the cursors of the joined ring `g'`. */
    method Link(otherBegin: Node, otherEnd: Node, chainSize: nat, ghost a: seq<Node>, ghost b: seq<Node>,
                ghost rest: seq<Node>, ghost g': Layout)
      requires Spliceable(a, b, rest) && read == a[0] && write == a[|a| - 1] && otherBegin == b[0] && otherEnd == b[|b| - 1]
      requires otherBegin.prev == if rest == [] then otherEnd else rest[|rest| - 1]
      requires otherEnd.next == if rest == [] then otherBegin else rest[0]
      requires g'.Ok() && g'.Stocked() && Caches(g'.nodes, g'.blocks) && g'.nodes == a + b && g'.w == |g'.nodes| - 1
      requires |g'.nodes| <= nodeSize + chainSize
      modifies this`write, this`nodeSize, a`next, a`prev, b`next, b`prev, rest`next, rest`prev
      ensures Valid(g') && nodeSize == old(nodeSize) + chainSize && (rest != [] ==> Ring(rest))
    {
      Splice(read, write, otherBegin, otherEnd, a, b, rest);
      write := otherEnd;
      nodeSize := nodeSize + chainSize;
    }

    /** Joins the ring up to `write` with the other ring from its `read` to its `write`. */
    method Attach(otherBegin: Node, otherEnd: Node, chainSize: nat, ghost g: Layout, ghost o: Layout)
      returns (ghost g': Layout)
      requires Valid(g) && o.Ok() && Ring(o.nodes) && Caches(o.nodes, o.blocks) && NoShared(g.nodes, o.nodes)
      requires g.blocks[g.w].Some? && o.blocks[o.w].Some?
      requires otherBegin == o.nodes[0] && otherEnd == o.nodes[o.w] && chainSize == o.w + 1
      modifies this`write, this`nodeSize, g.nodes`next, g.nodes`prev, o.nodes`next, o.nodes`prev
      ensures Valid(g') && g'.Content() == g.Content() + o.Content()
      ensures Joins(g, o, g') && nodeSize == old(nodeSize) + chainSize && |g'.nodes| == g.w + 1 + chainSize
      ensures NoShared(g'.nodes, o.nodes[o.w + 1..]) && (o.w + 1 < |o.nodes| ==> Ring(o.nodes[o.w + 1..]))
    {
      SpliceReady(g, o);
      SpliceApart(g, o);
      CachesJoin(g, o);
      ghost var a, b, rest := g.nodes[..g.w + 1], o.nodes[..o.w + 1], o.nodes[o.w + 1..];
      g' := Layout(a + b, g.blocks[..g.w + 1] + o.blocks[..o.w + 1], g.w + o.w + 1);
      g.Join(o, g');
      Link(otherBegin, otherEnd, chainSize, a, b, rest, g');
    }

    /** Goes on with the spare nodes alone. */
    method Release(afterEnd: Node, chainSize: nat, ghost o: Layout) returns (ghost o': Layout)
      requires o.Ok() && o.w + 1 < |o.nodes| <= nodeSize && Caches(o.nodes, o.blocks)
      requires Ring(o.nodes[o.w + 1..]) && afterEnd == o.nodes[o.w + 1] && chainSize == o.w + 1
      modifies this
      ensures Valid(o') && o'.Content() == [] && o'.nodes == o.nodes[o.w + 1..] && head in o'.nodes
      ensures nodeSize == old(nodeSize) - chainSize
    {
      CachesPart(o.nodes, o.blocks, o.w + 1, |o.nodes|);
      assert o.nodes[o.w + 1..|o.nodes|] == o.nodes[o.w + 1..] && o.blocks[o.w + 1..|o.nodes|] == o.blocks[o.w + 1..];
      o' := Layout(o.nodes[o.w + 1..], o.blocks[o.w + 1..], 0);
      o.Leftover(o');
      nodeSize := nodeSize - chainSize;
      head := afterEnd;
      read := afterEnd;
      write := afterEnd;
      assert o'.nodes[0] == head;
    }

    /** A list starting over with one new node. */
    method Renew() returns (ghost g: Layout)
      modifies this
      ensures Valid(g) && g.Content() == [] && g.nodes == [head] && fresh(head) && nodeSize == 1
    {
      nodeSize := 1;
      head := new Node();
      head.next := head;
      head.prev := head;
      read := head;
      write := head;
      g := Layout([head], [None], 0);
      assert g.blocks[..1] == [None];
    }

    /** What splicing two lists that share no node starts from. */
    lemma SpliceReady(g: Layout, o: Layout)
      requires Linked(g) && o.Ok() && Ring(o.nodes) && NoShared(g.nodes, o.nodes)
      ensures Spliceable(g.nodes[..g.w + 1], o.nodes[..o.w + 1], o.nodes[o.w + 1..])
    {
      DistinctPart(g.nodes, g.w + 1);
      DistinctPart(o.nodes, o.w + 1);
      PathPart(g.nodes, g.w + 1);
      PathPart(o.nodes, o.w + 1);
      NoSharedPart(g.nodes, o.nodes, g.w + 1, o.w + 1);
    }

    /** What one list is left with shares no node with what the other has then. */
    lemma SpliceApart(g: Layout, o: Layout)
      requires Linked(g) && o.Ok() && Ring(o.nodes) && NoShared(g.nodes, o.nodes)
      ensures NoShared(g.nodes[..g.w + 1] + o.nodes[..o.w + 1], o.nodes[o.w + 1..])
    {
      SpliceReady(g, o);
      NoSharedJoin(g.nodes[..g.w + 1], o.nodes[..o.w + 1], o.nodes[o.w + 1..]);
    }

    lemma CachesJoin(g: Layout, o: Layout)
      requires g.Ok() && o.Ok() && Caches(g.nodes, g.blocks) && Caches(o.nodes, o.blocks)
      ensures Caches(g.nodes[..g.w + 1] + o.nodes[..o.w + 1], g.blocks[..g.w + 1] + o.blocks[..o.w + 1])
    {
      CachesPart(g.nodes, g.blocks, 0, g.w + 1);
      CachesPart(o.nodes, o.blocks, 0, o.w + 1);
      CachesConcat(g.nodes[..g.w + 1], g.blocks[..g.w + 1], o.nodes[..o.w + 1], o.blocks[..o.w + 1]);
    }

    method UnlinkIn(first: Node, ghost ring: seq<Node>, ghost dom: set<Node>)
      requires Ring(ring) && |ring| >= 2 && first == ring[0] && Within(ring, dom)
      modifies dom`next, dom`prev
      ensures Ring(ring[..1] + ring[2..]) && Within(ring[..1] + ring[2..], dom)
    {
      UnlinkSecond(first, ring);
    }

    method FreeOthers(ghost ring0: seq<Node>, ghost dom: set<Node>)
      requires Ring(ring0) && ring0[0] == head && Within(ring0, dom)
      modifies dom`next, dom`prev
      ensures head.next == head && head.prev == head
    {
      ghost var ring := ring0;
      while head.next != head
        invariant Ring(ring) && ring[0] == head && Within(ring, dom)
        decreases |ring|
      {
        UnlinkIn(head, ring, dom);
        ring := ring[..1] + ring[2..];
      }
      Unique(ring, 0);
      assert ring == [head];
    }

    /** The list starts over with `head` alone, its block cleared. */
    method Rewind() returns (ghost g: Layout)
      requires head.next == head && head.prev == head && (head.cache.Some? ==> head.cache.value.Ok())
      modifies this`read, this`write, this`nodeSize, head`cache
      ensures Valid(g) && g.Content() == [] && g.nodes == [head] && nodeSize == 1
    {
      if head.cache.Some? {
        head.cache := Some(head.cache.value.Clear());
      }
      nodeSize := 1;
      read := head;
      write := head;
      g := Layout([head], [head.cache], 0);
      assert g.blocks[..1] == [head.cache];
      JoinedSingle(View, head.cache);
    }

    /** Frees every node but `head`, which must still be on the ring, and clears its block. */
    method Reset(ghost g: Layout) returns (ghost g': Layout)
      requires Is(g) && head in g.nodes
      modifies this`read, this`write, this`nodeSize, g.nodes
      ensures Valid(g') && g'.Content() == [] && g'.nodes == [head] && nodeSize == 1
    {
      ghost var h: nat :| h < |g.nodes| && g.nodes[h] == head;
      assert Fits(g.blocks[h], h, g.w) && g.nodes[h].cache == g.blocks[h];
      RotateRing(g.nodes, h);
      FreeOthers(g.nodes[h..] + g.nodes[..h], set x | x in g.nodes);
      g' := Rewind();
    }

    method Swap(other: CacheList, ghost g: Layout, ghost o: Layout)
      requires other != this && Valid(g) && other.Valid(o)
      modifies this, other
      ensures Valid(o) && other.Valid(g) && head == old(other.head) && other.head == old(head)
      ensures nodeSize == old(other.nodeSize) && other.nodeSize == old(nodeSize)
    {
      head, other.head := other.head, head;
      read, other.read := other.read, read;
      write, other.write := other.write, write;
      nodeSize, other.nodeSize := other.nodeSize, nodeSize;
    }

    /** Copies the first `length` bytes out, block by block. */
    method CopyOut(dest: array<byte>, length: nat, ghost g: Layout)
      requires Valid(g) && length <= |g.Content()| && length <= dest.Length
      modifies dest
      ensures dest[..length] == g.Content()[..length] && dest[length..] == old(dest[length..])
    {
      var curr, total := read, 0;
      ghost var i := 0;
      assert g.blocks[..0] == [];
      while total < length
        invariant 0 <= i <= g.w + 1 && (i < |g.nodes| ==> curr == g.nodes[i])
        invariant 0 <= total <= length && (total == length || total == |Joined(View, g.blocks[..i])|)
        invariant dest[..total] == g.Content()[..total] && dest[length..] == old(dest[length..])
        decreases g.w + 1 - i
      {
        total := CopyOne(dest, length, total, curr, g, i);
        curr, i := curr.next, i + 1;
      }
    }

    method CopyOne(dest: array<byte>, length: nat, total: nat, curr: Node, ghost g: Layout, ghost i: nat)
      returns (total': nat)
      requires Valid(g) && i <= g.w && curr == g.nodes[i] && total < length <= |g.Content()| && length <= dest.Length
      requires total == |Joined(View, g.blocks[..i])| && dest[..total] == g.Content()[..total]
      modifies dest
      ensures total' <= length && (total' == length || total' == |Joined(View, g.blocks[..i + 1])|)
      ensures dest[..total'] == g.Content()[..total'] && dest[length..] == old(dest[length..])
    {
      assert Fits(g.blocks[i], i, g.w);
      g.ContentHasBlock();
      g.BlockInContent(i, total);
      var bytes := curr.cache.value.Readable();
      var copyLen := Min(length - total, |bytes|);
      CopyBytes(dest, total, bytes[..copyLen]);
      total' := total + copyLen;
      SliceMore(g.Content(), total, |bytes|, copyLen);
    }

    /** The first `sent` bytes are gathered: those of the first `i` blocks, or all `total`. */
    ghost predicate Gathered(g: Layout, iov: seq<seq<byte>>, total: nat, sent: nat, i: nat)
      requires i <= |g.blocks| && g.w < |g.blocks|
    {
      && sent <= total <= |g.Content()| && Joined(x => x, iov) == g.Content()[..sent]
      && sent <= |Joined(View, g.blocks[..i])| && (sent == total || sent == |Joined(View, g.blocks[..i])|)
    }

    lemma GatherMore(g: Layout, iov: seq<seq<byte>>, total: nat, sent: nat, i: nat)
      requires g.Ok() && i <= g.w && Gathered(g, iov, total, sent, i) && sent < total
      ensures var n := Min(total - sent, |View(g.blocks[i])|);
              Gathered(g, iov + [View(g.blocks[i])[..n]], total, sent + n, i + 1)
    {
      g.BlockInContent(i, sent);
      var n := Min(total - sent, |View(g.blocks[i])|);
      var part := View(g.blocks[i])[..n];
      JoinedConcat(x => x, iov, [part]);
      JoinedSingle((x: seq<byte>) => x, part);
      SliceMore(g.Content(), sent, |View(g.blocks[i])|, n);
    }

    /** All that is asked for has been gathered, or all that `limit` blocks hold. */
    lemma GatherDone(g: Layout, iov: seq<seq<byte>>, total: nat, sent: nat, i: nat, limit: nat)
      requires g.Ok() && i <= limit && i <= g.w + 1 && Gathered(g, iov, total, sent, i) && (i == limit || sent == total)
      ensures Joined(x => x, iov) == g.Content()[..Min(total, g.Held(limit))]
    {
      JoinedSplit(View, g.blocks[..Min(limit, g.w + 1)], i);
      assert g.blocks[..Min(limit, g.w + 1)][..i] == g.blocks[..i];
    }

    /** The stretches of readable memory `writev` is given: the content in order, `total` bytes of it
        or as many as the first `limit` blocks hold. */
    method Gather(total: nat, limit: nat, ghost g: Layout) returns (iov: seq<seq<byte>>)
      requires Valid(g) && total <= |g.Content()|
      ensures |iov| <= limit && Joined(x => x, iov) == g.Content()[..Min(total, g.Held(limit))]
    {
      iov := [];
      var curr, rest := read, total;
      ghost var i := 0;
      assert g.blocks[..0] == [];
      while |iov| < limit && rest > 0
        invariant 0 <= i <= g.w + 1 && (rest > 0 && i < |g.nodes| ==> curr == g.nodes[i]) && |iov| == i <= limit
        invariant 0 <= rest <= total && Gathered(g, iov, total, total - rest, i)
        decreases rest > 0, g.w + 1 - i
      {
        assert Fits(g.blocks[i], i, g.w);
        g.ContentHasBlock();
        GatherMore(g, iov, total, total - rest, i);
        var bytes := curr.cache.value.Readable();
        if rest > |bytes| {
          assert bytes[..|bytes|] == bytes;
          iov := iov + [bytes];
          rest := rest - |bytes|;
          curr := curr.next;
        } else {
          iov := iov + [bytes[..rest]];
          rest := 0;
        }
        i := i + 1;
      }
      GatherDone(g, iov, total, total - rest, i, limit);
    }
  }
}
