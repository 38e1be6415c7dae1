/** A run of plain operations after which a buffer has lost the first node of its list. */
module HeadLoss {
  import opened Flattening
  import opened Blocks
  import opened Chain
  import opened Layouts
  import opened Buffers

  function Chunk(): (r: seq<byte>)
    ensures |r| == MIN_TO_ALLOC
  {
    seq(MIN_TO_ALLOC, _ => 0)
  }

  /** A block of the smallest size, full. */
  predicate Full(s: Slot) {
    s.Some? && |s.value.data| == MIN_TO_ALLOC && s.value.size == MIN_TO_ALLOC && s.value.misalign == 0
  }

  /** After a full block, more bytes go into a new block: of the next node, if that is spare, or of a
      new one. */
  lemma AddedAfterFull(blocks: seq<Slot>, w: nat, bytes: seq<byte>, added: seq<Slot>)
    requires w < |blocks| && Shape(blocks, w) && Full(blocks[w]) && 0 < |bytes| <= MIN_TO_ALLOC
    requires added == Added(blocks, w, bytes).0
    ensures Added(blocks, w, bytes).1 == w + 1 && |added| == (if w + 1 == |blocks| then w + 2 else |blocks|)
    ensures (forall i :: 0 <= i <= w ==> added[i] == blocks[i]) && |View(added[w + 1])| == |bytes|
    ensures |bytes| == MIN_TO_ALLOC ==> Full(added[w + 1])
  {
    assert Rounded(|bytes|) == MIN_TO_ALLOC;
    var next := NextWrite(blocks, w);
    assert next.1 == w + 1;
    var s := Some(NewBlock(MIN_TO_ALLOC).Append(bytes));
    var ready := Checked(blocks, w, |bytes|);
    assert ready == (next.0[w + 1 := Some(NewBlock(MIN_TO_ALLOC))], w + 1);
    assert added == ready.0[w + 1 := s] == next.0[w + 1 := s];
  }

  lemma AddedFirst(blocks: seq<Slot>, bytes: seq<byte>, added: seq<Slot>)
    requires |blocks| == 1 && Shape(blocks, 0) && blocks[0].None? && |bytes| == MIN_TO_ALLOC
    requires added == Added(blocks, 0, bytes).0
    ensures |added| == 1 && Full(added[0]) && Added(blocks, 0, bytes).1 == 0
  {
    assert Rounded(|bytes|) == MIN_TO_ALLOC;
    var ready := Checked(blocks, 0, |bytes|);
    assert ready.0 == [Some(NewBlock(MIN_TO_ALLOC))] && ready.1 == 0;
  }

  /** Adds bytes after a full block. */
  method AddAfterFull(b: Buffer, bytes: seq<byte>)
    requires b.Valid() && Full(b.g.blocks[b.g.w]) && 0 < |bytes| <= MIN_TO_ALLOC && b.totalLen + |bytes| <= MAX_SIZE
    modifies b`totalLen, b`g, b.chain, b.g.nodes
    ensures b.Valid() && |b.Bytes()| == |old(b.Bytes())| + |bytes| && NoForeign(old(b.g), b.g) && b.g.w == old(b.g.w) + 1
    ensures b.chain.head == old(b.chain.head) && b.chain.nodeSize - |b.g.nodes| == old(b.chain.nodeSize) - |old(b.g).nodes|
    ensures |b.g.nodes| == (if old(b.g.w) + 1 == |old(b.g).nodes| then old(b.g.w) + 2 else |old(b.g).nodes|)
    ensures forall i {:trigger b.g.nodes[i]} :: 0 <= i < |old(b.g).nodes| ==> b.g.nodes[i] == old(b.g).nodes[i]
    ensures forall i {:trigger b.g.blocks[i]} :: 0 <= i <= old(b.g.w) ==> b.g.blocks[i] == old(b.g).blocks[i]
    ensures |View(b.g.blocks[b.g.w])| == |bytes| && (|bytes| == MIN_TO_ALLOC ==> Full(b.g.blocks[b.g.w]))
  {
    AddedAfterFull(b.g.blocks, b.g.w, bytes, Added(b.g.blocks, b.g.w, bytes).0);
    var ok := b.Add(bytes);
  }

  /** `n` full blocks on `n` nodes, the first of them `head`. */
  ghost predicate Stacked(b: Buffer, n: nat)
    reads b, b.chain, b.g.nodes
  {
    && b.Valid() && |b.g.nodes| == n == b.chain.nodeSize && b.g.w == n - 1 && b.chain.head == b.g.nodes[0]
    && |b.Bytes()| == n * MIN_TO_ALLOC && forall i :: 0 <= i < n ==> Full(b.g.blocks[i])
  }

  method AddFirst(b: Buffer)
    requires b.Valid() && b.g == Layout([b.chain.head], [None], 0) && b.chain.nodeSize == 1 && b.Bytes() == []
    modifies b`totalLen, b`g, b.chain, b.g.nodes
    ensures Stacked(b, 1) && NoForeign(old(b.g), b.g)
  {
    AddedFirst(b.g.blocks, Chunk(), Added(b.g.blocks, 0, Chunk()).0);
    ghost var was := b.g;
    var ok := b.Add(Chunk());
    assert b.g.nodes[0] == was.nodes[0];
  }

  method First() returns (b: Buffer)
    ensures fresh(b) && fresh(b.chain) && fresh(b.g.nodes) && Stacked(b, 1)
  {
    b := new Buffer(0);
    AddFirst(b);
  }

  method Another(b: Buffer, n: nat)
    requires Stacked(b, n) && 0 < n < 17
    modifies b`totalLen, b`g, b.chain, b.g.nodes
    ensures Stacked(b, n + 1) && NoForeign(old(b.g), b.g)
  {
    AddAfterFull(b, Chunk());
  }

  method Stack(n: nat) returns (b: Buffer)
    requires 0 < n <= 17
    ensures fresh(b) && fresh(b.chain) && fresh(b.g.nodes) && Stacked(b, n)
  {
    b := First();
    for i := 1 to n
      invariant fresh(b) && fresh(b.chain) && fresh(b.g.nodes) && Stacked(b, i)
    {
      Another(b, i);
    }
  }

  /** The first `n` blocks hold as much as a full one, and `write` is at `w`. */
  ghost predicate Ranked(b: Buffer, nodes: nat, n: nat, w: nat)
    reads b, b.chain, b.g.nodes
  {
    && b.Valid() && |b.g.nodes| == nodes == b.chain.nodeSize && b.g.w == w && n <= w + 1 <= nodes
    && nodes >= 17 && b.chain.head == b.g.nodes[16] && forall i :: 0 <= i < n ==> |View(b.g.blocks[i])| == MIN_TO_ALLOC
  }

  /** Blocks after the first that hold this much leave the first the rest. */
  lemma {:induction false} Holding(blocks: seq<Slot>, n: nat)
    requires 0 < n <= |blocks| && forall i :: 0 < i < n ==> |View(blocks[i])| == MIN_TO_ALLOC
    ensures |Joined(View, blocks[..n])| == |View(blocks[0])| + (n - 1) * MIN_TO_ALLOC
  {
    JoinedSnoc(View, blocks, n - 1);
    if n == 1 {
      assert blocks[..0] == [];
    } else {
      Holding(blocks, n - 1);
    }
  }

  /** The first chunk is dropped, and `head` comes last, as a spare node. */
  method Rotate(b: Buffer)
    requires Stacked(b, 17)
    modifies b`totalLen, b`g, b.chain, b.g.nodes
    ensures Ranked(b, 17, 16, 15) && Full(b.g.blocks[15]) && |b.Bytes()| == 16 * MIN_TO_ALLOC && NoForeign(old(b.g), b.g)
  {
    ghost var was := b.g;
    assert Full(was.blocks[0]);
    b.Skip(MIN_TO_ALLOC);
    assert Emptied(was.blocks, 0, 16, MIN_TO_ALLOC) == 1;
    assert forall i :: 0 < i <= 15 ==> b.g.blocks[i] == was.blocks[i + 1] && Full(was.blocks[i + 1]);
    assert b.g.nodes == was.nodes[1..] + was.nodes[..1];
    Holding(b.g.blocks, 16);
  }

  /** Its node is written again. */
  method Refill(b: Buffer)
    requires Ranked(b, 17, 16, 15) && Full(b.g.blocks[15]) && |b.Bytes()| == 16 * MIN_TO_ALLOC
    modifies b`totalLen, b`g, b.chain, b.g.nodes
    ensures Ranked(b, 17, 17, 16) && Full(b.g.blocks[16]) && |b.Bytes()| == 17 * MIN_TO_ALLOC && NoForeign(old(b.g), b.g)
  {
    AddAfterFull(b, Chunk());
  }

  /** One byte more takes another node. */
  method OneMore(b: Buffer)
    requires Ranked(b, 17, 17, 16) && Full(b.g.blocks[16]) && |b.Bytes()| == 17 * MIN_TO_ALLOC
    modifies b`totalLen, b`g, b.chain, b.g.nodes
    ensures Ranked(b, 18, 17, 17) && |b.Bytes()| == 17 * MIN_TO_ALLOC + 1 && NoForeign(old(b.g), b.g)
  {
    AddAfterFull(b, [0]);
  }

  lemma {:induction false} EmptiesAll(blocks: seq<Slot>, k: nat, w: nat)
    requires k < w < |blocks| && forall i :: k <= i < w ==> |View(blocks[i])| == MIN_TO_ALLOC
    ensures Emptied(blocks, k, w, (w - k) * MIN_TO_ALLOC) == w - k
    decreases w - k
  {
    if k + 1 < w {
      EmptiesAll(blocks, k + 1, w);
    }
  }

  /** All but the last byte is dropped, and `head` with it. */
  method Cut(b: Buffer)
    requires Ranked(b, 18, 17, 17) && |b.Bytes()| == 17 * MIN_TO_ALLOC + 1
    modifies b`totalLen, b`g, b.chain, b.g.nodes
    ensures b.Valid() && |b.Bytes()| == 1 && !b.HeadOnRing()
  {
    var n := b.totalLen - 1;
    CutFrees(b.g, n);
    b.Skip(n);
  }

  lemma CutFrees(g: Layout, n: nat)
    requires g.Ok() && Distinct(g.nodes) && |g.nodes| == 18 && g.w == 17 && n == 17 * MIN_TO_ALLOC
    requires forall i :: 0 <= i < 17 ==> |View(g.blocks[i])| == MIN_TO_ALLOC
    ensures !Stays(g, 18, g.nodes[16], n)
  {
    EmptiesAll(g.blocks, 0, g.w);
    StaysExactly(g, 18, 16, n);
  }

  method Turn(b: Buffer)
    requires Stacked(b, 17)
    modifies b`totalLen, b`g, b.chain, b.g.nodes
    ensures Ranked(b, 17, 17, 16) && Full(b.g.blocks[16]) && |b.Bytes()| == 17 * MIN_TO_ALLOC && NoForeign(old(b.g), b.g)
  {
    Rotate(b);
    Refill(b);
  }

  method Finish(b: Buffer)
    requires Ranked(b, 17, 17, 16) && Full(b.g.blocks[16]) && |b.Bytes()| == 17 * MIN_TO_ALLOC
    modifies b`totalLen, b`g, b.chain, b.g.nodes
    ensures b.Valid() && |b.Bytes()| == 1 && !b.HeadOnRing()
  {
    OneMore(b);
    Cut(b);
  }

  /** Seventeen chunks added, one dropped, one added, one byte added, and all but that byte dropped:
      the chain is cut back, and `head` is among the nodes freed. To drop the last byte would be to
      start over from it. */
  method LosesHead() returns (b: Buffer)
    ensures b.Valid() && |b.Bytes()| == 1 && !b.HeadOnRing()
  {
    b := Stack(17);
    Turn(b);
    Finish(b);
  }
}
