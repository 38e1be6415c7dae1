/** Three places where the text of the buffer does something else than its design, taken
    literally: what it does, and exactly when that agrees with the design. */
module BufferAsWritten {
  import opened Flattening
  import opened Blocks
  import opened Chain
  import opened Layouts
  import opened CacheLists
  import opened Buffers

  /** A block whose recorded capacity may differ from the memory it owns. */
  datatype RawBlock = RawBlock(memory: seq<byte>, capacity: nat, size: nat, misalign: nat) {
    predicate Ok() {
      misalign <= size <= capacity == |memory|
    }

    function Content(): (r: seq<byte>)
      requires misalign <= size <= |memory|
    {
      memory[misalign..size]
    }

    function Offset(): (r: nat)
      requires Ok()
    {
      size - misalign
    }

    /** The branch that moves the content to the front. */
    predicate Moves(n: nat)
      requires Ok()
    {
      capacity - size < n < capacity - size + misalign && Offset() <= MAX_TO_REALIGN
    }

    /** `Realign` literally: after the move it records the length as the capacity. */
    function Realign(n: nat): (r: RawBlock)
      requires Ok()
      ensures r.misalign <= r.size <= |r.memory|
    {
      if Moves(n) then RawBlock(Content() + memory[Offset()..], Offset(), size, 0) else this
    }
  }

  /** The content survives exactly when nothing is moved, whatever the content is. */
  lemma RealignKeepsContent(b: RawBlock, n: nat)
    requires b.Ok()
    ensures b.Realign(n).Content() == b.Content() <==> !b.Moves(n)
    ensures b.Realign(n).Ok() <==> !b.Moves(n)
  {
    if b.Moves(n) {
      assert |b.Realign(n).Content()| == b.size > |b.Content()|;
    }
  }

  /** A block of 4096 bytes, given 4000, of which 3000 are dropped: asking for 200 more makes 4000
      readable bytes of 1000, and leaves a capacity of 1000. */
  lemma RealignLoses(memory: seq<byte>)
    requires |memory| == MIN_TO_ALLOC
    ensures var b := RawBlock(memory, MIN_TO_ALLOC, 4000, 3000);
            && b.Ok() && b.Moves(200) && |b.Content()| == 1000
            && |b.Realign(200).Content()| == 4000 && b.Realign(200).capacity == 1000
            && b.Realign(200).Content()[..1000] == b.Content()
  {
    var b := RawBlock(memory, MIN_TO_ALLOC, 4000, 3000);
    assert b.Realign(200).Content()[..1000] == b.Content();
  }

  /** How many of the bytes from `total` on a block is overwritten with: as many as it has readable. */
  function CopyLen(s: Slot, bytes: seq<byte>, total: nat): (r: nat)
    requires total <= |bytes|
  {
    Min(|bytes| - total, |View(s)|)
  }

  /** A block's first readable bytes overwritten. */
  function Overwrite(s: Slot, bytes: seq<byte>, total: nat): (r: Slot)
    requires total <= |bytes|
  {
    if s.None? || !s.value.Ok() then s
    else
      var b, n := s.value, CopyLen(s, bytes, total);
      Some(b.(data := b.data[..b.misalign] + bytes[total..total + n] + b.data[b.misalign + n..]))
  }

  lemma OverwriteView(s: Slot, bytes: seq<byte>, total: nat)
    requires total <= |bytes|
    ensures var n := CopyLen(s, bytes, total);
            View(Overwrite(s, bytes, total)) == bytes[total..total + n] + View(s)[n..]
  {
    if s.Some? && s.value.Ok() {
      var b, n := s.value, CopyLen(s, bytes, total);
      var data := b.data[..b.misalign] + bytes[total..total + n] + b.data[b.misalign + n..];
      assert |View(s)| == b.size - b.misalign && b.data[b.misalign..b.size][n..] == b.data[b.misalign + n..b.size];
      assert data[b.misalign..b.size] == bytes[total..total + n] + b.data[b.misalign + n..b.size];
    }
  }

  lemma OverwriteFits(s: Slot, bytes: seq<byte>, total: nat, i: int, w: int)
    requires total <= |bytes| && Fits(s, i, w)
    ensures Fits(Overwrite(s, bytes, total), i, w) && (Overwrite(s, bytes, total).None? <==> s.None?)
  {
  }

  /** The copy loop of `Remove` literally, from block `i` on: its source is the caller's memory, and its
      target the readable bytes of one block after another. */
  function CopyLoop(blocks: seq<Slot>, i: nat, bytes: seq<byte>, total: nat): (r: Option<seq<Slot>>)
    requires total <= |bytes|
    decreases |blocks| - i
  {
    if total == |bytes| then Some(blocks)
    else if i >= |blocks| then None
    else CopyLoop(blocks[i := Overwrite(blocks[i], bytes, total)], i + 1, bytes, total + CopyLen(blocks[i], bytes, total))
  }

  /** The first `total` bytes are in the first `i` blocks, in place of those that were there. */
  ghost predicate Copied(were: seq<Slot>, now: seq<Slot>, i: nat, bytes: seq<byte>, total: nat) {
    && i <= |were| == |now| && total <= |Joined(View, were[..i])| && total <= |bytes| && now[i..] == were[i..]
    && Joined(View, now[..i]) == bytes[..total] + Joined(View, were[..i])[total..]
    && (total == |bytes| || total == |Joined(View, were[..i])|)
  }

  lemma CopyParts(bytes: seq<byte>, before: seq<byte>, view: seq<byte>, n: nat)
    requires n <= |view| && |before| + n <= |bytes|
    ensures var t := |before|;
            (bytes[..t] + before[t..]) + (bytes[t..t + n] + view[n..]) == bytes[..t + n] + (before + view)[t + n..]
  {
  }

  lemma CopiedMore(were: seq<Slot>, now: seq<Slot>, i: nat, bytes: seq<byte>, total: nat, next: seq<Slot>)
    requires Copied(were, now, i, bytes, total) && i < |were| && total < |bytes|
    requires next == now[i := Overwrite(now[i], bytes, total)]
    ensures Copied(were, next, i + 1, bytes, total + CopyLen(now[i], bytes, total))
  {
    var n := CopyLen(now[i], bytes, total);
    assert now[i] == now[i..][0] == were[i];
    OverwriteView(now[i], bytes, total);
    JoinedSnoc(View, were, i);
    JoinedSnoc(View, next, i);
    assert next[..i] == now[..i];
    assert next[i + 1..] == now[i..][1..] == were[i..][1..];
    CopyParts(bytes, Joined(View, were[..i]), View(were[i]), n);
  }

  lemma CopiedAll(were: seq<Slot>, now: seq<Slot>, i: nat, bytes: seq<byte>, n: nat)
    requires Copied(were, now, i, bytes, |bytes|) && i <= n <= |were|
    ensures |bytes| <= |Joined(View, were[..n])|
    ensures Joined(View, now[..n]) == bytes + Joined(View, were[..n])[|bytes|..]
  {
    JoinedSplit(View, were[..n], i);
    JoinedSplit(View, now[..n], i);
    assert were[..n][..i] == were[..i] && now[..n][..i] == now[..i];
    assert now[..n][i..] == now[i..][..n - i] == were[i..][..n - i] == were[..n][i..];
    assert bytes[..|bytes|] == bytes;
  }

  /** So the caller's bytes go into the buffer, right where they are dropped next. */
  lemma {:induction false} CopyLoopEffect(were: seq<Slot>, w: nat, now: seq<Slot>, i: nat, bytes: seq<byte>, total: nat)
    requires w < |were| && i <= w + 1 && Copied(were, now, i, bytes, total)
    requires |bytes| <= |Joined(View, were[..w + 1])|
    ensures var r := CopyLoop(now, i, bytes, total);
            && r.Some? && |r.value| == |were|
            && Joined(View, r.value[..w + 1]) == bytes + Joined(View, were[..w + 1])[|bytes|..]
    decreases |were| - i
  {
    if total == |bytes| {
      CopiedAll(were, now, i, bytes, w + 1);
    } else {
      assert i <= w;
      var next := now[i := Overwrite(now[i], bytes, total)];
      CopiedMore(were, now, i, bytes, total, next);
      CopyLoopEffect(were, w, next, i + 1, bytes, total + CopyLen(now[i], bytes, total));
    }
  }

  lemma CopyContent(g: Layout, bytes: seq<byte>)
    requires g.Ok() && |bytes| <= |g.Content()|
    ensures CopyLoop(g.blocks, 0, bytes, 0).Some?
    ensures var h := g.(blocks := CopyLoop(g.blocks, 0, bytes, 0).value);
            |h.blocks| == |g.blocks| && h.Content() == bytes + g.Content()[|bytes|..]
  {
    assert g.blocks[..0] == [] && bytes[..0] == [];
    CopyLoopEffect(g.blocks, g.w, g.blocks, 0, bytes, 0);
  }

  lemma CopyLoopStep(g: Layout, i: nat, bytes: seq<byte>, total: nat, h: Layout, total': nat)
    requires g.Ok() && g.Stocked() && i < |g.blocks| && total < |bytes|
    requires h == g.(blocks := g.blocks[i := Overwrite(g.blocks[i], bytes, total)])
    requires total' == total + CopyLen(g.blocks[i], bytes, total)
    ensures CopyLoop(h.blocks, i + 1, bytes, total') == CopyLoop(g.blocks, i, bytes, total)
    ensures h.Stocked() && h.nodes == g.nodes && h.w == g.w && total' <= |bytes|
  {
  }

  method CopyOneAsWritten(list: CacheList, dest: array<byte>, length: nat, total: nat, curr: Node,
                          ghost g: Layout, ghost i: nat, ghost bytes: seq<byte>)
    returns (total': nat, ghost g': Layout)
    requires list.Valid(g) && i < |g.nodes| && curr == g.nodes[i]
    requires length <= dest.Length && bytes == dest[..length] && total < length
    modifies curr`cache
    ensures list.Is(g') && g' == g.(blocks := g.blocks[i := Overwrite(g.blocks[i], bytes, total)])
    ensures total' == total + CopyLen(g.blocks[i], bytes, total)
  {
    assert Fits(g.blocks[i], i, g.w);
    OverwriteFits(g.blocks[i], bytes, total, i, g.w);
    var s := Overwrite(curr.cache, dest[..length], total);
    total' := total + CopyLen(curr.cache, dest[..length], total);
    g' := list.SetBlock(curr, s, g, i);
  }

  method CopyAsWritten(list: CacheList, dest: array<byte>, length: nat, ghost g: Layout) returns (ghost g': Layout)
    requires list.Valid(g) && length <= dest.Length && CopyLoop(g.blocks, 0, dest[..length], 0).Some?
    modifies g.nodes`cache
    ensures list.Valid(g') && g'.nodes == g.nodes && g'.w == g.w
    ensures Some(g'.blocks) == CopyLoop(g.blocks, 0, dest[..length], 0)
  {
    var curr, total := list.read, 0;
    ghost var i, bytes := 0, dest[..length];
    g' := g;
    while total < length
      invariant 0 <= total <= length && 0 <= i <= |g.nodes| && (i < |g.nodes| ==> curr == g.nodes[i])
      invariant list.Valid(g') && g'.nodes == g.nodes && g'.w == g.w && bytes == dest[..length]
      invariant CopyLoop(g'.blocks, i, bytes, total) == CopyLoop(g.blocks, 0, bytes, 0)
      decreases |g.nodes| - i
    {
      ghost var was, before := g', total;
      total, g' := CopyOneAsWritten(list, dest, length, total, curr, g', i, bytes);
      CopyLoopStep(was, i, bytes, before, g', total);
      curr, i := curr.next, i + 1;
    }
  }

  method CopyAndDrain(b: Buffer, dest: array<byte>, n: nat)
    requires b.Valid() && 0 < n <= |b.Bytes()| && n <= dest.Length
    modifies b`totalLen, b`g, b.chain, b.g.nodes
    ensures b.Valid() && b.Bytes() == old(b.Bytes())[n..]
  {
    ghost var was, bytes := b.g, dest[..n];
    CopyContent(was, bytes);
    ghost var h := CopyAsWritten(b.chain, dest, n, b.g);
    b.Adopt(b.totalLen, h);
    b.DrainChain(n);
  }

  /** `Remove` literally. What is left in the buffer is right. The caller's memory stays as it was, so
      the bytes dropped are delivered if and only if they were there before. */
  method RemoveAsWritten(b: Buffer, dest: array<byte>, length: nat) returns (n: nat)
    requires b.Valid() && Min(length, b.totalLen) <= dest.Length
    modifies b`totalLen, b`g, b.chain, b.g.nodes
    ensures b.Valid() && n == Min(length, |old(b.Bytes())|) && b.Bytes() == old(b.Bytes())[n..]
    ensures dest[..n] == old(b.Bytes())[..n] <==> old(dest[..n] == b.Bytes()[..n])
  {
    if length == 0 || b.totalLen == 0 {
      return 0;
    }
    n := Min(length, b.totalLen);
    CopyAndDrain(b, dest, n);
  }

  method OneByte(given: byte) returns (b: Buffer)
    ensures fresh(b) && fresh(b.chain) && fresh(b.g.nodes) && b.Valid() && b.Bytes() == [given]
  {
    b := new Buffer(0);
    var _ := b.Add([given]);
  }

  /** A buffer is given one byte, and the caller has another one in the place for it: that one is what
      they keep. */
  method RemoveFails(given: byte, there: byte) returns (b: Buffer, dest: array<byte>, n: nat)
    ensures b.Valid() && n == 1 && b.Bytes() == [] && dest[..] == [there]
  {
    b := OneByte(given);
    dest := new byte[1] [there];
    n := RemoveAsWritten(b, dest, 1);
  }

  /** The growth loop of `FastExpand` literally, for up to `rounds` rounds: each adds a node, and the
      number of bytes still wanted stays as it is. */
  method GrowAsWritten(list: CacheList, last: Node, size: nat, rounds: nat, ghost g: Layout)
    returns (ended: bool, ghost g': Layout)
    requires list.Is(g) && g.blocks[g.w].Some? && last == g.nodes[|g.nodes| - 1]
    modifies list`nodeSize, g.nodes
    ensures list.Is(g') && g'.Content() == g.Content() && g'.w == g.w
    ensures ended <==> size == 0
    ensures |g'.nodes| == |g.nodes| + (if ended then 0 else rounds)
    ensures list.nodeSize - |g'.nodes| == old(list.nodeSize) - |g.nodes|
  {
    var index, n := last, 0;
    g' := g;
    while size > 0 && n < rounds
      invariant list.Is(g') && g'.blocks[g'.w].Some? && g'.Content() == g.Content() && g'.w == g.w
      invariant index == g'.nodes[|g'.nodes| - 1] && |g'.nodes| == |g.nodes| + n && 0 <= n <= rounds
      invariant list.nodeSize - |g'.nodes| == old(list.nodeSize) - |g.nodes|
      invariant (index in g.nodes || fresh(index)) && (size == 0 ==> n == 0)
    {
      var alloc;
      alloc, index, g' := list.GrowOne(index, size, g');
      n := n + 1;
    }
    ended := size == 0;
  }

  /** The blocks from `write` on, once that is at an empty one, already offer `n` bytes; a new block
      there offers no more than `MAX_TO_ALLOC`. */
  predicate Suffices(blocks: seq<Slot>, w: nat, n: nat)
    requires w < |blocks| && Shape(blocks, w)
  {
    var next := NextWrite(blocks, w);
    if next.0[next.1].None? then n <= MAX_TO_ALLOC else n <= |Joined(Room, next.0[next.1..])|
  }

  lemma BegunOffers(g: Layout, n: nat)
    requires g.Ok() && g.Stocked()
    ensures var begun := Begun(g.blocks, g.w, n);
            begun.1 < |begun.0| && (n <= |Joined(Room, begun.0[begun.1..])| <==> Suffices(g.blocks, g.w, n))
  {
    var next, begun := NextWrite(g.blocks, g.w), Begun(g.blocks, g.w, n);
    if next.0[next.1].None? {
      assert g.w + 1 < |g.blocks| ==> Fits(g.blocks[g.w + 1], g.w + 1, g.w);
      assert next.1 == |next.0| - 1;
      assert begun.0[begun.1..] == [begun.0[begun.1]];
      JoinedSingle(Room, begun.0[begun.1]);
    }
  }

  /** `FastExpand` literally: it ends, in whatever number of rounds, if and only if the blocks suffice
      without any new one after `write`; if not, every round adds one more. */
  method FastExpandAsWritten(list: CacheList, n: nat, rounds: nat, ghost g: Layout)
    returns (ended: bool, ghost g': Layout)
    requires list.Valid(g)
    modifies list`write, list`nodeSize, g.nodes
    ensures list.Is(g') && g'.Content() == g.Content()
    ensures ended <==> Suffices(g.blocks, g.w, n)
    ensures |g'.nodes| == |Begun(g.blocks, g.w, n).0| + (if ended then 0 else rounds)
    ensures list.nodeSize - |g'.nodes| == old(list.nodeSize) - |g.nodes|
  {
    BegunOffers(g, n);
    g' := list.FirstBlock(n, g);
    var cnt, size, last := list.CountRoom(n, g');
    ended, g' := GrowAsWritten(list, last, size, rounds, g');
  }

  /** A new list asked for more than the largest block: it goes on adding nodes. */
  method NeverReady(n: nat, rounds: nat) returns (list: CacheList, ended: bool)
    requires n > MAX_TO_ALLOC
    ensures !ended && list.nodeSize == 1 + rounds
  {
    list := new CacheList();
    ghost var g := Layout([list.head], [None], 0);
    ghost var g';
    ended, g' := FastExpandAsWritten(list, n, rounds, g);
  }
}
