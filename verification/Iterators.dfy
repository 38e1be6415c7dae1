/** The buffer's iterator, what it walks over, and the search on a buffer of one block. */
module Iterators {
  import opened Flattening
  import opened Blocks
  import opened Chain
  import opened Layouts
  import opened CacheLists
  import opened Buffers
  import Kmp

  /** A place in the blocks from `read` to `write`: which block, and where in its memory. */
  datatype Pos = Pos(block: nat, index: nat)

  predicate Walkable(blocks: seq<Block>) {
    blocks != [] && forall i :: 0 <= i < |blocks| ==> blocks[i].Ok()
  }

  predicate On(blocks: seq<Block>, p: Pos) {
    p.block < |blocks| && blocks[p.block].Ok() && blocks[p.block].misalign <= p.index <= blocks[p.block].size
  }

  function First(blocks: seq<Block>): (r: Pos)
    requires Walkable(blocks)
  {
    Pos(0, blocks[0].misalign)
  }

  function Last(blocks: seq<Block>): (r: Pos)
    requires Walkable(blocks)
  {
    Pos(|blocks| - 1, blocks[|blocks| - 1].size)
  }

  /** One step, as the iterator takes it: on past the last byte of a block before it leaves it. */
  function Next(blocks: seq<Block>, p: Pos): (r: Pos)
    requires Walkable(blocks) && On(blocks, p)
    ensures On(blocks, r)
  {
    if p == Last(blocks) then p
    else if p.index + 1 > blocks[p.block].size then Pos(p.block + 1, blocks[p.block + 1].misalign)
    else Pos(p.block, p.index + 1)
  }

  function After(blocks: seq<Block>, n: nat): (r: Pos)
    requires Walkable(blocks)
    ensures On(blocks, r)
  {
    if n == 0 then First(blocks) else Next(blocks, After(blocks, n - 1))
  }

  /** How many steps lead to a position. */
  ghost function Rank(blocks: seq<Block>, p: Pos): (r: nat)
    requires Walkable(blocks) && On(blocks, p)
  {
    |Joined(Content, blocks[..p.block])| + p.block + (p.index - blocks[p.block].misalign)
  }

  lemma RankStep(blocks: seq<Block>, p: Pos)
    requires Walkable(blocks) && On(blocks, p) && p != Last(blocks)
    ensures Rank(blocks, Next(blocks, p)) == Rank(blocks, p) + 1
  {
    JoinedSnoc(Content, blocks, p.block);
  }

  lemma RankBound(blocks: seq<Block>, p: Pos)
    requires Walkable(blocks) && On(blocks, p) && p != Last(blocks)
    ensures Rank(blocks, p) < Rank(blocks, Last(blocks))
  {
    var last := |blocks| - 1;
    if p.block < last {
      JoinedSplit(Content, blocks[..last], p.block + 1);
      assert blocks[..last][..p.block + 1] == blocks[..p.block + 1];
      JoinedSnoc(Content, blocks, p.block);
    }
  }

  lemma RankLast(blocks: seq<Block>)
    requires Walkable(blocks)
    ensures Rank(blocks, Last(blocks)) == |Joined(Content, blocks)| + |blocks| - 1
  {
    JoinedSnoc(Content, blocks, |blocks| - 1);
    assert blocks[..|blocks|] == blocks;
  }

  /** Every step of the walk is one on, until the end. */
  lemma {:induction false} RankAfter(blocks: seq<Block>, n: nat)
    requires Walkable(blocks)
    ensures Rank(blocks, After(blocks, n)) == Min(n, Rank(blocks, Last(blocks)))
  {
    if n == 0 {
      assert blocks[..0] == [];
    } else {
      RankAfter(blocks, n - 1);
      var p := After(blocks, n - 1);
      if p != Last(blocks) {
        RankStep(blocks, p);
        RankBound(blocks, p);
      }
    }
  }

  /** The walk from the first byte reaches the end after as many steps as there are bytes, and
      one more for each block boundary on the way. */
  lemma WalkLength(blocks: seq<Block>, n: nat)
    requires Walkable(blocks)
    ensures After(blocks, n) == Last(blocks) <==> n >= |Joined(Content, blocks)| + |blocks| - 1
    ensures After(blocks, n) != Last(blocks) ==> Rank(blocks, After(blocks, n)) == n
  {
    RankLast(blocks);
    RankAfter(blocks, n);
    if After(blocks, n) != Last(blocks) {
      RankBound(blocks, After(blocks, n));
    }
  }

  /** How many steps there are to the end. */
  ghost function Steps(blocks: seq<Block>): (r: nat)
    requires Walkable(blocks)
  {
    |Joined(Content, blocks)| + |blocks| - 1
  }

  /** What the walk meets at a position: a byte of the content, or past the last byte of a block
      none. */
  function Met(blocks: seq<Block>, p: Pos): (r: Option<byte>)
    requires Walkable(blocks) && On(blocks, p)
  {
    if p.index < blocks[p.block].size then Some(blocks[p.block].data[p.index]) else None
  }

  ghost function Walk(blocks: seq<Block>): (r: seq<Option<byte>>)
    requires Walkable(blocks)
  {
    seq(Steps(blocks), n requires n >= 0 => Met(blocks, After(blocks, n)))
  }

  function Somes(s: seq<byte>): (r: seq<Option<byte>>) {
    seq(|s|, i requires 0 <= i < |s| => Some(s[i]))
  }

  /** The content with a stop after each block but the last. */
  function Marked(blocks: seq<Block>): (r: seq<Option<byte>>)
    requires Walkable(blocks)
    ensures |r| == |Joined(Content, blocks)| + |blocks| - 1
  {
    if |blocks| == 1 then JoinedSingle(Content, blocks[0]); assert blocks == [blocks[0]]; Somes(blocks[0].Readable())
    else Somes(blocks[0].Readable()) + [None] + Marked(blocks[1..])
  }

  lemma RankRest(blocks: seq<Block>, p: Pos, q: Pos)
    requires Walkable(blocks) && On(blocks, p) && p != Last(blocks) && p.block > 0 && q == Pos(p.block - 1, p.index)
    ensures Walkable(blocks[1..]) && On(blocks[1..], q) && q != Last(blocks[1..])
    ensures Rank(blocks, p) == |blocks[0].Readable()| + 1 + Rank(blocks[1..], q)
    ensures Met(blocks, p) == Met(blocks[1..], q)
  {
    assert blocks[..p.block][1..] == blocks[1..][..p.block - 1];
  }

  lemma {:induction false} MarkedAt(blocks: seq<Block>, p: Pos)
    requires Walkable(blocks) && On(blocks, p) && p != Last(blocks)
    ensures Rank(blocks, p) < |Marked(blocks)| && Marked(blocks)[Rank(blocks, p)] == Met(blocks, p)
    decreases blocks
  {
    if p.block == 0 {
      assert blocks[..0] == [];
    } else {
      var q := Pos(p.block - 1, p.index);
      RankRest(blocks, p, q);
      MarkedAt(blocks[1..], q);
    }
  }

  /** The walk meets the bytes of the content in order, and nothing once after each block but the
      last. */
  lemma WalkMeets(blocks: seq<Block>)
    requires Walkable(blocks)
    ensures Walk(blocks) == Marked(blocks)
  {
    forall n: nat | n < Steps(blocks) ensures Walk(blocks)[n] == Marked(blocks)[n] {
      WalkLength(blocks, n);
      MarkedAt(blocks, After(blocks, n));
    }
  }

  /** So it meets exactly the content when, and only when, that lies in one block. */
  lemma WalkIsContent(blocks: seq<Block>)
    requires Walkable(blocks)
    ensures Walk(blocks) == Somes(Joined(Content, blocks)) <==> |blocks| == 1
  {
    WalkMeets(blocks);
    if |blocks| == 1 {
      assert blocks == [blocks[0]];
      JoinedSingle(Content, blocks[0]);
    }
  }

  /** The blocks from `read` to `write`. */
  ghost function Held(g: Layout): (r: seq<Block>)
    requires g.Ok() && g.blocks[g.w].Some?
    ensures Walkable(r) && |r| == g.w + 1
  {
    assert forall i :: 0 <= i <= g.w ==> Fits(g.blocks[i], i, g.w);
    seq(g.w + 1, i requires 0 <= i <= g.w => assert Fits(g.blocks[i], i, g.w); g.blocks[i].value)
  }

  class BufferIterator {
    const list: CacheList
    var iter: Node
    var index: nat

    ghost predicate At(g: Layout, p: Pos)
      reads this, list, g.nodes
    {
      && list.Is(g) && g.blocks[g.w].Some? && On(Held(g), p)
      && iter == g.nodes[p.block] && index == p.index
    }

    constructor Begin(list: CacheList, ghost g: Layout)
      requires list.Is(g) && g.blocks[g.w].Some?
      ensures this.list == list && At(g, First(Held(g)))
    {
      assert Fits(g.blocks[0], 0, g.w);
      this.list := list;
      iter := list.read;
      index := list.read.cache.value.misalign;
    }

    constructor End(list: CacheList, ghost g: Layout)
      requires list.Is(g) && g.blocks[g.w].Some?
      ensures this.list == list && At(g, Last(Held(g)))
    {
      assert Fits(g.blocks[g.w], g.w, g.w);
      this.list := list;
      iter := list.write;
      index := list.write.cache.value.size;
    }

    /** The byte at the position, or, past the last byte of a block, whatever lies there; `stray` is
        what lies behind the memory of a block. */
    method Get(ghost g: Layout, ghost p: Pos, stray: byte) returns (b: byte)
      requires At(g, p)
      ensures b == Letter(Held(g), p, stray)
    {
      assert Fits(g.blocks[p.block], p.block, g.w);
      b := if index < |iter.cache.value.data| then iter.cache.value.data[index] else stray;
    }

    method Advance(ghost g: Layout, ghost p: Pos)
      requires At(g, p)
      modifies this
      ensures At(g, Next(Held(g), p))
    {
      assert Fits(g.blocks[p.block], p.block, g.w) && Fits(g.blocks[g.w], g.w, g.w);
      Unique(g.nodes, g.w);
      if iter == list.write && index == list.write.cache.value.size {
        return;
      }
      index := index + 1;
      if index > iter.cache.value.size {
        assert Fits(g.blocks[p.block + 1], p.block + 1, g.w);
        iter := iter.next;
        index := iter.cache.value.misalign;
      }
    }

    method AtEnd(ghost g: Layout, ghost p: Pos) returns (b: bool)
      requires At(g, p)
      ensures b == (p == Last(Held(g)))
    {
      assert Fits(g.blocks[g.w], g.w, g.w);
      Unique(g.nodes, g.w);
      b := iter == list.write && index == list.write.cache.value.size;
    }
  }

  /** What the iterator finds at a position. */
  function Letter(blocks: seq<Block>, p: Pos, stray: byte): (r: byte)
    requires Walkable(blocks) && On(blocks, p)
    ensures Met(blocks, p).Some? ==> r == Met(blocks, p).value
  {
    if p.index < |blocks[p.block].data| then blocks[p.block].data[p.index] else stray
  }

  /** The letters the walk comes by: `strays` says what lies behind a block's memory, each time it is
      looked at. */
  ghost function Letters(blocks: seq<Block>, strays: nat -> byte): (r: seq<byte>)
    requires Walkable(blocks)
    ensures |r| == Steps(blocks)
  {
    seq(Steps(blocks), n requires n >= 0 => Letter(blocks, After(blocks, n), strays(n)))
  }

  /** `text` is what the walk comes by. */
  ghost predicate Reads(text: seq<byte>, blocks: seq<Block>, strays: nat -> byte)
    requires Walkable(blocks)
  {
    && |text| == Steps(blocks)
    && forall n {:trigger text[n]} :: 0 <= n < |text| ==> text[n] == Letter(blocks, After(blocks, n), strays(n))
  }

  lemma LetterOfOne(block: Block, n: nat, stray: byte)
    requires block.Ok() && n < block.ReadableSize()
    ensures Letter([block], After([block], n), stray) == block.Readable()[n]
  {
    var blocks := [block];
    JoinedSingle(Content, block);
    WalkLength(blocks, n);
    assert blocks[..0] == [];
    assert After(blocks, n) == Pos(0, block.misalign + n);
  }

  /** On one block it is the content. */
  lemma ReadsOne(text: seq<byte>, block: Block, strays: nat -> byte)
    requires block.Ok() && Reads(text, [block], strays)
    ensures text == block.Readable()
  {
    JoinedSingle(Content, block);
    forall n | 0 <= n < |text| ensures text[n] == block.Readable()[n] {
      LetterOfOne(block, n, strays(n));
    }
  }

  /** The content is what the blocks hold together. */
  lemma {:induction false} HeldContent(g: Layout, n: nat)
    requires g.Ok() && g.blocks[g.w].Some? && n <= g.w + 1
    ensures Joined(Content, Held(g)[..n]) == Joined(View, g.blocks[..n])
  {
    if n == 0 {
      assert Held(g)[..0] == [] && g.blocks[..0] == [];
    } else {
      HeldContent(g, n - 1);
      JoinedSnoc(Content, Held(g), n - 1);
      JoinedSnoc(View, g.blocks, n - 1);
      assert Fits(g.blocks[n - 1], n - 1, g.w);
    }
  }

  /** The iterator is `n` steps from the first byte. */
  ghost predicate Stands(i: BufferIterator, g: Layout, n: nat)
    reads i, i.list, g.nodes
  {
    i.list.Is(g) && g.blocks[g.w].Some? && i.At(g, After(Held(g), n))
  }

  /** One step on, and whether that is the end. */
  method StepOn(i: BufferIterator, ghost g: Layout, ghost n: nat) returns (end: bool)
    requires Stands(i, g, n)
    modifies i
    ensures Stands(i, g, n + 1) && end == (n + 1 >= Steps(Held(g)))
  {
    WalkLength(Held(g), n + 1);
    i.Advance(g, After(Held(g), n));
    end := i.AtEnd(g, After(Held(g), n + 1));
  }

  method Look(i: BufferIterator, ghost g: Layout, n: nat, strays: nat -> byte, ghost text: seq<byte>) returns (b: byte)
    requires Stands(i, g, n) && Reads(text, Held(g), strays) && n < |text|
    ensures b == text[n]
  {
    b := i.Get(g, After(Held(g), n), strays(n));
  }

  /** Compares the letter at a place that is not the end, if there is one to compare it with, and goes
      on if they agree. */
  method Compare(i: BufferIterator, ghost g: Layout, n: nat, strays: nat -> byte, ghost text: seq<byte>, with: Option<byte>)
    returns (agrees: bool, end: bool)
    requires Stands(i, g, n) && Reads(text, Held(g), strays) && n < |text|
    modifies i
    ensures agrees == (with.None? || with.value == text[n])
    ensures Stands(i, g, if agrees then n + 1 else n) && end == (agrees && n + 1 == |text|)
  {
    var letter := Look(i, g, n, strays, text);
    agrees, end := with.None? || with.value == letter, false;
    if agrees {
      end := StepOn(i, g, n);
    }
  }

  /** One round of the search, at a place that is not the end. */
  method Round(i: BufferIterator, ghost g: Layout, pattern: seq<byte>, next: seq<int>, strays: nat -> byte,
               ghost text: seq<byte>, pos: nat, j: int)
    returns (pos': nat, j': int, end: bool)
    requires Stands(i, g, pos) && Reads(text, Held(g), strays) && Kmp.Table(pattern, next, |pattern|)
    requires Kmp.Scanning(text, pattern, pos, j) && pos < |text| && j < |pattern|
    modifies i
    ensures Stands(i, g, pos') && Kmp.Scanning(text, pattern, pos', j') && end == (pos' == |text|)
    ensures pos <= pos' && 2 * pos' - j' > 2 * pos - j
  {
    var agrees;
    agrees, end := Compare(i, g, pos, strays, text, if j == -1 then None else Some(pattern[j]));
    Kmp.ScanStep(text, pattern, next, pos, j);
    pos', j' := if agrees then pos + 1 else pos, if agrees then j + 1 else next[j];
  }

  /** Moves the iterator until the pattern has been matched in the text, or to the end. */
  method Scan(i: BufferIterator, ghost g: Layout, pattern: seq<byte>, next: seq<int>, strays: nat -> byte,
              ghost text: seq<byte>)
    returns (j: int, pos: nat)
    requires Stands(i, g, 0) && Reads(text, Held(g), strays) && Kmp.Table(pattern, next, |pattern|)
    modifies i
    ensures Stands(i, g, pos) && Kmp.Scanning(text, pattern, pos, j) && (pos == |text| || j == |pattern|)
  {
    j, pos := 0, 0;
    var end := IsEnd(i, g);
    while !end && j < |pattern|
      invariant Stands(i, g, pos) && Kmp.Scanning(text, pattern, pos, j) && end == (pos == |text|)
      decreases 2 * (|text| - pos) + j + 1
    {
      pos, j, end := Round(i, g, pattern, next, strays, text, pos, j);
    }
  }

  /** Whether there is nothing to walk over. */
  method IsEnd(i: BufferIterator, ghost g: Layout) returns (end: bool)
    requires Stands(i, g, 0)
    ensures end == (Steps(Held(g)) == 0)
  {
    WalkLength(Held(g), 0);
    end := i.AtEnd(g, After(Held(g), 0));
  }

  /** The search of the buffer. It stops just past the first occurrence among the letters the walk
      comes by, or at the end; these are the content if that lies in one block. */
  method Find(b: Buffer, pattern: seq<byte>, past: byte, strays: nat -> byte) returns (i: BufferIterator, ghost pos: nat)
    requires b.Valid() && b.g.blocks[b.g.w].Some?
    ensures pos <= Steps(Held(b.g)) && i.At(b.g, After(Held(b.g), pos))
    ensures |pattern| > |b.Bytes()| ==> pos == Steps(Held(b.g))
    ensures |pattern| <= |b.Bytes()| ==> Kmp.FirstEnd(Letters(Held(b.g), strays), pattern, pos)
    ensures b.g.w == 0 ==> Kmp.FirstEnd(b.Bytes(), pattern, pos)
  {
    ghost var g, blocks := b.g, Held(b.g);
    WalkLength(blocks, Steps(blocks));
    HeldContent(g, g.w + 1);
    assert blocks[..g.w + 1] == blocks;
    if g.w == 0 {
      assert blocks == [blocks[0]];
      JoinedSingle(Content, blocks[0]);
      ReadsOne(Letters(blocks, strays), blocks[0], strays);
    }
    if |pattern| > b.totalLen {
      i := new BufferIterator.End(b.chain, g);
      return i, Steps(blocks);
    }
    var nextVal, _ := Kmp.GetNext(pattern, past);
    i := new BufferIterator.Begin(b.chain, g);
    var j, at := Scan(i, g, pattern, nextVal[..|pattern|], strays, Letters(blocks, strays));
    Kmp.ScanDone(Letters(blocks, strays), pattern, at, j);
    pos := at;
    if j < |pattern| {
      i := new BufferIterator.End(b.chain, g);
      pos := Steps(blocks);
    }
  }

  // Where that goes wrong.

  lemma LetterOfTwo(a: Block, b: Block, n: nat, stray: byte)
    requires a.Ok() && b.Ok() && a.size < |a.data| && n < a.ReadableSize() + 1 + b.ReadableSize()
    ensures Letter([a, b], After([a, b], n), stray) == (a.Readable() + [a.data[a.size]] + b.Readable())[n]
  {
    PosOfTwo(a, b, n);
    ThreeParts(a.Readable(), a.data[a.size], b.Readable(), n);
  }

  lemma ThreeParts<T>(x: seq<T>, y: T, z: seq<T>, n: nat)
    requires n <= |x| + |z|
    ensures (x + [y] + z)[n] == if n < |x| then x[n] else if n == |x| then y else z[n - |x| - 1]
  {
  }

  lemma PosOfTwo(a: Block, b: Block, n: nat)
    requires a.Ok() && b.Ok() && n < a.ReadableSize() + 1 + b.ReadableSize()
    ensures var p := After([a, b], n);
            && On([a, b], p)
            && (p.block == 0 ==> p.index == a.misalign + n <= a.size)
            && (p.block == 1 ==> p.index == b.misalign + n - a.ReadableSize() - 1 && p.index < b.size)
  {
    var blocks := [a, b];
    TwoContents(a, b);
    WalkLength(blocks, n);
    assert blocks[..0] == [] && blocks[..1] == [a];
    JoinedSingle(Content, a);
  }

  lemma TwoContents(a: Block, b: Block)
    ensures Joined(Content, [a, b]) == Content(a) + Content(b)
  {
    assert [a, b][1..] == [b];
    JoinedSingle(Content, b);
  }

  /** On two blocks a letter that is not of the content comes in between. */
  lemma ReadsTwo(text: seq<byte>, a: Block, b: Block, strays: nat -> byte)
    requires a.Ok() && b.Ok() && a.size < |a.data| && Reads(text, [a, b], strays)
    ensures text == a.Readable() + [a.data[a.size]] + b.Readable()
  {
    TwoContents(a, b);
    forall n | 0 <= n < |text| ensures text[n] == (a.Readable() + [a.data[a.size]] + b.Readable())[n] {
      LetterOfTwo(a, b, n, strays(n));
    }
  }

  function Ones(n: nat): (r: seq<byte>)
    ensures |r| == n
  {
    seq(n, _ => 1)
  }

  lemma NotAmong(text: seq<byte>, unused: byte)
    requires unused != 1 && unused != 2 && text == Ones(4095) + [unused] + [2, 3]
    ensures forall s :: !Kmp.Occurs(text, [1, 2], s)
  {
    forall s | 0 <= s < |text| - 1 ensures !Kmp.Occurs(text, [1, 2], s) {
      assert text[s] == text[s..s + 2][0] && text[s + 1] == text[s..s + 2][1];
    }
  }

  lemma AcrossBlocks(content: seq<byte>)
    requires content == Ones(4095) + [2, 3]
    ensures Kmp.Occurs(content, [1, 2], 4094) && Kmp.FirstEnd(content, [1, 2], 4096)
  {
    assert content[4094..4096] == [1, 2];
    forall s | 0 <= s < 4094 ensures !Kmp.Occurs(content, [1, 2], s) {
      assert content[s + 1] == content[s..s + 2][1];
    }
  }

  /** A buffer given 4095 bytes and then two more has them in two blocks, and one unused byte in the
      first. Unless that happens to be 1 or 2, a search over the boundary finds nothing, though what
      it looks for is there. */
  lemma SearchMisses(unused: byte, rest: seq<byte>, strays: nat -> byte, text: seq<byte>)
    requires unused != 1 && unused != 2 && |rest| == MIN_TO_ALLOC - 2
    requires Reads(text, [Block(Ones(4095) + [unused], 4095, 0), Block([2, 3] + rest, 2, 0)], strays)
    ensures var content := Joined(Content, [Block(Ones(4095) + [unused], 4095, 0), Block([2, 3] + rest, 2, 0)]);
            Kmp.FirstEnd(content, [1, 2], 4096) && |content| == 4097
    ensures Kmp.FirstEnd(text, [1, 2], |text|) && forall s :: !Kmp.Occurs(text, [1, 2], s)
  {
    var a, b := Block(Ones(4095) + [unused], 4095, 0), Block([2, 3] + rest, 2, 0);
    assert a.Readable() == Ones(4095) && b.Readable() == [2, 3];
    TwoContents(a, b);
    ReadsTwo(text, a, b, strays);
    NotAmong(text, unused);
    AcrossBlocks(Ones(4095) + [2, 3]);
  }

  /** The two blocks of such a buffer, in new memory. */
  function Leading(): (r: Block) {
    Block(Ones(4095) + [0], 4095, 0)
  }

  function Trailing(): (r: Block) {
    Block([2, 3] + seq(4094, _ => 0), 2, 0)
  }

  lemma FirstAdded()
    ensures Shape([None], 0)
    ensures var added := Added([None], 0, Ones(4095)); added.0 == [Some(Leading())] && added.1 == 0
  {
    assert Rounded(4095) == MIN_TO_ALLOC;
    assert NewBlock(MIN_TO_ALLOC).Append(Ones(4095)).data == Leading().data;
    assert Checked([None], 0, 4095).0 == [Some(NewBlock(MIN_TO_ALLOC))];
  }

  lemma SecondReady(blocks: seq<Slot>)
    requires blocks == [Some(Leading())]
    ensures Shape(blocks, 0)
    ensures var ready := Checked(blocks, 0, 2);
            ready.0 == [Some(Leading()), Some(NewBlock(MIN_TO_ALLOC))] && ready.1 == 1
  {
    assert Rounded(2) == MIN_TO_ALLOC;
    assert !Leading().CanRealign(2) && !Leading().Empty();
    var next := NextWrite(blocks, 0);
    assert next.0 == blocks + [None] && next.1 == 1;
  }

  lemma SecondAdded(blocks: seq<Slot>)
    requires blocks == [Some(Leading())]
    ensures Shape(blocks, 0)
    ensures var added := Added(blocks, 0, [2, 3]); added.0 == [Some(Leading()), Some(Trailing())] && added.1 == 1
  {
    SecondReady(blocks);
    assert NewBlock(MIN_TO_ALLOC).Append([2, 3]).data == Trailing().data;
  }

  method OneAdd() returns (b: Buffer)
    ensures fresh(b) && fresh(b.chain) && fresh(b.g.nodes) && b.Valid() && |b.Bytes()| == 4095
    ensures b.g.blocks == [Some(Leading())] && b.g.w == 0
  {
    FirstAdded();
    b := new Buffer(0);
    var _ := b.Add(Ones(4095));
  }

  method TwoAdds() returns (b: Buffer)
    ensures b.Valid() && b.g.blocks == [Some(Leading()), Some(Trailing())] && b.g.w == 1
  {
    b := OneAdd();
    SecondAdded(b.g.blocks);
    var _ := b.Add([2, 3]);
  }

  /** So the search fails on that buffer. */
  method SearchFails(past: byte, strays: nat -> byte) returns (b: Buffer, i: BufferIterator)
    ensures b.Valid() && b.g.blocks[b.g.w].Some? && Kmp.Occurs(b.Bytes(), [1, 2], 4094)
    ensures i.At(b.g, Last(Held(b.g)))
  {
    b := TwoAdds();
    ghost var blocks, pos := Held(b.g), 0;
    assert blocks == [Leading(), Trailing()];
    HeldContent(b.g, 2);
    SearchMisses(0, seq(4094, _ => 0), strays, Letters(blocks, strays));
    i, pos := Find(b, [1, 2], past, strays);
    WalkLength(blocks, pos);
  }
}
