/** The byte buffer over the ring of blocks, as one simple byte queue. */
module Buffers {
  import opened Flattening
  import opened Blocks
  import opened Chain
  import opened Layouts
  import opened CacheLists

  const WRITE_IOVEC: nat := 128

  class Buffer {
    const chain: CacheList
    var totalLen: nat
    var maxRead: nat
    ghost var g: Layout

    ghost predicate Valid()
      reads this, chain, g.nodes
    {
      chain.Valid(g) && totalLen == |g.Content()|
    }

    /** The queue of bytes this buffer stands for. */
    ghost function Bytes(): (r: seq<byte>)
      requires Valid()
      reads this, chain, g.nodes
    {
      g.Content()
    }

    /** The first node of the list is still on the ring, as `Reset` takes for granted. */
    ghost predicate HeadOnRing()
      reads this, chain
    {
      chain.head in g.nodes
    }

    /** Two buffers with no node in common. */
    ghost predicate Apart(other: Buffer)
      reads this, other
    {
      chain != other.chain && NoShared(g.nodes, other.g.nodes)
    }

    constructor (max: nat)
      ensures Valid() && HeadOnRing() && Bytes() == [] && fresh(chain) && fresh(g.nodes) && maxRead == max
      ensures g == Layout([chain.head], [None], 0) && chain.nodeSize == 1
    {
      chain := new CacheList();
      totalLen, maxRead := 0, max;
      new;
      g := Layout([chain.head], [None], 0);
    }

    method ClearAll()
      requires Valid() && HeadOnRing()
      modifies this`totalLen, this`g, chain`read, chain`write, chain`nodeSize, g.nodes
      ensures Valid() && HeadOnRing() && Bytes() == [] && NoForeign(old(g), g)
    {
      ghost var l := chain.Reset(g);
      Adopt(0, l);
    }

    /** Drops the first `n` bytes, or all there are. Dropping all of them rebuilds the ring
        around `head`. */
    method Skip(n: nat)
      requires Valid() && (n >= totalLen ==> HeadOnRing())
      modifies this`totalLen, this`g, chain, g.nodes
      ensures Valid() && Bytes() == old(Bytes())[Min(n, |old(Bytes())|)..] && NoForeign(old(g), g)
      ensures chain.head == old(chain.head)
      ensures HeadOnRing() <==> n >= |old(Bytes())| || Stays(old(g), old(chain.nodeSize), chain.head, n)
      ensures n < |old(Bytes())| ==> DrainedBy(old(g), old(chain.nodeSize), n)
    {
      if n >= totalLen {
        ClearAll();
      } else {
        DrainChain(n);
      }
    }

    /** The ring is what a drain of `n` bytes leaves. */
    ghost predicate DrainedBy(was: Layout, size: nat, n: nat)
      requires was.Ok()
      reads this, chain
    {
      var k := Emptied(was.blocks, 0, was.w, n);
      && g.nodes == Rest(was.nodes, k, size) && g.w == was.w - k && |g.blocks| == |g.nodes|
      && chain.nodeSize - |g.nodes| == size - |was.nodes| && KeptFrom(was.blocks, g.blocks, k, was.w)
    }

    /** Drops `n` bytes. `head` is lost exactly if the chain counts more than `MAX_CHAIN_SIZE` nodes
        and `head` is one of those emptied, but not the first. */
    method DrainChain(n: nat)
      requires Valid() && Bytes() != [] && n <= |Bytes()|
      modifies this`totalLen, this`g, chain`read, chain`nodeSize, g.nodes
      ensures Valid() && Bytes() == old(Bytes())[n..] && NoForeign(old(g), g)
      ensures HeadOnRing() <==> Stays(old(g), old(chain.nodeSize), chain.head, n)
      ensures DrainedBy(old(g), old(chain.nodeSize), n)
    {
      ghost var l, k;
      RestWithin(g.nodes, Emptied(g.blocks, 0, g.w, n), chain.nodeSize);
      l, k := chain.Drain(n, g);
      Adopt(totalLen - n, l);
    }

    /** Adds bytes at the end, unless that would take the length over `MAX_SIZE`. */
    method Add(bytes: seq<byte>) returns (ok: bool)
      requires Valid()
      modifies this`totalLen, this`g, chain, g.nodes
      ensures Valid() && ok == (|old(Bytes())| + |bytes| <= MAX_SIZE)
      ensures Bytes() == if ok then old(Bytes()) + bytes else old(Bytes())
      ensures (g.blocks, g.w) == if ok then Added(old(g).blocks, old(g).w, bytes) else (old(g).blocks, old(g).w)
      ensures Grown(old(g), g) && chain.head == old(chain.head)
      ensures chain.nodeSize - |g.nodes| == old(chain.nodeSize) - |old(g).nodes|
    {
      if totalLen + |bytes| > MAX_SIZE {
        return false;
      }
      ghost var l := chain.Put(bytes, g);
      Adopt(totalLen + |bytes|, l);
      return true;
    }

    /** Moves the first bytes into `dest`, at most `length`, and says how many. */
    method Remove(dest: array<byte>, length: nat) returns (n: nat)
      requires Valid() && Min(length, totalLen) <= dest.Length
      modifies this`totalLen, this`g, chain, g.nodes, dest
      ensures Valid() && n == Min(length, |old(Bytes())|) && NoForeign(old(g), g)
      ensures dest[..n] == old(Bytes())[..n] && Bytes() == old(Bytes())[n..]
      ensures dest[n..] == old(dest[n..]) && chain.head == old(chain.head)
      ensures HeadOnRing() <==> if n == 0 then old(HeadOnRing()) else Stays(old(g), old(chain.nodeSize), chain.head, n)
    {
      if length == 0 || totalLen == 0 {
        return 0;
      }
      n := Min(length, totalLen);
      chain.CopyOut(dest, n, g);
      DrainChain(n);
    }

    /** Moves all bytes of another buffer to the end of this one. What is spliced is each ring from
        `read` to `write`: the other keeps its spare nodes, and this one loses its own, `head` with
        them if that is spare. */
    method Append(other: Buffer)
      requires Valid() && other.Valid() && (other == this || Apart(other))
      modifies this`totalLen, this`g, chain, g.nodes, other`totalLen, other`g, other.chain, other.g.nodes
      ensures Valid() && other.Valid()
      ensures other == this || old(other.totalLen) == 0 ==>
                unchanged(this) && unchanged(other) && unchanged(chain) && unchanged(other.chain)
      ensures other != this ==> Bytes() == old(Bytes()) + old(other.Bytes()) && other.Bytes() == [] && Apart(other)
      ensures other != this && old(other.totalLen) > 0 ==>
                if old(totalLen) == 0 then Exchanged(other)
                else
                  && Spliced(old(g), old(chain.nodeSize), old(other.g)) && chain.head == old(chain.head)
                  && Leaves(old(other.g), old(other.chain.nodeSize), other.g, other.chain.nodeSize) && other.HeadOnRing()
      ensures other != this && old(totalLen) > 0 ==> NoForeign(old(other.g), other.g)
    {
      if other.totalLen == 0 || other == this {
        return;
      }
      if totalLen == 0 {
        TakeOver(other);
      } else {
        SpliceOn(other);
      }
    }

    /** The rings have changed places. */
    twostate predicate Exchanged(other: Buffer)
      reads this, chain, other, other.chain
    {
      && g == old(other.g) && other.g == old(g) && chain.head == old(other.chain.head) && other.chain.head == old(chain.head)
      && chain.nodeSize == old(other.chain.nodeSize) && other.chain.nodeSize == old(chain.nodeSize)
    }

    /** The stretches from `read` to `write` of `mine`, in a list that counted `size` nodes, and of
        `theirs` have become one ring. */
    ghost predicate Spliced(mine: Layout, size: nat, theirs: Layout)
      reads this, chain
    {
      && Joins(mine, theirs, g)
      && chain.nodeSize - |g.nodes| == size - (mine.w + 1)
    }

    /** An empty buffer takes the other's list over whole. */
    method TakeOver(other: Buffer)
      requires Valid() && other.Valid() && other != this && Apart(other) && totalLen == 0
      modifies this`totalLen, this`g, chain, other`totalLen, other`g, other.chain
      ensures Valid() && other.Valid() && Apart(other) && Exchanged(other)
    {
      NoSharedSwap(g.nodes, other.g.nodes);
      ghost var mine, theirs := other.g, g;
      chain.Swap(other.chain, g, other.g);
      AdoptBoth(other.totalLen, mine, other, 0, theirs);
    }

    /** Otherwise the other's list is spliced on. */
    method SpliceOn(other: Buffer)
      requires Valid() && other.Valid() && other != this && Apart(other) && totalLen > 0 && other.totalLen > 0
      modifies this`totalLen, this`g, chain, g.nodes, other`totalLen, other`g, other.chain, other.g.nodes
      ensures Valid() && other.Valid() && Apart(other) && NoForeign(old(other.g), other.g)
      ensures Bytes() == old(Bytes()) + old(other.Bytes()) && other.Bytes() == []
      ensures Spliced(old(g), old(chain.nodeSize), old(other.g)) && chain.head == old(chain.head)
      ensures Leaves(old(other.g), old(other.chain.nodeSize), other.g, other.chain.nodeSize) && other.HeadOnRing()
    {
      ghost var mine, theirs := chain.Append(other.chain, g, other.g);
      AdoptBoth(totalLen + other.totalLen, mine, other, 0, theirs);
    }

    /** The list has changed to the layout `l`, holding `len` bytes. */
    method Adopt(len: nat, ghost l: Layout)
      requires chain.Valid(l) && len == |l.Content()|
      modifies this`totalLen, this`g
      ensures Valid() && g == l
    {
      totalLen, g := len, l;
    }

    method AdoptBoth(len: nat, ghost l: Layout, other: Buffer, otherLen: nat, ghost m: Layout)
      requires other != this && chain.Valid(l) && len == |l.Content()|
      requires other.chain.Valid(m) && otherLen == |m.Content()|
      modifies this`totalLen, this`g, other`totalLen, other`g
      ensures Valid() && g == l && other.Valid() && other.g == m
    {
      Adopt(len, l);
      other.Adopt(otherLen, m);
    }

    /** A scatter read: `pending` bytes are announced by the socket (0 when it cannot tell) and
        `arrived` is what it has. Takes all of it, or as much as the offered blocks hold, which is as much
        as is announced, or as `howmuch` if that is less. */
    method Read(pending: nat, howmuch: nat, arrived: seq<byte>) returns (n: nat)
      requires Valid()
      modifies this`totalLen, this`g, chain, g.nodes
      ensures Valid() && n <= |arrived| && Bytes() == old(Bytes()) + arrived[..n]
      ensures n == |arrived| || n >= (if pending == 0 then old(maxRead) else pending) || (howmuch != 0 && n >= howmuch)
      ensures n == Min(|arrived|, old(g).RoomFor(Wanted(pending, howmuch, old(maxRead))))
      ensures Grown(old(g), g) && chain.head == old(chain.head)
    {
      ghost var l;
      n, l := chain.ReadIn(Wanted(pending, howmuch, maxRead), arrived, g);
      Adopt(totalLen + n, l);
    }

    /** What a gather write gives the socket: all that is asked for, or all that the first
        `WRITE_IOVEC` blocks hold. */
    method Given(howmuch: nat) returns (given: seq<byte>)
      requires Valid()
      ensures given == Bytes()[..Min(if howmuch == 0 then |Bytes()| else howmuch, g.Held(WRITE_IOVEC))]
    {
      var total := if howmuch == 0 then totalLen else howmuch;
      total := Min(total, totalLen);
      var iov := chain.Gather(total, WRITE_IOVEC, g);
      given := Joined(x => x, iov);
    }

    /** A gather write: the socket accepts `accepted` bytes, if it is given as many. It is given all
        that is asked for, or all that the first `WRITE_IOVEC` blocks hold. */
    method Write(howmuch: nat, accepted: nat) returns (n: nat, sent: seq<byte>)
      requires Valid()
      modifies this`totalLen, this`g, chain, g.nodes
      ensures Valid() && n == |sent| && old(Bytes()) == sent + Bytes() && NoForeign(old(g), g)
      ensures n == Min(accepted, Min(if howmuch == 0 then |old(Bytes())| else howmuch, old(g).Held(WRITE_IOVEC)))
      ensures chain.head == old(chain.head)
      ensures HeadOnRing() <==> if n == 0 then old(HeadOnRing()) else Stays(old(g), old(chain.nodeSize), chain.head, n)
    {
      var given := Given(howmuch);
      n := Min(accepted, |given|);
      sent := given[..n];
      assert Bytes() == sent + Bytes()[n..];
      if n > 0 {
        DrainChain(n);
      }
    }

    method Move(other: Buffer)
      requires Valid() && other.Valid() && other != this && chain != other.chain
      modifies this, other, chain, other.chain
      ensures Valid() && other.Valid() && Bytes() == old(other.Bytes()) && other.Bytes() == old(Bytes()) && Exchanged(other)
      ensures maxRead == old(other.maxRead) && other.maxRead == old(maxRead)
    {
      ghost var mine, theirs := other.g, g;
      chain.Swap(other.chain, g, other.g);
      AdoptBoth(other.totalLen, mine, other, totalLen, theirs);
      maxRead, other.maxRead := other.maxRead, maxRead;
    }
  }

  /** How many bytes a read asks room for: as many as are announced, `maxRead` if none are,
      and no more than `howmuch`, unless that is 0. */
  function Wanted(pending: nat, howmuch: nat, maxRead: nat): (r: nat)
    ensures var announced := if pending == 0 then maxRead else pending;
            && r <= announced && (howmuch != 0 ==> r <= howmuch)
            && (r == announced || (howmuch != 0 && r == howmuch))
  {
    var readable := if pending == 0 then maxRead else pending;
    if howmuch == 0 || howmuch > readable then readable else howmuch
  }
}
