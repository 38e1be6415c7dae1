/** One block of the buffer: misaligned (drained) bytes, content, and room to write. */
module Blocks {
  import opened Flattening

  const MAX_TO_REALIGN: nat := 2048
  const MIN_TO_ALLOC: nat := 4096
  const MAX_TO_ALLOC: nat := 4096 * 16
  const MAX_SIZE: nat := 0xffffffff
  const MAX_CHAIN_SIZE: nat := 16

  function Min(a: nat, b: nat): (r: nat) {
    if a <= b then a else b
  }

  function Pow2(k: nat): (r: nat)
    ensures r > 0
  {
    if k == 0 then 1 else 2 * Pow2(k - 1)
  }

  function Doubled(size: nat, n: nat): (r: nat)
    requires size > 0
    ensures r >= size && r >= n
    decreases n - size
  {
    if size >= n then size else Doubled(2 * size, n)
  }

  /** Block sizes, by doubling. */
  function Rounded(n: nat): (r: nat)
    ensures r >= n
  {
    if n < MAX_SIZE / 2 then Doubled(MIN_TO_ALLOC, n) else n
  }

  /** Block sizes: the least `MIN_TO_ALLOC * 2^k` that holds `n`, or `n` itself when huge. */
  method RoundUp(n: nat) returns (size: nat)
    ensures size == Rounded(n) && size >= n && size >= MIN_TO_ALLOC
    ensures n >= MAX_SIZE / 2 ==> size == n
    ensures n < MAX_SIZE / 2 ==>
              exists k: nat :: size == MIN_TO_ALLOC * Pow2(k) && (k > 0 ==> MIN_TO_ALLOC * Pow2(k - 1) < n)
  {
    size := MIN_TO_ALLOC;
    if n < MAX_SIZE / 2 {
      ghost var k := 0;
      while size < n
        invariant size == MIN_TO_ALLOC * Pow2(k) && Doubled(size, n) == Doubled(MIN_TO_ALLOC, n)
        invariant size >= MIN_TO_ALLOC
        invariant k > 0 ==> MIN_TO_ALLOC * Pow2(k - 1) < n
        decreases n - size
      {
        size := size * 2;
        k := k + 1;
      }
    } else {
      size := n;
    }
  }

  /** The value of a block: its memory, the end of its content and the start of it. */
  datatype Block = Block(data: seq<byte>, size: nat, misalign: nat) {
    predicate Ok() {
      misalign <= size <= |data|
    }

    function Readable(): (r: seq<byte>)
      requires Ok()
    {
      data[misalign..size]
    }

    function Writeable(): (r: seq<byte>)
      requires Ok()
    {
      data[size..]
    }

    function ReadableSize(): (r: nat)
      requires Ok()
      ensures r == |Readable()|
    {
      size - misalign
    }

    function WriteableSize(): (r: nat)
      requires Ok()
      ensures r == |Writeable()|
    {
      |data| - size
    }

    predicate Full() {
      size == |data|
    }

    predicate Empty() {
      size == misalign
    }

    function Clear(): (r: Block)
      requires Ok()
      ensures r.Ok() && r.Readable() == [] && r.Writeable() == data
    {
      Block(data, 0, 0)
    }

    function Drain(n: nat): (r: Block)
      requires Ok() && n <= ReadableSize()
      ensures r.Ok() && r.Readable() == Readable()[n..] && r.Writeable() == Writeable()
    {
      this.(misalign := misalign + n)
    }

    function Add(n: nat): (r: Block)
      requires Ok() && n <= WriteableSize()
      ensures r.Ok() && |r.data| == |data|
      ensures r.Readable() == Readable() + Writeable()[..n] && r.Writeable() == Writeable()[n..]
    {
      this.(size := size + n)
    }

    /** The first bytes of the writeable region overwritten, as a socket read does. */
    function Fill(bytes: seq<byte>): (r: Block)
      requires Ok() && |bytes| <= WriteableSize()
      ensures r.Ok() && |r.data| == |data| && r.size == size && r.misalign == misalign
      ensures r.Readable() == Readable() && r.Writeable() == bytes + Writeable()[|bytes|..]
    {
      this.(data := data[..size] + bytes + data[size + |bytes|..])
    }

    function Append(bytes: seq<byte>): (r: Block)
      requires Ok() && |bytes| <= WriteableSize()
      ensures r.Ok() && |r.data| == |data|
      ensures r.Readable() == Readable() + bytes && r.Writeable() == Writeable()[|bytes|..]
    {
      Fill(bytes).Add(|bytes|)
    }

    predicate CanRealign(n: nat)
      requires Ok()
    {
      WriteableSize() >= n || (WriteableSize() + misalign > n && ReadableSize() <= MAX_TO_REALIGN)
    }

    /** Room for `n` more bytes made in place; the content never changes. */
    function Realign(n: nat): (r: Block)
      requires Ok() && CanRealign(n)
      ensures r.Ok() && |r.data| == |data| && r.Readable() == Readable() && r.WriteableSize() >= n
    {
      if WriteableSize() >= n then this
      else Block(Readable() + data[ReadableSize()..], ReadableSize(), 0)
    }
  }

  /** The readable bytes of a block. */
  function Content(b: Block): (r: seq<byte>) {
    if b.Ok() then b.Readable() else []
  }

  function NewBlock(n: nat): (r: Block)
    ensures r.Ok() && r.Readable() == [] && r.WriteableSize() == n && r.size == 0
  {
    Block(seq(n, _ => 0), 0, 0)
  }

  /** The block as the source keeps it: memory written in place, two offsets moved.
      Every method does to the value of the block what the function of that name says. */
  class Cache {
    const buf: array<byte>
    var size: nat
    var misalign: nat

    ghost predicate Valid()
      reads this
    {
      misalign <= size <= buf.Length
    }

    ghost function Value(): (r: Block)
      requires Valid()
      reads this, buf
      ensures r.Ok()
    {
      Block(buf[..], size, misalign)
    }

    constructor (maxSize: nat)
      ensures Valid() && fresh(buf) && Value() == NewBlock(maxSize)
    {
      buf := new byte[maxSize](_ => 0);
      size := 0;
      misalign := 0;
    }

    method Clear()
      requires Valid()
      modifies this
      ensures Valid() && Value() == old(Value()).Clear()
    {
      size := 0;
      misalign := 0;
    }

    method Drain(n: nat)
      requires Valid() && n <= Value().ReadableSize()
      modifies this
      ensures Valid() && Value() == old(Value()).Drain(n)
    {
      misalign := misalign + n;
    }

    method Add(n: nat)
      requires Valid() && n <= Value().WriteableSize()
      modifies this
      ensures Valid() && Value() == old(Value()).Add(n)
    {
      size := size + n;
    }

    method Fill(bytes: seq<byte>)
      requires Valid() && |bytes| <= Value().WriteableSize()
      modifies buf
      ensures Value() == old(Value()).Fill(bytes)
    {
      ghost var before := buf[..];
      var i := 0;
      while i < |bytes|
        invariant 0 <= i <= |bytes|
        invariant forall j :: 0 <= j < buf.Length ==>
                                buf[j] == if size <= j < size + i then bytes[j - size] else before[j]
      {
        buf[size + i] := bytes[i];
        i := i + 1;
      }
      assert buf[..] == before[..size] + bytes + before[size + |bytes|..];
    }

    /** The copy loop of the base buffer: `Grow` does nothing, so each round copies what fits. */
    method Append(bytes: seq<byte>)
      requires Valid() && |bytes| <= Value().WriteableSize()
      modifies this, buf
      ensures Valid() && Value() == old(Value()).Append(bytes)
    {
      ghost var before := Value();
      assert before.Append([]) == before;
      var begin := 0;
      while begin != |bytes|
        invariant Valid() && (begin == 0 || begin == |bytes|)
        invariant Value() == if begin == |bytes| then before.Append(bytes) else before
        decreases |bytes| - begin
      {
        var count := |bytes| - begin;
        var freeCap := buf.Length - size;
        if freeCap < count {
          count := freeCap;
        }
        assert bytes[begin..begin + count] == bytes;
        Fill(bytes[begin..begin + count]);
        Add(count);
        begin := begin + count;
      }
    }

    /** memmove of `n` bytes to the front: the ranges may overlap, ascending order is safe. */
    method MoveToFront(n: nat)
      requires misalign + n <= buf.Length
      modifies buf
      ensures buf[..] == old(buf[misalign..misalign + n]) + old(buf[n..])
    {
      ghost var before := buf[..];
      for i := 0 to n
        invariant forall j :: 0 <= j < i ==> buf[j] == before[misalign + j]
        invariant forall j :: i <= j < buf.Length ==> buf[j] == before[j]
      {
        buf[i] := buf[misalign + i];
      }
      assert buf[..] == before[misalign..misalign + n] + before[n..];
    }

    method Realign(n: nat) returns (ok: bool)
      requires Valid()
      modifies this, buf
      ensures Valid() && ok == old(Value()).CanRealign(n)
      ensures Value() == if ok then old(Value()).Realign(n) else old(Value())
    {
      var offset := size - misalign;
      if buf.Length - size >= n {
        return true;
      } else if buf.Length - size + misalign > n && offset <= MAX_TO_REALIGN {
        MoveToFront(offset);
        size := offset;
        misalign := 0;
        return true;
      }
      return false;
    }
  }
}
