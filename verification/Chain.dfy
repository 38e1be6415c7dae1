/** The ring of blocks under a buffer: nodes linked both ways, a read and a write cursor. */
module Chain {
  import opened Flattening
  import opened Blocks

  class Node {
    var cache: Option<Block>
    var next: Node?
    var prev: Node?

    constructor ()
      ensures cache == None && next == null && prev == null
    {
      cache, next, prev := None, null, null;
    }
  }

  predicate Differ(a: Node, b: Node) {
    a != b
  }

  ghost predicate Distinct(s: seq<Node>) {
    forall i, j {:trigger Differ(s[i], s[j])} :: 0 <= i < |s| && 0 <= j < |s| && i != j ==> Differ(s[i], s[j])
  }

  ghost predicate NoShared(a: seq<Node>, b: seq<Node>) {
    forall i, j {:trigger Differ(a[i], b[j])} :: 0 <= i < |a| && 0 <= j < |b| ==> Differ(a[i], b[j])
  }

  lemma NoSharedSwap(a: seq<Node>, b: seq<Node>)
    requires NoShared(a, b)
    ensures NoShared(b, a)
  {
    forall i, j | 0 <= i < |b| && 0 <= j < |a| ensures Differ(b[i], a[j]) {
      assert Differ(a[j], b[i]);
    }
  }

  /** The node at position `k` is nowhere else. */
  lemma Unique(s: seq<Node>, k: nat)
    requires Distinct(s) && k < |s|
    ensures forall i :: 0 <= i < |s| && i != k ==> s[i] != s[k]
  {
    forall i | 0 <= i < |s| && i != k ensures s[i] != s[k] {
      assert Differ(s[i], s[k]);
    }
  }

  /** The ends of each sequence are nowhere in the other. */
  lemma Foreign(a: seq<Node>, b: seq<Node>)
    requires NoShared(a, b) && a != [] && b != []
    ensures forall i :: 0 <= i < |a| ==> a[i] != b[0] && a[i] != b[|b| - 1]
    ensures forall i :: 0 <= i < |b| ==> b[i] != a[0] && b[i] != a[|a| - 1]
  {
    forall i | 0 <= i < |a| ensures a[i] != b[0] && a[i] != b[|b| - 1] {
      assert Differ(a[i], b[0]) && Differ(a[i], b[|b| - 1]);
    }
    forall i | 0 <= i < |b| ensures b[i] != a[0] && b[i] != a[|a| - 1] {
      assert Differ(a[0], b[i]) && Differ(a[|a| - 1], b[i]);
    }
  }

  /** Consecutive nodes are linked both ways. */
  ghost predicate Path(nodes: seq<Node>)
    reads nodes`next, nodes`prev
  {
    && (forall i {:trigger nodes[i].next} :: 0 <= i < |nodes| - 1 ==> nodes[i].next == nodes[i + 1])
    && (forall i {:trigger nodes[i].prev} :: 0 < i < |nodes| ==> nodes[i].prev == nodes[i - 1])
  }

  /** `nodes` is a closed ring, `next` and `prev` mutually inverse around it. */
  ghost predicate Ring(nodes: seq<Node>)
    reads nodes`next, nodes`prev
  {
    && |nodes| > 0
    && Distinct(nodes)
    && Path(nodes)
    && nodes[|nodes| - 1].next == nodes[0]
    && nodes[0].prev == nodes[|nodes| - 1]
  }

  lemma RotateRing(nodes: seq<Node>, k: nat)
    requires Ring(nodes) && k < |nodes|
    ensures Ring(nodes[k..] + nodes[..k])
  {
    var n := |nodes|;
    var r := nodes[k..] + nodes[..k];
    forall i, j | 0 <= i < n && 0 <= j < n && i != j ensures Differ(r[i], r[j]) {
      assert Differ(nodes[if i < n - k then i + k else i + k - n], nodes[if j < n - k then j + k else j + k - n]);
    }
    assert forall i :: 0 <= i < |r| ==> r[i] == if i < n - k then nodes[i + k] else nodes[i + k - n];
  }

  /** Puts `tmp` between the last node of the ring and the first. */
  method LinkLast(index: Node, tmp: Node, ghost nodes: seq<Node>)
    requires Ring(nodes) && index == nodes[|nodes| - 1] && tmp !in nodes
    modifies tmp`next, tmp`prev, index`next, {nodes[0]}`prev
    ensures Ring(nodes + [tmp])
  {
    Unique(nodes, 0);
    Unique(nodes, |nodes| - 1);
    tmp.next := index.next;
    tmp.prev := index;
    index.next.prev := tmp;
    index.next := tmp;
    ghost var r := nodes + [tmp];
    forall i, j | 0 <= i < |r| && 0 <= j < |r| && i != j ensures Differ(r[i], r[j]) {
      if i < |nodes| && j < |nodes| {
        assert Differ(nodes[i], nodes[j]);
      }
    }
  }

  /** Takes the second node of the ring off it. */
  method UnlinkSecond(first: Node, ghost nodes: seq<Node>)
    requires Ring(nodes) && |nodes| >= 2 && first == nodes[0]
    modifies nodes`next, nodes`prev
    ensures Ring(nodes[..1] + nodes[2..])
  {
    ghost var left := nodes[..1] + nodes[2..];
    forall i, j | 0 <= i < |left| && 0 <= j < |left| && i != j ensures Differ(left[i], left[j]) {
      assert Differ(nodes[if i == 0 then 0 else i + 1], nodes[if j == 0 then 0 else j + 1]);
    }
    Unique(nodes, 0);
    if |nodes| > 2 {
      Unique(nodes, 2);
    }
    var tmp := first.next;
    assert tmp == nodes[1] && tmp.next == if |nodes| == 2 then nodes[0] else nodes[2];
    tmp.next.prev := first;
    first.next := tmp.next;
    assert forall i :: 0 < i < |left| ==> left[i] == nodes[i + 1];
  }

  lemma JoinPaths(a: seq<Node>, b: seq<Node>)
    requires a != [] && b != [] && Path(a) && Path(b)
    requires a[|a| - 1].next == b[0] && b[0].prev == a[|a| - 1]
    ensures Path(a + b)
  {
  }

  lemma DistinctPart(s: seq<Node>, i: nat)
    requires Distinct(s) && i <= |s|
    ensures Distinct(s[..i]) && Distinct(s[i..]) && NoShared(s[..i], s[i..])
  {
    forall a, b | 0 <= a < i && 0 <= b < i && a != b ensures Differ(s[..i][a], s[..i][b]) {
      assert Differ(s[a], s[b]);
    }
    forall a, b | 0 <= a < |s| - i && 0 <= b < |s| - i && a != b ensures Differ(s[i..][a], s[i..][b]) {
      assert Differ(s[i + a], s[i + b]);
    }
    forall a, b | 0 <= a < i && 0 <= b < |s| - i ensures Differ(s[..i][a], s[i..][b]) {
      assert Differ(s[a], s[i + b]);
    }
  }

  lemma PathPart(s: seq<Node>, i: nat)
    requires Path(s) && i <= |s|
    ensures Path(s[..i]) && Path(s[i..])
  {
  }

  lemma NoSharedPart(a: seq<Node>, b: seq<Node>, i: nat, j: nat)
    requires NoShared(a, b) && i <= |a| && j <= |b|
    ensures NoShared(a[..i], b[..j]) && NoShared(a[..i], b[j..])
  {
    forall x, y | 0 <= x < i && 0 <= y < j ensures Differ(a[..i][x], b[..j][y]) {
      assert Differ(a[x], b[y]);
    }
    forall x, y | 0 <= x < i && 0 <= y < |b| - j ensures Differ(a[..i][x], b[j..][y]) {
      assert Differ(a[x], b[j + y]);
    }
  }

  lemma NoSharedJoin(a: seq<Node>, b: seq<Node>, c: seq<Node>)
    requires NoShared(a, c) && NoShared(b, c)
    ensures NoShared(a + b, c)
  {
    forall x, y | 0 <= x < |a + b| && 0 <= y < |c| ensures Differ((a + b)[x], c[y]) {
      assert x < |a| ==> Differ(a[x], c[y]);
      assert x >= |a| ==> Differ(b[x - |a|], c[y]);
    }
  }

  lemma JoinDistinct(a: seq<Node>, b: seq<Node>)
    requires Distinct(a) && Distinct(b) && NoShared(a, b)
    ensures Distinct(a + b)
  {
    var r := a + b;
    forall i, j | 0 <= i < |r| && 0 <= j < |r| && i != j ensures Differ(r[i], r[j]) {
      if i < |a| {
        assert j < |a| ==> Differ(a[i], a[j]);
        assert j >= |a| ==> Differ(a[i], b[j - |a|]);
      } else {
        assert j < |a| ==> Differ(a[j], b[i - |a|]);
        assert j >= |a| ==> Differ(b[i - |a|], b[j - |a|]);
      }
    }
  }

  /** Two paths to be joined, and what the second one's ring goes on with, of different nodes. */
  ghost predicate Spliceable(a: seq<Node>, b: seq<Node>, rest: seq<Node>)
    reads a`next, a`prev, b`next, b`prev, rest`next, rest`prev
  {
    && a != [] && b != [] && Distinct(a) && Path(a) && Distinct(b) && Path(b) && Distinct(rest) && Path(rest)
    && NoShared(a, b) && NoShared(a, rest) && NoShared(b, rest)
  }

  /** Joins the stretch `a` of one ring to the stretch `b` of another into one ring,
      and closes what is left of the other (`rest`). */
  method Splice(begin: Node, end: Node, otherBegin: Node, otherEnd: Node,
                ghost a: seq<Node>, ghost b: seq<Node>, ghost rest: seq<Node>)
    requires Spliceable(a, b, rest)
    requires begin == a[0] && end == a[|a| - 1] && otherBegin == b[0] && otherEnd == b[|b| - 1]
    requires otherBegin.prev == if rest == [] then otherEnd else rest[|rest| - 1]
    requires otherEnd.next == if rest == [] then otherBegin else rest[0]
    modifies a`next, a`prev, b`next, b`prev, rest`next, rest`prev
    ensures Ring(a + b)
    ensures rest != [] ==> Ring(rest)
  {
    Unique(a, 0);
    Unique(a, |a| - 1);
    Unique(b, 0);
    Unique(b, |b| - 1);
    Foreign(a, b);
    if rest != [] {
      Foreign(a, rest);
      Foreign(b, rest);
      Unique(rest, 0);
      Unique(rest, |rest| - 1);
    }
    JoinDistinct(a, b);
    var beforeBegin := otherBegin.prev;
    var afterEnd := otherEnd.next;
    end.next := otherBegin;
    otherBegin.prev := end;
    begin.prev := otherEnd;
    otherEnd.next := begin;
    if beforeBegin != otherEnd {
      beforeBegin.next := afterEnd;
      afterEnd.prev := beforeBegin;
    }
    assert Path(a) && Path(b) && Path(rest);
    JoinPaths(a, b);
  }
}
