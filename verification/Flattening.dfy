/** Joining what a sequence of blocks shows into one sequence of bytes. */
module Flattening {
  newtype byte = x: int | 0 <= x < 256

  datatype Option<+T> = None | Some(value: T)

  function Joined<A, T>(f: A -> seq<T>, s: seq<A>): (r: seq<T>) {
    if s == [] then [] else f(s[0]) + Joined(f, s[1..])
  }

  lemma {:induction false} JoinedConcat<A, T>(f: A -> seq<T>, a: seq<A>, b: seq<A>)
    ensures Joined(f, a + b) == Joined(f, a) + Joined(f, b)
  {
    if a == [] {
      assert a + b == b;
    } else {
      assert (a + b)[1..] == a[1..] + b;
      JoinedConcat(f, a[1..], b);
    }
  }

  lemma JoinedSingle<A, T>(f: A -> seq<T>, x: A)
    ensures Joined(f, [x]) == f(x)
  {
    assert Joined(f, [x]) == f(x) + Joined(f, []);
  }

  lemma {:induction false} JoinedEmpty<A, T>(f: A -> seq<T>, s: seq<A>)
    requires forall i :: 0 <= i < |s| ==> f(s[i]) == []
    ensures Joined(f, s) == []
  {
    if s != [] {
      JoinedEmpty(f, s[1..]);
    }
  }

  /** The first `n + 1` blocks are the first `n` and then block `n`. */
  lemma JoinedSnoc<A, T>(f: A -> seq<T>, s: seq<A>, n: nat)
    requires n < |s|
    ensures Joined(f, s[..n + 1]) == Joined(f, s[..n]) + f(s[n])
  {
    assert s[..n + 1] == s[..n] + [s[n]];
    JoinedConcat(f, s[..n], [s[n]]);
    JoinedSingle(f, s[n]);
  }

  lemma JoinedSplit<A, T>(f: A -> seq<T>, s: seq<A>, n: nat)
    requires n <= |s|
    ensures Joined(f, s) == Joined(f, s[..n]) + Joined(f, s[n..])
  {
    assert s == s[..n] + s[n..];
    JoinedConcat(f, s[..n], s[n..]);
  }

  /** What comes before block `i`, block `i`, and what comes after it. */
  lemma JoinedAt<A, T>(f: A -> seq<T>, s: seq<A>, i: nat)
    requires i < |s|
    ensures Joined(f, s) == Joined(f, s[..i]) + f(s[i]) + Joined(f, s[i + 1..])
  {
    JoinedSplit(f, s, i);
    assert s[i..][1..] == s[i + 1..];
  }

  /** Replacing block `i` replaces exactly its part. */
  lemma JoinedSet<A, T>(f: A -> seq<T>, s: seq<A>, i: nat, x: A)
    requires i < |s|
    ensures Joined(f, s[i := x]) == Joined(f, s[..i]) + f(x) + Joined(f, s[i + 1..])
  {
    JoinedAt(f, s[i := x], i);
    assert s[i := x][..i] == s[..i] && s[i := x][i + 1..] == s[i + 1..];
  }
}
