/** Substring search: the optimised failure table and the search that uses it. */
module Kmp {
  /** The first `k` letters of the pattern are also the last `k` of its first `j`. */
  ghost predicate Border<T>(p: seq<T>, j: int, k: int) {
    0 <= k < j <= |p| && p[..k] == p[j - k..j]
  }

  /** `v` is the longest border of the first `j` letters whose next letter differs from letter
      `j`, or -1 if there is none. */
  ghost predicate FailsTo<T>(p: seq<T>, j: int, v: int) {
    && 0 <= j < |p| && -1 <= v < j
    && (v >= 0 ==> Border(p, j, v) && p[v] != p[j])
    && forall k :: v < k < j && Border(p, j, k) ==> p[k] == p[j]
  }

  ghost predicate Table<T>(p: seq<T>, next: seq<int>, n: int) {
    n <= |p| == |next| && forall j {:trigger next[j]} :: 0 <= j < n ==> FailsTo(p, j, next[j])
  }

  /** Borders of a border are borders, and the shorter of two borders is one of the longer. */
  lemma BorderOfBorder<T>(p: seq<T>, j: int, k: int, b: int)
    requires Border(p, j, k)
    ensures Border(p, k, b) ==> Border(p, j, b)
    ensures Border(p, j, b) && b < k ==> Border(p, k, b)
  {
    if 0 <= b < k {
      assert p[j - b..j] == p[j - k..j][k - b..];
      assert p[k - b..k] == p[..k][k - b..];
    }
  }

  lemma BorderExtend<T>(p: seq<T>, j: int, k: int)
    requires 0 <= j < |p| && -1 <= k < j
    requires k >= 0 ==> Border(p, j, k) && p[k] == p[j]
    ensures Border(p, j + 1, k + 1)
  {
    if k >= 0 {
      assert p[..k + 1] == p[..k] + [p[k]];
      assert p[j - k..j + 1] == p[j - k..j] + [p[j]];
    }
  }

  lemma BorderShrink<T>(p: seq<T>, j: int, k: int)
    requires Border(p, j + 1, k + 1) && k >= 0
    ensures Border(p, j, k) && p[k] == p[j]
  {
    assert p[..k] == p[..k + 1][..k];
    assert p[j - k..j] == p[j - k..j + 1][..k];
    assert p[..k + 1][k] == p[j - k..j + 1][k];
  }

  /** Nothing longer than `k` among the borders of the first `j` letters goes on with letter `j`. */
  ghost predicate Exhausted<T>(p: seq<T>, j: int, k: int) {
    0 <= j < |p| && forall b :: k < b < j && Border(p, j, b) ==> p[b] != p[j]
  }

  /** After a match at `j` and `k`, `k + 1` is the longest border of the first `j + 1` letters. */
  lemma LongestNext<T>(p: seq<T>, j: int, k: int, b: int)
    requires Exhausted(p, j, k) && -1 <= k < j && k + 1 < b <= j
    ensures !Border(p, j + 1, b)
  {
    if Border(p, j + 1, b) {
      BorderShrink(p, j, b - 1);
    }
  }

  lemma ExhaustedNext<T>(p: seq<T>, j: int, k: int)
    requires Exhausted(p, j, k) && -1 <= k < j && j + 1 < |p|
    ensures Exhausted(p, j + 1, k + 1)
  {
    var j' := j + 1;
    forall b | k + 1 < b < j' ensures !Border(p, j', b) {
      LongestNext(p, j, k, b);
    }
  }

  lemma MatchBorder<T>(p: seq<T>, j: int, k: int, v: int, b: int)
    requires Exhausted(p, j, k) && -1 <= k < j && j + 1 < |p| && Border(p, j + 1, k + 1)
    requires if p[j + 1] != p[k + 1] then v == k + 1 else FailsTo(p, k + 1, v)
    requires v < b < j + 1 && Border(p, j + 1, b)
    ensures p[b] == p[j + 1]
  {
    if b > k + 1 {
      LongestNext(p, j, k, b);
    } else if b < k + 1 {
      ShorterBorder(p, j + 1, k + 1, v, b);
    }
  }

  lemma ShorterBorder<T>(p: seq<T>, j: int, k: int, v: int, b: int)
    requires 0 <= j < |p| && Border(p, j, k) && p[j] == p[k] && FailsTo(p, k, v) && v < b < k && Border(p, j, b)
    ensures p[b] == p[j]
  {
    BorderOfBorder(p, j, k, b);
  }

  /** The table entry a match yields: `k + 1`, or where that fails to in turn. */
  lemma MatchEntry<T>(p: seq<T>, j: int, k: int, v: int)
    requires Exhausted(p, j, k) && -1 <= k < j && j + 1 < |p|
    requires k >= 0 ==> Border(p, j, k) && p[k] == p[j]
    requires if p[j + 1] != p[k + 1] then v == k + 1 else FailsTo(p, k + 1, v)
    ensures FailsTo(p, j + 1, v)
  {
    BorderExtend(p, j, k);
    BorderOfBorder(p, j + 1, k + 1, v);
    forall b | v < b < j + 1 && Border(p, j + 1, b) ensures p[b] == p[j + 1] {
      MatchBorder(p, j, k, v, b);
    }
  }

  /** Falling back past borders that would mismatch in the same way loses nothing. */
  lemma MismatchBack<T>(p: seq<T>, j: int, k: int, v: int)
    requires Exhausted(p, j, k) && Border(p, j, k) && p[k] != p[j] && FailsTo(p, k, v)
    ensures Exhausted(p, j, v) && (v >= 0 ==> Border(p, j, v))
  {
    BorderOfBorder(p, j, k, v);
    forall b | v < b < j && Border(p, j, b) ensures p[b] != p[j] {
      if b < k {
        BorderOfBorder(p, j, k, b);
      }
    }
  }

  /** The table is right up to `j`, and `k` is a border of the first `j` letters to go on from. */
  ghost predicate Building<T>(p: seq<T>, next: seq<int>, j: int, k: int) {
    && 0 <= j <= |p| && -1 <= k && Table(p, next, if j < |p| then j + 1 else j)
    && (j < |p| ==> k < j && Exhausted(p, j, k) && (k >= 0 ==> Border(p, j, k)))
  }

  lemma BuildMatch<T>(p: seq<T>, next: seq<int>, j: int, k: int, v: int)
    requires Building(p, next, j, k) && j + 1 < |p| && (k >= 0 ==> p[k] == p[j])
    requires v == if p[j + 1] != p[k + 1] then k + 1 else next[k + 1]
    ensures Building(p, next[j + 1 := v], j + 1, k + 1)
  {
    MatchEntry(p, j, k, v);
    BorderExtend(p, j, k);
    ExhaustedNext(p, j, k);
  }

  lemma BuildMismatch<T>(p: seq<T>, next: seq<int>, j: int, k: int)
    requires Building(p, next, j, k) && j < |p| && 0 <= k && p[k] != p[j]
    ensures next[k] < k && Building(p, next, j, next[k])
  {
    MismatchBack(p, j, k, next[k]);
  }

  lemma BuildStart<T>(p: seq<T>, next: seq<int>)
    requires |next| == |p| && forall j :: 0 <= j < |p| ==> next[j] == -1
    ensures Building(p, next, 0, -1)
  {
  }

  /** Entry `j + 1`, from a border that goes on. */
  method SetEntry<T(==)>(p: seq<T>, next: array<int>, j: int, k: int)
    requires next.Length == |p| && Building(p, next[..], j, k) && j + 1 < |p| && (k >= 0 ==> p[k] == p[j])
    modifies next
    ensures Building(p, next[..], j + 1, k + 1)
  {
    var v := if p[j + 1] != p[k + 1] then k + 1 else next[k + 1];
    BuildMatch(p, next[..], j, k, v);
    ghost var table := next[..][j + 1 := v];
    next[j + 1] := v;
    assert next[..] == table;
  }

  /** A border that does not go on gives way to a shorter one. */
  method FallBack<T(==)>(p: seq<T>, next: array<int>, j: int, k: int) returns (k': int)
    requires next.Length == |p| && Building(p, next[..], j, k) && j < |p| && 0 <= k && p[k] != p[j]
    ensures -1 <= k' < k && Building(p, next[..], j, k')
  {
    BuildMismatch(p, next[..], j, k);
    k' := next[k];
  }

  lemma BorderWithin<T>(p: seq<T>, past: T, j: int, k: int)
    requires j <= |p|
    ensures Border(p + [past], j, k) <==> Border(p, j, k)
  {
    if 0 <= k < j {
      assert (p + [past])[..k] == p[..k] && (p + [past])[j - k..j] == p[j - k..j];
    }
  }

  lemma FailsWithin<T>(p: seq<T>, past: T, j: int, v: int)
    requires j < |p| && FailsTo(p + [past], j, v)
    ensures FailsTo(p, j, v)
  {
    BorderWithin(p, past, j, v);
    forall k | v < k < j && Border(p, j, k) ensures p[k] == p[j] {
      BorderWithin(p, past, j, k);
    }
  }

  lemma TableWithin<T>(p: seq<T>, past: T, next: seq<int>)
    requires Table(p + [past], next, |p| + 1)
    ensures Table(p, next[..|p|], |p|) && FailsTo(p + [past], |p|, next[|p|])
  {
    forall i {:trigger next[i]} | 0 <= i < |p| ensures FailsTo(p, i, next[i]) {
      FailsWithin(p, past, i, next[i]);
    }
  }

  /** The loop, over letters of which the last is not of the pattern; `over` is whether it has set the
      entry of that one. */
  method BuildTable<T(==)>(q: seq<T>) returns (next: array<int>, over: bool)
    requires q != []
    ensures fresh(next) && Table(q, next[..], |q|) && (over <==> |q| > 1)
  {
    next := new int[|q|](_ => -1);
    over := false;
    var k, j := -1, 0;
    BuildStart(q, next[..]);
    while j < |q| - 1
      invariant 0 <= j < |q| == next.Length && -1 <= k < j && Building(q, next[..], j, k)
      invariant over <==> 0 < j == |q| - 1
      decreases 2 * (|q| - j) + k + 1
    {
      if k == -1 || q[j] == q[k] {
        SetEntry(q, next, j, k);
        j, k := j + 1, k + 1;
        over := j == |q| - 1;
      } else {
        k := FallBack(q, next, j, k);
      }
    }
  }

  /** The table of the pattern, and whether the loop has gone one entry past it. There it looks at the
      letter behind the pattern, `past`, whatever that is; the entries of the pattern itself do not
      depend on it. */
  method GetNext<T(==)>(p: seq<T>, past: T) returns (next: array<int>, over: bool)
    ensures fresh(next) && next.Length == |p| + 1 && Table(p, next[..|p|], |p|)
    ensures over <==> p != []
    ensures over ==> FailsTo(p + [past], |p|, next[|p|])
  {
    next, over := BuildTable(p + [past]);
    TableWithin(p, past, next[..]);
    assert next[..][..|p|] == next[..|p|];
  }

  ghost predicate Occurs<T>(text: seq<T>, p: seq<T>, s: int) {
    0 <= s && s + |p| <= |text| && text[s..s + |p|] == p
  }

  /** `pos` is just past the first occurrence, or at the end if there is none. */
  ghost predicate FirstEnd<T>(text: seq<T>, p: seq<T>, pos: int) {
    || (pos >= |p| && Occurs(text, p, pos - |p|) && forall s :: 0 <= s < pos - |p| ==> !Occurs(text, p, s))
    || (pos == |text| && forall s :: !Occurs(text, p, s))
  }

  lemma FirstEndUnique<T>(text: seq<T>, p: seq<T>, a: int, b: int)
    requires FirstEnd(text, p, a) && FirstEnd(text, p, b)
    ensures a == b
  {
  }

  /** The letters before `i` match the pattern up to `j`, and it occurs nowhere before that. */
  ghost predicate Scanning<T>(text: seq<T>, p: seq<T>, i: int, j: int) {
    && 0 <= i <= |text| && -1 <= j <= |p| && j <= i
    && (j >= 0 ==> text[i - j..i] == p[..j])
    && forall s :: 0 <= s < i - j ==> !Occurs(text, p, s)
  }

  lemma ScanMatch<T>(text: seq<T>, p: seq<T>, i: int, j: int)
    requires Scanning(text, p, i, j) && i < |text| && j < |p| && (j >= 0 ==> text[i] == p[j])
    ensures Scanning(text, p, i + 1, j + 1)
  {
    if j >= 0 {
      assert text[i - j..i + 1] == text[i - j..i] + [text[i]];
      assert p[..j + 1] == p[..j] + [p[j]];
    }
  }

  /** An occurrence starting within the matched part overlaps it in a border. */
  lemma OccursWithin<T>(text: seq<T>, p: seq<T>, i: int, j: int, s: int)
    requires 0 <= j < |p| && j <= i < |text| && text[i - j..i] == p[..j]
    requires Occurs(text, p, s) && i - j <= s <= i
    ensures p[i - s] == text[i] && (s > i - j ==> Border(p, j, i - s))
  {
    var k := i - s;
    assert p[k] == text[s..s + |p|][k];
    if k < j {
      assert p[..k] == text[s..s + |p|][..k] == text[i - j..i][j - k..] == p[..j][j - k..];
    }
  }

  lemma ScanMismatch<T>(text: seq<T>, p: seq<T>, i: int, j: int, v: int)
    requires Scanning(text, p, i, j) && i < |text| && 0 <= j < |p| && text[i] != p[j] && FailsTo(p, j, v)
    ensures Scanning(text, p, i, v)
  {
    if v >= 0 {
      assert text[i - v..i] == text[i - j..i][j - v..] == p[..j][j - v..];
    }
    forall s | 0 <= s < i - v ensures !Occurs(text, p, s) {
      if s >= i - j && Occurs(text, p, s) {
        OccursWithin(text, p, i, j, s);
      }
    }
  }

  /** One round of the search: what the letter decides. */
  lemma ScanStep<T>(text: seq<T>, p: seq<T>, next: seq<int>, i: int, j: int)
    requires Scanning(text, p, i, j) && Table(p, next, |p|) && i < |text| && j < |p|
    ensures j == -1 || text[i] == p[j] ==> Scanning(text, p, i + 1, j + 1)
    ensures j != -1 && text[i] != p[j] ==> -1 <= next[j] < j && Scanning(text, p, i, next[j])
  {
    if j == -1 || text[i] == p[j] {
      ScanMatch(text, p, i, j);
    } else {
      ScanMismatch(text, p, i, j, next[j]);
    }
  }

  lemma ScanDone<T>(text: seq<T>, p: seq<T>, i: int, j: int)
    requires Scanning(text, p, i, j) && (i == |text| || j == |p|)
    ensures FirstEnd(text, p, if j == |p| then i else |text|)
  {
    if j == |p| {
      assert text[i - j..i] == p;
    }
  }

  /** The search over a text: terminates just past the first occurrence, or at the end. */
  method Find<T(==)>(text: seq<T>, p: seq<T>, past: T) returns (pos: nat)
    ensures FirstEnd(text, p, pos)
  {
    if |p| > |text| {
      return |text|;
    }
    var table, _ := GetNext(p, past);
    var next := table[..|p|];
    var i, j := 0, 0;
    while i != |text| && j < |p|
      invariant Scanning(text, p, i, j)
      decreases 2 * (|text| - i) + j + 1
    {
      if j == -1 || text[i] == p[j] {
        ScanMatch(text, p, i, j);
        i, j := i + 1, j + 1;
      } else {
        ScanMismatch(text, p, i, j, next[j]);
        j := next[j];
      }
    }
    ScanDone(text, p, i, j);
    return if j == |p| then i else |text|;
  }
}
