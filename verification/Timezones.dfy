/** Local time by a table of transitions: skipped and repeated hours included. */
module Timezones {
  import opened Flattening
  import opened Calendar
  import opened EpochTime

  datatype Transition = Transition(utc: int, local: int, idx: nat)

  /** The table: transitions, and the offsets from UTC they refer to. */
  datatype Zone = Zone(transitions: seq<Transition>, offsets: seq<int>) {
    /** As `AddTransition` builds it. */
    predicate Ok() {
      && offsets != []
      && forall i :: 0 <= i < |transitions| ==>
                       && transitions[i].idx < |offsets|
                       && transitions[i].local == transitions[i].utc + offsets[transitions[i].idx]
    }

    function Utcs(): (r: seq<int>) {
      seq(|transitions|, i requires 0 <= i < |transitions| => transitions[i].utc)
    }

    function Locals(): (r: seq<int>) {
      seq(|transitions|, i requires 0 <= i < |transitions| => transitions[i].local)
    }

    /** The offset in force after transition `i`; before the first one, the first offset. */
    function Offset(i: int): (r: int)
      requires Ok() && -1 <= i < |transitions|
    {
      if i == -1 then offsets[0] else offsets[transitions[i].idx]
    }

    /** When transition `i` happens, and what the clock shows right after and right before. */
    function At(i: int): (r: int)
      requires 0 <= i < |transitions|
    {
      transitions[i].utc
    }

    function Shows(i: int): (r: int)
      requires Ok() && 0 <= i < |transitions|
    {
      At(i) + Offset(i)
    }

    function Showed(i: int): (r: int)
      requires Ok() && 0 <= i < |transitions|
    {
      At(i) + Offset(i - 1)
    }

    function Change(i: int): (r: int)
      requires Ok() && 0 <= i < |transitions|
    {
      if Offset(i) >= Offset(i - 1) then Offset(i) - Offset(i - 1) else Offset(i - 1) - Offset(i)
    }

    /** Transitions in order, further apart than the changes at either end amount to. */
    predicate Spaced() {
      Ok() && forall i :: 0 <= i < |transitions| - 1 ==> At(i + 1) - At(i) > Change(i) + Change(i + 1)
    }
  }

  predicate Sorted(s: seq<int>) {
    forall i, j :: 0 <= i < j < |s| ==> s[i] <= s[j]
  }

  /** The first position in `lo..hi` whose key exceeds `x`, by halving. */
  function UpperBound(s: seq<int>, x: int, lo: nat, hi: nat): (r: nat)
    requires lo <= hi <= |s|
    ensures lo <= r <= hi
    ensures Sorted(s) ==> (forall i :: lo <= i < r ==> s[i] <= x) && (forall i :: r <= i < hi ==> s[i] > x)
    decreases hi - lo
  {
    if lo == hi then lo
    else
      var mid := lo + (hi - lo) / 2;
      if s[mid] <= x then UpperBound(s, x, mid + 1, hi) else UpperBound(s, x, lo, mid)
  }

  function FindByUtc(z: Zone, time: int): (r: int)
    requires z.Ok()
  {
    var n := |z.transitions|;
    if n == 0 || time < z.transitions[0].utc then z.offsets[0]
    else
      var i := UpperBound(z.Utcs(), time, 0, n);
      if i == 0 then z.offsets[0]  // cannot be: the first transition is not after `time`
      else z.offsets[z.transitions[i - 1].idx]
  }

  function FindByLocal(z: Zone, local: int, post: bool): (r: int)
    requires z.Ok()
  {
    var n := |z.transitions|;
    if n == 0 || local < z.transitions[0].local then z.offsets[0]
    else
      var i := UpperBound(z.Locals(), local, 0, n);
      if i == 0 then z.offsets[0]  // cannot be: the first transition is not after `local`
      else if i == n then z.offsets[z.transitions[n - 1].idx]
      else
        var prior := z.transitions[i - 1];
        var priorSecond := z.transitions[i].utc - 1 + z.offsets[prior.idx];
        if priorSecond < local then
          z.offsets[if post then z.transitions[i].idx else prior.idx]
        else
          var this_ := z.transitions[i - 1];
          var prior' := if i - 1 != 0 then z.transitions[i - 2] else prior;
          var priorSecond' := if i - 1 != 0 then this_.utc - 1 + z.offsets[prior'.idx] else priorSecond;
          if local <= priorSecond' then z.offsets[if post then this_.idx else prior'.idx]
          else z.offsets[this_.idx]
  }

  /** What the clock shows at an instant, in seconds. */
  function Reading(z: Zone, time: int): (r: int)
    requires z.Ok()
  {
    time + FindByUtc(z, time)
  }

  /** The instant taken for a reading. */
  function Instant(z: Zone, local: int, post: bool): (r: int)
    requires z.Ok()
  {
    local - FindByLocal(z, local, post)
  }

  // Order of the transitions, on the time line and on the clock.

  lemma {:induction false} InOrder(z: Zone, i: int, k: int)
    requires z.Spaced() && 0 <= i < k < |z.transitions|
    ensures z.At(i) < z.At(k)
    ensures z.Shows(i) < z.Shows(k) && z.Shows(i) < z.Showed(k)
    ensures z.Showed(i) < z.Shows(k) && z.Showed(i) < z.Showed(k)
    decreases k - i
  {
    if i + 1 < k {
      InOrder(z, i + 1, k);
    }
  }

  lemma KeysSorted(z: Zone)
    requires z.Spaced()
    ensures Sorted(z.Utcs()) && Sorted(z.Locals())
  {
    var u, l := z.Utcs(), z.Locals();
    forall i, j | 0 <= i < j < |z.transitions| ensures u[i] <= u[j] && l[i] <= l[j] {
      InOrder(z, i, j);
    }
  }

  /** Between transitions `i` and `i + 1` the offset is the one of `i`. */
  ghost predicate During(z: Zone, time: int, i: int)
    requires z.Ok()
  {
    && -1 <= i < |z.transitions|
    && (i >= 0 ==> z.At(i) <= time)
    && (i + 1 < |z.transitions| ==> time < z.At(i + 1))
  }

  lemma FindDuring(z: Zone, time: int, i: int)
    requires z.Spaced() && During(z, time, i)
    ensures FindByUtc(z, time) == z.Offset(i)
  {
    KeysSorted(z);
    var n := |z.transitions|;
    if i >= 0 {
      if i > 0 {
        InOrder(z, 0, i);
      }
      var r := UpperBound(z.Utcs(), time, 0, n);
      assert z.Utcs()[i] <= time && (i + 1 < n ==> z.Utcs()[i + 1] > time);
      assert r == i + 1;
    } else if n > 0 {
      assert time < z.At(0);
    }
  }

  /** Every instant is between two transitions. */
  lemma {:induction false} SomeDuring(z: Zone, time: int, n: int) returns (i: int)
    requires z.Spaced() && -1 <= n < |z.transitions| && (n + 1 < |z.transitions| ==> time < z.At(n + 1))
    ensures During(z, time, i) && i <= n
    decreases n
  {
    if n == -1 || z.At(n) <= time {
      i := n;
    } else {
      i := SomeDuring(z, time, n - 1);
    }
  }

  /** Right after transition `i` on the clock, and before `i + 1`: which offset is taken. */
  lemma FindBetween(z: Zone, local: int, post: bool, i: int)
    requires z.Spaced() && 0 <= i < |z.transitions| && z.Shows(i) <= local
    requires i + 1 < |z.transitions| ==> local < z.Shows(i + 1)
    ensures i + 1 == |z.transitions| ==> FindByLocal(z, local, post) == z.Offset(i)
    ensures i + 1 < |z.transitions| && z.Showed(i + 1) <= local ==>
              FindByLocal(z, local, post) == z.Offset(if post then i + 1 else i)
    ensures i + 1 < |z.transitions| && local < z.Showed(i + 1) ==>
              FindByLocal(z, local, post) == z.Offset(if i > 0 && local < z.Showed(i) && !post then i - 1 else i)
  {
    KeysSorted(z);
    var n := |z.transitions|;
    if i > 0 {
      InOrder(z, 0, i);
    }
    assert z.Locals()[i] <= local && (i + 1 < n ==> z.Locals()[i + 1] > local);
    assert UpperBound(z.Locals(), local, 0, n) == i + 1;
  }

  /** Before the first transition on the clock. */
  lemma FindBefore(z: Zone, local: int, post: bool)
    requires z.Ok() && (|z.transitions| > 0 ==> local < z.Shows(0))
    ensures FindByLocal(z, local, post) == z.Offset(-1)
  {
  }

  // From an instant to the clock and back.

  /** The clock is about to be set back at transition `k` to what it already shows. */
  predicate EarlierHalf(z: Zone, k: int, time: int)
    requires z.Ok() && 0 <= k < |z.transitions|
  {
    time < z.At(k) && z.Shows(k) <= time + z.Offset(k - 1)
  }

  /** The clock was set back at transition `k` and shows what it showed before. */
  predicate LaterHalf(z: Zone, k: int, time: int)
    requires z.Ok() && 0 <= k < |z.transitions|
  {
    z.At(k) <= time && time + z.Offset(k) < z.Showed(k)
  }

  /** For an instant in the earlier half of a repeat, right before transition `i + 1`. */
  lemma BackFromRepeat(z: Zone, time: int, i: int, post: bool)
    requires z.Spaced() && During(z, time, i) && i + 1 < |z.transitions| && EarlierHalf(z, i + 1, time)
    ensures Instant(z, Reading(z, time), post) == time <==> 0 < i + 1 < |z.transitions| - 1 && !post
  {
    FindDuring(z, time, i);
    var local := time + z.Offset(i);
    assert z.Shows(i + 1) <= local < z.Showed(i + 1) && z.Offset(i + 1) < z.Offset(i);
    if i + 2 < |z.transitions| {
      InOrder(z, i + 1, i + 2);
    }
    FindBetween(z, local, post, i + 1);
  }

  /** For any other one. */
  lemma BackFromOther(z: Zone, time: int, i: int, post: bool)
    requires z.Spaced() && During(z, time, i) && !(i + 1 < |z.transitions| && EarlierHalf(z, i + 1, time))
    ensures Instant(z, Reading(z, time), post) == time
            <==> (0 < i < |z.transitions| - 1 && LaterHalf(z, i, time) ==> post)
  {
    FindDuring(z, time, i);
    if i >= 0 {
      FindBetween(z, time + z.Offset(i), post, i);
    } else {
      FindBefore(z, time + z.Offset(i), post);
    }
  }

  /** For an instant between transitions `i` and `i + 1`: which flags lead back to it. */
  lemma BackFrom(z: Zone, time: int, i: int, post: bool)
    requires z.Spaced() && During(z, time, i)
    ensures var n := |z.transitions|;
            Instant(z, Reading(z, time), post) == time
            <==> if i + 1 < n && EarlierHalf(z, i + 1, time) then 0 < i + 1 < n - 1 && !post
                 else if 0 < i < n - 1 && LaterHalf(z, i, time) then post
                 else true
  {
    if i + 1 < |z.transitions| && EarlierHalf(z, i + 1, time) {
      BackFromRepeat(z, time, i, post);
    } else {
      BackFromOther(z, time, i, post);
    }
  }

  /** An instant comes back from its reading, by one flag or the other, unless the clock is about
      to be set back at the first or at the last transition to what it already shows. */
  lemma InstantBack(z: Zone, time: int)
    requires z.Spaced()
    ensures var n := |z.transitions|;
            (exists post :: Instant(z, Reading(z, time), post) == time)
            <==> n == 0 || !(EarlierHalf(z, 0, time) || EarlierHalf(z, n - 1, time))
  {
    var n := |z.transitions|;
    var i := SomeDuring(z, time, n - 1);
    BackFrom(z, time, i, true);
    BackFrom(z, time, i, false);
    if n > 0 {
      HalfDuring(z, time, i, 0);
      HalfDuring(z, time, i, n - 1);
    }
  }

  /** The earlier half of a repeat belongs to the stretch right before its transition. */
  lemma HalfDuring(z: Zone, time: int, i: int, k: int)
    requires z.Spaced() && During(z, time, i) && 0 <= k < |z.transitions|
    ensures EarlierHalf(z, k, time) ==> i == k - 1
    ensures LaterHalf(z, k, time) ==> i == k
  {
    if i < k - 1 {
      BeforeHalves(z, time, i, k);
    } else if i > k {
      AfterHalves(z, time, i, k);
    }
  }

  lemma BeforeHalves(z: Zone, time: int, i: int, k: int)
    requires z.Spaced() && During(z, time, i) && 0 <= k < |z.transitions| && i < k - 1
    ensures !EarlierHalf(z, k, time) && !LaterHalf(z, k, time)
  {
    if i + 1 < k - 1 {
      InOrder(z, i + 1, k - 1);
    }
  }

  lemma AfterHalves(z: Zone, time: int, i: int, k: int)
    requires z.Spaced() && During(z, time, i) && 0 <= k < i
    ensures !EarlierHalf(z, k, time) && !LaterHalf(z, k, time)
  {
    if k + 1 < i {
      InOrder(z, k + 1, i);
    }
  }

  /** When no other instant has the same reading, both flags lead back. */
  lemma UniqueReadingBack(z: Zone, time: int)
    requires z.Spaced() && forall t :: Reading(z, t) == Reading(z, time) ==> t == time
    ensures forall post :: Instant(z, Reading(z, time), post) == time
  {
    var n := |z.transitions|;
    var i := SomeDuring(z, time, n - 1);
    BackFrom(z, time, i, true);
    BackFrom(z, time, i, false);
    if i + 1 < n && EarlierHalf(z, i + 1, time) {
      var twin := LaterTwin(z, time, i + 1);
    } else if 0 < i < n - 1 && LaterHalf(z, i, time) {
      var twin := EarlierTwin(z, time, i);
    }
  }

  /** The other instant with the reading of one in a repeat. */
  lemma LaterTwin(z: Zone, time: int, k: int) returns (twin: int)
    requires z.Spaced() && 0 <= k < |z.transitions| && EarlierHalf(z, k, time)
    ensures time < twin && Reading(z, twin) == Reading(z, time)
  {
    twin := time + z.Offset(k - 1) - z.Offset(k);
    FindDuring(z, time, k - 1);
    FindDuring(z, twin, k);
  }

  lemma EarlierTwin(z: Zone, time: int, k: int) returns (twin: int)
    requires z.Spaced() && 0 <= k < |z.transitions| && LaterHalf(z, k, time)
    ensures twin < time && Reading(z, twin) == Reading(z, time)
  {
    twin := time + z.Offset(k) - z.Offset(k - 1);
    FindDuring(z, time, k);
    FindDuring(z, twin, k - 1);
  }

  // From the clock to an instant and back.

  predicate Skipped(z: Zone, k: int, local: int)
    requires z.Ok() && 0 <= k < |z.transitions|
  {
    z.Showed(k) <= local < z.Shows(k)
  }

  predicate Repeated(z: Zone, k: int, local: int)
    requires z.Ok() && 0 <= k < |z.transitions|
  {
    z.Shows(k) <= local < z.Showed(k)
  }

  /** The last transition whose new time the clock has reached. */
  lemma {:induction false} LastShown(z: Zone, local: int, n: int) returns (i: int)
    requires z.Spaced() && -1 <= n < |z.transitions| && (n + 1 < |z.transitions| ==> local < z.Shows(n + 1))
    ensures -1 <= i <= n && (i >= 0 ==> z.Shows(i) <= local) && (i + 1 < |z.transitions| ==> local < z.Shows(i + 1))
    decreases n
  {
    if n == -1 || z.Shows(n) <= local {
      i := n;
    } else {
      i := LastShown(z, local, n - 1);
    }
  }

  /** Only the next transition can skip a reading. */
  lemma SkippedOnlyNext(z: Zone, local: int, i: int, k: int)
    requires z.Spaced() && -1 <= i < |z.transitions| && 0 <= k < |z.transitions|
    requires (i >= 0 ==> z.Shows(i) <= local) && (i + 1 < |z.transitions| ==> local < z.Shows(i + 1))
    ensures Skipped(z, k, local) ==> k == i + 1
  {
    if k < i {
      InOrder(z, k, i);
    } else if i + 1 < k {
      InOrder(z, i + 1, k);
    }
  }

  lemma BackBefore(z: Zone, local: int, post: bool)
    requires z.Spaced() && (0 < |z.transitions| ==> local < z.Shows(0))
    ensures Reading(z, Instant(z, local, post)) == local <==> !(0 < |z.transitions| && Skipped(z, 0, local))
  {
    FindBefore(z, local, post);
    FindDuring(z, Instant(z, local, post), if |z.transitions| > 0 && Skipped(z, 0, local) then 0 else -1);
  }

  lemma BackTo(z: Zone, local: int, post: bool, i: int)
    requires z.Spaced() && -1 <= i < |z.transitions|
    requires (i >= 0 ==> z.Shows(i) <= local) && (i + 1 < |z.transitions| ==> local < z.Shows(i + 1))
    ensures Reading(z, Instant(z, local, post)) == local
            <==> !(i + 1 < |z.transitions| && Skipped(z, i + 1, local))
  {
    var n := |z.transitions|;
    var t := Instant(z, local, post);
    if i == -1 {
      BackBefore(z, local, post);
    } else {
      FindBetween(z, local, post, i);
      if i + 1 < n && Skipped(z, i + 1, local) {
        FindDuring(z, t, if post then i else i + 1);
      } else if i + 1 < n && i > 0 && local < z.Showed(i) && !post {
        FindDuring(z, t, i - 1);
      } else {
        FindDuring(z, t, i);
      }
    }
  }

  /** A reading comes back from the instant taken for it, by either flag, exactly when no
      transition skips it. */
  lemma ReadingBack(z: Zone, local: int, post: bool)
    requires z.Spaced()
    ensures Reading(z, Instant(z, local, post)) == local
            <==> forall k :: 0 <= k < |z.transitions| ==> !Skipped(z, k, local)
  {
    var i := LastShown(z, local, |z.transitions| - 1);
    BackTo(z, local, post, i);
    forall k | 0 <= k < |z.transitions| ensures Skipped(z, k, local) ==> k == i + 1 {
      SkippedOnlyNext(z, local, i, k);
    }
  }

  /** In a repeat, but at the first and the last transition, the flags give the two instants with
      that reading, before the transition and after it. */
  lemma RepeatBothSides(z: Zone, local: int, k: int)
    requires z.Spaced() && 0 < k < |z.transitions| - 1 && Repeated(z, k, local)
    ensures Instant(z, local, false) < z.At(k) <= Instant(z, local, true)
    ensures Reading(z, Instant(z, local, false)) == local == Reading(z, Instant(z, local, true))
  {
    InOrder(z, k, k + 1);
    FindBetween(z, local, false, k);
    FindBetween(z, local, true, k);
    BackTo(z, local, false, k);
    BackTo(z, local, true, k);
  }

  /** In a gap, but at the first transition, the flags give instants on opposite sides of it. */
  lemma GapBothSides(z: Zone, local: int, k: int)
    requires z.Spaced() && 0 < k < |z.transitions| && Skipped(z, k, local)
    ensures Instant(z, local, true) < z.At(k) <= Instant(z, local, false)
  {
    InOrder(z, k - 1, k);
    FindBetween(z, local, false, k - 1);
    FindBetween(z, local, true, k - 1);
  }

  // The same on broken-down times, through the 32-bit arithmetic of `FromUtcTime`.

  function ToLocal(z: Zone, time: int): (r: DateTime)
    requires z.Ok()
  {
    BreakTime(Reading(z, time))
  }

  function FromLocal(z: Zone, dt: DateTime, post: bool): (r: Option<int>)
    requires z.Ok()
  {
    match FromUtcTime(dt)
    case None => None
    case Some(local) => Some(Instant(z, local, post))
  }

  predicate InRange(local: int) {
    -24855 * SECONDS_PER_DAY <= local <= 0x7fff_ffff
  }

  /** For an instant whose reading 32 bits hold: one flag leads back to it from its broken-down
      local time, unless it is in the earlier half of a repeat at either end of the table. */
  lemma ToLocalBack(z: Zone, time: int)
    requires z.Spaced() && InRange(Reading(z, time))
    ensures var n := |z.transitions|;
            (exists post :: FromLocal(z, ToLocal(z, time), post) == Some(time))
            <==> n == 0 || !(EarlierHalf(z, 0, time) || EarlierHalf(z, n - 1, time))
  {
    TimeRoundTrip(Reading(z, time));
    FromUtcTimeRange(ToLocal(z, time));
    assert forall post :: FromLocal(z, ToLocal(z, time), post) == Some(Instant(z, Reading(z, time), post));
    InstantBack(z, time);
  }

  /** A valid broken-down local time comes back exactly when no transition skips it. */
  lemma FromLocalBack(z: Zone, dt: DateTime, post: bool)
    requires z.Spaced() && ValidTime(dt) && InRange(EpochSeconds(dt))
    requires forall i :: 0 <= i < |z.offsets| ==> Int32(z.offsets[i])
    ensures FromLocal(z, dt, post).Some?
    ensures ToLocal(z, FromLocal(z, dt, post).value) == dt
            <==> forall k :: 0 <= k < |z.transitions| ==> !Skipped(z, k, EpochSeconds(dt))
  {
    FromUtcTimeRange(dt);
    var local := EpochSeconds(dt);
    var back := Reading(z, Instant(z, local, post));
    ReadingBack(z, local, post);
    assert Int32(FindByLocal(z, local, post)) && Int32(FindByUtc(z, Instant(z, local, post)));
    TimeRoundTrip(back);
    BrokenRoundTrip(dt);
  }
}
