/**
  The bounded replay cache (protocol_lib/src/replay_window.cpp).

  Its meaning is given by the whole sequence of numbers it has accepted, its
  history: the cache keeps the maximum and the last `window` numbers of it.
 */
module ReplayHistory {
  import opened Words
  import opened Pigeonhole

  type History = seq<U64>

  function MaxOf(h: History): U64 {
    if h == [] then 0
    else
      var last := |h| - 1;
      var m := MaxOf(h[..last]);
      if h[last] > m then h[last] else m
  }

  lemma {:induction false} MaxOfBounds(h: History)
    ensures forall i :: 0 <= i < |h| ==> h[i] <= MaxOf(h)
    ensures if h == [] then MaxOf(h) == 0 else MaxOf(h) in h
  {
    if h != [] {
      var last := |h| - 1;
      MaxOfBounds(h[..last]);
      forall i | 0 <= i < |h|
        ensures h[i] <= MaxOf(h)
      {
        assert i < last ==> h[i] == h[..last][i];
      }
      assert last > 0 ==> MaxOf(h[..last]) in h;
    }
  }

  function LastN(h: History, n: nat): (s: History)
    ensures |s| == if |h| <= n then |h| else n
  {
    h[|h| - (if |h| <= n then |h| else n)..]
  }

  /** What a window of size `w` with history `h` accepts next. */
  predicate Fresh(w: U64, h: History, x: U64) {
    x !in LastN(h, w) && MaxOf(h) < w + x
  }

  /** `h` can be a window's history: each number was fresh when it came. */
  predicate Admissible(w: U64, h: History) {
    h == [] || var last := |h| - 1; Admissible(w, h[..last]) && Fresh(w, h[..last], h[last])
  }

  lemma MaxOfAppend(h: History, x: U64)
    ensures MaxOf(h + [x]) == if x > MaxOf(h) then x else MaxOf(h)
  {
    assert (h + [x])[..|h|] == h;
  }

  lemma AdmissibleAppend(w: U64, h: History, x: U64)
    ensures Admissible(w, h + [x]) <==> Admissible(w, h) && Fresh(w, h, x)
  {
    assert (h + [x])[..|h|] == h;
  }

  /**
    The language of a window, without its state: equal numbers are more than
    `w` places apart, and no number is `w` or more below an earlier one.
   */
  ghost predicate SpacedAndYoung(w: U64, h: History) {
    && (forall i, j :: 0 <= i < j < |h| && j - i <= w ==> h[i] != h[j])
    && (forall i, j :: 0 <= i < j < |h| ==> h[i] < w + h[j])
  }

  lemma RecentMeaning(h: History, n: nat, x: U64)
    ensures x in LastN(h, n) <==> exists i :: 0 <= i < |h| && |h| - i <= n && h[i] == x
  {
    var recent := LastN(h, n);
    var lo := |h| - |recent|;
    forall k | 0 <= k < |recent|
      ensures recent[k] == h[lo + k]
    {
    }
    if i :| 0 <= i < |h| && |h| - i <= n && h[i] == x {
      assert recent[i - lo] == x;
    }
  }

  lemma FreshMeaning(w: U64, h: History, x: U64)
    requires 1 <= w
    ensures Fresh(w, h, x) <==>
            && (forall i :: 0 <= i < |h| && |h| - i <= w ==> h[i] != x)
            && (forall i :: 0 <= i < |h| ==> h[i] < w + x)
  {
    RecentMeaning(h, w, x);
    MaxOfBounds(h);
  }

  /** A sequence is accepted in full exactly when it is spaced and young. */
  lemma {:induction false} AdmissibleExactly(w: U64, h: History)
    requires 1 <= w
    ensures Admissible(w, h) <==> SpacedAndYoung(w, h)
  {
    if h != [] {
      var last := |h| - 1;
      var g := h[..last];
      AdmissibleExactly(w, g);
      FreshMeaning(w, g, h[last]);
      assert forall i :: 0 <= i < last ==> g[i] == h[i];
      if SpacedAndYoung(w, g) && Fresh(w, g, h[last]) {
        YoungAppend(w, h);
      }
    }
  }

  lemma YoungAppend(w: U64, h: History)
    requires h != [] && SpacedAndYoung(w, h[..|h| - 1])
    requires forall i :: 0 <= i < |h| - 1 && |h| - 1 - i <= w ==> h[i] != h[|h| - 1]
    requires forall i :: 0 <= i < |h| - 1 ==> h[i] < w + h[|h| - 1]
    ensures SpacedAndYoung(w, h)
  {
    var g := h[..|h| - 1];
    forall i, j | 0 <= i < j < |h|
      ensures (j - i <= w ==> h[i] != h[j]) && h[i] < w + h[j]
    {
      if j < |g| {
        assert g[i] == h[i] && g[j] == h[j];
      }
    }
  }

  lemma LastNAppend(h: History, x: U64, n: nat)
    requires 1 <= n
    ensures LastN(h + [x], n) ==
            var full := LastN(h, n) + [x]; if |full| > n then full[1..] else full
  {
  }

  /** The queue holds no number twice, even in the moment before it evicts. */
  lemma FullQueueDistinct(w: U64, h: History, x: U64)
    requires 1 <= w && Admissible(w, h + [x])
    ensures Distinct(LastN(h, w) + [x])
  {
    hide Admissible, SpacedAndYoung, Distinct;
    var g, full := h + [x], LastN(h, w) + [x];
    DropAppend(h, x, |h| - |LastN(h, w)|);
    AdmissibleExactly(w, g);
    SuffixDistinct(w, g, full);
  }

  lemma DropAppend(h: History, x: U64, k: nat)
    requires k <= |h|
    ensures (h + [x])[k..] == h[k..] + [x]
  {
  }

  lemma SuffixDistinct(w: U64, g: History, q: History)
    requires SpacedAndYoung(w, g)
    requires |q| <= |g| && |q| <= w as int + 1 && q == g[|g| - |q|..]
    ensures Distinct(q)
  {
    var lo := |g| - |q|;
    forall i, j | 0 <= i < j < |q|
      ensures q[i] != q[j]
    {
      assert q[i] == g[lo + i] && q[j] == g[lo + j];
    }
  }

  lemma SetOfTail(q: seq<U64>)
    requires Distinct(q) && q != []
    ensures (set x | x in q) - {q[0]} == set x | x in q[1..]
  {
    assert q == [q[0]] + q[1..];
    forall k | 0 <= k < |q[1..]|
      ensures q[1..][k] != q[0]
    {
      assert q[1..][k] == q[k + 1];
    }
  }

  /** What was recorded last is not fresh. */
  lemma LastIsNotFresh(w: U64, h: History)
    requires 1 <= w && h != []
    ensures !Fresh(w, h, h[|h| - 1])
  {
    SecondAcceptanceExactly(w, h, h[|h| - 1]);
  }

  /** A number above everything seen so far is accepted. */
  lemma AboveMaximumIsFresh(w: U64, h: History, x: U64)
    requires 1 <= w && MaxOf(h) < x
    ensures Fresh(w, h, x)
  {
    MaxOfBounds(h);
    assert forall y :: y in LastN(h, w) ==> y in h;
  }

  /** The `w` numbers that follow place `a` of a history are distinct and differ from `h[a]`. */
  lemma NextAreDistinct(w: U64, h: History, a: nat, b: nat)
    requires SpacedAndYoung(w, h)
    requires a < b < |h| && h[a] == h[b]
    ensures b > a + w
    ensures Distinct(h[a + 1..a + 1 + w])
    ensures h[a] !in h[a + 1..a + 1 + w]
  {
    var mid := h[a + 1..a + 1 + w];
    forall i, j | 0 <= i < j < |mid|
      ensures mid[i] != mid[j]
    {
      assert mid[i] == h[a + 1 + i] && mid[j] == h[a + 1 + j];
    }
    forall k | 0 <= k < |mid|
      ensures mid[k] != h[a]
    {
      assert mid[k] == h[a + 1 + k];
    }
  }

  /** If nothing among the `w` followers of `h[a]` were smaller, they would need `w` values out of `w - 1`. */
  lemma SmallerFollower(w: U64, h: History, a: nat, b: nat)
    requires 1 <= w && SpacedAndYoung(w, h)
    requires a < b < |h| && h[a] == h[b]
    ensures b > a + w && exists k :: a < k <= a + w && h[k] < h[a]
  {
    NextAreDistinct(w, h, a, b);
    if forall k :: a < k <= a + w ==> h[k] >= h[a] {
      var mid := h[a + 1..a + 1 + w];
      var s: int := h[a];
      var room := Range(s + 1, s + w);
      forall x | x in mid
        ensures x in room
      {
        var k :| 0 <= k < |mid| && mid[k] == x;
        assert h[a + 1 + k] < w + h[b];
      }
      CountIn(mid, room);
    }
  }

  /**
    A second acceptance of `h[a]` costs at least `w` other acceptances, the
    first `w` of them pairwise distinct, and one of those is smaller.
   */
  lemma SecondAcceptance(w: U64, h: History, a: nat, b: nat)
    requires 1 <= w && Admissible(w, h)
    requires a < b < |h| && h[a] == h[b]
    ensures b - a - 1 >= w
    ensures Distinct(h[a + 1..a + 1 + w])
    ensures exists k :: a < k <= a + w && h[k] < h[a]
  {
    AdmissibleExactly(w, h);
    NextAreDistinct(w, h, a, b);
    SmallerFollower(w, h, a, b);
  }

  lemma CountIn(h: History, room: set<int>)
    requires Distinct(h)
    requires forall x :: x in h ==> x in room
    ensures |h| <= |room|
  {
    var g := seq(|h|, i requires 0 <= i < |h| => h[i] as int);
    assert forall i :: 0 <= i < |h| ==> g[i] == h[i];
    DistinctCount(g, room);
  }

  /** Once nothing smaller is accepted after it, a number is refused forever. */
  lemma RefusedForever(w: U64, h: History, a: nat)
    requires 1 <= w && Admissible(w, h) && a < |h|
    requires forall k :: a < k < |h| ==> h[k] >= h[a]
    ensures !Fresh(w, h, h[a])
  {
    if Fresh(w, h, h[a]) {
      AdmissibleAppend(w, h, h[a]);
      SecondAcceptance(w, h + [h[a]], a, |h|);
    }
  }

  /**
    The exact condition for accepting a number again: its last acceptance is
    at least `w` acceptances back, and it is not yet too old.
   */
  lemma SecondAcceptanceExactly(w: U64, h: History, s: U64)
    requires 1 <= w && s in h
    ensures Fresh(w, h, s) <==>
            (forall i :: 0 <= i < |h| && h[i] == s ==> |h| - i > w) && MaxOf(h) < w + s
  {
    FreshMeaning(w, h, s);
    MaxOfBounds(h);
  }

  /** Eviction is by age of insertion, not by value: size 2 accepts 5 twice in 5, 4, 6, 5. */
  lemma InsertionOrderEviction()
    ensures Admissible(2, [5, 4, 6, 5])
  {
    AdmissibleExactly(2, [5, 4, 6, 5]);
  }

  // ---- runs whose numbers never fall far below the maximum ----

  /** At most `t` below the maximum so far; with `zeroExempt`, number 0 escapes this, as it does in the detector. */
  predicate WithinReach(t: nat, zeroExempt: bool, h: History, x: U64) {
    (zeroExempt && x == 0) || MaxOf(h) <= x + t
  }

  /** Every number was fresh and within reach when it came. */
  predicate Guarded(w: U64, t: nat, zeroExempt: bool, h: History) {
    h == [] ||
    var last := |h| - 1;
    && Guarded(w, t, zeroExempt, h[..last])
    && Fresh(w, h[..last], h[last])
    && WithinReach(t, zeroExempt, h[..last], h[last])
  }

  lemma {:induction false} GuardedIsAdmissible(w: U64, t: nat, zeroExempt: bool, h: History)
    requires Guarded(w, t, zeroExempt, h)
    ensures Admissible(w, h)
  {
    if h != [] {
      GuardedIsAdmissible(w, t, zeroExempt, h[..|h| - 1]);
    }
  }

  lemma {:induction false} GuardedAt(w: U64, t: nat, zeroExempt: bool, h: History, j: nat)
    requires Guarded(w, t, zeroExempt, h) && j < |h|
    ensures WithinReach(t, zeroExempt, h[..j], h[j])
  {
    var last := |h| - 1;
    if j < last {
      assert h[..last][..j] == h[..j];
      GuardedAt(w, t, zeroExempt, h[..last], j);
    }
  }

  lemma {:induction false} GuardedIf(w: U64, t: nat, zeroExempt: bool, h: History)
    requires Admissible(w, h)
    requires forall j :: 0 <= j < |h| ==> WithinReach(t, zeroExempt, h[..j], h[j])
    ensures Guarded(w, t, zeroExempt, h)
  {
    if h != [] {
      var g := h[..|h| - 1];
      forall j | 0 <= j < |g|
        ensures WithinReach(t, zeroExempt, g[..j], g[j])
      {
        assert g[..j] == h[..j];
      }
      GuardedIf(w, t, zeroExempt, g);
      assert WithinReach(t, zeroExempt, h[..|g|], h[|g|]);
    }
  }

  function Slack(t: nat, zeroExempt: bool): nat {
    2 * t + if zeroExempt then 1 else 0
  }

  /** The pigeonhole: between two acceptances of `s` all numbers but 0 lie within `t` of `s`. */
  lemma SecondAcceptanceNeedsSlack(w: U64, t: nat, zeroExempt: bool, h: History, a: nat, b: nat, top: U64)
    requires 1 <= w && SpacedAndYoung(w, h)
    requires a < b < |h| && h[a] == h[b]
    requires forall k :: a < k < b ==> ((zeroExempt && h[k] == 0) || h[a] <= h[k] + t) && h[k] <= top
    requires (zeroExempt && h[b] == 0) || top <= h[b] + t
    ensures 2 <= w <= Slack(t, zeroExempt)
  {
    NextAreDistinct(w, h, a, b);
    SmallerFollower(w, h, a, b);
    var s: int := h[a];
    var mid := h[a + 1..a + 1 + w];
    var near := Range(if s >= t then s - t else 0, s + t + 1) - {s};
    var room := near + if zeroExempt then {0} else {};
    forall x | x in mid
      ensures x in room
    {
      var k :| 0 <= k < |mid| && mid[k] == x;
      assert x == h[a + 1 + k];
    }
    CountIn(mid, room);
    assert h[a + 1] < s + w && s < w + h[a + 1];
  }

  /** A value within `1 .. w - 1` for each number a repeat of `s` can pass, when `d` and more jump by at least `d`. */
  function Slot(s: nat, d: nat, x: nat): nat {
    if x >= d then (if x >= s then x - s else 0) else if x < s then x + 1 else x
  }

  /**
    The second pigeonhole, for numbers at which the 64-bit sum wraps: if `s`
    is below `d` and every number between is below `d` or at least `d` above
    `s`, a second acceptance of `s` needs a window smaller than `d`.
   */
  lemma SecondAcceptanceNeedsHeadroom(w: U64, d: nat, h: History, a: nat, b: nat)
    requires 1 <= w && SpacedAndYoung(w, h)
    requires a < b < |h| && h[a] == h[b] < d
    requires forall k :: a < k < b ==> h[k] < d || h[a] + d <= h[k]
    ensures w < d
  {
    NextAreDistinct(w, h, a, b);
    SmallerFollower(w, h, a, b);
    var s: int := h[a];
    var mid := h[a + 1..a + 1 + w];
    if w >= d {
      var slots := seq(w, i requires 0 <= i < w => Slot(s, d, mid[i]) as int);
      forall i | 0 <= i < w
        ensures 1 <= slots[i] < w && mid[i] != s && (mid[i] < d || s + d <= mid[i])
      {
        assert mid[i] == h[a + 1 + i];
        assert h[a + 1 + i] < w + h[b];
      }
      forall i, j | 0 <= i < j < w
        ensures slots[i] != slots[j]
      {
        assert mid[i] != mid[j];
      }
      DistinctCount(slots, Range(1, w));
    }
  }

  lemma AtMostMax(h: History, n: nat, k: nat)
    requires k < n <= |h|
    ensures h[k] <= MaxOf(h[..n])
  {
    MaxOfBounds(h[..n]);
    assert h[..n][k] == h[k];
  }

  lemma GuardedDistinct(w: U64, t: nat, zeroExempt: bool, h: History)
    requires 1 <= w && Guarded(w, t, zeroExempt, h)
    requires w == 1 || w > Slack(t, zeroExempt)
    ensures Distinct(h)
  {
    hide Guarded, Admissible, MaxOf;
    GuardedIsAdmissible(w, t, zeroExempt, h);
    AdmissibleExactly(w, h);
    forall a, b | 0 <= a < b < |h| && h[a] == h[b]
      ensures false
    {
      var top := MaxOf(h[..b]);
      forall k | a < k < b
        ensures ((zeroExempt && h[k] == 0) || h[a] <= h[k] + t) && h[k] <= top
      {
        GuardedAt(w, t, zeroExempt, h, k);
        AtMostMax(h, k, a);
        AtMostMax(h, b, k);
      }
      GuardedAt(w, t, zeroExempt, h, b);
      SecondAcceptanceNeedsSlack(w, t, zeroExempt, h, a, b, top);
    }
  }

  /** `s`, then down to 0, then from `s + 1` up to `w`, then `s` once more. */
  function RepeatingRun(w: U64, s: U64): (h: History)
    requires 1 <= s < w
    ensures |h| == w + 2
    ensures h[0] == s && h[w + 1] == s
  {
    seq(w + 2, i requires 0 <= i < w + 2 =>
      if i == 0 || i == w + 1 then s else if i <= s then s - i else i)
  }

  lemma RepeatingRunIsAdmissible(w: U64, s: U64)
    requires 1 <= s < w
    ensures Admissible(w, RepeatingRun(w, s))
  {
    var h := RepeatingRun(w, s);
    assert SpacedAndYoung(w, h);
    AdmissibleExactly(w, h);
  }

  lemma RepeatingRunIsGuarded(w: U64, t: nat, zeroExempt: bool, s: U64)
    requires 1 <= s < w <= s + t
    requires s <= if zeroExempt then t + 1 else t
    ensures Guarded(w, t, zeroExempt, RepeatingRun(w, s))
  {
    var h := RepeatingRun(w, s);
    RepeatingRunIsAdmissible(w, s);
    forall j | 0 <= j < |h|
      ensures WithinReach(t, zeroExempt, h[..j], h[j])
    {
      forall x | x in h[..j]
        ensures x <= if j <= s then s else if j <= w then j as int - 1 else w
      {
      }
      MaxOfBounds(h[..j]);
    }
    GuardedIf(w, t, zeroExempt, h);
  }

  /**
    The exact protection of a window of size `w` beside a rollback threshold
    `t`: no run accepts a number twice if and only if the window has one slot
    or more than `2t` (`2t + 1` when number 0 is exempt).
   */
  lemma AtMostOnceExactly(w: U64, t: nat, zeroExempt: bool)
    requires 1 <= w
    ensures (forall h: History :: Guarded(w, t, zeroExempt, h) ==> Distinct(h)) <==>
            w == 1 || w > Slack(t, zeroExempt)
  {
    if w == 1 || w > Slack(t, zeroExempt) {
      forall h: History | Guarded(w, t, zeroExempt, h)
        ensures Distinct(h)
      {
        GuardedDistinct(w, t, zeroExempt, h);
      }
    } else {
      var most := if zeroExempt then t + 1 else t;
      var s: U64 := if w - 1 <= most then w - 1 else most;
      RepeatingRunIsGuarded(w, t, zeroExempt, s);
      var h := RepeatingRun(w, s);
      assert Guarded(w, t, zeroExempt, h) && h[0] == h[w + 1];
      assert !Distinct(h);
    }
  }

  /** On its own, with no rollback test, only the one-slot window never accepts a number twice. */
  lemma WindowAloneExactly(w: U64)
    requires 1 <= w
    ensures (forall h: History :: Admissible(w, h) ==> Distinct(h)) <==> w == 1
  {
    AtMostOnceExactly(w, TWO64, false);
    forall h: History
      ensures Guarded(w, TWO64, false, h) <==> Admissible(w, h)
    {
      if Guarded(w, TWO64, false, h) {
        GuardedIsAdmissible(w, TWO64, false, h);
      } else if Admissible(w, h) {
        GuardedIf(w, TWO64, false, h);
      }
    }
  }

  // ---- runs with refusals, against the unbounded set ----

  /** What the window accepts out of a stream of numbers. */
  function Accepted(w: U64, xs: seq<U64>): History {
    if xs == [] then []
    else
      var last := |xs| - 1;
      var h := Accepted(w, xs[..last]);
      if Fresh(w, h, xs[last]) then h + [xs[last]] else h
  }

  /** The same age cut-off with a memory that never forgets. */
  predicate UnboundedFresh(w: U64, h: History, x: U64) {
    x !in h && MaxOf(h) < w + x
  }

  function UnboundedAccepted(w: U64, xs: seq<U64>): History {
    if xs == [] then []
    else
      var last := |xs| - 1;
      var h := UnboundedAccepted(w, xs[..last]);
      if UnboundedFresh(w, h, xs[last]) then h + [xs[last]] else h
  }

  lemma {:induction false} AcceptedIsAdmissible(w: U64, xs: seq<U64>)
    ensures Admissible(w, Accepted(w, xs))
  {
    if xs != [] {
      var last := |xs| - 1;
      AcceptedIsAdmissible(w, xs[..last]);
      AdmissibleAppend(w, Accepted(w, xs[..last]), xs[last]);
    }
  }

  lemma GuardedPrefix(w: U64, t: nat, zeroExempt: bool, h: History, x: U64)
    requires Guarded(w, t, zeroExempt, h + [x])
    ensures Guarded(w, t, zeroExempt, h)
  {
    assert (h + [x])[..|h|] == h;
  }

  /** With bounded reordering the bounded cache accepts what the unbounded set accepts, nothing twice. */
  lemma {:induction false} RefinesUnboundedSet(w: U64, t: nat, zeroExempt: bool, xs: seq<U64>)
    requires w == 1 || w > Slack(t, zeroExempt)
    requires 1 <= w && Guarded(w, t, zeroExempt, Accepted(w, xs))
    ensures Accepted(w, xs) == UnboundedAccepted(w, xs) && Distinct(Accepted(w, xs))
  {
    GuardedDistinct(w, t, zeroExempt, Accepted(w, xs));
    if xs != [] {
      var last := |xs| - 1;
      var h, x := Accepted(w, xs[..last]), xs[last];
      FreshIsUnboundedFresh(w, h, x);
      if Fresh(w, h, x) {
        GuardedPrefix(w, t, zeroExempt, h, x);
      }
      RefinesUnboundedSet(w, t, zeroExempt, xs[..last]);
    }
  }

  lemma {:induction false} GuardedSoFar(w: U64, t: nat, zeroExempt: bool, xs: seq<U64>, i: nat)
    requires Guarded(w, t, zeroExempt, Accepted(w, xs)) && i <= |xs|
    ensures Guarded(w, t, zeroExempt, Accepted(w, xs[..i]))
  {
    var last := |xs| - 1;
    if i == |xs| {
      assert xs[..i] == xs;
    } else {
      if Fresh(w, Accepted(w, xs[..last]), xs[last]) {
        GuardedPrefix(w, t, zeroExempt, Accepted(w, xs[..last]), xs[last]);
      }
      assert xs[..last][..i] == xs[..i];
      GuardedSoFar(w, t, zeroExempt, xs[..last], i);
    }
  }

  /** The same, decision by decision, refusals included. */
  lemma EveryDecisionAgrees(w: U64, t: nat, zeroExempt: bool, xs: seq<U64>, i: nat)
    requires w == 1 || w > Slack(t, zeroExempt)
    requires 1 <= w && Guarded(w, t, zeroExempt, Accepted(w, xs))
    requires i < |xs|
    ensures Fresh(w, Accepted(w, xs[..i]), xs[i]) <==> UnboundedFresh(w, UnboundedAccepted(w, xs[..i]), xs[i])
  {
    GuardedSoFar(w, t, zeroExempt, xs, i);
    GuardedSoFar(w, t, zeroExempt, xs, i + 1);
    RefinesUnboundedSet(w, t, zeroExempt, xs[..i]);
    RefinesUnboundedSet(w, t, zeroExempt, xs[..i + 1]);
    assert xs[..i + 1][..i] == xs[..i];
    FreshIsUnboundedFresh(w, Accepted(w, xs[..i]), xs[i]);
  }

  /** If accepting `x` keeps the history free of repeats, forgetting made no difference. */
  lemma FreshIsUnboundedFresh(w: U64, h: History, x: U64)
    requires Distinct(if Fresh(w, h, x) then h + [x] else h)
    ensures Fresh(w, h, x) <==> UnboundedFresh(w, h, x)
  {
    assert forall y :: y in LastN(h, w) ==> y in h;
    if Fresh(w, h, x) {
      var g := h + [x];
      assert forall i :: 0 <= i < |h| ==> g[i] == h[i] && g[i] != g[|h|];
    }
  }

  // ---- the bounded state ----

  /** The cache's four fields against the history they stand for. */
  ghost predicate Represents(w: U64, maxSeen: U64, seen: set<U64>, order: seq<U64>, h: History) {
    && 1 <= w
    && Admissible(w, h)
    && maxSeen == MaxOf(h)
    && order == LastN(h, w)
    && seen == set x | x in order
  }

  function OrderAfterEviction(w: U64, order: seq<U64>): seq<U64> {
    if |order| > w then order[1..] else order
  }

  function SeenAfterEviction(w: U64, seen: set<U64>, order: seq<U64>): set<U64> {
    if |order| > w then seen - {order[0]} else seen
  }

  /** The set follows the queue through insertion and eviction. */
  lemma SeenFollowsOrder(w: U64, seen: set<U64>, order: seq<U64>, s: U64)
    requires seen == set x | x in order
    requires Distinct(order + [s])
    ensures SeenAfterEviction(w, seen + {s}, order + [s]) == set x | x in OrderAfterEviction(w, order + [s])
  {
    var full := order + [s];
    assert seen + {s} == set x | x in full;
    SetOfTail(full);
  }

  lemma RememberStep(w: U64, maxSeen: U64, seen: set<U64>, order: seq<U64>, h: History, s: U64)
    requires Represents(w, maxSeen, seen, order, h) && Fresh(w, h, s)
    ensures Represents(w, if s > maxSeen then s else maxSeen,
                       SeenAfterEviction(w, seen + {s}, order + [s]), OrderAfterEviction(w, order + [s]), h + [s])
  {
    hide MaxOf, Admissible, Fresh, LastN, Distinct, SeenAfterEviction;
    MaxOfAppend(h, s);
    AdmissibleAppend(w, h, s);
    FullQueueDistinct(w, h, s);
    LastNAppend(h, s, w);
    SeenFollowsOrder(w, seen, order, s);
  }
}

module ReplayCache {
  import opened Words
  import opened ReplayHistory

  class ReplayWindow {
    const window: U64
    var maxSeen: U64
    var seen: set<U64>
    var order: seq<U64>
    ghost var history: History

    ghost predicate Valid()
      reads this
    {
      Represents(window, maxSeen, seen, order, history)
    }

    constructor (window: U64)
      requires 1 <= window
      ensures Valid() && history == [] && this.window == window
    {
      this.window := window;
      maxSeen, seen, order := 0, {}, [];
      history := [];
    }

    predicate IsTooOld(s: U64)
      reads this
    {
      if maxSeen == 0 then false
      else if maxSeen < window then false
      else s <= maxSeen - window
    }

    predicate Contains(s: U64): (b: bool)
      requires Valid()
      reads this
      ensures b <==> !Fresh(window, history, s)
    {
      IsTooOld(s) || s in seen
    }

    method EvictOldestIfFull()
      modifies this`seen, this`order
      ensures order == OrderAfterEviction(window, old(order))
      ensures seen == SeenAfterEviction(window, old(seen), old(order))
    {
      if |order| > window {
        seen := seen - {order[0]};
        order := order[1..];
      }
    }

    method Remember(s: U64)
      requires Valid()
      modifies this
      ensures Valid()
      ensures history == if Fresh(window, old(history), s) then old(history) + [s] else old(history)
    {
      if Contains(s) {
        return;
      }
      if s > maxSeen {
        maxSeen := s;
      }
      seen := seen + {s};
      order := order + [s];
      EvictOldestIfFull();
      history := history + [s];
      RememberStep(window, old(maxSeen), old(seen), old(order), old(history), s);
    }

    method Accept(s: U64) returns (ok: bool)
      requires Valid()
      modifies this
      ensures Valid()
      ensures ok <==> Fresh(window, old(history), s)
      ensures history == if ok then old(history) + [s] else old(history)
    {
      if Contains(s) {
        return false;
      }
      Remember(s);
      return true;
    }
  }
}
