/**
 Loads of an assignment of weighted items to `m` parts, and what the greedy rule guarantees about them.
 An assignment gives item `i` of `w` to part `c[i]`.
 */
module Loads {

  ghost predicate IsAssignment(c: seq<nat>, n: nat, m: nat) {
    |c| == n && forall i :: 0 <= i < n ==> c[i] < m
  }

  ghost function Sum(w: seq<real>): real {
    if w == [] then 0.0 else Sum(w[..|w| - 1]) + w[|w| - 1]
  }

  /** The weight that part `p` holds. */
  ghost function Load(w: seq<real>, c: seq<nat>, p: nat): real
    requires |c| == |w|
  {
    if w == [] then 0.0
    else
      var n := |w| - 1;
      Load(w[..n], c[..n], p) + (if c[n] == p then w[n] else 0.0)
  }

  /** The weight that parts `0..k` hold together. */
  ghost function LoadBelow(w: seq<real>, c: seq<nat>, k: nat): real
    requires |c| == |w|
  {
    if k == 0 then 0.0 else LoadBelow(w, c, k - 1) + Load(w, c, k - 1)
  }

  /** k copies of x. Hidden wherever a proof is about loads, so that only its laws are used there. */
  ghost function Times(k: nat, x: real): real {
    k as real * x
  }

  lemma TimesStep(k: nat, x: real)
    ensures Times(k, x) == if k == 0 then 0.0 else Times(k - 1, x) + x
  {
    if k > 0 {
      assert k as real == (k - 1) as real + 1.0;
    }
  }

  lemma TimesSum(k: nat, x: real, y: real)
    ensures Times(k, x + y) == Times(k, x) + Times(k, y)
  {
  }

  lemma TimesGrows(k: nat, x: real, y: real)
    requires x <= y
    ensures Times(k, x) <= Times(k, y)
  {
  }

  ghost predicate NonNegative(w: seq<real>) {
    forall i :: 0 <= i < |w| ==> w[i] >= 0.0
  }

  ghost predicate Descending(w: seq<real>) {
    forall i, j :: 0 <= i <= j < |w| ==> w[i] >= w[j]
  }

  // ----- conservation of weight -----

  lemma {:induction false} LoadBelowStep(w: seq<real>, c: seq<nat>, k: nat)
    requires |c| == |w| > 0
    ensures var n := |w| - 1;
            LoadBelow(w, c, k) == LoadBelow(w[..n], c[..n], k) + (if c[n] < k then w[n] else 0.0)
  {
    if k > 0 {
      LoadBelowStep(w, c, k - 1);
    }
  }

  lemma {:induction false} LoadBelowNone(k: nat)
    ensures LoadBelow([], [], k) == 0.0
  {
    if k > 0 {
      LoadBelowNone(k - 1);
    }
  }

  /** The parts together hold every item. */
  lemma {:induction false} LoadsConserve(w: seq<real>, c: seq<nat>, m: nat)
    requires IsAssignment(c, |w|, m)
    ensures LoadBelow(w, c, m) == Sum(w)
  {
    if w == [] {
      LoadBelowNone(m);
    } else {
      var n := |w| - 1;
      LoadsConserve(w[..n], c[..n], m);
      LoadBelowStep(w, c, m);
    }
  }

  lemma {:induction false} LoadBelowAtLeast(w: seq<real>, c: seq<nat>, k: nat, floor: real)
    requires |c| == |w| && forall p :: 0 <= p < k ==> Load(w, c, p) >= floor
    ensures LoadBelow(w, c, k) >= Times(k, floor)
  {
    TimesStep(k, floor);
    hide Times;
    if k > 0 {
      LoadBelowAtLeast(w, c, k - 1, floor);
    }
  }

  lemma {:induction false} LoadBelowAtMost(w: seq<real>, c: seq<nat>, k: nat, roof: real)
    requires |c| == |w| && forall p :: 0 <= p < k ==> Load(w, c, p) <= roof
    ensures LoadBelow(w, c, k) <= Times(k, roof)
  {
    TimesStep(k, roof);
    hide Times;
    if k > 0 {
      LoadBelowAtMost(w, c, k - 1, roof);
    }
  }

  lemma {:induction false} PrefixSum(w: seq<real>, n: nat)
    requires NonNegative(w) && n <= |w|
    ensures Sum(w[..n]) <= Sum(w)
    decreases |w|
  {
    if n < |w| {
      var u := w[..|w| - 1];
      PrefixSum(u, n);
      assert u[..n] == w[..n];
    } else {
      assert w[..n] == w;
    }
  }

  lemma {:induction false} PrefixLoad(w: seq<real>, c: seq<nat>, n: nat, p: nat)
    requires NonNegative(w) && |c| == |w| && n <= |w|
    ensures 0.0 <= Load(w[..n], c[..n], p) <= Load(w, c, p)
    decreases |w| + n
  {
    if n < |w| {
      var k := |w| - 1;
      PrefixLoad(w[..k], c[..k], n, p);
      assert w[..k][..n] == w[..n] && c[..k][..n] == c[..n];
    } else if n > 0 {
      PrefixLoad(w, c, n - 1, p);
      assert w[..n] == w && c[..n] == c;
    }
  }

  lemma SumStep(w: seq<real>, j: nat)
    requires j < |w|
    ensures Sum(w[..j + 1]) == Sum(w[..j]) + w[j]
  {
    assert w[..j + 1][..j] == w[..j];
  }

  // ----- the greedy rule -----

  ghost function Ones(n: nat): seq<real> {
    seq(n, _ => 1.0)
  }

  /** How many items part `p` holds. */
  ghost function Count(c: seq<nat>, p: nat): real {
    Load(Ones(|c|), c, p)
  }

  /** Part `p` is no heavier than part `q`; on equal weight it holds no more items. */
  ghost predicate Lighter(w: seq<real>, c: seq<nat>, p: nat, q: nat)
    requires |c| == |w|
  {
    Load(w, c, p) < Load(w, c, q) || (Load(w, c, p) == Load(w, c, q) && Count(c, p) <= Count(c, q))
  }

  /** Each item went to a part that was lightest at that moment. */
  ghost predicate IsGreedy(w: seq<real>, c: seq<nat>, m: nat) {
    && IsAssignment(c, |w|, m)
    && forall t, p :: 0 <= t < |w| && 0 <= p < m ==> Lighter(w[..t], c[..t], c[t], p)
  }

  /** The last item of a part carries its final load. */
  lemma {:induction false} LastItem(w: seq<real>, c: seq<nat>, p: nat) returns (j: nat)
    requires |c| == |w| && p in c
    ensures j < |w| && c[j] == p
    ensures Load(w, c, p) == Load(w[..j], c[..j], p) + w[j]
  {
    var n := |w| - 1;
    if c[n] == p {
      j := n;
    } else {
      assert p in c[..n];
      j := LastItem(w[..n], c[..n], p);
      assert w[..n][..j] == w[..j] && c[..n][..j] == c[..j];
    }
  }

  lemma {:induction false} EmptyPart(w: seq<real>, c: seq<nat>, p: nat)
    requires |c| == |w| && p !in c
    ensures Load(w, c, p) == 0.0
  {
    if w != [] {
      EmptyPart(w[..|w| - 1], c[..|w| - 1], p);
    }
  }

  /** A part that takes item `j` was then at most the average of the earlier items. */
  lemma BelowAverage(w: seq<real>, c: seq<nat>, m: nat, j: nat)
    requires IsGreedy(w, c, m) && j < |w|
    ensures Times(m, Load(w[..j], c[..j], c[j])) <= Sum(w[..j])
  {
    hide Times;
    var u, d := w[..j], c[..j];
    forall p | 0 <= p < m ensures Load(u, d, p) >= Load(u, d, c[j]) {
      assert Lighter(u, d, c[j], p);
    }
    LoadBelowAtLeast(u, d, m, Load(u, d, c[j]));
    LoadsConserve(u, d, m);
  }

  /** m times any part is at most the total weight plus m - 1 times the heaviest item. */
  lemma ListBound(w: seq<real>, c: seq<nat>, m: nat, p: nat, heaviest: real)
    requires NonNegative(w) && IsGreedy(w, c, m) && p < m
    requires heaviest >= 0.0 && forall i :: 0 <= i < |w| ==> w[i] <= heaviest
    ensures Times(m, Load(w, c, p)) <= Sum(w) + Times(m - 1, heaviest)
  {
    hide Times;
    if p in c {
      var j := LastItem(w, c, p);
      BelowAverage(w, c, m, j);
      PrefixSum(w, j + 1);
      SumStep(w, j);
      TimesSum(m, Load(w[..j], c[..j], p), w[j]);
      TimesStep(m, w[j]);
      TimesGrows(m - 1, w[j], heaviest);
    } else {
      EmptyPart(w, c, p);
      PrefixSum(w, 0);
      TimesZero(m);
      TimesZero(m - 1);
      TimesGrows(m - 1, 0.0, heaviest);
    }
  }

  lemma TimesZero(k: nat)
    ensures Times(k, 0.0) == 0.0
  {
  }

  // ----- against every other assignment -----

  /** How much of a part an item takes up: two slots when it exceeds `limit`, otherwise one. */
  ghost function Slots(w: seq<real>, limit: real): (v: seq<real>)
    ensures |v| == |w|
  {
    seq(|w|, i requires 0 <= i < |w| => if w[i] > limit then 2.0 else 1.0)
  }

  lemma SlotsPrefix(w: seq<real>, limit: real, n: nat)
    requires n <= |w|
    ensures Slots(w, limit)[..n] == Slots(w[..n], limit)
  {
  }

  lemma SlotsGrow(w: seq<real>, j: nat, limit: real)
    requires j < |w|
    ensures Sum(Slots(w[..j + 1], limit)) >= Sum(Slots(w[..j], limit)) + 1.0
  {
    SlotsPrefix(w[..j + 1], limit, j);
    assert w[..j + 1][..j] == w[..j];
  }

  /** A part with fewer than two slots taken weighs at most the limit. */
  lemma {:induction false} FewSlots(w: seq<real>, c: seq<nat>, p: nat, limit: real)
    requires |c| == |w| && limit >= 0.0
    ensures var taken := Load(Slots(w, limit), c, p);
            && (taken == 0.0 || taken >= 1.0)
            && (taken == 0.0 ==> Load(w, c, p) == 0.0)
            && (taken < 2.0 ==> Load(w, c, p) <= limit)
  {
    if w != [] {
      var n := |w| - 1;
      FewSlots(w[..n], c[..n], p, limit);
      SlotsPrefix(w, limit, n);
    }
  }

  /** When every item exceeds a third of the roof, a part with more than two slots taken exceeds the roof. */
  lemma {:induction false} ManySlots(w: seq<real>, c: seq<nat>, p: nat, least: real, roof: real)
    requires |c| == |w| && 3.0 * least > roof >= 0.0 && forall i :: 0 <= i < |w| ==> w[i] >= least
    ensures var taken := Load(Slots(w, roof - least), c, p);
            && (taken == 0.0 || taken == 1.0 || taken == 2.0 || taken >= 3.0)
            && (taken >= 0.0 ==> Load(w, c, p) >= 0.0)
            && (taken >= 1.0 ==> Load(w, c, p) >= least)
            && (taken >= 2.0 ==> Load(w, c, p) > roof - least)
            && (taken >= 3.0 ==> Load(w, c, p) > roof)
  {
    if w != [] {
      var n := |w| - 1;
      ManySlots(w[..n], c[..n], p, least, roof);
      SlotsPrefix(w, roof - least, n);
    }
  }

  /**
   An item heavier than a third of what some assignment achieves still fits under that assignment's roof:
   otherwise the greedy parts hold two slots each before it, more than the other assignment has room for.
   */
  lemma HeavyItemFits(w: seq<real>, c: seq<nat>, m: nat, j: nat, a: seq<nat>, roof: real)
    requires NonNegative(w) && Descending(w) && IsGreedy(w, c, m) && j < |w|
    requires IsAssignment(a, |w|, m) && forall q :: 0 <= q < m ==> Load(w, a, q) <= roof
    requires 3.0 * w[j] > roof
    ensures Load(w[..j], c[..j], c[j]) + w[j] <= roof
  {
    hide Times;
    if Load(w[..j], c[..j], c[j]) + w[j] > roof {
      var limit := roof - w[j];
      RoofHoldsItem(w, a, m, j, roof);
      var before := Load(Slots(w[..j], limit), c[..j], c[j]);
      forall p | 0 <= p < m ensures Load(Slots(w[..j], limit), c[..j], p) >= 2.0 {
        assert Lighter(w[..j], c[..j], c[j], p);
        FewSlots(w[..j], c[..j], p, limit);
      }
      LoadBelowAtLeast(Slots(w[..j], limit), c[..j], m, 2.0);
      LoadsConserve(Slots(w[..j], limit), c[..j], m);
      SlotsGrow(w, j, limit);
      OtherHasRoom(w, m, j, a, roof);
      assert false;
    }
  }

  lemma RoofHoldsItem(w: seq<real>, a: seq<nat>, m: nat, j: nat, roof: real)
    requires NonNegative(w) && IsAssignment(a, |w|, m) && j < |w|
    requires forall q :: 0 <= q < m ==> Load(w, a, q) <= roof
    ensures w[j] <= roof
  {
    PrefixLoad(w, a, j + 1, a[j]);
    PrefixLoad(w, a, j, a[j]);
    assert w[..j + 1][..j] == w[..j] && a[..j + 1][..j] == a[..j];
  }

  lemma OtherHasRoom(w: seq<real>, m: nat, j: nat, a: seq<nat>, roof: real)
    requires NonNegative(w) && Descending(w) && j < |w| && 3.0 * w[j] > roof
    requires IsAssignment(a, |w|, m) && forall q :: 0 <= q < m ==> Load(w, a, q) <= roof
    ensures Sum(Slots(w[..j + 1], roof - w[j])) <= Times(m, 2.0)
  {
    var v, b := Slots(w[..j + 1], roof - w[j]), a[..j + 1];
    forall q | 0 <= q < m ensures Load(v, b, q) <= 2.0 {
      OtherPartHasRoom(w, m, j, a, roof, q);
    }
    hide Load, Sum, Slots, Times;
    LoadBelowAtMost(v, b, m, 2.0);
    LoadsConserve(v, b, m);
  }

  lemma OtherPartHasRoom(w: seq<real>, m: nat, j: nat, a: seq<nat>, roof: real, q: nat)
    requires NonNegative(w) && Descending(w) && j < |w| && 3.0 * w[j] > roof && q < m
    requires IsAssignment(a, |w|, m) && forall q :: 0 <= q < m ==> Load(w, a, q) <= roof
    ensures Load(Slots(w[..j + 1], roof - w[j]), a[..j + 1], q) <= 2.0
  {
    RoofHoldsItem(w, a, m, j, roof);
    PrefixLoad(w, a, j + 1, q);
    ManySlots(w[..j + 1], a[..j + 1], q, w[j], roof);
  }

  /** Graham's bound: 3m times any greedy part is at most 4m - 1 times the roof of any assignment. */
  lemma LptBound(w: seq<real>, c: seq<nat>, m: nat, p: nat, a: seq<nat>, roof: real)
    requires NonNegative(w) && Descending(w) && IsGreedy(w, c, m) && p < m
    requires IsAssignment(a, |w|, m) && forall q :: 0 <= q < m ==> Load(w, a, q) <= roof
    ensures 3.0 * Times(m, Load(w, c, p)) <= 4.0 * Times(m, roof) - roof
  {
    PrefixLoad(w, a, 0, 0);
    hide Times, Descending;
    assert 0.0 <= Load(w, a, 0) <= roof;
    RoofGrows(m, roof);
    if p !in c {
      EmptyPart(w, c, p);
      TimesZero(m);
    } else {
      var j := LastItem(w, c, p);
      if 3.0 * w[j] > roof {
        HeavyItemFits(w, c, m, j, a, roof);
        TimesGrows(m, Load(w, c, p), roof);
      } else {
        LightItem(w, c, m, j, a, roof);
      }
    }
  }

  lemma RoofGrows(m: nat, roof: real)
    requires m > 0 && roof >= 0.0
    ensures Times(m, roof) >= roof
  {
    hide Times;
    TimesStep(m, roof);
    TimesGrows(m - 1, 0.0, roof);
    TimesZero(m - 1);
  }

  lemma LightItem(w: seq<real>, c: seq<nat>, m: nat, j: nat, a: seq<nat>, roof: real)
    requires NonNegative(w) && IsGreedy(w, c, m) && j < |w| && 3.0 * w[j] <= roof
    requires IsAssignment(a, |w|, m) && forall q :: 0 <= q < m ==> Load(w, a, q) <= roof
    ensures 3.0 * Times(m, Load(w[..j], c[..j], c[j]) + w[j]) <= 4.0 * Times(m, roof) - roof
  {
    hide Times, Load, Sum;
    var low := Load(w[..j], c[..j], c[j]);
    BelowAverage(w, c, m, j);
    PrefixSum(w, j + 1);
    SumStep(w, j);
    LoadBelowAtMost(w, a, m, roof);
    LoadsConserve(w, a, m);
    TimesSum(m, low, w[j]);
    TimesStep(m, w[j]);
    TimesStep(m, roof);
    ThirdGrows(m - 1, w[j], roof);
  }

  lemma ThirdGrows(k: nat, x: real, y: real)
    requires 3.0 * x <= y
    ensures 3.0 * Times(k, x) <= Times(k, y)
  {
    hide Times;
    TimesSum(k, x, x);
    TimesSum(k, x + x, x);
    TimesGrows(k, x + x + x, y);
  }

  // ----- empty parts -----

  lemma OnesPrefix(n: nat, k: nat)
    requires k <= n
    ensures Ones(n)[..k] == Ones(k)
  {
  }

  lemma {:induction false} SumOnes(n: nat)
    ensures Sum(Ones(n)) == n as real
  {
    if n > 0 {
      SumOnes(n - 1);
      OnesPrefix(n, n - 1);
    }
  }

  lemma {:induction false} CountStep(c: seq<nat>, p: nat)
    requires c != []
    ensures Count(c, p) == Count(c[..|c| - 1], p) + (if c[|c| - 1] == p then 1.0 else 0.0)
  {
    OnesPrefix(|c|, |c| - 1);
  }

  lemma {:induction false} CountPositive(c: seq<nat>, p: nat)
    ensures if p in c then Count(c, p) >= 1.0 else Count(c, p) == 0.0
  {
    if c != [] {
      CountStep(c, p);
      CountPositive(c[..|c| - 1], p);
      assert c == c[..|c| - 1] + [c[|c| - 1]];
    }
  }

  /** While some part is empty and nothing negative has been placed, no part holds a second item. */
  lemma {:induction false} EmptyMeansNoSecond(w: seq<real>, c: seq<nat>, m: nat, empty: nat, p: nat)
    requires w != [] ==> NonNegative(w[..|w| - 1])
    requires IsGreedy(w, c, m) && empty < m && empty !in c && p < m
    ensures Count(c, p) <= 1.0
  {
    if w == [] {
      CountPositive(c, p);
    } else {
      var n := |w| - 1;
      var u, d := w[..n], c[..n];
      GreedyPrefix(w, c, m, n);
      EmptyMeansNoSecond(u, d, m, empty, p);
      CountStep(c, p);
      if c[n] == p {
        assert Lighter(u, d, p, empty);
        EmptyPart(u, d, empty);
        CountPositive(d, empty);
        PrefixLoad(u, d, n, p);
        assert u[..n] == u && d[..n] == d;
      }
    }
  }

  lemma GreedyPrefix(w: seq<real>, c: seq<nat>, m: nat, n: nat)
    requires IsGreedy(w, c, m) && n <= |w|
    ensures IsGreedy(w[..n], c[..n], m)
  {
    forall t, p | 0 <= t < n && 0 <= p < m ensures Lighter(w[..n][..t], c[..n][..t], c[..n][t], p) {
      assert w[..n][..t] == w[..t] && c[..n][..t] == c[..t];
      assert Lighter(w[..t], c[..t], c[t], p);
    }
  }

  /** An assignment that leaves no part empty has at least one item for each. */
  lemma FilledNeedsItems(c: seq<nat>, m: nat)
    requires IsAssignment(c, |c|, m) && forall p :: 0 <= p < m ==> p in c
    ensures |c| >= m
  {
    forall p | 0 <= p < m ensures Load(Ones(|c|), c, p) >= 1.0 {
      CountPositive(c, p);
    }
    SumOnes(|c|);
    LoadsConserve(Ones(|c|), c, m);
    LoadBelowAtLeast(Ones(|c|), c, m, 1.0);
    assert Times(m, 1.0) == m as real;
  }

  /** With all weights but the last non-negative, m items fill m parts. */
  lemma EnoughItemsFill(w: seq<real>, c: seq<nat>, m: nat, p: nat)
    requires IsGreedy(w, c, m) && |w| == m && p < m && NonNegative(w[..m - 1])
    ensures p in c
  {
    if p !in c {
      forall q | 0 <= q < m ensures Count(c, q) <= (if q == p then 0.0 else 1.0) {
        EmptyMeansNoSecond(w, c, m, p, q);
        CountPositive(c, p);
      }
      BelowWithHole(c, m, p);
      SumOnes(|c|);
      LoadsConserve(Ones(|c|), c, m);
      assert false;
    }
  }

  lemma {:induction false} BelowWithHole(c: seq<nat>, k: nat, hole: nat)
    requires forall p :: 0 <= p < k ==> Count(c, p) <= (if p == hole then 0.0 else 1.0)
    ensures LoadBelow(Ones(|c|), c, k) <= k as real - (if hole < k then 1.0 else 0.0)
  {
    if k > 0 {
      BelowWithHole(c, k - 1, hole);
      assert Count(c, k - 1) == Load(Ones(|c|), c, k - 1);
    }
  }

  /** Fewer items than parts leave a part without any. */
  lemma SomeEmpty(c: seq<nat>, m: nat) returns (p: nat)
    requires IsAssignment(c, |c|, m) && |c| < m
    ensures p < m && p !in c
  {
    if forall p :: 0 <= p < m ==> p in c {
      FilledNeedsItems(c, m);
      assert false;
    }
    p :| 0 <= p < m && p !in c;
  }

  /** The first negative item goes to an empty part, which then stays the lightest and takes all the rest. */
  lemma {:induction false} NegativeSinks(w: seq<real>, c: seq<nat>, m: nat, j: nat)
    requires Descending(w) && IsGreedy(w, c, m) && j < |w| && j + 1 < m
    requires NonNegative(w[..j]) && w[j] < 0.0
    ensures Load(w, c, c[j]) < 0.0
    ensures forall p :: 0 <= p < m && p != c[j] ==> Load(w, c, p) >= 0.0
    ensures forall t :: j <= t < |w| ==> c[t] == c[j]
    decreases |w|
  {
    var n := |w| - 1;
    var u, d := w[..n], c[..n];
    GreedyPrefix(w, c, m, n);
    assert Lighter(u, d, c[n], c[j]);
    if n == j {
      var empty := SomeEmpty(d, m);
      assert Lighter(u, d, c[n], empty);
      EmptyPart(u, d, empty);
      forall p | 0 <= p < m ensures Load(u, d, p) >= 0.0 {
        PrefixLoad(u, d, n, p);
        assert u[..n] == u && d[..n] == d;
      }
    } else {
      assert u[..j] == w[..j];
      NegativeSinks(u, d, m, j);
      assert w[n] <= w[j];
    }
  }

  /**
   Exactly when no part stays empty, whatever the weights: there are at least as many items as parts, and the
   (m - 1)-th heaviest item is not negative.
   */
  lemma NonEmptyIff(w: seq<real>, c: seq<nat>, m: nat)
    requires Descending(w) && IsGreedy(w, c, m)
    ensures (forall p :: 0 <= p < m ==> p in c) <==> |w| >= m && (m >= 2 ==> w[m - 2] >= 0.0)
  {
    if |w| >= m && (m >= 2 ==> w[m - 2] >= 0.0) {
      if m > 0 {
        GreedyPrefix(w, c, m, m);
        assert w[..m][..m - 1] == w[..m - 1];
        forall p | 0 <= p < m ensures p in c {
          EnoughItemsFill(w[..m], c[..m], m, p);
        }
      }
    } else if forall p :: 0 <= p < m ==> p in c {
      FilledNeedsItems(c, m);
      var j := FirstNegative(w, m - 2);
      NegativeSinks(w, c, m, j);
      var d := c[..j + 1];
      forall p | 0 <= p < m ensures p in d {
        assert p in c;
        var t :| 0 <= t < |c| && c[t] == p;
        assert d[if t <= j then t else j] == p;
      }
      FilledNeedsItems(d, m);
      assert false;
    }
  }

  lemma {:induction false} FirstNegative(w: seq<real>, k: nat) returns (j: nat)
    requires k < |w| && w[k] < 0.0
    ensures j <= k && w[j] < 0.0 && NonNegative(w[..j])
  {
    if i :| 0 <= i < k && w[i] < 0.0 {
      j := FirstNegative(w, i);
    } else {
      j := k;
    }
  }

  /** Enough items alone are not enough: with two negative weights one of two parts always stays empty. */
  lemma NegativeLeavesEmpty(c: seq<nat>)
    requires IsGreedy([-1.0, -5.0], c, 2)
    ensures exists p :: 0 <= p < 2 && p !in c
  {
    NonEmptyIff([-1.0, -5.0], c, 2);
  }
}
