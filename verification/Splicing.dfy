/** The replacement loop of `rewriteMarkdown`: splices from the last range to the first. */
module Splicing {
  import opened Sorting

  datatype Replacement = Replacement(start: nat, end: nat, value: string)

  ghost predicate Inside(source: string, rs: seq<Replacement>) {
    forall r :: r in rs ==> r.start <= r.end <= |source|
  }

  /**
   The ranges of `a`, listed first, and of `b` do not overlap; if they begin at one place, it is `b` that is empty,
   and its value goes in front.
   */
  ghost predicate Separate(a: Replacement, b: Replacement) {
    b.end <= a.start || (a.end <= b.start && a.start < b.start)
  }

  ghost predicate Disjoint(rs: seq<Replacement>) {
    forall i, j :: 0 <= i < j < |rs| ==> Separate(rs[i], rs[j])
  }

  /** Every range begins where the earlier-listed ones have not reached: last range first. */
  ghost predicate FromTheEnd(rs: seq<Replacement>) {
    forall i, j :: 0 <= i < j < |rs| ==> rs[j].end <= rs[i].start
  }

  /** The comparator `b.start - a.start`. */
  function CompareStarts(a: Replacement, b: Replacement): int {
    b.start - a.start
  }

  function LastFirst(rs: seq<Replacement>): seq<Replacement> {
    SortBy(rs, CompareStarts)
  }

  /** `slice(0, k)` and `slice(k)`. */
  function Before(text: string, k: nat): string {
    if k <= |text| then text[..k] else text
  }

  function From(text: string, k: nat): string {
    if k <= |text| then text[k..] else ""
  }

  /** One splice into what the earlier ones have made of the text. */
  function Splice(text: string, r: Replacement): string {
    Before(text, r.start) + r.value + From(text, r.end)
  }

  /** The splices in the order given. */
  function Applied(source: string, rs: seq<Replacement>): string {
    if rs == [] then source else Splice(Applied(source, rs[..|rs| - 1]), rs[|rs| - 1])
  }

  /** The loop. */
  method ApplyReplacements(source: string, replacements: seq<Replacement>) returns (projected: string)
    ensures projected == Applied(source, LastFirst(replacements))
  {
    hide LastFirst, Before, From;
    projected := source;
    var sorted := LastFirst(replacements);
    for i := 0 to |sorted|
      invariant projected == Applied(source, sorted[..i])
    {
      var replacement := sorted[i];
      assert sorted[..i + 1][..i] == sorted[..i];
      projected := Before(projected, replacement.start) + replacement.value + From(projected, replacement.end);
    }
    assert sorted[..|sorted|] == sorted;
  }

  // ----- all ranges at once -----

  ghost predicate AllFrom(rs: seq<Replacement>, x: nat) {
    forall r :: r in rs ==> x <= r.start
  }

  /** The substitution of all ranges at once: one pass over the source from `from`; the ranges are listed last first. */
  ghost function Substituted(source: string, rs: seq<Replacement>, from: nat): string
    requires Inside(source, rs) && FromTheEnd(rs) && from <= |source| && AllFrom(rs, from)
  {
    if rs == [] then source[from..]
    else
      var n := |rs| - 1;
      OthersFrom(rs);
      source[from..rs[n].start] + rs[n].value + Substituted(source, rs[..n], rs[n].end)
  }

  lemma OthersFrom(rs: seq<Replacement>)
    requires FromTheEnd(rs) && rs != []
    ensures FromTheEnd(rs[..|rs| - 1]) && AllFrom(rs[..|rs| - 1], rs[|rs| - 1].end)
  {
    var n := |rs| - 1;
    forall r | r in rs[..n] ensures rs[n].end <= r.start {
      var i :| 0 <= i < n && rs[i] == r;
    }
  }

  /** A splice of what stands between `s` and `e`. */
  lemma SpliceAt(head: string, middle: string, tail: string, value: string, s: nat, e: nat)
    requires |head| == s && |head + middle| == e
    ensures Splice(head + middle + tail, Replacement(s, e, value)) == head + value + tail
  {
    var text := head + middle + tail;
    assert text[..s] == head && text[e..] == tail;
  }

  lemma Regrouped(a: string, b: string, c: string)
    ensures a + b + c == a + (b + c)
  {
  }

  lemma Cut(text: string, i: nat, j: nat)
    requires i <= j <= |text|
    ensures text[..j] == text[..i] + text[i..j] && text == text[..j] + text[j..]
  {
  }

  lemma OneMore(source: string, rs: seq<Replacement>)
    requires rs != []
    ensures Applied(source, rs) == Splice(Applied(source, rs[..|rs| - 1]), rs[|rs| - 1])
  {
  }

  /** Splicing from the end leaves everything up to the first range alone, and substitutes the rest. */
  lemma {:induction false} AppliedIs(source: string, rs: seq<Replacement>, x: nat)
    requires Inside(source, rs) && FromTheEnd(rs) && x <= |source| && AllFrom(rs, x)
    ensures Applied(source, rs) == source[..x] + Substituted(source, rs, x)
    decreases |rs|
  {
    hide Applied, Splice;
    if rs == [] {
      NoneApplied(source);
      Cut(source, x, x);
    } else {
      var n := |rs| - 1;
      var r, rest := rs[n], rs[..n];
      OthersFrom(rs);
      assert r in rs;
      AppliedIs(source, rest, r.end);
      OneMore(source, rs);
      var tail := Substituted(source, rest, r.end);
      SpliceFirst(source, x, r, tail);
    }
  }

  lemma NoneApplied(source: string)
    ensures Applied(source, []) == source
  {
  }

  lemma SpliceFirst(source: string, x: nat, r: Replacement, tail: string)
    requires x <= r.start <= r.end <= |source|
    ensures Splice(source[..r.end] + tail, r) == source[..x] + (source[x..r.start] + r.value + tail)
  {
    hide Splice;
    Cut(source, r.start, r.end);
    Cut(source, x, r.start);
    SpliceAt(source[..r.start], source[r.start..r.end], tail, r.value, r.start, r.end);
    Regrouped(source[..x] + source[x..r.start], r.value, tail);
    Regrouped(source[..x], source[x..r.start], r.value + tail);
    Regrouped(source[x..r.start], r.value, tail);
  }

  // ----- what the substitution is, position by position -----

  ghost function Gain(r: Replacement): int {
    |r.value| - (r.end - r.start)
  }

  /** How far the ranges that begin before `k` move what follows them. */
  ghost function Shift(rs: seq<Replacement>, k: nat): int {
    if rs == [] then 0
    else
      var n := |rs| - 1;
      Shift(rs[..n], k) + (if rs[n].start < k then Gain(rs[n]) else 0)
  }

  /** `k` is a character of no range. */
  ghost predicate Outside(rs: seq<Replacement>, k: nat) {
    forall r :: r in rs ==> k < r.start || r.end <= k
  }

  /** The replacements that begin at `k`, in the order listed. */
  ghost function Group(rs: seq<Replacement>, k: nat): (group: seq<Replacement>)
    ensures forall r :: r in group ==> r in rs && r.start == k
  {
    if rs == [] then []
    else
      var n := |rs| - 1;
      Group(rs[..n], k) + (if rs[n].start == k then [rs[n]] else [])
  }

  ghost function Gains(rs: seq<Replacement>): int {
    if rs == [] then 0 else Gains(rs[..|rs| - 1]) + Gain(rs[|rs| - 1])
  }

  /**
   Every character outside the ranges is kept, in order, and every range holds its value; values that begin at one
   place stand there last listed first.
   */
  ghost predicate IsSubstitution(source: string, rs: seq<Replacement>, out: string, from: nat) {
    && |out| == |source| - from + Shift(rs, |source| + 1)
    && (forall k: nat :: from <= k < |source| && Outside(rs, k) ==> Keeps(source, rs, out, from, k))
    && (forall k: nat, i: nat :: i < |Group(rs, k)| ==> Holds(rs, out, from, k, i))
  }

  ghost predicate Keeps(source: string, rs: seq<Replacement>, out: string, from: nat, k: nat) {
    var i := k - from + Shift(rs, k + 1);
    k < |source| && 0 <= i < |out| && out[i] == source[k]
  }

  ghost predicate Holds(rs: seq<Replacement>, out: string, from: nat, k: nat, i: nat)
    requires i < |Group(rs, k)|
  {
    HoldsAt(out, k - from + Moved(rs, k, i), Group(rs, k)[i].value)
  }

  /** How far replacement `i` of those that begin at `k` is moved, by those before `k` and those put in front of it. */
  ghost function Moved(rs: seq<Replacement>, k: nat, i: nat): int
    requires i < |Group(rs, k)|
  {
    Shift(rs, k) + Gains(Group(rs, k)[i + 1..])
  }

  ghost predicate HoldsAt(out: string, p: int, value: string) {
    0 <= p <= p + |value| <= |out| && out[p..p + |value|] == value
  }

  lemma {:induction false} NoShift(rs: seq<Replacement>, k: nat)
    requires AllFrom(rs, k)
    ensures Shift(rs, k) == 0
  {
    if rs != [] {
      assert rs[|rs| - 1] in rs;
      NoShift(rs[..|rs| - 1], k);
    }
  }

  /** A character past the first range keeps its place in the rest. */
  lemma KeepsOn(source: string, rs: seq<Replacement>, tail: string, from: nat, k: nat)
    requires rs != []
    requires var r := rs[|rs| - 1];
             r in rs && from <= r.start <= r.end <= k < |source| && Outside(rs, k)
             && Keeps(source, rs[..|rs| - 1], tail, r.end, k)
    ensures var r := rs[|rs| - 1]; Keeps(source, rs, source[from..r.start] + r.value + tail, from, k)
  {
    var r := rs[|rs| - 1];
    assert r.start < k + 1;
  }

  lemma KeepsBefore(source: string, rs: seq<Replacement>, tail: string, from: nat, k: nat)
    requires rs != [] && Inside(source, rs) && AllFrom(rs[..|rs| - 1], k + 1)
    requires var r := rs[|rs| - 1]; r in rs && from <= k < r.start <= |source|
    ensures var r := rs[|rs| - 1]; Keeps(source, rs, source[from..r.start] + r.value + tail, from, k)
  {
    NoShift(rs[..|rs| - 1], k + 1);
  }

  lemma GainsLast(rs: seq<Replacement>, r: Replacement)
    ensures Gains(rs + [r]) == Gains(rs) + Gain(r)
  {
    assert (rs + [r])[..|rs|] == rs;
  }

  lemma HoldsFurther(head: string, tail: string, p: int, value: string)
    requires HoldsAt(tail, p, value)
    ensures HoldsAt(head + tail, |head| + p, value)
  {
    assert (head + tail)[|head| + p..|head| + p + |value|] == tail[p..p + |value|];
  }

  lemma GroupLast(rs: seq<Replacement>, k: nat)
    requires rs != []
    ensures var r, rest := rs[|rs| - 1], rs[..|rs| - 1];
            Group(rs, k) == Group(rest, k) + (if r.start == k then [r] else [])
  {
  }

  /** The first range moves all others, those at its own place included. */
  lemma MovedOn(rs: seq<Replacement>, k: nat, i: nat)
    requires rs != [] && i < |Group(rs[..|rs| - 1], k)| && rs[|rs| - 1].start <= k
    ensures i < |Group(rs, k)| && Group(rs, k)[i] == Group(rs[..|rs| - 1], k)[i]
    ensures Moved(rs, k, i) == Moved(rs[..|rs| - 1], k, i) + Gain(rs[|rs| - 1])
  {
    hide Group, Gains;
    var r, group := rs[|rs| - 1], Group(rs[..|rs| - 1], k);
    GroupLast(rs, k);
    if r.start == k {
      assert Group(rs, k)[i + 1..] == group[i + 1..] + [r];
      GainsLast(group[i + 1..], r);
    } else {
      assert Group(rs, k) == group;
    }
  }

  /** A value past the first range, or in front of which the first one is put, keeps its place in the rest. */
  lemma HoldsOn(rs: seq<Replacement>, head: string, tail: string, from: nat, k: nat, i: nat)
    requires rs != [] && i < |Group(rs[..|rs| - 1], k)|
    requires var r := rs[|rs| - 1];
             r.start <= k && |head| == r.start - from + |r.value| && Holds(rs[..|rs| - 1], tail, r.end, k, i)
    ensures i < |Group(rs, k)| && Holds(rs, head + tail, from, k, i)
  {
    hide Group, Moved, HoldsAt, Shift, Gains;
    var r, rest := rs[|rs| - 1], rs[..|rs| - 1];
    MovedOn(rs, k, i);
    HoldsFurther(head, tail, k - r.end + Moved(rest, k, i), Group(rest, k)[i].value);
  }

  /** The value of the first range stands where it begins. */
  lemma HoldsFirst(source: string, rs: seq<Replacement>, tail: string, from: nat)
    requires rs != []
    requires var r := rs[|rs| - 1]; from <= r.start <= r.end <= |source| && AllFrom(rs[..|rs| - 1], r.start)
    ensures var r := rs[|rs| - 1];
            Holds(rs, source[from..r.start] + r.value + tail, from, r.start, |Group(rs[..|rs| - 1], r.start)|)
  {
    var r := rs[|rs| - 1];
    NoShift(rs[..|rs| - 1], r.start);
    GroupLast(rs, r.start);
    assert Group(rs, r.start)[|Group(rs, r.start)|..] == [];
    var out := source[from..r.start] + r.value + tail;
    assert out[r.start - from..r.start - from + |r.value|] == r.value;
  }

  /** The one-pass substitution is what its positions say. */
  lemma {:induction false} SubstitutedIs(source: string, rs: seq<Replacement>, from: nat)
    requires Inside(source, rs) && FromTheEnd(rs) && from <= |source| && AllFrom(rs, from)
    ensures IsSubstitution(source, rs, Substituted(source, rs, from), from)
  {
    hide Keeps, Holds, Shift, Group;
    if rs == [] {
      forall k: nat | from <= k < |source| ensures Keeps(source, rs, source[from..], from, k) {
        KeepsAlone(source, from, k);
      }
      NoShift(rs, |source| + 1);
      NoGroup();
    } else {
      hide IsSubstitution, FromTheEnd;
      var n := |rs| - 1;
      assert rs[n] in rs;
      OthersFrom(rs);
      SubstitutedIs(source, rs[..n], rs[n].end);
      FirstSubstituted(source, rs, from, Substituted(source, rs[..n], rs[n].end));
    }
  }

  lemma NoGroup()
    ensures forall k: nat :: Group([], k) == []
  {
  }

  /** The first range and what lies before it, in front of the substitution of the rest. */
  lemma FirstSubstituted(source: string, rs: seq<Replacement>, from: nat, tail: string)
    requires rs != [] && Inside(source, rs) && AllFrom(rs, from)
    requires var n := |rs| - 1;
       rs[n] in rs && AllFrom(rs[..n], rs[n].end) && IsSubstitution(source, rs[..n], tail, rs[n].end)
    ensures var r := rs[|rs| - 1]; IsSubstitution(source, rs, source[from..r.start] + r.value + tail, from)
  {
    hide Keeps, Holds, Shift, Group;
    var n := |rs| - 1;
    var r, rest := rs[n], rs[..n];
    var out := source[from..r.start] + r.value + tail;
    ShiftLast(rs, |source| + 1);
    forall k: nat | from <= k < |source| && Outside(rs, k) ensures Keeps(source, rs, out, from, k) {
      if k < r.start {
        KeepsBefore(source, rs, tail, from, k);
      } else {
        KeepsOn(source, rs, tail, from, k);
      }
    }
    forall k: nat, i: nat | i < |Group(rs, k)| ensures Holds(rs, out, from, k, i) {
      GroupLast(rs, k);
      if i < |Group(rest, k)| {
        assert Group(rest, k)[i] in rest;
        HoldsOn(rs, source[from..r.start] + r.value, tail, from, k, i);
      } else {
        HoldsFirst(source, rs, tail, from);
      }
    }
  }

  lemma KeepsAlone(source: string, from: nat, k: nat)
    requires from <= k < |source|
    ensures Keeps(source, [], source[from..], from, k)
  {
  }

  lemma ShiftLast(rs: seq<Replacement>, k: nat)
    requires rs != [] && rs[|rs| - 1].start < k
    ensures Shift(rs, k) == Shift(rs[..|rs| - 1], k) + Gain(rs[|rs| - 1])
  {
  }

  // ----- any order -----

  lemma {:induction false} ShiftPermutes(s: seq<Replacement>, t: seq<Replacement>, k: nat)
    requires multiset(s) == multiset(t)
    ensures Shift(s, k) == Shift(t, k)
  {
    PermutedLength(s, t);
    if s != [] {
      var n := |s| - 1;
      var i := FindLast(s, t);
      ShiftPermutes(s[..n], t[..i] + t[i + 1..], k);
      ShiftRemove(t, i, k);
    }
  }

  lemma {:induction false} ShiftRemove(s: seq<Replacement>, i: nat, k: nat)
    requires i < |s|
    ensures Shift(s, k) == Shift(s[..i] + s[i + 1..], k) + (if s[i].start < k then Gain(s[i]) else 0)
  {
    var n := |s| - 1;
    var rest := s[..i] + s[i + 1..];
    if i == n {
      assert rest == s[..n];
    } else {
      ShiftRemove(s[..n], i, k);
      assert rest[..|rest| - 1] == s[..n][..i] + s[..n][i + 1..];
      assert rest[|rest| - 1] == s[n];
    }
  }

  ghost predicate AllSeparate(x: Replacement, rs: seq<Replacement>) {
    forall r :: r in rs ==> Separate(x, r)
  }

  ghost predicate AllEnd(rs: seq<Replacement>, x: nat) {
    forall r :: r in rs ==> r.end <= x
  }

  ghost predicate Ordered(rs: seq<Replacement>) {
    forall r :: r in rs ==> r.start <= r.end
  }

  /** Putting one more where the sort puts it keeps the list last first just when it is separate from all of them. */
  lemma {:induction false} InsertOrders(x: Replacement, rs: seq<Replacement>)
    requires Sorted(rs, CompareStarts) && x.start <= x.end && Ordered(rs)
    ensures FromTheEnd(Insert(x, rs, CompareStarts)) <==> FromTheEnd(rs) && AllSeparate(x, rs)
  {
    hide FromTheEnd, AllEnd, AllSeparate;
    if rs != [] && CompareStarts(x, rs[0]) > 0 {
      var first, rest := rs[0], rs[1..];
      InsertOrders(x, rest);
      var tail := Insert(x, rest, CompareStarts);
      AllEndInserted(x, rest, first.start);
      FirstOrders(first, tail);
      FirstOrders(first, rest);
      assert Insert(x, rs, CompareStarts) == [first] + tail && rs == [first] + rest;
      AllSeparateFirst(x, first, rest);
      assert first in rs && first.start <= first.end && x.start < first.start;
    } else {
      FirstOrders(x, rs);
      NoneLater(x, rs);
    }
  }

  lemma AllSeparateFirst(x: Replacement, first: Replacement, rest: seq<Replacement>)
    ensures AllSeparate(x, [first] + rest) <==> Separate(x, first) && AllSeparate(x, rest)
  {
    assert AllSeparate(x, [first] + rest) ==> forall r :: r in rest ==> r in [first] + rest;
    assert first in [first] + rest;
  }

  lemma AllEndInserted(x: Replacement, rs: seq<Replacement>, k: nat)
    ensures AllEnd(Insert(x, rs, CompareStarts), k) <==> AllEnd(rs, k) && x.end <= k
  {
    InsertPermutes(x, rs, CompareStarts);
    var all := Insert(x, rs, CompareStarts);
    assert multiset(all) == multiset([x] + rs);
    SameElements(all, [x] + rs);
  }

  /** Nothing listed begins after `x`, so `x` is separate from what ends where it begins. */
  lemma NoneLater(x: Replacement, rs: seq<Replacement>)
    requires Sorted(rs, CompareStarts) && Ordered(rs) && (rs != [] ==> rs[0].start <= x.start)
    ensures AllSeparate(x, rs) <==> AllEnd(rs, x.start)
  {
    forall r | r in rs ensures r.start <= x.start {
      var i :| 0 <= i < |rs| && rs[i] == r;
      assert i > 0 ==> CompareStarts(rs[0], rs[i]) <= 0;
    }
  }

  lemma FirstOrders(x: Replacement, rs: seq<Replacement>)
    ensures FromTheEnd([x] + rs) <==> FromTheEnd(rs) && AllEnd(rs, x.start)
  {
    var all := [x] + rs;
    if FromTheEnd(all) {
      forall i, j | 0 <= i < j < |rs| ensures rs[j].end <= rs[i].start {
        assert all[j + 1].end <= all[i + 1].start;
      }
      forall r | r in rs ensures r.end <= x.start {
        var i :| 0 <= i < |rs| && rs[i] == r;
        assert all[i + 1].end <= all[0].start;
      }
    }
  }

  lemma DisjointFirst(x: Replacement, rs: seq<Replacement>)
    ensures Disjoint([x] + rs) <==> Disjoint(rs) && AllSeparate(x, rs)
  {
    var all := [x] + rs;
    if Disjoint(all) {
      forall i, j | 0 <= i < j < |rs| ensures Separate(rs[i], rs[j]) {
        assert Separate(all[i + 1], all[j + 1]);
      }
      forall r | r in rs ensures Separate(x, r) {
        var i :| 0 <= i < |rs| && rs[i] == r;
        assert Separate(all[0], all[i + 1]);
      }
    }
  }

  /** Sorting by descending start puts ranges last first exactly when they are disjoint as listed. */
  lemma {:induction false} LastFirstIff(source: string, rs: seq<Replacement>)
    requires Inside(source, rs)
    ensures multiset(LastFirst(rs)) == multiset(rs) && Inside(source, LastFirst(rs))
    ensures FromTheEnd(LastFirst(rs)) <==> Disjoint(rs)
  {
    hide Sorted, FromTheEnd, Disjoint, Insert;
    SortBySorts(rs, CompareStarts);
    SameElements(LastFirst(rs), rs);
    if rs != [] {
      var rest := rs[1..];
      SortBySorts(rest, CompareStarts);
      SameElements(LastFirst(rest), rest);
      LastFirstIff(source, rest);
      InsertOrders(rs[0], LastFirst(rest));
      DisjointFirst(rs[0], rest);
      assert rs == [rs[0]] + rest;
    } else {
      NothingOrdered();
    }
  }

  lemma NothingOrdered()
    ensures FromTheEnd([]) && Disjoint([]) && LastFirst([]) == []
  {
  }

  lemma {:induction false} InsertKeepsGroup(x: Replacement, rs: seq<Replacement>, k: nat)
    ensures Group(Insert(x, rs, CompareStarts), k) == Group([x] + rs, k)
  {
    hide Group;
    if rs != [] && CompareStarts(x, rs[0]) > 0 {
      InsertKeepsGroup(x, rs[1..], k);
      GroupFirst(rs[0], Insert(x, rs[1..], CompareStarts), k);
      GroupFirst(x, rs[1..], k);
      GroupFirst(rs[0], rs[1..], k);
      GroupFirst(x, rs, k);
      assert rs == [rs[0]] + rs[1..];
    }
  }

  lemma {:induction false} GroupFirst(x: Replacement, rs: seq<Replacement>, k: nat)
    ensures Group([x] + rs, k) == (if x.start == k then [x] else []) + Group(rs, k)
  {
    var all := [x] + rs;
    if rs == [] {
      assert all[..0] == [];
    } else {
      GroupFirst(x, rs[..|rs| - 1], k);
      assert all[..|all| - 1] == [x] + rs[..|rs| - 1];
    }
  }

  /** The sort is stable: replacements that begin at one place stay in the order listed. */
  lemma {:induction false} LastFirstKeepsGroup(rs: seq<Replacement>, k: nat)
    ensures Group(LastFirst(rs), k) == Group(rs, k)
  {
    if rs != [] {
      LastFirstKeepsGroup(rs[1..], k);
      InsertKeepsGroup(rs[0], LastFirst(rs[1..]), k);
      GroupFirst(rs[0], LastFirst(rs[1..]), k);
      GroupFirst(rs[0], rs[1..], k);
      assert rs == [rs[0]] + rs[1..];
    }
  }

  /**
   Whatever order the replacements were collected in, splicing disjoint ranges from the last to the first is the
   substitution of all of them at once.
   */
  lemma RewriteSubstitutes(source: string, replacements: seq<Replacement>)
    requires Inside(source, replacements) && Disjoint(replacements)
    ensures IsSubstitution(source, replacements, Applied(source, LastFirst(replacements)), 0)
  {
    hide Applied, LastFirst, IsSubstitution, Substituted;
    LastFirstIff(source, replacements);
    var sorted := LastFirst(replacements);
    AppliedIs(source, sorted, 0);
    SubstitutedIs(source, sorted, 0);
    var out := Applied(source, sorted);
    assert out == Substituted(source, sorted, 0);
    forall k: nat ensures Group(sorted, k) == Group(replacements, k) {
      LastFirstKeepsGroup(replacements, k);
    }
    SubstitutionPermutes(source, sorted, replacements, out);
  }

  lemma SubstitutionPermutes(source: string, s: seq<Replacement>, t: seq<Replacement>, out: string)
    requires multiset(s) == multiset(t) && IsSubstitution(source, s, out, 0)
    requires forall k: nat :: Group(s, k) == Group(t, k)
    ensures IsSubstitution(source, t, out, 0)
  {
    hide Group, Shift;
    SameElements(s, t);
    ShiftPermutes(s, t, |source| + 1);
    forall k: nat | k < |source| && Outside(t, k) ensures Keeps(source, t, out, 0, k) {
      ShiftPermutes(s, t, k + 1);
      assert Keeps(source, s, out, 0, k);
    }
    forall k: nat, i: nat | i < |Group(t, k)| ensures Holds(t, out, 0, k, i) {
      ShiftPermutes(s, t, k);
      assert Holds(s, out, 0, k, i);
    }
  }

  /** Text put in where another range begins, listed after it: it goes in front of the range's value. */
  lemma InsertedAfter(head: string, middle: string, tail: string, v: string, u: string)
    ensures var s, e := |head|, |head + middle|;
            Applied(head + middle + tail, LastFirst([Replacement(s, e, u), Replacement(s, s, v)]))
            == head + (v + u) + tail
  {
    hide LastFirst, Applied, Splice;
    var s, e := |head|, |head + middle|;
    TwoAtOnePlace(head + middle + tail, Replacement(s, e, u), Replacement(s, s, v));
    SpliceAt(head, middle, tail, u, s, e);
    Regrouped(head, u, tail);
    SpliceAt(head, "", u + tail, v, s, s);
    assert head + "" == head;
    Regrouped(head, v, u + tail);
    Regrouped(v, u, tail);
    Regrouped(head, v + u, tail);
  }

  /** Listed before it, the second splice cuts into what the first put in. */
  lemma InsertedBefore(head: string, middle: string, tail: string, v: string, u: string)
    ensures var s, e := |head|, |head + middle|;
            Applied(head + middle + tail, LastFirst([Replacement(s, s, v), Replacement(s, e, u)]))
            == head + (u + (v + middle)[|middle|..]) + tail
  {
    hide LastFirst, Applied, Splice;
    var s, e := |head|, |head + middle|;
    TwoAtOnePlace(head + middle + tail, Replacement(s, s, v), Replacement(s, e, u));
    Regrouped(head, middle, tail);
    assert head + "" == head;
    SpliceAt(head, "", middle + tail, v, s, s);
    var first, cut := (v + middle)[..|middle|], (v + middle)[|middle|..];
    Regrouped(head + v, middle, tail);
    Regrouped(head, v, middle);
    Cut(v + middle, |middle|, |middle|);
    Regrouped(head, first, cut);
    Regrouped(head + first, cut, tail);
    SpliceAt(head, first, cut + tail, u, s, e);
    Regrouped(head + u, cut, tail);
    Regrouped(head, u, cut);
  }

  /** So the order decides, unless the texts happen to agree. */
  lemma SameStartIff(head: string, middle: string, tail: string, v: string, u: string)
    requires middle != ""
    ensures var source, s, e := head + middle + tail, |head|, |head + middle|;
            var inserted, replaced := Replacement(s, s, v), Replacement(s, e, u);
            && !Disjoint([inserted, replaced]) && Disjoint([replaced, inserted])
            && (Applied(source, LastFirst([inserted, replaced])) == Applied(source, LastFirst([replaced, inserted]))
                <==> u + (v + middle)[|middle|..] == v + u)
  {
    hide LastFirst, Applied;
    var pair := [Replacement(|head|, |head|, v), Replacement(|head|, |head + middle|, u)];
    assert !Separate(pair[0], pair[1]);
    InsertedAfter(head, middle, tail, v, u);
    InsertedBefore(head, middle, tail, v, u);
    Between(head, u + (v + middle)[|middle|..], v + u, tail);
  }

  lemma Between(head: string, a: string, b: string, tail: string)
    ensures head + a + tail == head + b + tail <==> a == b
  {
    if head + a + tail == head + b + tail {
      assert |a| == |b|;
      assert (head + a + tail)[|head|..|head| + |a|] == a && (head + b + tail)[|head|..|head| + |b|] == b;
    }
  }

  lemma TwoAtOnePlace(source: string, a: Replacement, b: Replacement)
    requires a.start == b.start
    ensures Applied(source, LastFirst([a, b])) == Splice(Splice(source, a), b)
  {
    assert SortBy([b], CompareStarts) == [b];
    assert LastFirst([a, b]) == Insert(a, [b], CompareStarts) == [a, b];
    assert [a, b][..1] == [a] && [a][..0] == [];
    assert Applied(source, [a]) == Splice(source, a);
  }
}
