/** `Array.prototype.sort` with a comparator: a stable sort (section 23.1.3.30 of ECMA-262). */
module Sorting {

  /** A comparator that sorts consistently: any two values compare, and the comparison is transitive. */
  ghost predicate Consistent<T(!new)>(compare: (T, T) -> int) {
    && (forall a, b :: compare(a, b) <= 0 || compare(b, a) <= 0)
    && (forall a, b, c :: compare(a, b) <= 0 && compare(b, c) <= 0 ==> compare(a, c) <= 0)
  }

  /** A collation that orders all strings and ties only equal ones. */
  ghost predicate IsCollation(locale: (string, string) -> int) {
    && (forall a, b :: locale(a, b) == 0 <==> a == b)
    && (forall a, b :: locale(a, b) < 0 <==> locale(b, a) > 0)
    && (forall a, b, c :: locale(a, b) <= 0 && locale(b, c) <= 0 ==> locale(a, c) <= 0)
  }

  /** Strings by their first different character, and a prefix before what continues it. */
  function Lexicographic(a: string, b: string): int {
    if a == "" then if b == "" then 0 else -1
    else if b == "" then 1
    else if a[0] != b[0] then (if a[0] < b[0] then -1 else 1)
    else Lexicographic(a[1..], b[1..])
  }

  lemma {:induction false} LexicographicPair(a: string, b: string)
    ensures Lexicographic(a, b) == 0 <==> a == b
    ensures Lexicographic(a, b) < 0 <==> Lexicographic(b, a) > 0
  {
    if a != "" && b != "" {
      LexicographicPair(a[1..], b[1..]);
      assert a == [a[0]] + a[1..] && b == [b[0]] + b[1..];
    }
  }

  lemma {:induction false} LexicographicTriple(a: string, b: string, c: string)
    requires Lexicographic(a, b) <= 0 && Lexicographic(b, c) <= 0
    ensures Lexicographic(a, c) <= 0
  {
    if a != "" && b != "" && c != "" && a[0] == b[0] == c[0] {
      LexicographicTriple(a[1..], b[1..], c[1..]);
    }
  }

  /** There are collations. */
  lemma LexicographicCollates()
    ensures IsCollation(Lexicographic)
  {
    forall a, b
      ensures (Lexicographic(a, b) == 0 <==> a == b) && (Lexicographic(a, b) < 0 <==> Lexicographic(b, a) > 0)
    {
      LexicographicPair(a, b);
    }
    forall a, b, c | Lexicographic(a, b) <= 0 && Lexicographic(b, c) <= 0 ensures Lexicographic(a, c) <= 0 {
      LexicographicTriple(a, b, c);
    }
  }

  ghost predicate Sorted<T>(s: seq<T>, compare: (T, T) -> int) {
    forall i, j :: 0 <= i < j < |s| ==> compare(s[i], s[j]) <= 0
  }

  function Insert<T>(x: T, s: seq<T>, compare: (T, T) -> int): (r: seq<T>)
    ensures |r| == |s| + 1
  {
    if s == [] || compare(x, s[0]) <= 0 then [x] + s else [s[0]] + Insert(x, s[1..], compare)
  }

  function SortBy<T>(s: seq<T>, compare: (T, T) -> int): (r: seq<T>)
    ensures |r| == |s|
  {
    if s == [] then [] else Insert(s[0], SortBy(s[1..], compare), compare)
  }

  lemma CompareTotal<T(!new)>(compare: (T, T) -> int, a: T, b: T)
    requires Consistent(compare)
    ensures compare(a, b) <= 0 || compare(b, a) <= 0
  {
  }

  lemma CompareTransitive<T(!new)>(compare: (T, T) -> int, a: T, b: T, c: T)
    requires Consistent(compare) && compare(a, b) <= 0 && compare(b, c) <= 0
    ensures compare(a, c) <= 0
  {
  }

  lemma InsertPermutes<T>(x: T, s: seq<T>, compare: (T, T) -> int)
    ensures multiset(Insert(x, s, compare)) == multiset{x} + multiset(s)
  {
    if s != [] {
      assert s == [s[0]] + s[1..];
    }
  }

  lemma InsertSorts<T(!new)>(x: T, s: seq<T>, compare: (T, T) -> int)
    requires Consistent(compare) && Sorted(s, compare)
    ensures Sorted(Insert(x, s, compare), compare)
  {
    hide Consistent;
    if s == [] {
    } else if compare(x, s[0]) <= 0 {
      forall e | e in s ensures compare(x, e) <= 0 {
        if e != s[0] {
          CompareTransitive(compare, x, s[0], e);
        }
      }
    } else {
      var t := Insert(x, s[1..], compare);
      InsertSorts(x, s[1..], compare);
      InsertPermutes(x, s[1..], compare);
      CompareTotal(compare, x, s[0]);
      forall e | e in t ensures compare(s[0], e) <= 0 {
        assert e in multiset(t);
      }
    }
  }

  /** The result is the same values in sorted order. */
  lemma SortBySorts<T(!new)>(s: seq<T>, compare: (T, T) -> int)
    requires Consistent(compare)
    ensures Sorted(SortBy(s, compare), compare) && multiset(SortBy(s, compare)) == multiset(s)
    ensures forall x :: x in SortBy(s, compare) <==> x in s
  {
    hide Consistent;
    if s != [] {
      SortBySorts(s[1..], compare);
      InsertSorts(s[0], SortBy(s[1..], compare), compare);
      InsertPermutes(s[0], SortBy(s[1..], compare), compare);
      assert s == [s[0]] + s[1..];
    }
    SameElements(SortBy(s, compare), s);
  }

  lemma SameElements<T(!new)>(s: seq<T>, t: seq<T>)
    requires multiset(s) == multiset(t)
    ensures forall x :: x in s <==> x in t
  {
    forall x ensures x in s <==> x in t {
      assert x in multiset(s) <==> x in multiset(t);
    }
  }

  ghost predicate StrictlySorted<T>(s: seq<T>, compare: (T, T) -> int) {
    forall i, j :: 0 <= i < j < |s| ==> compare(s[i], s[j]) <= 0 && compare(s[j], s[i]) > 0
  }

  /** Two strictly sorted lists of the same values are the same list. */
  lemma StrictlySortedUnique<T(!new)>(s: seq<T>, t: seq<T>, compare: (T, T) -> int)
    requires Consistent(compare) && StrictlySorted(s, compare) && StrictlySorted(t, compare)
    requires forall x :: x in s <==> x in t
    ensures s == t
  {
    hide Consistent;
    assert s != [] ==> s[0] in t;
    assert t != [] ==> t[0] in s;
    if s != [] {
      assert s[0] == t[0];
      forall x ensures x in s[1..] <==> x in t[1..] {
        assert x in s[1..] ==> x in s && x != s[0];
        assert x in t[1..] ==> x in t && x != t[0];
      }
      StrictlySortedUnique(s[1..], t[1..], compare);
    }
  }

  /** No value twice. */
  ghost predicate Once<T(!new)>(s: seq<T>) {
    forall x :: multiset(s)[x] <= 1
  }

  lemma OnceDistinct<T(!new)>(s: seq<T>, i: nat, j: nat)
    requires Once(s) && i < j < |s|
    ensures s[i] != s[j]
  {
    assert s == s[..i] + [s[i]] + s[i + 1..];
    assert s[j] in s[i + 1..];
    assert multiset(s)[s[i]] <= 1;
    assert s[i] in multiset([s[i]]);
  }

  lemma DistinctOnce<T(!new)>(s: seq<T>)
    requires forall i, j :: 0 <= i < j < |s| ==> s[i] != s[j]
    ensures Once(s)
  {
    if s != [] {
      var n := |s| - 1;
      DistinctOnce(s[..n]);
      assert s == s[..n] + [s[n]];
      assert s[n] !in s[..n];
    }
  }

  /** Sorting values among which only equal ones tie, none of them twice, sorts them strictly. */
  lemma SortByStrict<T(!new)>(s: seq<T>, compare: (T, T) -> int)
    requires Consistent(compare) && Once(s)
    requires forall a, b :: a in s && b in s && compare(a, b) <= 0 && compare(b, a) <= 0 ==> a == b
    ensures StrictlySorted(SortBy(s, compare), compare)
    ensures forall x :: x in SortBy(s, compare) <==> x in s
  {
    SortBySorts(s, compare);
    hide Consistent, SortBy;
    var r := SortBy(s, compare);
    forall i, j | 0 <= i < j < |r| ensures compare(r[j], r[i]) > 0 {
      OnceDistinct(r, i, j);
    }
  }

  // ----- stability -----

  /** The values of a class, in order. */
  ghost function Among<T>(s: seq<T>, ties: T -> bool): seq<T> {
    if s == [] then [] else (if ties(s[0]) then [s[0]] else []) + Among(s[1..], ties)
  }

  lemma {:induction false} InsertStable<T(!new)>(x: T, s: seq<T>, compare: (T, T) -> int, ties: T -> bool)
    requires forall a, b :: ties(a) && ties(b) ==> compare(a, b) <= 0
    ensures Among(Insert(x, s, compare), ties) == Among([x] + s, ties)
  {
    assert ([x] + s)[1..] == s;
    if s != [] && compare(x, s[0]) > 0 {
      var rest := Insert(x, s[1..], compare);
      InsertStable(x, s[1..], compare, ties);
      assert ([s[0]] + rest)[1..] == rest && ([x] + s[1..])[1..] == s[1..];
    }
  }

  /** Values that tie keep their order. */
  lemma {:induction false} SortByStable<T(!new)>(s: seq<T>, compare: (T, T) -> int, ties: T -> bool)
    requires forall a, b :: ties(a) && ties(b) ==> compare(a, b) <= 0
    ensures Among(SortBy(s, compare), ties) == Among(s, ties)
  {
    if s != [] {
      var rest := SortBy(s[1..], compare);
      SortByStable(s[1..], compare, ties);
      InsertStable(s[0], rest, compare, ties);
      assert ([s[0]] + rest)[1..] == rest;
    }
  }

  // ----- selections -----

  /** `part` lists the values of `all` at these positions, in order. */
  ghost predicate IsSelection<T>(all: seq<T>, part: seq<T>, at: seq<nat>) {
    && |part| == |at|
    && (forall k :: 0 <= k < |at| ==> at[k] < |all| && part[k] == all[at[k]])
    && (forall j, k :: 0 <= j < k < |at| ==> at[j] < at[k])
  }

  lemma SelectionKeeps<T>(all: seq<T>, part: seq<T>, at: seq<nat>, last: T)
    requires IsSelection(all, part, at)
    ensures IsSelection(all + [last], part, at)
    ensures IsSelection(all + [last], part + [last], at + [|all|])
  {
  }

  // ----- permutations -----

  lemma RemoveAt<T>(s: seq<T>, i: nat)
    requires i < |s|
    ensures multiset(s) == multiset(s[..i] + s[i + 1..]) + multiset{s[i]}
    ensures multiset(s[..i] + s[i + 1..]) == multiset(s) - multiset{s[i]}
  {
    assert s == s[..i] + [s[i]] + s[i + 1..];
  }

  /** Where the last value of `s` sits in a permutation of it, and that the rest is a permutation of the rest. */
  lemma FindLast<T(!new)>(s: seq<T>, t: seq<T>) returns (i: nat)
    requires multiset(s) == multiset(t) && s != []
    ensures i < |t| && t[i] == s[|s| - 1]
    ensures multiset(s[..|s| - 1]) == multiset(t[..i] + t[i + 1..])
  {
    SameElements(s, t);
    var n := |s| - 1;
    assert s[n] in s;
    i :| 0 <= i < |t| && t[i] == s[n];
    RemoveAt(t, i);
    assert s == s[..n] + [s[n]];
  }

  lemma PermutedLength<T>(s: seq<T>, t: seq<T>)
    requires multiset(s) == multiset(t)
    ensures |s| == |t|
  {
    assert |multiset(s)| == |multiset(t)|;
  }

  /** `map`. */
  function Mapped<A, B>(s: seq<A>, f: A -> B): (r: seq<B>)
    ensures |r| == |s| && forall i :: 0 <= i < |s| ==> r[i] == f(s[i])
  {
    seq(|s|, i requires 0 <= i < |s| => f(s[i]))
  }

  lemma {:induction false} MappedPermutes<A(!new), B(!new)>(s: seq<A>, t: seq<A>, f: A -> B)
    requires multiset(s) == multiset(t)
    ensures multiset(Mapped(s, f)) == multiset(Mapped(t, f))
  {
    PermutedLength(s, t);
    if s != [] {
      var i := FindLast(s, t);
      MappedPermutes(s[..|s| - 1], t[..i] + t[i + 1..], f);
      MappedRemove(t, i, f);
      MappedRemove(s, |s| - 1, f);
      assert s[..|s| - 1] + s[|s|..] == s[..|s| - 1];
    }
  }

  lemma MappedRemove<A, B>(s: seq<A>, i: nat, f: A -> B)
    requires i < |s|
    ensures multiset(Mapped(s, f)) == multiset(Mapped(s[..i] + s[i + 1..], f)) + multiset{f(s[i])}
  {
    RemoveAt(Mapped(s, f), i);
    assert Mapped(s, f)[..i] + Mapped(s, f)[i + 1..] == Mapped(s[..i] + s[i + 1..], f);
  }
}
