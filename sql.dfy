/**
 * The relational engine's semantics that the queries rely on: `TRIM`, `ILIKE`
 * (as case-insensitive equality), `WHERE` as a filter, and `ORDER BY` under a
 * strict weak order, modelled by insertion sort.
 */
module Sql {
  import opened Text
  import Js

  predicate IsSpace(c: char) {
    c == ' '
  }

  /** Postgres `TRIM(x)`: removes leading and trailing spaces, and nothing else. */
  function SqlTrim(s: string): (r: string)
    ensures r == [] || (r[0] != ' ' && r[|r| - 1] != ' ')
  {
    Strip(s, IsSpace)
  }

  /** A string trimmed by JavaScript's `trim` is left as it is by `TRIM`. */
  lemma SqlTrimOfJsTrimmed(s: string)
    requires s == [] || (!Js.IsWhiteSpace(s[0]) && !Js.IsWhiteSpace(s[|s| - 1]))
    ensures SqlTrim(s) == s
  {
    StripNoOp(s, IsSpace, Js.IsWhiteSpace);
  }

  /**
   * `a ILIKE b`, taken as equality after case folding; the `%` and `_`
   * wildcards a pattern may contain are not modelled.
   */
  predicate ILike(a: string, b: string) {
    ToLowerAscii(a) == ToLowerAscii(b)
  }

  /** `WHERE keep`: the rows of `s` that `keep` accepts, in their order. */
  function Where<T(!new)>(s: seq<T>, keep: T -> bool): (r: seq<T>)
    ensures forall x :: x in r <==> x in s && keep(x)
  {
    if s == [] then []
    else
      assert s == [s[0]] + s[1..];
      (if keep(s[0]) then [s[0]] else []) + Where(s[1..], keep)
  }

  /** A filter never repeats a row more often than its input has it. */
  lemma {:induction false} WhereSubMultiset<T(!new)>(s: seq<T>, keep: T -> bool)
    ensures multiset(Where(s, keep)) <= multiset(s)
    decreases |s|
  {
    if s != [] {
      WhereCons(s[0], s[1..], keep);
      assert s == [s[0]] + s[1..];
      WhereSubMultiset(s[1..], keep);
    }
  }

  /** Two conditions that agree on every row select the same rows. */
  lemma {:induction false} WhereAgrees<T(!new)>(s: seq<T>, p: T -> bool, q: T -> bool)
    requires forall x :: x in s ==> p(x) == q(x)
    ensures Where(s, p) == Where(s, q)
    decreases |s|
  {
    if s != [] {
      assert forall x :: x in s[1..] ==> x in s;
      WhereAgrees(s[1..], p, q);
    }
  }

  /** One step of `Where`: the head is kept or dropped, then the tail is filtered. */
  lemma WhereCons<T(!new)>(x: T, s: seq<T>, keep: T -> bool)
    ensures Where([x] + s, keep) == (if keep(x) then [x] else []) + Where(s, keep)
  {
    assert ([x] + s)[1..] == s;
  }

  /** Filtering distributes over concatenation. */
  lemma {:induction false} WhereAppend<T(!new)>(a: seq<T>, b: seq<T>, keep: T -> bool)
    ensures Where(a + b, keep) == Where(a, keep) + Where(b, keep)
    decreases |a|
  {
    if a == [] {
      assert a + b == b;
    } else {
      var head := if keep(a[0]) then [a[0]] else [];
      assert (a + b)[0] == a[0] && (a + b)[1..] == a[1..] + b;
      assert Where(a + b, keep) == head + Where(a[1..] + b, keep);
      WhereAppend(a[1..], b, keep);
      assert Where(a, keep) == head + Where(a[1..], keep);
    }
  }

  /** Filtering by a narrower condition after a wider one is filtering by the narrower one. */
  lemma {:induction false} WhereNarrower<T(!new)>(s: seq<T>, wide: T -> bool, narrow: T -> bool)
    requires forall x :: narrow(x) ==> wide(x)
    ensures Where(Where(s, wide), narrow) == Where(s, narrow)
    decreases |s|
  {
    if s != [] {
      var head := if wide(s[0]) then [s[0]] else [];
      WhereAppend(head, Where(s[1..], wide), narrow);
      WhereNarrower(s[1..], wide, narrow);
    }
  }

  /** The distinct values of `s` in order of first appearance: the groups of a `GROUP BY`. */
  function Distinct<T(==,!new)>(s: seq<T>): (r: seq<T>)
    ensures forall x :: x in r <==> x in s
  {
    if s == [] then []
    else
      var d := Distinct(s[..|s| - 1]);
      assert s == s[..|s| - 1] + [s[|s| - 1]];
      if s[|s| - 1] in d then d else d + [s[|s| - 1]]
  }

  /** One step of `Distinct`: a value seen before adds nothing, a new one goes last. */
  lemma DistinctSnoc<T(!new)>(s: seq<T>, x: T)
    ensures Distinct(s + [x]) == if x in Distinct(s) then Distinct(s) else Distinct(s) + [x]
  {
    assert (s + [x])[..|s|] == s;
  }

  /** Each group appears once. */
  lemma {:induction false} DistinctNoDuplicates<T(!new)>(s: seq<T>)
    ensures NoDuplicates(Distinct(s))
    decreases |s|
  {
    if s != [] {
      DistinctNoDuplicates(s[..|s| - 1]);
    }
  }

  /** `before(a, b)`: `a` sorts ahead of `b`. */
  ghost predicate StrictWeakOrder<T(!new)>(before: (T, T) -> bool) {
    && (forall a, b :: before(a, b) ==> !before(b, a))
    && (forall a, b, c :: !before(a, b) && !before(b, c) ==> !before(a, c))
  }

  /** No element sorts ahead of an earlier one. */
  predicate Ordered<T>(s: seq<T>, before: (T, T) -> bool) {
    forall i, j :: 0 <= i < j < |s| ==> !before(s[j], s[i])
  }

  /** Places `x` after the elements of `s` that sort ahead of it. */
  function Insert<T(!new)>(x: T, s: seq<T>, before: (T, T) -> bool): (r: seq<T>)
    ensures multiset(r) == multiset(s) + multiset{x}
  {
    if s == [] then [x]
    else if before(s[0], x) then
      assert s == [s[0]] + s[1..];
      [s[0]] + Insert(x, s[1..], before)
    else
      [x] + s
  }

  /** Inserting into an ordered sequence keeps it ordered. */
  lemma {:induction false} InsertOrdered<T(!new)>(x: T, s: seq<T>, before: (T, T) -> bool)
    requires StrictWeakOrder(before) && Ordered(s, before)
    ensures Ordered(Insert(x, s, before), before)
    decreases |s|
  {
    if s != [] && before(s[0], x) {
      var rest := Insert(x, s[1..], before);
      InsertOrdered(x, s[1..], before);
      forall j | 0 <= j < |rest| ensures !before(rest[j], s[0]) {
        assert rest[j] in multiset(rest);
        assert rest[j] == x || rest[j] in multiset(s[1..]);
        if rest[j] != x {
          var k :| 0 <= k < |s[1..]| && s[1..][k] == rest[j];
          assert s[k + 1] == rest[j];
        }
      }
      var r := Insert(x, s, before);
      assert r == [s[0]] + rest;
      forall i, j | 0 <= i < j < |r| ensures !before(r[j], r[i]) {
        assert r[j] == rest[j - 1];
        if i > 0 {
          assert r[i] == rest[i - 1];
        }
      }
    } else if s != [] {
      var r := Insert(x, s, before);
      assert r == [x] + s;
      forall i, j | 0 <= i < j < |r| ensures !before(r[j], r[i]) {
        assert r[j] == s[j - 1];
        if i > 0 {
          assert r[i] == s[i - 1];
          assert !before(s[j - 1], s[0]) || j - 1 == 0;
        }
      }
    }
  }

  /** `ORDER BY`: the rows of `s` rearranged into the order `before` gives. */
  function OrderBy<T(!new)>(s: seq<T>, before: (T, T) -> bool): (r: seq<T>)
    ensures multiset(r) == multiset(s)
  {
    if s == [] then []
    else
      assert s == [s[0]] + s[1..];
      Insert(s[0], OrderBy(s[1..], before), before)
  }

  /** Under a strict weak order the result of `ORDER BY` is ordered. */
  lemma {:induction false} OrderByOrdered<T(!new)>(s: seq<T>, before: (T, T) -> bool)
    requires StrictWeakOrder(before)
    ensures Ordered(OrderBy(s, before), before)
    decreases |s|
  {
    if s != [] {
      OrderByOrdered(s[1..], before);
      InsertOrdered(s[0], OrderBy(s[1..], before), before);
    }
  }

  /** Taking the same element out of two rearrangements of one another leaves two rearrangements. */
  lemma RemoveMatching<T>(a: seq<T>, b: seq<T>, k: nat)
    requires a != [] && multiset(a) == multiset(b) && k < |b| && b[k] == a[0]
    ensures multiset(a[1..]) == multiset(b[..k] + b[k + 1..])
  {
    assert b == b[..k] + [b[k]] + b[k + 1..];
    assert multiset(b[..k] + b[k + 1..]) == multiset(b) - multiset{b[k]};
    assert a == [a[0]] + a[1..];
  }

  /** No element occurs twice. */
  predicate NoDuplicates<T(==)>(s: seq<T>) {
    forall i, j :: 0 <= i < j < |s| ==> s[i] != s[j]
  }

  lemma {:induction false} NoDuplicatesIffMultiplicityOne<T>(s: seq<T>)
    ensures NoDuplicates(s) <==> forall x :: multiset(s)[x] <= 1
    decreases |s|
  {
    if s != [] {
      var t := s[1..];
      assert s == [s[0]] + t;
      NoDuplicatesIffMultiplicityOne(t);
      if NoDuplicates(s) {
        assert NoDuplicates(t) by {
          forall i, j | 0 <= i < j < |t| ensures t[i] != t[j] {
            assert t[i] == s[i + 1] && t[j] == s[j + 1];
          }
        }
        assert s[0] !in t;
      } else {
        var i, j :| 0 <= i < j < |s| && s[i] == s[j];
        if i == 0 {
          assert s[0] in t by { assert t[j - 1] == s[j]; }
          assert multiset(s)[s[0]] >= 2;
        } else {
          assert !NoDuplicates(t) by { assert t[i - 1] == s[i] && t[j - 1] == s[j]; }
          assert exists x :: multiset(t)[x] > 1;
          var x :| multiset(t)[x] > 1;
          assert multiset(s)[x] >= multiset(t)[x];
        }
      }
    }
  }

  /** Rearranging a sequence keeps it free of duplicates. */
  lemma PermutationKeepsNoDuplicates<T>(s: seq<T>, r: seq<T>)
    requires multiset(r) == multiset(s) && NoDuplicates(s)
    ensures NoDuplicates(r)
  {
    NoDuplicatesIffMultiplicityOne(s);
    NoDuplicatesIffMultiplicityOne(r);
  }

  /** The first elements of two ordered rearrangements agree. */
  lemma OrderedHeadsAgree<T>(a: seq<T>, b: seq<T>, before: (T, T) -> bool)
    requires a != [] && multiset(a) == multiset(b)
    requires before(a[0], b[0]) || before(b[0], a[0]) || a[0] == b[0]
    requires Ordered(a, before) && Ordered(b, before)
    ensures b != [] && a[0] == b[0]
  {
    assert a[0] in multiset(b);
    assert b[0] in multiset(a);
  }

  /**
   * Under an order that separates any two distinct rows, `ORDER BY` has only
   * one possible answer: any two ordered rearrangements of the same rows are
   * equal. So the insertion sort stands for whatever algorithm the engine uses.
   */
  lemma {:induction false} OrderedPermutationUnique<T>(a: seq<T>, b: seq<T>, before: (T, T) -> bool)
    requires forall x, y :: x in a && y in a && x != y ==> before(x, y) || before(y, x)
    requires multiset(a) == multiset(b)
    requires Ordered(a, before) && Ordered(b, before)
    ensures a == b
    decreases |a|
  {
    assert |a| == |multiset(a)| == |multiset(b)| == |b|;
    if a != [] {
      assert b[0] in multiset(a);
      OrderedHeadsAgree(a, b, before);
      assert a == [a[0]] + a[1..] && b == [b[0]] + b[1..];
      assert multiset(a[1..]) == multiset(a) - multiset{a[0]};
      assert multiset(b[1..]) == multiset(b) - multiset{b[0]};
      forall x, y | x in a[1..] && y in a[1..] && x != y ensures before(x, y) || before(y, x) {
        assert x in a && y in a;
      }
      OrderedPermutationUnique(a[1..], b[1..], before);
    }
  }
}
