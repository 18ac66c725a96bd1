/** Python's ordering of strings (code point by code point, a proper prefix
    first) and `list.sort()` / `list.sort(reverse=True)` on lists of strings. */
module Sorting {

  /** Python's `a < b` on strings. */
  predicate Below(a: string, b: string)
    decreases |a|
  {
    |b| > 0 && (|a| == 0 || a[0] < b[0] || (a[0] == b[0] && Below(a[1..], b[1..])))
  }

  lemma {:induction false} BelowIrreflexive(a: string)
    ensures !Below(a, a)
    decreases |a|
  {
    if |a| > 0 {
      BelowIrreflexive(a[1..]);
    }
  }

  lemma {:induction false} BelowTransitive(a: string, b: string, c: string)
    requires Below(a, b) && Below(b, c)
    ensures Below(a, c)
    decreases |a|
  {
    if |a| > 0 && a[0] == b[0] && b[0] == c[0] {
      BelowTransitive(a[1..], b[1..], c[1..]);
    }
  }

  lemma {:induction false} BelowTotal(a: string, b: string)
    requires a != b
    ensures Below(a, b) || Below(b, a)
    decreases |a|
  {
    if |a| > 0 && |b| > 0 && a[0] == b[0] {
      assert a == [a[0]] + a[1..] && b == [b[0]] + b[1..];
      BelowTotal(a[1..], b[1..]);
    }
  }

  lemma BelowAsymmetric(a: string, b: string)
    requires Below(a, b)
    ensures !Below(b, a)
  {
    if Below(b, a) {
      BelowTransitive(a, b, a);
      BelowIrreflexive(a);
    }
  }

  /** `a` may stand before `b` in a list sorted ascending (or descending when
      `reverse`). */
  predicate InOrder(a: string, b: string, reverse: bool) {
    if reverse then !Below(a, b) else !Below(b, a)
  }

  lemma InOrderTotal(a: string, b: string, reverse: bool)
    ensures InOrder(a, b, reverse) || InOrder(b, a, reverse)
  {
    if Below(a, b) { BelowAsymmetric(a, b); }
  }

  lemma InOrderTransitive(a: string, b: string, c: string, reverse: bool)
    requires InOrder(a, b, reverse) && InOrder(b, c, reverse)
    ensures InOrder(a, c, reverse)
  {
    if a != b { BelowTotal(a, b); }
    if b != c { BelowTotal(b, c); }
    if a == b || b == c {
    } else if reverse {
      BelowTransitive(c, b, a);
      BelowAsymmetric(c, a);
    } else {
      BelowTransitive(a, b, c);
      BelowAsymmetric(a, c);
    }
  }

  predicate Sorted(s: seq<string>, reverse: bool) {
    forall i, j :: 0 <= i < j < |s| ==> InOrder(s[i], s[j], reverse)
  }

  function Insert(x: string, s: seq<string>, reverse: bool): (r: seq<string>)
    requires Sorted(s, reverse)
    ensures Sorted(r, reverse)
    ensures multiset(r) == multiset(s) + multiset{x}
    ensures |r| == |s| + 1
  {
    if |s| == 0 then [x]
    else if InOrder(x, s[0], reverse) then
      assert forall j :: 0 < j < |s| ==> InOrder(s[0], s[j], reverse);
      forall j | 0 <= j < |s| ensures InOrder(x, s[j], reverse) {
        if j > 0 { InOrderTransitive(x, s[0], s[j], reverse); }
      }
      [x] + s
    else
      InOrderTotal(x, s[0], reverse);
      var rest := Insert(x, s[1..], reverse);
      assert s == [s[0]] + s[1..];
      HeadBeforeAll(s, x, rest, reverse);
      ConsSorted(s[0], rest, reverse);
      [s[0]] + rest
  }

  /** The head of a sorted sequence comes before the rest of it with `x` put
      in, when it comes before `x`. */
  lemma HeadBeforeAll(s: seq<string>, x: string, rest: seq<string>, reverse: bool)
    requires |s| > 0 && Sorted(s, reverse) && InOrder(s[0], x, reverse)
    requires multiset(rest) == multiset(s[1..]) + multiset{x}
    ensures forall j :: 0 <= j < |rest| ==> InOrder(s[0], rest[j], reverse)
  {
    forall j | 0 <= j < |rest| ensures InOrder(s[0], rest[j], reverse) {
      assert rest[j] in multiset(rest);
      assert rest[j] in multiset(s[1..]) + multiset{x};
      if rest[j] != x {
        assert rest[j] in s[1..];
      }
    }
  }

  lemma ConsSorted(h: string, rest: seq<string>, reverse: bool)
    requires Sorted(rest, reverse) && forall j :: 0 <= j < |rest| ==> InOrder(h, rest[j], reverse)
    ensures Sorted([h] + rest, reverse)
  {
    var r := [h] + rest;
    forall i, j | 0 <= i < j < |r| ensures InOrder(r[i], r[j], reverse) {
      assert r[j] == rest[j - 1];
      if i > 0 {
        assert r[i] == rest[i - 1];
      }
    }
  }

  /** Python's `sorted(s)` (or `sorted(s, reverse=True)`): the sorted
      permutation of `s`. */
  function Sort(s: seq<string>, reverse: bool): (r: seq<string>)
    ensures Sorted(r, reverse)
    ensures multiset(r) == multiset(s)
    ensures |r| == |s|
  {
    if |s| == 0 then []
    else
      assert s == [s[0]] + s[1..];
      Insert(s[0], Sort(s[1..], reverse), reverse)
  }

  /** What is left of a permutation of `s` after its first `k` elements
      comes from `s`. */
  lemma DropFromPermutation(s: seq<string>, sorted: seq<string>, k: nat)
    requires multiset(sorted) == multiset(s) && k <= |sorted|
    ensures multiset(sorted[k..]) <= multiset(s)
    ensures forall f :: f in sorted[k..] ==> f in s
  {
    assert sorted == sorted[..k] + sorted[k..];
    assert multiset(sorted) == multiset(sorted[..k]) + multiset(sorted[k..]);
    forall f | f in sorted[k..] ensures f in s {
      assert f in multiset(sorted[k..]);
      assert f in multiset(s);
    }
  }

  /** In a descending sort of `s`, no element of `s` outside what follows the
      first `k` is below one of those. */
  lemma DroppedNotAbove(s: seq<string>, sorted: seq<string>, k: nat)
    requires multiset(sorted) == multiset(s) && Sorted(sorted, true) && k <= |sorted|
    ensures forall f, g :: f in sorted[k..] && g in s && g !in sorted[k..] ==> !Below(g, f)
  {
    forall f, g | f in sorted[k..] && g in s && g !in sorted[k..] ensures !Below(g, f) {
      assert g in multiset(s);
      assert g in multiset(sorted);
      var j :| 0 <= j < |sorted| && sorted[j] == g;
      var i :| 0 <= i < |sorted| - k && sorted[k..][i] == f;
      assert sorted[k + i] == f;
      assert InOrder(sorted[j], sorted[k + i], true);
    }
  }

  /** Every element of `Sort(s + [x], _)` other than `x` comes from `s`. */
  lemma SortedWithExtra(s: seq<string>, x: string, reverse: bool)
    requires forall e :: e in s ==> Below(e, x)
    ensures x in Sort(s + [x], reverse)
    ensures forall e :: e in Sort(s + [x], reverse) && e != x ==> Below(e, x)
  {
    var r := Sort(s + [x], reverse);
    assert x in multiset(s + [x]);
    assert x in multiset(r);
    forall e | e in r && e != x ensures Below(e, x) {
      assert e in multiset(r);
      assert e in multiset(s + [x]);
      assert e in s;
    }
  }

  /** Sorted descending, an element greater than every other comes first. */
  lemma GreatestFirst(s: seq<string>, x: string)
    requires forall e :: e in s ==> Below(e, x)
    ensures Sort(s + [x], true)[0] == x
  {
    var r := Sort(s + [x], true);
    SortedWithExtra(s, x, true);
    var k :| 0 <= k < |r| && r[k] == x;
    assert InOrder(r[0], r[k], true) || k == 0;
  }

  /** An element that occurs once and stands last stands nowhere else. */
  lemma OnlyAtEnd(r: seq<string>, x: string)
    requires |r| > 0 && r[|r| - 1] == x && multiset(r)[x] == 1
    ensures x !in r[..|r| - 1]
  {
    var last := |r| - 1;
    assert r == r[..last] + [x];
    assert multiset(r) == multiset(r[..last]) + multiset{x};
  }

  /** Sorted ascending, an element greater than every other comes last, and
      only there. */
  lemma GreatestLast(s: seq<string>, x: string)
    requires forall e :: e in s ==> Below(e, x)
    ensures var r := Sort(s + [x], false); r[|r| - 1] == x && x !in r[..|r| - 1]
  {
    var r := Sort(s + [x], false);
    var last := |r| - 1;
    SortedWithExtra(s, x, false);
    var k :| 0 <= k < |r| && r[k] == x;
    assert InOrder(r[k], r[last], false) || k == last;
    BelowIrreflexive(x);
    assert multiset(s + [x]) == multiset(s) + multiset{x};
    assert multiset(s)[x] == 0;
    OnlyAtEnd(r, x);
  }
}
