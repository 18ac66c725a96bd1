/** Python `str` operations the span bookkeeping relies on, with Python's own
    semantics: slices with negative and out-of-range bounds, `find`, `in`,
    `split` with a separator, `join` and `replace`. */
module Strings {

  /** Where Python puts a slice bound `i` on a sequence of length `n`. */
  function SliceBound(i: int, n: nat): (b: nat)
    ensures b <= n
    ensures 0 <= i <= n ==> b == i
  {
    if i < 0 then (if i + n < 0 then 0 else i + n) else if i > n then n else i
  }

  /** Python's `s[i:j]`. */
  function Slice<T>(s: seq<T>, i: int, j: int): (r: seq<T>)
    ensures |r| <= |s|
    ensures 0 <= i <= j <= |s| ==> r == s[i..j]
  {
    var a, b := SliceBound(i, |s|), SliceBound(j, |s|);
    if a <= b then s[a..b] else []
  }

  predicate StartsWith(s: string, p: string) {
    |p| <= |s| && s[..|p|] == p
  }

  predicate EndsWith(s: string, p: string) {
    |p| <= |s| && s[|s| - |p|..] == p
  }

  /** `pat` occurs in `s` starting at index `k`. */
  predicate OccursAt(s: string, pat: string, k: int) {
    0 <= k && k + |pat| <= |s| && s[k..k + |pat|] == pat
  }

  /** `s[k:k + len(pat)] == pat` holds exactly where `pat` occurs. */
  lemma OccursAtSlice(s: string, pat: string, k: nat)
    requires k <= |s|
    ensures OccursAt(s, pat, k) <==> Slice(s, k, k + |pat|) == pat
  {
    if k + |pat| > |s| {
      assert |Slice(s, k, k + |pat|)| < |pat|;
    }
  }

  /** Python's `s.find(pat, from)`: the first occurrence at or after `from`, or -1. */
  function FindFrom(s: string, pat: string, from: nat): (r: int)
    ensures r == -1 || (from <= r && OccursAt(s, pat, r))
    ensures r == -1 ==> forall k :: from <= k ==> !OccursAt(s, pat, k)
    ensures r != -1 ==> forall k :: from <= k < r ==> !OccursAt(s, pat, k)
    decreases |s| - from
  {
    if from + |pat| > |s| then -1
    else if s[from..from + |pat|] == pat then from
    else FindFrom(s, pat, from + 1)
  }

  /** Python's `s.find(pat)`. */
  function Find(s: string, pat: string): (r: int)
    ensures r == -1 <==> forall k :: !OccursAt(s, pat, k)
    ensures r != -1 ==> OccursAt(s, pat, r) && forall k :: k < r ==> !OccursAt(s, pat, k)
  {
    FindFrom(s, pat, 0)
  }

  /** Python's `pat in s`. */
  function Contains(s: string, pat: string): (b: bool)
    ensures b <==> exists k :: OccursAt(s, pat, k)
  {
    Find(s, pat) >= 0
  }

  /** Python's `s.split(sep)` for a non-empty separator: the pieces between the
      leftmost non-overlapping occurrences of `sep`. */
  function Split(s: string, sep: string): (parts: seq<string>)
    requires |sep| > 0
    ensures |parts| >= 1
    decreases |s|
  {
    var k := Find(s, sep);
    if k < 0 then [s] else [s[..k]] + Split(s[k + |sep|..], sep)
  }

  /** Python's `sep.join(parts)`. */
  function Join(parts: seq<string>, sep: string): string
  {
    if |parts| == 0 then ""
    else if |parts| == 1 then parts[0]
    else parts[0] + sep + Join(parts[1..], sep)
  }

  /** Python's `s.replace(target, replacement)` for a non-empty `target`; it is the
      same as joining the pieces of `s.split(target)` with `replacement`. */
  function ReplaceAll(s: string, target: string, replacement: string): (r: string)
    requires |target| > 0
    ensures r == Join(Split(s, target), replacement)
    decreases |s|
  {
    var k := Find(s, target);
    if k < 0 then s
    else
      var rest := ReplaceAll(s[k + |target|..], target, replacement);
      assert Split(s, target) == [s[..k]] + Split(s[k + |target|..], target);
      s[..k] + replacement + rest
  }

  /** Joining the pieces of a split gives back the string that was split. */
  lemma {:induction false} JoinSplit(s: string, sep: string)
    requires |sep| > 0
    ensures Join(Split(s, sep), sep) == s
    decreases |s|
  {
    var k := Find(s, sep);
    if k >= 0 {
      var rest := s[k + |sep|..];
      var tail := Split(rest, sep);
      JoinSplit(rest, sep);
      var parts := [s[..k]] + tail;
      assert Split(s, sep) == parts;
      assert parts[1..] == tail;
      assert Join(parts, sep) == s[..k] + sep + Join(tail, sep);
      assert s[k..k + |sep|] == sep;
      assert s == s[..k] + sep + rest;
    }
  }

  /** No piece of a split contains the separator. */
  lemma {:induction false} SplitPartsAvoidSep(s: string, sep: string)
    requires |sep| > 0
    ensures forall i :: 0 <= i < |Split(s, sep)| ==> !Contains(Split(s, sep)[i], sep)
    decreases |s|
  {
    var parts := Split(s, sep);
    var k := Find(s, sep);
    if k >= 0 {
      var rest := s[k + |sep|..];
      SplitPartsAvoidSep(rest, sep);
      assert parts[1..] == Split(rest, sep);
      forall m | OccursAt(s[..k], sep, m) ensures false {
        assert s[..k][m..m + |sep|] == s[m..m + |sep|];
        assert OccursAt(s, sep, m);
      }
      forall i | 0 <= i < |parts| ensures !Contains(parts[i], sep) {
        if i > 0 {
          assert parts[i] == Split(rest, sep)[i - 1];
        }
      }
    }
  }

  /** Offset of piece `i` in `Join(parts, sep)`: the lengths of the pieces before
      it, each followed by one separator. */
  function Offset(parts: seq<string>, sep: string, i: nat): nat
    requires i <= |parts|
  {
    if i == 0 then 0 else Offset(parts, sep, i - 1) + |parts[i - 1]| + |sep|
  }

  lemma {:induction false} OffsetFront(parts: seq<string>, sep: string, i: nat)
    requires 1 <= i <= |parts|
    ensures Offset(parts, sep, i) == |parts[0]| + |sep| + Offset(parts[1..], sep, i - 1)
  {
    if i > 1 {
      OffsetFront(parts, sep, i - 1);
    }
  }

  /** Piece `i` of a join sits at its offset. */
  lemma {:induction false} JoinPieceAt(parts: seq<string>, sep: string, i: nat)
    requires i < |parts|
    ensures Offset(parts, sep, i) + |parts[i]| <= |Join(parts, sep)|
    ensures Join(parts, sep)[Offset(parts, sep, i)..Offset(parts, sep, i) + |parts[i]|] == parts[i]
  {
    var j := Join(parts, sep);
    if i == 0 {
      if |parts| > 1 {
        assert j == parts[0] + (sep + Join(parts[1..], sep));
        assert j[..|parts[0]|] == parts[0];
      }
    } else {
      var tail := parts[1..];
      JoinPieceAt(tail, sep, i - 1);
      OffsetFront(parts, sep, i);
      var h := |parts[0]| + |sep|;
      assert j == (parts[0] + sep) + Join(tail, sep);
      var o := Offset(tail, sep, i - 1);
      assert j[h + o..h + o + |parts[i]|] == Join(tail, sep)[o..o + |parts[i]|];
    }
  }

  /** Piece `i` of `s.split(sep)` is found in `s` at its offset. */
  lemma SplitPieceAt(s: string, sep: string, parts: seq<string>, i: nat)
    requires |sep| > 0 && parts == Split(s, sep) && i < |parts|
    ensures Offset(parts, sep, i) + |parts[i]| <= |s|
    ensures s[Offset(parts, sep, i)..Offset(parts, sep, i) + |parts[i]|] == parts[i]
  {
    JoinSplit(s, sep);
    JoinPieceAt(parts, sep, i);
  }

  /** The number of times character `c` occurs in `s`. */
  function CountChar(s: string, c: char): nat
  {
    if |s| == 0 then 0 else (if s[0] == c then 1 else 0) + CountChar(s[1..], c)
  }

  lemma {:induction false} CountCharAppend(a: string, b: string, c: char)
    ensures CountChar(a + b, c) == CountChar(a, c) + CountChar(b, c)
  {
    if |a| > 0 {
      assert (a + b)[1..] == a[1..] + b;
      CountCharAppend(a[1..], b, c);
    } else {
      assert a + b == b;
    }
  }

  lemma {:induction false} CountCharZero(s: string, c: char)
    requires forall k :: 0 <= k < |s| ==> s[k] != c
    ensures CountChar(s, c) == 0
  {
    if |s| > 0 {
      CountCharZero(s[1..], c);
    }
  }

  /** Splitting on a one-character separator yields one piece more than the
      number of separators. */
  lemma {:induction false} SplitCount(s: string, c: char)
    ensures |Split(s, [c])| == CountChar(s, c) + 1
    decreases |s|
  {
    var k := Find(s, [c]);
    if k < 0 {
      forall m | 0 <= m < |s| ensures s[m] != c {
        assert !OccursAt(s, [c], m);
        assert s[m..m + 1] == [s[m]];
      }
      CountCharZero(s, c);
    } else {
      forall m | 0 <= m < k ensures s[..k][m] != c {
        assert !OccursAt(s, [c], m);
        assert s[m..m + 1] == [s[m]];
      }
      CountCharZero(s[..k], c);
      assert s == s[..k] + [c] + s[k + 1..];
      CountCharAppend(s[..k] + [c], s[k + 1..], c);
      CountCharAppend(s[..k], [c], c);
      SplitCount(s[k + 1..], c);
    }
  }

  /** A string without `c` is its own single piece. */
  lemma SplitWithout(s: string, c: char)
    requires forall k :: 0 <= k < |s| ==> s[k] != c
    ensures Split(s, [c]) == [s]
  {
    forall k ensures !OccursAt(s, [c], k) {
      if 0 <= k < |s| {
        assert s[k..k + 1] == [s[k]];
      }
    }
  }

  /** `a + [c] + b` with `c` absent from `a` splits into `a` and the pieces of `b`. */
  lemma SplitAtFirst(a: string, c: char, b: string)
    requires forall k :: 0 <= k < |a| ==> a[k] != c
    ensures Split(a + [c] + b, [c]) == [a] + Split(b, [c])
  {
    var s := a + [c] + b;
    assert s[|a|..|a| + 1] == [c];
    assert OccursAt(s, [c], |a|);
    forall k | k < |a| ensures !OccursAt(s, [c], k) {
      if 0 <= k {
        assert s[k..k + 1] == [a[k]];
      }
    }
    assert Find(s, [c]) == |a|;
    assert s[..|a|] == a;
    assert s[|a| + 1..] == b;
  }
}
