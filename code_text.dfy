/** The span bookkeeping of the text-coding dialog: which codings lie under a
    cursor, how a coding's ends move, how overlapping codings are found, how
    automatic coding finds its spans and how a tooltip shortens a coded text.
    The dialog itself, whose methods change the store, is in module
    CodeTextDialog. */
module CodeText {
  import opened Strings
  import opened Store

  /** An item of the code tree: a category or a code. */
  datatype TreeItem = CategoryItem(catid: int) | CodeItem(cid: int)

  /** Which end of a coding "Change start position" / "Change end position" moves. */
  datatype SpanEnd = StartPos | EndPos

  /** The four arrow-key edits of a coding under the cursor:
      Alt+Left, Alt+Right, Shift+Left, Shift+Right. */
  datatype Nudge = ShrinkToLeft | ShrinkToRight | ExtendLeft | ExtendRight

  /** What an edit of `code_text` came to: nothing to do, done, or refused by
      the uniqueness constraint. */
  datatype Change = Unchanged | Updated | Refused

  /** The code of the selected tree item, when it is a code. */
  function CodeOf(item: Option<TreeItem>): (r: Option<int>)
    ensures r.Some? <==> item.Some? && item.value.CodeItem?
    ensures r.Some? ==> item.value.cid == r.value
  {
    if item.Some? && item.value.CodeItem? then Some(item.value.cid) else None
  }

  /** A coding covers a cursor location when the location is between its ends,
      both included. */
  predicate Covers(c: CodedText, location: int) {
    c.pos0 <= location <= c.pos1
  }

  /** The codings of `coder` that cover `location`, in list order: the
      candidates of unmark, of moving an end and of the arrow keys. */
  function Under(rows: seq<CodedText>, location: int, coder: string): (r: seq<CodedText>)
    ensures |r| <= |rows|
    ensures forall c :: c in r <==> c in rows && Covers(c, location) && c.owner == coder
  {
    if |rows| == 0 then []
    else
      var last := rows[|rows| - 1];
      assert rows == rows[..|rows| - 1] + [last];
      Under(rows[..|rows| - 1], location, coder)
        + (if Covers(last, location) && last.owner == coder then [last] else [])
  }

  /** The codings the dialog shows for file `fid`: those of `coder` in that file. */
  function Loaded(table: seq<CodedText>, fid: int, coder: string): (r: seq<CodedText>)
    ensures forall c :: c in r <==> c in table && c.fid == fid && c.owner == coder
  {
    Where(table, (c: CodedText) => c.fid == fid && c.owner == coder)
  }

  /** The coding an action applies to: the only candidate, or the one picked in
      the selection dialog (None when it is cancelled or there is none). */
  function Chosen(candidates: seq<CodedText>, pick: Option<nat>): (r: Option<CodedText>)
    ensures r.Some? ==> r.value in candidates
    ensures |candidates| == 1 ==> r == Some(candidates[0])
    ensures |candidates| == 0 ==> r.None?
  {
    if |candidates| == 0 then None
    else if |candidates| == 1 then Some(candidates[0])
    else if pick.Some? && pick.value < |candidates| then Some(candidates[pick.value])
    else None
  }

  /** The first occurrence of `x` in `s` replaced by `y`. */
  function ReplaceFirst(s: seq<CodedText>, x: CodedText, y: CodedText): (r: seq<CodedText>)
    ensures |r| == |s|
    ensures forall e :: e in r ==> e in s || e == y
    ensures x in s ==> y in r
  {
    if |s| == 0 then []
    else if s[0] == x then [y] + s[1..]
    else [s[0]] + ReplaceFirst(s[1..], x, y)
  }

  /** The value of an integer input dialog with range `lo`..`hi`: the entry,
      kept inside the range (a range with `hi < lo` allows only `lo`). */
  function DialogInt(v: int, lo: int, hi: int): (r: int)
    ensures lo <= hi ==> lo <= r <= hi
    ensures hi < lo ==> r == lo
    ensures lo <= v <= hi ==> r == v
  {
    if v <= lo || hi < lo then lo else if v > hi then hi else v
  }

  /** The offset "Change start position" / "Change end position" applies: the
      dialog keeps the start in 0..pos1-1 and the end in pos0+1..the text length. */
  function EndOffset(c: CodedText, side: SpanEnd, v: int, textLen: int): int {
    match side
    case StartPos => DialogInt(v, -c.pos0, c.pos1 - c.pos0 - 1)
    case EndPos => DialogInt(v, c.pos0 - c.pos1 + 1, textLen - c.pos1)
  }

  /** The ends of coding `c` after moving one end by `d`. */
  function MovedEnds(c: CodedText, side: SpanEnd, d: int): (int, int) {
    match side
    case StartPos => (c.pos0 + d, c.pos1)
    case EndPos => (c.pos0, c.pos1 + d)
  }

  /** A coding lies inside a text of length `textLen` and is not empty. */
  predicate InText(pos0: int, pos1: int, textLen: int) {
    0 <= pos0 < pos1 <= textLen
  }

  /** Moving one end through the dialog keeps a coding inside the text and not
      empty, leaves the other end where it was, and a zero entry moves nothing. */
  lemma MovedEndStaysInText(c: CodedText, side: SpanEnd, v: int, textLen: int)
    requires InText(c.pos0, c.pos1, textLen)
    ensures var p := MovedEnds(c, side, EndOffset(c, side, v, textLen));
      InText(p.0, p.1, textLen)
      && (side == StartPos ==> p.1 == c.pos1)
      && (side == EndPos ==> p.0 == c.pos0)
    ensures v == 0 ==> EndOffset(c, side, v, textLen) == 0
  {
  }

  /** `UPDATE code_text SET pos0, pos1 WHERE` the key of one coding. */
  function Reposition(t: seq<CodedText>, key: CodingKey, p0: int, p1: int): (r: Result<seq<CodedText>>)
    ensures r.Ok? ==> |r.value| == |t|
    ensures r.Ok? ==> forall i :: 0 <= i < |t| ==>
      r.value[i] == if KeyOf(t[i]) == key then t[i].(pos0 := p0, pos1 := p1) else t[i]
  {
    UpdateCodings(t, (c: CodedText) => KeyOf(c) == key,
                  (c: CodedText) => c.(pos0 := p0, pos1 := p1))
  }

  /** Moving a coding is refused exactly when it would land on another coding
      of the same code, file and coder. */
  lemma RepositionRefusedIff(t: seq<CodedText>, i: nat, p0: int, p1: int)
    requires UniqueKeys(t) && i < |t|
    ensures Reposition(t, KeyOf(t[i]), p0, p1).UniqueViolation? <==>
      (p0, p1) != (t[i].pos0, t[i].pos1) && HasKey(t, KeyOf(t[i]).(pos0 := p0, pos1 := p1))
  {
    var key := KeyOf(t[i]);
    var moved := key.(pos0 := p0, pos1 := p1);
    var m := MapWhere(t, (c: CodedText) => KeyOf(c) == key,
                      (c: CodedText) => c.(pos0 := p0, pos1 := p1));
    assert forall j :: 0 <= j < |t| && j != i ==> KeyOf(t[j]) != key;
    assert forall j :: 0 <= j < |t| && j != i ==> m[j] == t[j];
    assert KeyOf(m[i]) == moved;
    if (p0, p1) != (t[i].pos0, t[i].pos1) && HasKey(t, moved) {
      var j :| 0 <= j < |t| && KeyOf(t[j]) == moved;
      assert j != i;
      assert KeyOf(m[j]) == KeyOf(m[i]);
      assert !UniqueKeys(m) by {
        if i < j { assert KeyOf(m[i]) == KeyOf(m[j]); } else { assert KeyOf(m[j]) == KeyOf(m[i]); }
      }
    } else {
      forall a, b | 0 <= a < b < |t| ensures KeyOf(m[a]) != KeyOf(m[b]) {
        if a != i && b != i {
          assert KeyOf(t[a]) != KeyOf(t[b]);
        } else if (p0, p1) == (t[i].pos0, t[i].pos1) {
          assert m[i] == t[i];
          assert KeyOf(t[a]) != KeyOf(t[b]);
        } else if a == i {
          assert KeyOf(m[b]) == KeyOf(t[b]);
          assert KeyOf(t[b]) != moved;
        } else {
          assert KeyOf(m[a]) == KeyOf(t[a]);
          assert KeyOf(t[a]) != moved;
        }
      }
    }
  }

  /** What "Change start position" / "Change end position" does to the
      codings: the chosen coding, unless none was chosen or the dialog was
      cancelled, gets one end moved by the entered offset; a zero offset
      changes nothing. */
  function PositionChange(t: seq<CodedText>, c: Option<CodedText>, side: SpanEnd, entry: Option<int>,
                          textLen: int): (r: (Change, seq<CodedText>))
    ensures r.0 != Updated ==> r.1 == t
    ensures r.0 == Updated && UniqueKeys(t) ==> UniqueKeys(r.1)
  {
    if c.None? || entry.None? then (Unchanged, t)
    else
      var d := EndOffset(c.value, side, entry.value, textLen);
      if d == 0 then (Unchanged, t)
      else
        var p := MovedEnds(c.value, side, d);
        var u := Reposition(t, KeyOf(c.value), p.0, p.1);
        if u.Ok? then (Updated, u.value) else (Refused, t)
  }

  /** Moving an end changes the chosen coding only, moves only that end, and
      keeps the coding inside the text and not empty. */
  lemma PositionChangeMovesChosen(t: seq<CodedText>, i: nat, side: SpanEnd, entry: int, textLen: int)
    requires UniqueKeys(t) && i < |t| && InText(t[i].pos0, t[i].pos1, textLen)
    requires PositionChange(t, Some(t[i]), side, Some(entry), textLen).0 == Updated
    ensures var u := PositionChange(t, Some(t[i]), side, Some(entry), textLen).1;
      |u| == |t| && InText(u[i].pos0, u[i].pos1, textLen)
      && (side == StartPos ==> u[i] == t[i].(pos0 := u[i].pos0))
      && (side == EndPos ==> u[i] == t[i].(pos1 := u[i].pos1))
      && forall j :: 0 <= j < |t| && j != i ==> u[j] == t[j]
  {
    MovedEndStaysInText(t[i], side, entry, textLen);
    assert forall j :: 0 <= j < |t| && j != i ==> KeyOf(t[j]) != KeyOf(t[i]);
  }

  /** The arrow-key edit of a coding: the new ends, or None where the source
      refuses it (a one-character coding does not shrink, the start does not go
      below 0, and the end does not extend when one past it is the text length
      or beyond). */
  function Nudged(c: CodedText, n: Nudge, textLen: int): (r: Option<(int, int)>)
    ensures r.Some? && InText(c.pos0, c.pos1, textLen) ==> InText(r.value.0, r.value.1, textLen)
    ensures r.Some? ==>
      ((r.value.0 == c.pos0 && (r.value.1 - c.pos1 == 1 || r.value.1 - c.pos1 == -1))
       || (r.value.1 == c.pos1 && (r.value.0 - c.pos0 == 1 || r.value.0 - c.pos0 == -1)))
  {
    match n
    case ShrinkToLeft => if c.pos1 <= c.pos0 + 1 then None else Some((c.pos0, c.pos1 - 1))
    case ShrinkToRight => if c.pos0 >= c.pos1 - 1 then None else Some((c.pos0 + 1, c.pos1))
    case ExtendLeft => if c.pos0 < 1 then None else Some((c.pos0 - 1, c.pos1))
    case ExtendRight => if c.pos1 + 1 >= textLen then None else Some((c.pos0, c.pos1 + 1))
  }

  /** As written, Shift+Right refuses to extend a coding to the last character
      of the text, although the extended coding lies inside the text and the
      end-position dialog reaches it. */
  lemma ExtendRightStopsShort(c: CodedText, textLen: int)
    requires 0 <= c.pos0 < c.pos1 && c.pos1 + 1 == textLen
    ensures Nudged(c, ExtendRight, textLen).None?
    ensures InText(c.pos0, c.pos1 + 1, textLen)
    ensures MovedEnds(c, EndPos, EndOffset(c, EndPos, 1, textLen)) == (c.pos0, c.pos1 + 1)
  {
  }

  /** Shift+Right as evidently intended: the end moves one character to the
      right whenever the coding stays inside the text. */
  function ExtendedRight(c: CodedText, textLen: int): (r: Option<(int, int)>)
    ensures r.Some? <==> c.pos1 + 1 <= textLen
    ensures r.Some? ==> r.value == (c.pos0, c.pos1 + 1)
    ensures r.Some? && InText(c.pos0, c.pos1, textLen) ==> InText(r.value.0, r.value.1, textLen)
  {
    if c.pos1 + 1 > textLen then None else Some((c.pos0, c.pos1 + 1))
  }

  /** The corrected Shift+Right agrees with the source except at the last
      character. */
  lemma ExtendedRightAgrees(c: CodedText, textLen: int)
    requires c.pos1 + 1 != textLen
    ensures ExtendedRight(c, textLen) == Nudged(c, ExtendRight, textLen)
  {
  }

  /** What an arrow key does to a single coding `c` under the cursor: the
      coding on show is moved (`shown`), and the store is updated unless that
      is refused (`stored`). */
  function NudgeChange(t: seq<CodedText>, shown: seq<CodedText>, c: CodedText, n: Nudge, textLen: int)
    : (r: (Change, seq<CodedText>, seq<CodedText>))
    ensures r.0 == Unchanged ==> r.1 == t && r.2 == shown
    ensures r.0 == Refused ==> r.1 == t
    ensures r.0 == Updated && UniqueKeys(t) ==> UniqueKeys(r.1)
  {
    var p := Nudged(c, n, textLen);
    if p.None? then (Unchanged, t, shown)
    else
      var moved := c.(pos0 := p.value.0, pos1 := p.value.1);
      var u := Reposition(t, KeyOf(c), moved.pos0, moved.pos1);
      if u.Ok? then (Updated, u.value, ReplaceFirst(shown, c, moved))
      else (Refused, t, ReplaceFirst(shown, c, moved))
  }

  /** A refused arrow-key edit leaves the store as it was but the coding on
      show moved: the dialog then shows a coding the store does not hold. */
  lemma NudgeRefusedLeavesStaleCoding(t: seq<CodedText>, c: CodedText, n: Nudge, textLen: int)
    requires c in t && NudgeChange(t, [c], c, n, textLen).0 == Refused
    ensures NudgeChange(t, [c], c, n, textLen).1 == t
    ensures NudgeChange(t, [c], c, n, textLen).2 != [c]
  {
    var p := Nudged(c, n, textLen);
    assert p.value != (c.pos0, c.pos1);
  }

  /** `DELETE FROM code_text WHERE` the key of one coding. */
  function DeleteCoding(t: seq<CodedText>, key: CodingKey): (r: seq<CodedText>)
    ensures forall c :: c in r <==> c in t && KeyOf(c) != key
  {
    if |t| == 0 then []
    else
      var n := |t| - 1;
      assert t == t[..n] + [t[n]];
      DeleteCoding(t[..n], key) + (if KeyOf(t[n]) == key then [] else [t[n]])
  }

  lemma {:induction false} DeleteCodingKeeps(t: seq<CodedText>, key: CodingKey)
    requires forall j :: 0 <= j < |t| ==> KeyOf(t[j]) != key
    ensures DeleteCoding(t, key) == t
  {
    if |t| > 0 {
      var n := |t| - 1;
      var front := t[..n];
      forall j | 0 <= j < |front| ensures KeyOf(front[j]) != key {
        assert front[j] == t[j];
      }
      DeleteCodingKeeps(front, key);
      FrontAndLast(t);
    }
  }

  /** Removing element `i` of `t`, taken apart at its last element. */
  lemma RemoveBeforeLast<T>(t: seq<T>, i: nat)
    requires i < |t| - 1
    ensures t[..|t| - 1][..i] + t[..|t| - 1][i + 1..] + [t[|t| - 1]] == t[..i] + t[i + 1..]
  {
    var n := |t| - 1;
    assert t[i + 1..] == t[i + 1..n] + [t[n]];
  }

  /** Unmarking removes exactly the chosen coding from a store with unique keys. */
  lemma {:induction false} DeleteCodingRemovesOne(t: seq<CodedText>, i: nat)
    requires UniqueKeys(t) && i < |t|
    ensures DeleteCoding(t, KeyOf(t[i])) == t[..i] + t[i + 1..]
  {
    var n := |t| - 1;
    var key := KeyOf(t[i]);
    var front := t[..n];
    assert DeleteCoding(t, key) == DeleteCoding(front, key) + (if KeyOf(t[n]) == key then [] else [t[n]]);
    if i == n {
      forall j | 0 <= j < |front| ensures KeyOf(front[j]) != key {
        assert front[j] == t[j];
      }
      DeleteCodingKeeps(front, key);
      assert t[..i] + t[i + 1..] == front;
    } else {
      assert UniqueKeys(front) by {
        forall a, b | 0 <= a < b < |front| ensures KeyOf(front[a]) != KeyOf(front[b]) {
          assert front[a] == t[a] && front[b] == t[b];
        }
      }
      assert front[i] == t[i];
      DeleteCodingRemovesOne(front, i);
      assert KeyOf(t[n]) != key;
      RemoveBeforeLast(t, i);
    }
  }

  lemma {:induction false} DeleteCodingKeepsUnique(t: seq<CodedText>, key: CodingKey)
    requires UniqueKeys(t)
    ensures UniqueKeys(DeleteCoding(t, key))
  {
    if |t| > 0 {
      var n := |t| - 1;
      DeleteCodingKeepsUnique(t[..n], key);
      var d := DeleteCoding(t[..n], key);
      if KeyOf(t[n]) != key {
        var r := d + [t[n]];
        forall a, b | 0 <= a < b < |r| ensures KeyOf(r[a]) != KeyOf(r[b]) {
          if b == |d| {
            assert r[a] in t[..n];
            var j :| 0 <= j < n && t[j] == r[a];
            assert KeyOf(t[j]) != KeyOf(t[n]);
          }
        }
      }
    }
  }

  /** The codes of `codes` with id `cid`. */
  function WithCode(codes: seq<CodeName>, cid: int): (r: seq<CodeName>)
    ensures forall n :: n in r <==> n in codes && n.cid == cid
  {
    Where(codes, (n: CodeName) => n.cid == cid)
  }

  /** `DELETE FROM code_name WHERE cid = ?`. */
  function WithoutCode(codes: seq<CodeName>, cid: int): (r: seq<CodeName>)
    ensures forall n :: n in r <==> n in codes && n.cid != cid
  {
    Where(codes, (n: CodeName) => n.cid != cid)
  }

  /** Merging code `oldCid` into `newCid`: `UPDATE code_text SET cid`. */
  function MergedCodings(t: seq<CodedText>, oldCid: int, newCid: int): Result<seq<CodedText>> {
    UpdateCodings(t, (c: CodedText) => c.cid == oldCid, (c: CodedText) => c.(cid := newCid))
  }

  /** Code `oldCid` and code `newCid` both code the same characters of one file
      for one coder. */
  predicate MergeClash(t: seq<CodedText>, oldCid: int, newCid: int) {
    exists i, j :: 0 <= i < |t| && 0 <= j < |t| && t[i].cid == oldCid && t[j].cid == newCid
      && KeyOf(t[i]).(cid := newCid) == KeyOf(t[j])
  }

  /** A merge is refused exactly when the two codes clash somewhere; merging a
      code into itself changes nothing. */
  lemma MergeRefusedIff(t: seq<CodedText>, oldCid: int, newCid: int)
    requires UniqueKeys(t)
    ensures oldCid == newCid ==> MergedCodings(t, oldCid, newCid) == Ok(t)
    ensures MergedCodings(t, oldCid, newCid).UniqueViolation? <==>
      oldCid != newCid && MergeClash(t, oldCid, newCid)
  {
    var m := MapWhere(t, (c: CodedText) => c.cid == oldCid, (c: CodedText) => c.(cid := newCid));
    if oldCid == newCid {
      assert forall i :: 0 <= i < |t| ==> m[i] == t[i];
      assert m == t;
    } else if MergeClash(t, oldCid, newCid) {
      var i, j :| 0 <= i < |t| && 0 <= j < |t| && t[i].cid == oldCid && t[j].cid == newCid
        && KeyOf(t[i]).(cid := newCid) == KeyOf(t[j]);
      assert KeyOf(m[i]) == KeyOf(m[j]) && i != j;
      assert !UniqueKeys(m) by {
        if i < j { assert KeyOf(m[i]) == KeyOf(m[j]); } else { assert KeyOf(m[j]) == KeyOf(m[i]); }
      }
    } else {
      forall a, b | 0 <= a < b < |t| ensures KeyOf(m[a]) != KeyOf(m[b]) {
        assert KeyOf(t[a]) != KeyOf(t[b]);
        if t[a].cid == oldCid && t[b].cid != oldCid {
          assert KeyOf(m[b]) == KeyOf(t[b]);
          assert !(t[a].cid == oldCid && t[b].cid == newCid && KeyOf(t[a]).(cid := newCid) == KeyOf(t[b]));
        } else if t[b].cid == oldCid && t[a].cid != oldCid {
          assert KeyOf(m[a]) == KeyOf(t[a]);
          assert !(t[b].cid == oldCid && t[a].cid == newCid && KeyOf(t[b]).(cid := newCid) == KeyOf(t[a]));
        }
      }
    }
  }

  /** Names of the codes at a position, as the "codes in text" list shows
      them: for each coding covering the position, in list order, every code
      with its `cid`. */
  function CodeNamesAt(rows: seq<CodedText>, codes: seq<CodeName>, pos: int): (r: seq<CodeName>)
    ensures forall n :: n in r <==> n in codes && exists c :: c in rows && Covers(c, pos) && c.cid == n.cid
  {
    if |rows| == 0 then []
    else
      var last := rows[|rows| - 1];
      assert rows == rows[..|rows| - 1] + [last];
      CodeNamesAt(rows[..|rows| - 1], codes, pos)
        + (if Covers(last, pos) then WithCode(codes, last.cid) else [])
  }

  // ---------------------------------------------------------------------------
  // Overlapping codings

  /** The guard under which the overline pass compares coding `i` with `j`:
      `j` starts at or before `i` and reaches `i`'s start. */
  predicate Meets(i: CodedText, j: CodedText) {
    j.pos0 <= i.pos0 <= j.pos1
  }

  function Max(a: int, b: int): int { if a < b then b else a }
  function Min(a: int, b: int): int { if a < b then a else b }

  /** The range the overline pass marks for a pair that meets. Its third branch
      cannot be taken under the guard; its fourth gives the range end first. */
  function OverlapRange(i: CodedText, j: CodedText): (o: (int, int))
    ensures Meets(i, j) ==>
      (o.0 == Max(i.pos0, j.pos0) && o.1 == Min(i.pos1, j.pos1))
      || (o.1 == Max(i.pos0, j.pos0) && o.0 == Min(i.pos1, j.pos1))
  {
    if j.pos0 >= i.pos0 && j.pos1 <= i.pos1 then (j.pos0, j.pos1)
    else if i.pos0 >= j.pos0 && i.pos1 <= j.pos1 then (i.pos0, i.pos1)
    else if j.pos0 > i.pos0 then (j.pos0, i.pos1)
    else (j.pos1, i.pos0)
  }

  /** The ranges the inner loop adds for coding `i` against `js`. */
  function PairOverlaps(i: CodedText, js: seq<CodedText>): seq<(int, int)> {
    if |js| == 0 then []
    else
      var j := js[|js| - 1];
      PairOverlaps(i, js[..|js| - 1]) + (if j != i && Meets(i, j) then [OverlapRange(i, j)] else [])
  }

  /** The ranges the two nested loops add for every coding of `outer` against `rows`. */
  function Overlapping(outer: seq<CodedText>, rows: seq<CodedText>): seq<(int, int)> {
    if |outer| == 0 then []
    else Overlapping(outer[..|outer| - 1], rows) + PairOverlaps(outer[|outer| - 1], rows)
  }

  /** A range comes from a pair of distinct codings of the list that meet. */
  predicate FromMeetingPair(o: (int, int), outer: seq<CodedText>, rows: seq<CodedText>) {
    exists a, b :: 0 <= a < |outer| && 0 <= b < |rows| && outer[a] != rows[b] && Meets(outer[a], rows[b])
      && o == OverlapRange(outer[a], rows[b])
  }

  lemma {:induction false} PairOverlapsSound(i: CodedText, js: seq<CodedText>, o: (int, int))
    requires o in PairOverlaps(i, js)
    ensures exists b :: 0 <= b < |js| && i != js[b] && Meets(i, js[b]) && o == OverlapRange(i, js[b])
  {
    var n := |js| - 1;
    if o !in PairOverlaps(i, js[..n]) {
      assert i != js[n] && Meets(i, js[n]) && o == OverlapRange(i, js[n]);
    } else {
      PairOverlapsSound(i, js[..n], o);
      var b :| 0 <= b < n && i != js[..n][b] && Meets(i, js[..n][b]) && o == OverlapRange(i, js[..n][b]);
      assert js[..n][b] == js[b];
    }
  }

  /** Every marked range is the overlap of two distinct codings that meet. */
  lemma {:induction false} OverlapsSound(outer: seq<CodedText>, rows: seq<CodedText>, o: (int, int))
    requires o in Overlapping(outer, rows)
    ensures FromMeetingPair(o, outer, rows)
  {
    var n := |outer| - 1;
    if o in Overlapping(outer[..n], rows) {
      OverlapsSound(outer[..n], rows, o);
      var a, b :| 0 <= a < n && 0 <= b < |rows| && outer[..n][a] != rows[b] && Meets(outer[..n][a], rows[b])
        && o == OverlapRange(outer[..n][a], rows[b]);
      assert outer[..n][a] == outer[a];
    } else {
      PairOverlapsSound(outer[n], rows, o);
    }
  }

  lemma {:induction false} PairOverlapsComplete(i: CodedText, js: seq<CodedText>, b: nat)
    requires b < |js| && i != js[b] && Meets(i, js[b])
    ensures OverlapRange(i, js[b]) in PairOverlaps(i, js)
  {
    var n := |js| - 1;
    if b < n {
      assert js[..n][b] == js[b];
      PairOverlapsComplete(i, js[..n], b);
    }
  }

  /** Every pair of distinct codings that meet has its overlap marked. */
  lemma {:induction false} OverlapsComplete(outer: seq<CodedText>, rows: seq<CodedText>, a: nat, b: nat)
    requires a < |outer| && b < |rows| && outer[a] != rows[b] && Meets(outer[a], rows[b])
    ensures OverlapRange(outer[a], rows[b]) in Overlapping(outer, rows)
  {
    var n := |outer| - 1;
    if a < n {
      assert outer[..n][a] == outer[a];
      OverlapsComplete(outer[..n], rows, a, b);
    } else {
      PairOverlapsComplete(outer[a], rows, b);
    }
  }

  // ---------------------------------------------------------------------------
  // Automatic coding

  /** The distinct non-empty texts of an automatic-coding entry, separated by `|`. */
  function Fragments(findText: string): (r: set<string>)
    ensures forall t :: t in r <==> t in Split(findText, "|") && t != ""
  {
    set t | t in Split(findText, "|") && t != ""
  }

  /** The starts of the leftmost non-overlapping literal matches of `pat` in
      `s` from `from` on, as a regular-expression search for the escaped text
      finds them. */
  function MatchStarts(s: string, pat: string, from: nat): (r: seq<int>)
    requires |pat| > 0
    ensures forall k :: 0 <= k < |r| ==> from <= r[k] && OccursAt(s, pat, r[k])
    ensures forall k :: 0 <= k < |r| - 1 ==> r[k] + |pat| <= r[k + 1]
    decreases |s| - from
  {
    var k := FindFrom(s, pat, from);
    if k < 0 then [] else [k] + MatchStarts(s, pat, k + |pat|)
  }

  /** Position `k` lies inside one of the matches starting at `starts`. */
  predicate InsideMatch(starts: seq<int>, len: int, k: int) {
    exists m :: 0 <= m < |starts| && starts[m] <= k < starts[m] + len
  }

  /** Every occurrence of `pat` from `from` on is a match or overlaps the match
      before it: the matches skip only occurrences that overlap one they took. */
  lemma {:induction false} MatchStartsComplete(s: string, pat: string, from: nat, k: int)
    requires |pat| > 0 && from <= k && OccursAt(s, pat, k)
    ensures InsideMatch(MatchStarts(s, pat, from), |pat|, k)
    decreases |s| - from
  {
    var f := FindFrom(s, pat, from);
    assert f != -1 && f <= k;
    var rest := MatchStarts(s, pat, f + |pat|);
    assert MatchStarts(s, pat, from) == [f] + rest;
    if k < f + |pat| {
      InsideFirstMatch(f, rest, |pat|, k);
    } else {
      MatchStartsComplete(s, pat, f + |pat|, k);
      InsideLaterMatch(f, rest, |pat|, k);
    }
  }

  lemma InsideFirstMatch(f: int, rest: seq<int>, len: int, k: int)
    requires f <= k < f + len
    ensures InsideMatch([f] + rest, len, k)
  {
    assert ([f] + rest)[0] == f;
  }

  lemma InsideLaterMatch(f: int, rest: seq<int>, len: int, k: int)
    requires InsideMatch(rest, len, k)
    ensures InsideMatch([f] + rest, len, k)
  {
    var m :| 0 <= m < |rest| && rest[m] <= k < rest[m] + len;
    assert ([f] + rest)[m + 1] == rest[m];
  }

  /** The coding automatic coding adds for a match at `start` of `txt` in `f`. */
  function AutoRow(cid: int, f: Source, txt: string, start: int, coder: string, date: string): CodedText {
    CodedText(cid, f.id, txt, start, start + |txt|, coder, "", date)
  }

  /** `r` is a coding automatic coding may add: one match of one fragment in
      one of the chosen files. */
  predicate AutoCoded(r: CodedText, cid: int, frags: set<string>, files: seq<Source>,
                      coder: string, date: string)
  {
    && r.seltext in frags && |r.seltext| > 0
    && (exists k :: 0 <= k < |files| && r.pos0 in MatchStarts(files[k].fulltext, r.seltext, 0)
                    && r == AutoRow(cid, files[k], r.seltext, r.pos0, coder, date))
  }

  /** Every match of every fragment in every chosen file is coded in `t`. */
  predicate AllAutoCoded(t: seq<CodedText>, cid: int, frags: set<string>, files: seq<Source>,
                         coder: string, date: string)
  {
    forall txt, k, s ::
      (txt in frags && |txt| > 0 && 0 <= k < |files| && s in MatchStarts(files[k].fulltext, txt, 0)) ==>
      HasKey(t, KeyOf(AutoRow(cid, files[k], txt, s, coder, date)))
  }

  /** An automatically coded span holds the fragment it was made for. */
  lemma AutoCodedMatchesText(r: CodedText, cid: int, frags: set<string>, files: seq<Source>,
                             coder: string, date: string)
    requires AutoCoded(r, cid, frags, files, coder, date)
    ensures exists k :: (0 <= k < |files| && files[k].id == r.fid
                         && 0 <= r.pos0 < r.pos1 <= |files[k].fulltext|
                         && files[k].fulltext[r.pos0..r.pos1] == r.seltext)
  {
    var k :| 0 <= k < |files| && r.pos0 in MatchStarts(files[k].fulltext, r.seltext, 0)
      && r == AutoRow(cid, files[k], r.seltext, r.pos0, coder, date);
    MatchStartOccurs(files[k].fulltext, r.seltext, r.pos0);
    assert r.pos1 == r.pos0 + |r.seltext| && files[k].id == r.fid;
  }

  /** A match start is where the fragment occurs. */
  lemma MatchStartOccurs(s: string, pat: string, p: int)
    requires |pat| > 0 && p in MatchStarts(s, pat, 0)
    ensures 0 <= p && p + |pat| <= |s| && s[p..p + |pat|] == pat
  {
    var starts := MatchStarts(s, pat, 0);
    var m :| 0 <= m < |starts| && starts[m] == p;
    assert OccursAt(s, pat, starts[m]);
  }

  // ---------------------------------------------------------------------------
  // Coding whole sentences

  /** The coding sentence coding adds for sentence `k` of `f`'s text split at
      `ending`: it starts after the sentences before it and their endings. */
  function SentenceRow(cid: int, f: Source, sentences: seq<string>, ending: string, k: nat,
                       coder: string, date: string): CodedText
    requires k < |sentences|
  {
    var p := Offset(sentences, ending, k);
    CodedText(cid, f.id, sentences[k], p, p + |sentences[k]|, coder, "", date)
  }

  /** The sentence a sentence coding copies is the text at its span. */
  lemma SentenceRowMatchesText(cid: int, f: Source, ending: string, k: nat, coder: string, date: string)
    requires |ending| > 0 && k < |Split(f.fulltext, ending)|
    ensures var r := SentenceRow(cid, f, Split(f.fulltext, ending), ending, k, coder, date);
      0 <= r.pos0 <= r.pos1 <= |f.fulltext| && f.fulltext[r.pos0..r.pos1] == r.seltext
  {
    SplitPieceAt(f.fulltext, ending, Split(f.fulltext, ending), k);
  }

  /** The number of sentences holding `fragment`: the count sentence coding
      reports for a file (attempts, whether or not the insert succeeds). */
  function CountContaining(sentences: seq<string>, fragment: string): (n: nat)
    ensures n <= |sentences|
  {
    if |sentences| == 0 then 0
    else
      var last := |sentences| - 1;
      CountContaining(sentences[..last], fragment) + (if Contains(sentences[last], fragment) then 1 else 0)
  }

  /** No sentence is counted exactly when none holds the fragment. */
  lemma {:induction false} CountContainingZero(sentences: seq<string>, fragment: string)
    ensures CountContaining(sentences, fragment) == 0 <==>
      forall k :: 0 <= k < |sentences| ==> !Contains(sentences[k], fragment)
  {
    if |sentences| > 0 {
      var last := |sentences| - 1;
      CountContainingZero(sentences[..last], fragment);
      assert forall k :: 0 <= k < last ==> sentences[..last][k] == sentences[k];
    }
  }

  /** `r` is the coding of one of the first `n` of `sentences` (the sentences
      of file `f`) that holds the fragment. */
  predicate FromSentences(r: CodedText, cid: int, f: Source, sentences: seq<string>, fragment: string,
                          ending: string, coder: string, date: string, n: nat)
    requires n <= |sentences|
  {
    exists k :: 0 <= k < n && Contains(sentences[k], fragment)
      && r == SentenceRow(cid, f, sentences, ending, k, coder, date)
  }

  /** `r` is a coding sentence coding may add: a sentence of one of the files
      that holds the fragment. */
  predicate SentenceCoded(r: CodedText, cid: int, fragment: string, ending: string,
                          files: seq<Source>, coder: string, date: string)
    requires |ending| > 0
  {
    exists fi :: 0 <= fi < |files|
      && FromSentences(r, cid, files[fi], Split(files[fi].fulltext, ending), fragment, ending, coder, date,
                       |Split(files[fi].fulltext, ending)|)
  }

  /** The codings sentence coding offers for the first `n` of `sentences` (the
      sentences of file `f`), in order. */
  function FileSentenceRows(cid: int, f: Source, sentences: seq<string>, fragment: string, ending: string,
                            coder: string, date: string, n: nat): seq<CodedText>
    requires n <= |sentences|
  {
    if n == 0 then []
    else
      FileSentenceRows(cid, f, sentences, fragment, ending, coder, date, n - 1)
      + (if Contains(sentences[n - 1], fragment)
         then [SentenceRow(cid, f, sentences, ending, n - 1, coder, date)] else [])
  }

  /** One coding is offered per sentence counted; each coding offered is that
      of a sentence holding the fragment, and each such sentence's is offered. */
  lemma {:induction false} FileSentenceRowsFacts(cid: int, f: Source, sentences: seq<string>, fragment: string,
                                                 ending: string, coder: string, date: string, n: nat)
    requires n <= |sentences|
    ensures |FileSentenceRows(cid, f, sentences, fragment, ending, coder, date, n)|
      == CountContaining(sentences[..n], fragment)
    ensures forall r :: r in FileSentenceRows(cid, f, sentences, fragment, ending, coder, date, n) ==>
      FromSentences(r, cid, f, sentences, fragment, ending, coder, date, n)
    ensures forall k :: 0 <= k < n && Contains(sentences[k], fragment) ==>
      SentenceRow(cid, f, sentences, ending, k, coder, date)
        in FileSentenceRows(cid, f, sentences, fragment, ending, coder, date, n)
  {
    FileSentenceRowsCount(cid, f, sentences, fragment, ending, coder, date, n);
    FileSentenceRowsSound(cid, f, sentences, fragment, ending, coder, date, n);
    FileSentenceRowsComplete(cid, f, sentences, fragment, ending, coder, date, n);
  }

  lemma {:induction false} FileSentenceRowsCount(cid: int, f: Source, sentences: seq<string>, fragment: string,
                                                 ending: string, coder: string, date: string, n: nat)
    requires n <= |sentences|
    ensures |FileSentenceRows(cid, f, sentences, fragment, ending, coder, date, n)|
      == CountContaining(sentences[..n], fragment)
  {
    if n > 0 {
      FileSentenceRowsCount(cid, f, sentences, fragment, ending, coder, date, n - 1);
      assert sentences[..n][..n - 1] == sentences[..n - 1];
    }
  }

  lemma {:induction false} FileSentenceRowsSound(cid: int, f: Source, sentences: seq<string>, fragment: string,
                                                 ending: string, coder: string, date: string, n: nat)
    requires n <= |sentences|
    ensures forall r :: r in FileSentenceRows(cid, f, sentences, fragment, ending, coder, date, n) ==>
      FromSentences(r, cid, f, sentences, fragment, ending, coder, date, n)
  {
    if n > 0 {
      FileSentenceRowsSound(cid, f, sentences, fragment, ending, coder, date, n - 1);
      forall r | r in FileSentenceRows(cid, f, sentences, fragment, ending, coder, date, n - 1)
        ensures FromSentences(r, cid, f, sentences, fragment, ending, coder, date, n)
      {
        var k :| 0 <= k < n - 1 && Contains(sentences[k], fragment)
          && r == SentenceRow(cid, f, sentences, ending, k, coder, date);
      }
    }
  }

  lemma {:induction false} FileSentenceRowsComplete(cid: int, f: Source, sentences: seq<string>, fragment: string,
                                                    ending: string, coder: string, date: string, n: nat)
    requires n <= |sentences|
    ensures forall k :: 0 <= k < n && Contains(sentences[k], fragment) ==>
      SentenceRow(cid, f, sentences, ending, k, coder, date)
        in FileSentenceRows(cid, f, sentences, fragment, ending, coder, date, n)
  {
    if n > 0 {
      FileSentenceRowsComplete(cid, f, sentences, fragment, ending, coder, date, n - 1);
    }
  }

  /** The codings sentence coding offers for all the files, in order. */
  function SentenceRows(cid: int, fragment: string, ending: string, files: seq<Source>,
                        coder: string, date: string): seq<CodedText>
    requires |ending| > 0
  {
    if |files| == 0 then []
    else
      var f := files[|files| - 1];
      var sentences := Split(f.fulltext, ending);
      SentenceRows(cid, fragment, ending, files[..|files| - 1], coder, date)
      + FileSentenceRows(cid, f, sentences, fragment, ending, coder, date, |sentences|)
  }

  /** Every coding offered is a sentence coding, and every sentence holding the
      fragment has its coding offered. */
  lemma SentenceRowsFacts(cid: int, fragment: string, ending: string, files: seq<Source>,
                          coder: string, date: string)
    requires |ending| > 0
    ensures forall r :: r in SentenceRows(cid, fragment, ending, files, coder, date) ==>
      SentenceCoded(r, cid, fragment, ending, files, coder, date)
    ensures forall fi, k :: (0 <= fi < |files| && 0 <= k < |Split(files[fi].fulltext, ending)|
                             && Contains(Split(files[fi].fulltext, ending)[k], fragment)) ==>
      SentenceRow(cid, files[fi], Split(files[fi].fulltext, ending), ending, k, coder, date)
        in SentenceRows(cid, fragment, ending, files, coder, date)
  {
    SentenceRowsSound(cid, fragment, ending, files, coder, date);
    SentenceRowsComplete(cid, fragment, ending, files, coder, date);
  }

  lemma {:induction false} SentenceRowsSound(cid: int, fragment: string, ending: string, files: seq<Source>,
                                             coder: string, date: string)
    requires |ending| > 0
    ensures forall r :: r in SentenceRows(cid, fragment, ending, files, coder, date) ==>
      SentenceCoded(r, cid, fragment, ending, files, coder, date)
  {
    if |files| > 0 {
      var m := |files| - 1;
      var f := files[m];
      var sentences := Split(f.fulltext, ending);
      var front := files[..m];
      SentenceRowsSound(cid, fragment, ending, front, coder, date);
      FileSentenceRowsFacts(cid, f, sentences, fragment, ending, coder, date, |sentences|);
      forall r | r in SentenceRows(cid, fragment, ending, files, coder, date)
        ensures SentenceCoded(r, cid, fragment, ending, files, coder, date)
      {
        if r in SentenceRows(cid, fragment, ending, front, coder, date) {
          var fi :| 0 <= fi < m
            && FromSentences(r, cid, front[fi], Split(front[fi].fulltext, ending), fragment, ending, coder, date,
                             |Split(front[fi].fulltext, ending)|);
          assert front[fi] == files[fi];
        } else {
          assert FromSentences(r, cid, files[m], sentences, fragment, ending, coder, date, |sentences|);
        }
      }
    }
  }

  lemma {:induction false} SentenceRowsComplete(cid: int, fragment: string, ending: string, files: seq<Source>,
                                                coder: string, date: string)
    requires |ending| > 0
    ensures forall fi, k :: (0 <= fi < |files| && 0 <= k < |Split(files[fi].fulltext, ending)|
                             && Contains(Split(files[fi].fulltext, ending)[k], fragment)) ==>
      SentenceRow(cid, files[fi], Split(files[fi].fulltext, ending), ending, k, coder, date)
        in SentenceRows(cid, fragment, ending, files, coder, date)
  {
    if |files| > 0 {
      var m := |files| - 1;
      var front := files[..m];
      SentenceRowsComplete(cid, fragment, ending, front, coder, date);
      var f := files[m];
      var sentences := Split(f.fulltext, ending);
      FileSentenceRowsComplete(cid, f, sentences, fragment, ending, coder, date, |sentences|);
      var earlier := SentenceRows(cid, fragment, ending, front, coder, date);
      var last := FileSentenceRows(cid, f, sentences, fragment, ending, coder, date, |sentences|);
      assert SentenceRows(cid, fragment, ending, files, coder, date) == earlier + last;
      forall fi, k | (0 <= fi < |files| && 0 <= k < |Split(files[fi].fulltext, ending)|
                      && Contains(Split(files[fi].fulltext, ending)[k], fragment))
        ensures SentenceRow(cid, files[fi], Split(files[fi].fulltext, ending), ending, k, coder, date)
          in earlier + last
      {
        if fi < m {
          assert front[fi] == files[fi];
        }
      }
    }
  }

  /** Every sentence holding the fragment is coded in `t`. */
  predicate AllSentencesCoded(t: seq<CodedText>, cid: int, fragment: string, ending: string,
                              files: seq<Source>, coder: string, date: string)
    requires |ending| > 0
  {
    forall fi, k ::
      (0 <= fi < |files| && 0 <= k < |Split(files[fi].fulltext, ending)|
       && Contains(Split(files[fi].fulltext, ending)[k], fragment)) ==>
      HasKey(t, KeyOf(SentenceRow(cid, files[fi], Split(files[fi].fulltext, ending), ending, k, coder, date)))
  }

  /** The per-file lines of the sentence-coding report: name and count of each
      file where at least one sentence holds the fragment. */
  function SentenceReport(files: seq<Source>, fragment: string, ending: string): (r: seq<(string, nat)>)
    requires |ending| > 0
    ensures |r| <= |files|
    ensures forall e :: e in r ==> e.1 > 0
  {
    if |files| == 0 then []
    else
      var f := files[|files| - 1];
      var n := CountContaining(Split(f.fulltext, ending), fragment);
      SentenceReport(files[..|files| - 1], fragment, ending) + (if n > 0 then [(f.name, n)] else [])
  }

  /** The codings that inserting `rows` one by one into `t` leaves, each insert
      refused by the uniqueness constraint being skipped. */
  function InsertAll(t: seq<CodedText>, rows: seq<CodedText>): seq<CodedText> {
    if |rows| == 0 then t
    else
      var before := InsertAll(t, rows[..|rows| - 1]);
      var r := InsertCoding(before, rows[|rows| - 1]);
      if r.Ok? then r.value else before
  }

  /** One more sentence: its coding is offered when it holds the fragment. */
  lemma FileSentenceRowsNext(cid: int, f: Source, sentences: seq<string>, fragment: string, ending: string,
                             coder: string, date: string, k: nat)
    requires k < |sentences|
    ensures FileSentenceRows(cid, f, sentences, fragment, ending, coder, date, k + 1)
      == FileSentenceRows(cid, f, sentences, fragment, ending, coder, date, k)
         + (if Contains(sentences[k], fragment) then [SentenceRow(cid, f, sentences, ending, k, coder, date)] else [])
    ensures CountContaining(sentences[..k + 1], fragment)
      == CountContaining(sentences[..k], fragment) + (if Contains(sentences[k], fragment) then 1 else 0)
  {
    assert sentences[..k + 1][..k] == sentences[..k];
  }

  /** One more row to insert after a batch. */
  lemma InsertAllSnoc(t: seq<CodedText>, rows: seq<CodedText>, x: CodedText)
    ensures InsertAll(t, rows + [x])
      == (var r := InsertCoding(InsertAll(t, rows), x); if r.Ok? then r.value else InsertAll(t, rows))
  {
    assert (rows + [x])[..|rows|] == rows;
  }

  /** `t` is the start of `u`. */
  predicate Grows(t: seq<CodedText>, u: seq<CodedText>) {
    |t| <= |u| && u[..|t|] == t
  }

  /** Inserting a batch keeps the old codings, adds only codings of the batch,
      keeps the keys unique, and leaves a coding with each key of the batch. */
  lemma {:induction false} InsertAllFacts(t: seq<CodedText>, rows: seq<CodedText>)
    requires UniqueKeys(t)
    ensures InsertedBatch(t, rows, InsertAll(t, rows))
  {
    if |rows| > 0 {
      InsertAllFacts(t, rows[..|rows| - 1]);
      InsertStep(t, rows);
    }
  }

  /** What inserting the batch `rows` into `t` leaves in `u`: the keys stay
      unique, the old codings stay at the front, only codings of the batch are
      added, and a coding with each key of the batch is there. */
  predicate InsertedBatch(t: seq<CodedText>, rows: seq<CodedText>, u: seq<CodedText>) {
    UniqueKeys(u) && Grows(t, u)
    && (forall k :: |t| <= k < |u| ==> u[k] in rows)
    && (forall x :: x in rows ==> HasKey(u, KeyOf(x)))
  }

  /** One more insert, refused or not, keeps what inserting a batch ensures. */
  lemma InsertStep(t: seq<CodedText>, rows: seq<CodedText>)
    requires |rows| > 0 && InsertedBatch(t, rows[..|rows| - 1], InsertAll(t, rows[..|rows| - 1]))
    ensures InsertedBatch(t, rows, InsertAll(t, rows))
  {
    var n := |rows| - 1;
    var x := rows[n];
    var front := rows[..n];
    var before := InsertAll(t, front);
    FrontAndLast(rows);
    InsertAllSnoc(t, front, x);
    if HasKey(before, KeyOf(x)) {
      RefusedOne(t, front, x, before);
    } else {
      InsertedOne(t, front, x, before);
    }
  }

  lemma InsertedOne(t: seq<CodedText>, front: seq<CodedText>, x: CodedText, before: seq<CodedText>)
    requires InsertedBatch(t, front, before) && !HasKey(before, KeyOf(x))
    ensures InsertedBatch(t, front + [x], before + [x])
  {
    var rows := front + [x];
    var u := before + [x];
    assert UniqueKeys(u) by {
      assert InsertCoding(before, x).Ok?;
    }
    assert u[..|t|] == before[..|t|];
    forall y | y in rows ensures HasKey(u, KeyOf(y)) {
      if y == x {
        assert KeyOf(u[|before|]) == KeyOf(y);
      } else {
        assert y in front;
        var i :| 0 <= i < |before| && KeyOf(before[i]) == KeyOf(y);
        assert u[i] == before[i];
      }
    }
    forall k | |t| <= k < |u| ensures u[k] in rows {
      if k < |before| {
        assert u[k] == before[k] && before[k] in front;
      }
    }
  }

  lemma RefusedOne(t: seq<CodedText>, front: seq<CodedText>, x: CodedText, before: seq<CodedText>)
    requires InsertedBatch(t, front, before) && HasKey(before, KeyOf(x))
    ensures InsertedBatch(t, front + [x], before)
  {
    var rows := front + [x];
    forall y | y in rows ensures HasKey(before, KeyOf(y)) {
      if y != x {
        assert y in front;
      }
    }
    forall k | |t| <= k < |before| ensures before[k] in rows {
      assert before[k] in front;
    }
  }

  /** Inserting the codings sentence coding offers keeps the old codings and
      the uniqueness of keys, adds only sentence codings, and leaves every
      sentence holding the fragment coded. */
  lemma SentenceCodingFacts(t: seq<CodedText>, cid: int, fragment: string, ending: string,
                            files: seq<Source>, coder: string, date: string)
    requires |ending| > 0 && UniqueKeys(t)
    ensures var u := InsertAll(t, SentenceRows(cid, fragment, ending, files, coder, date));
      UniqueKeys(u) && Grows(t, u)
      && (forall k :: |t| <= k < |u| ==> SentenceCoded(u[k], cid, fragment, ending, files, coder, date))
      && AllSentencesCoded(u, cid, fragment, ending, files, coder, date)
  {
    InsertAllFacts(t, SentenceRows(cid, fragment, ending, files, coder, date));
    SentenceRowsFacts(cid, fragment, ending, files, coder, date);
  }

  /** A search result: the file, where the match starts, and its length. */
  datatype SearchHit = SearchHit(file: Source, start: int, length: int)

  /** Python's `s[i]` on a list, negative indices counting from the end; None
      is the IndexError. */
  function PyIndex<T>(s: seq<T>, i: int): (r: Option<T>)
    ensures 0 <= i < |s| ==> r == Some(s[i])
    ensures -|s| <= i < 0 ==> r == Some(s[|s| + i])
    ensures r.None? <==> i < -|s| || |s| <= i
  {
    if 0 <= i < |s| then Some(s[i]) else if -|s| <= i < 0 then Some(s[|s| + i]) else None
  }

  /** The index "next" moves to in a list of `n` results, wrapping at the end. */
  function NextIndex(i: int, n: nat): (r: int)
    ensures 0 < n && -1 <= i < n ==> 0 <= r < n
    ensures i == n - 1 ==> r == 0
  {
    if i + 1 == n then 0 else i + 1
  }

  /** The index "previous" moves to, as written: it wraps to the end only when
      it lands on -1. */
  function PreviousIndexAsWritten(i: int, n: nat): (r: int)
    ensures 0 <= i < n ==> 0 <= r < n
    ensures i == 0 ==> r == n - 1
  {
    if i - 1 == -1 then n - 1 else i - 1
  }

  /** After a new search the index is -1, and "previous" goes to -2: the
      second-to-last result by Python's negative indexing, not the last; with
      a single result it raises an IndexError. */
  lemma PreviousAfterSearch(hits: seq<SearchHit>)
    requires |hits| > 0
    ensures PreviousIndexAsWritten(-1, |hits|) == -2
    ensures |hits| >= 2 ==> PyIndex(hits, -2) == Some(hits[|hits| - 2])
    ensures |hits| == 1 ==> PyIndex(hits, -2).None?
  {
  }

  /** "Previous" as evidently intended: from before the first result, or from
      the first, it goes to the last. */
  function PreviousIndex(i: int, n: nat): (r: int)
    requires n > 0
    ensures -1 <= i < n ==> 0 <= r < n
    ensures i <= 0 ==> r == n - 1
    ensures 0 < i ==> r == i - 1
  {
    if i <= 0 then n - 1 else i - 1
  }

  /** Going back after going forward returns to the same result. */
  lemma PreviousUndoesNext(i: int, n: nat)
    requires 0 <= i < n
    ensures PreviousIndex(NextIndex(i, n), n) == i
    ensures PreviousIndexAsWritten(NextIndex(i, n), n) == i
  {
  }

  // ---------------------------------------------------------------------------
  // Tooltip snippets

  /** A coded text without line breaks. */
  function Cleaned(s: string): (r: string)
    ensures '\n' !in r && '\r' !in r
  {
    var once := ReplaceAll(s, "\n", "");
    NoCharAfterReplace(s, '\n');
    var twice := ReplaceAll(once, "\r", "");
    NoCharAfterReplace(once, '\r');
    KeepsAbsentChar(once, '\r', '\n');
    twice
  }

  /** The tooltip text of a coding: the coded text without line breaks, and
      when that is longer than 90 characters, the words of its first 40 and
      of its last 40 characters joined by " ... ", the cut words dropped. */
  function Snippet(seltext: string): (r: string)
    ensures '\n' !in r && '\r' !in r
    ensures |Cleaned(seltext)| <= 90 ==> r == Cleaned(seltext)
    ensures |Cleaned(seltext)| > 90 ==> |r| <= 85
  {
    var clean := Cleaned(seltext);
    if |clean| > 90 then
      var head := Slice(clean, 0, 40);
      var tail := Slice(clean, |clean| - 40, |clean|);
      var pre := Split(head, " ");
      var post := Split(tail, " ");
      JoinSplit(head, " ");
      JoinSplit(tail, " ");
      JoinPrefixShorter(pre, " ", |pre| - 1);
      JoinSuffixShorter(post, " ");
      SnippetHasNoBreak(clean, head, tail);
      var r := Join(pre[..|pre| - 1], " ") + " ... " + Join(post[1..], " ");
      JoinCharsFrom(pre[..|pre| - 1], " ", head);
      JoinCharsFrom(post[1..], " ", tail);
      r
    else clean
  }

  lemma SnippetHasNoBreak(clean: string, head: string, tail: string)
    requires '\n' !in clean && '\r' !in clean && |clean| > 90
    requires head == Slice(clean, 0, 40) && tail == Slice(clean, |clean| - 40, |clean|)
    ensures '\n' !in head && '\r' !in head && '\n' !in tail && '\r' !in tail
  {
    assert head == clean[0..40];
    assert tail == clean[|clean| - 40..|clean|];
    forall k | 0 <= k < |tail| ensures tail[k] in clean {
      assert tail[k] == clean[|clean| - 40 + k];
    }
  }

  /** A piece of a split holds only characters of the string that was split. */
  lemma PieceCharsIn(whole: string, sep: string, p: string)
    requires |sep| > 0 && p in Split(whole, sep)
    ensures forall c :: c in p ==> c in whole
  {
    var pieces := Split(whole, sep);
    var i :| 0 <= i < |pieces| && pieces[i] == p;
    SplitPieceAt(whole, sep, pieces, i);
    SliceCharsIn(whole, Offset(pieces, sep, i), p);
  }

  /** The characters of a slice are characters of the whole. */
  lemma SliceCharsIn(whole: string, o: nat, p: string)
    requires o + |p| <= |whole| && whole[o..o + |p|] == p
    ensures forall c :: c in p ==> c in whole
  {
    forall m | 0 <= m < |p| ensures p[m] in whole {
      assert whole[o + m] == p[m];
    }
  }

  /** Joining pieces drawn from the words of `whole` gives no character outside
      `whole` and the separator. */
  lemma {:induction false} JoinCharsFrom(parts: seq<string>, sep: string, whole: string)
    requires |sep| > 0 && forall p :: p in parts ==> p in Split(whole, sep)
    ensures forall c :: c in Join(parts, sep) ==> c in whole || c in sep
  {
    if |parts| > 0 {
      PieceCharsIn(whole, sep, parts[0]);
      if |parts| > 1 {
        JoinCharsFrom(parts[1..], sep, whole);
        assert Join(parts, sep) == parts[0] + sep + Join(parts[1..], sep);
      }
    }
  }

  /** Joining the first `k` pieces gives a string no longer than joining all. */
  lemma {:induction false} JoinPrefixShorter(parts: seq<string>, sep: string, k: nat)
    requires k <= |parts|
    ensures |Join(parts[..k], sep)| <= |Join(parts, sep)|
  {
    if k > 0 && |parts| > 1 {
      if k == 1 {
        assert parts[..1] == [parts[0]];
      } else {
        JoinPrefixShorter(parts[1..], sep, k - 1);
        assert parts[..k][1..] == parts[1..][..k - 1];
      }
    }
  }

  /** Dropping the first piece gives a string no longer than joining all. */
  lemma JoinSuffixShorter(parts: seq<string>, sep: string)
    requires |parts| > 0
    ensures |Join(parts[1..], sep)| <= |Join(parts, sep)|
  {
  }

  /** Replacing every `c` by nothing leaves no `c`. */
  lemma NoCharAfterReplace(s: string, c: char)
    ensures c !in ReplaceAll(s, [c], "")
  {
    var parts := Split(s, [c]);
    SplitPartsAvoidSep(s, [c]);
    forall p | p in parts ensures c !in p {
      assert !Contains(p, [c]);
      forall m | 0 <= m < |p| ensures p[m] != c {
        assert !OccursAt(p, [c], m);
        assert p[m..m + 1] == [p[m]];
      }
    }
    JoinAvoids(parts, "", c);
  }

  lemma {:induction false} JoinAvoids(parts: seq<string>, sep: string, c: char)
    requires c !in sep && forall p :: p in parts ==> c !in p
    ensures c !in Join(parts, sep)
  {
    if |parts| > 1 {
      JoinAvoids(parts[1..], sep, c);
    }
  }

  /** Replacing `d` by nothing brings in no character that was not there. */
  lemma KeepsAbsentChar(s: string, d: char, c: char)
    requires c !in s
    ensures c !in ReplaceAll(s, [d], "")
  {
    var parts := Split(s, [d]);
    forall p | p in parts ensures c !in p {
      PieceCharsIn(s, [d], p);
    }
    JoinAvoids(parts, "", c);
  }
}
