/** The rules of the file manager behind editing the text of a file that has
    codings, annotations or case links: which selections may be edited, how
    the text is spliced, and how the spans of the three tables are moved to
    follow the edit. Also the tag stripper used when importing an ODT file and
    the reconciliation of file attribute placeholders. */
module ManageFiles {
  import opened Strings
  import opened Store

  /** A span `(pos0, pos1)` as the queries fetch it. */
  type Span = (int, int)

  // ---------------------------------------------------------------------------
  // Crossover check

  /** One end of the span lies strictly inside the selection. */
  predicate Straddles(s: Span, selStart: int, selEnd: int) {
    (selStart < s.0 < selEnd) || (selStart < s.1 < selEnd)
  }

  /** The span holds the whole selection. */
  predicate Encloses(s: Span, selStart: int, selEnd: int) {
    s.0 <= selStart && selEnd <= s.1
  }

  /** `SELECT pos0, pos1 FROM code_text WHERE fid = ?`, in table order. */
  function CodeSpans(t: seq<CodedText>, fid: int): (r: seq<Span>)
    ensures |r| <= |t|
    ensures forall s :: s in r <==> exists i :: 0 <= i < |t| && t[i].fid == fid && s == (t[i].pos0, t[i].pos1)
  {
    if |t| == 0 then []
    else
      var last := |t| - 1;
      assert forall i :: 0 <= i < last ==> t[..last][i] == t[i];
      CodeSpans(t[..last], fid) + (if t[last].fid == fid then [(t[last].pos0, t[last].pos1)] else [])
  }

  /** `SELECT pos0, pos1 FROM annotation (or case_text) WHERE fid = ?`: the
      query of `CodeSpans` over the row type the two other span tables share. */
  function RowSpans(t: seq<SpanRow>, fid: int): (r: seq<Span>)
    ensures |r| <= |t|
    ensures forall s :: s in r <==> exists i :: 0 <= i < |t| && t[i].fid == fid && s == (t[i].pos0, t[i].pos1)
  {
    if |t| == 0 then []
    else
      var last := |t| - 1;
      assert forall i :: 0 <= i < last ==> t[..last][i] == t[i];
      RowSpans(t[..last], fid) + (if t[last].fid == fid then [(t[last].pos0, t[last].pos1)] else [])
  }

  /** The tests the queries apply to a span and the selection. */
  datatype SpanTest = StraddleTest | EncloseTest | AfterTest

  predicate Passes(test: SpanTest, s: Span, selStart: int, selEnd: int) {
    match test
    case StraddleTest => Straddles(s, selStart, selEnd)
    case EncloseTest => Encloses(s, selStart, selEnd)
    case AfterTest => After(s, selStart, selEnd)
  }

  /** The spans that pass `test`, in order. */
  function SpansWhere(spans: seq<Span>, test: SpanTest, selStart: int, selEnd: int): (r: seq<Span>)
    ensures |r| <= |spans|
    ensures forall s :: s in r <==> s in spans && Passes(test, s, selStart, selEnd)
  {
    if |spans| == 0 then []
    else
      var last := |spans| - 1;
      assert spans == spans[..last] + [spans[last]];
      SpansWhere(spans[..last], test, selStart, selEnd)
      + (if Passes(test, spans[last], selStart, selEnd) then [spans[last]] else [])
  }

  /** What the crossover check answers: whether the selection mixes spanned
      and unspanned text, and the spans of each table holding the selection.
      The `id` column fetched with the case spans is not used by any caller. */
  datatype Crossover = Crossover(crossover: bool, coded: seq<Span>, annotated: seq<Span>, cased: seq<Span>)

  /** The crossover check of file `fid`: a coding of any coder, or else an
      annotation, with an end strictly inside the selection rejects it; the
      lists gathered before the rejecting query stay in the answer. */
  function CrossoverCheck(fid: int, codes: seq<CodedText>, annotations: seq<SpanRow>, cases: seq<SpanRow>,
                          selStart: int, selEnd: int): Crossover
  {
    if SpansWhere(CodeSpans(codes, fid), StraddleTest, selStart, selEnd) != [] then
      Crossover(true, [], [], [])
    else
      var coded := SpansWhere(CodeSpans(codes, fid), EncloseTest, selStart, selEnd);
      if SpansWhere(RowSpans(annotations, fid), StraddleTest, selStart, selEnd) != [] then
        Crossover(true, coded, [], [])
      else
        Crossover(false, coded, SpansWhere(RowSpans(annotations, fid), EncloseTest, selStart, selEnd),
                  SpansWhere(RowSpans(cases, fid), EncloseTest, selStart, selEnd))
  }

  /** The check rejects the selection exactly when a coding or an annotation of
      the file has an end strictly inside it; when it does not, the lists hold
      exactly the spans of each table that hold the selection. */
  lemma CrossoverCheckFacts(fid: int, codes: seq<CodedText>, annotations: seq<SpanRow>, cases: seq<SpanRow>,
                            selStart: int, selEnd: int)
    ensures var r := CrossoverCheck(fid, codes, annotations, cases, selStart, selEnd);
      (r.crossover <==>
        (exists i :: 0 <= i < |codes| && codes[i].fid == fid
           && Straddles((codes[i].pos0, codes[i].pos1), selStart, selEnd))
        || (exists i :: 0 <= i < |annotations| && annotations[i].fid == fid
              && Straddles((annotations[i].pos0, annotations[i].pos1), selStart, selEnd)))
      && (r.crossover ==> r.annotated == [] && r.cased == [])
      && (!r.crossover ==>
        (forall s :: s in r.coded <==> s in CodeSpans(codes, fid) && Encloses(s, selStart, selEnd))
        && (forall s :: s in r.annotated <==> s in RowSpans(annotations, fid) && Encloses(s, selStart, selEnd))
        && (forall s :: s in r.cased <==> s in RowSpans(cases, fid) && Encloses(s, selStart, selEnd)))
  {
    var codeCross := SpansWhere(CodeSpans(codes, fid), StraddleTest, selStart, selEnd);
    var annotationCross := SpansWhere(RowSpans(annotations, fid), StraddleTest, selStart, selEnd);
    if codeCross != [] {
      assert codeCross[0] in codeCross;
    } else if annotationCross != [] {
      assert annotationCross[0] in annotationCross;
      forall i | 0 <= i < |codes| && codes[i].fid == fid
        ensures !Straddles((codes[i].pos0, codes[i].pos1), selStart, selEnd)
      {
        assert (codes[i].pos0, codes[i].pos1) in CodeSpans(codes, fid);
      }
    } else {
      forall i | 0 <= i < |codes| && codes[i].fid == fid
        ensures !Straddles((codes[i].pos0, codes[i].pos1), selStart, selEnd)
      {
        assert (codes[i].pos0, codes[i].pos1) in CodeSpans(codes, fid);
      }
      forall i | 0 <= i < |annotations| && annotations[i].fid == fid
        ensures !Straddles((annotations[i].pos0, annotations[i].pos1), selStart, selEnd)
      {
        assert (annotations[i].pos0, annotations[i].pos1) in RowSpans(annotations, fid);
      }
    }
  }

  /** A file with a case link, a coding or an annotation may only be edited in
      small, checked selections. */
  function IsCaseLinkedOrCodedOrAnnotated(fid: int, codes: seq<CodedText>, annotations: seq<SpanRow>,
                                          cases: seq<SpanRow>): (r: bool)
    ensures r <==>
      (exists i :: 0 <= i < |cases| && cases[i].fid == fid)
      || (exists i :: 0 <= i < |annotations| && annotations[i].fid == fid)
      || (exists i :: 0 <= i < |codes| && codes[i].fid == fid)
  {
    var caseLinked, annoteLinked, codeLinked := RowSpans(cases, fid), RowSpans(annotations, fid), CodeSpans(codes, fid);
    RowSpansNonEmpty(cases, fid);
    RowSpansNonEmpty(annotations, fid);
    CodeSpansNonEmpty(codes, fid);
    caseLinked != [] || annoteLinked != [] || codeLinked != []
  }

  /** The query for a file's rows returns something exactly when one of the
      rows belongs to the file. */
  lemma RowSpansNonEmpty(t: seq<SpanRow>, fid: int)
    ensures RowSpans(t, fid) != [] <==> exists i :: 0 <= i < |t| && t[i].fid == fid
  {
    var r := RowSpans(t, fid);
    if r != [] {
      assert r[0] in r;
    }
    forall i | 0 <= i < |t| && t[i].fid == fid ensures r != [] {
      assert (t[i].pos0, t[i].pos1) in r;
    }
  }

  lemma CodeSpansNonEmpty(t: seq<CodedText>, fid: int)
    ensures CodeSpans(t, fid) != [] <==> exists i :: 0 <= i < |t| && t[i].fid == fid
  {
    var r := CodeSpans(t, fid);
    if r != [] {
      assert r[0] in r;
    }
    forall i | 0 <= i < |t| && t[i].fid == fid ensures r != [] {
      assert (t[i].pos0, t[i].pos1) in r;
    }
  }

  // ---------------------------------------------------------------------------
  // Restricted edit: splice and remap

  /** The longest selection that may be replaced. */
  const MaxEdit := 20

  /** The new text of the file: the part before the selection, the new text,
      and the part after it. */
  function Splice(text: string, selStart: nat, selEnd: nat, newText: string): string
    requires selStart <= selEnd <= |text|
  {
    Slice(text, 0, selStart) + newText + Slice(text, selEnd, |text|)
  }

  /** The new text holds the text before the selection, the replacement and
      the text after the selection, in that order. */
  lemma SpliceParts(text: string, selStart: nat, selEnd: nat, newText: string)
    requires selStart <= selEnd <= |text|
    ensures var r := Splice(text, selStart, selEnd, newText);
      r == text[..selStart] + newText + text[selEnd..]
      && |r| == |text| - (selEnd - selStart) + |newText|
      && r[..selStart] == text[..selStart]
      && r[selStart..selStart + |newText|] == newText
      && r[selStart + |newText|..] == text[selEnd..]
  {
  }

  /** A span past the selection: it ends after the selection without holding
      it. */
  predicate After(s: Span, selStart: int, selEnd: int) {
    s.1 > selEnd && !Encloses(s, selStart, selEnd)
  }

  function SpanOf(r: SpanRow): Span {
    (r.pos0, r.pos1)
  }

  function CodeSpanOf(c: CodedText): Span {
    (c.pos0, c.pos1)
  }

  /** A row moved by `d` characters. */
  function Shifted(r: SpanRow, d: int): SpanRow {
    r.(pos0 := r.pos0 + d, pos1 := r.pos1 + d)
  }

  function ShiftedCoding(c: CodedText, d: int): CodedText {
    c.(pos0 := c.pos0 + d, pos1 := c.pos1 + d)
  }

  /** The rows of file `fid` past the selection, in table order. */
  function RowsAfter(t: seq<SpanRow>, fid: int, selStart: int, selEnd: int): seq<SpanRow> {
    Where(t, (r: SpanRow) => r.fid == fid && After(SpanOf(r), selStart, selEnd))
  }

  /** The spans of the codings of file `fid` past the selection. */
  function CodeSpansAfter(t: seq<CodedText>, fid: int, selStart: int, selEnd: int): seq<Span> {
    SpansWhere(CodeSpans(t, fid), AfterTest, selStart, selEnd)
  }

  /** `UPDATE ... SET pos0 = ?, pos1 = ? WHERE id = ?` with the values fetched
      for row `m`. */
  function MoveById(t: seq<SpanRow>, m: SpanRow, d: int): (r: seq<SpanRow>)
    ensures |r| == |t|
    ensures forall i :: 0 <= i < |t| ==> r[i] == if t[i].id == m.id then Shifted(m, d) else t[i]
  {
    MapWhere(t, (r: SpanRow) => r.id == m.id, (r: SpanRow) => Shifted(m, d))
  }

  /** The by-id updates for each fetched row, in order. */
  function MoveAllById(t: seq<SpanRow>, moved: seq<SpanRow>, d: int): (r: seq<SpanRow>)
    ensures |r| == |t|
  {
    if |moved| == 0 then t
    else MoveById(MoveAllById(t, moved[..|moved| - 1], d), moved[|moved| - 1], d)
  }

  /** Every row past the selection in file `fid` moved by `d`, the others kept. */
  function ShiftAfter(t: seq<SpanRow>, fid: int, selStart: int, selEnd: int, d: int): (r: seq<SpanRow>)
    ensures |r| == |t|
    ensures forall i :: 0 <= i < |t| ==>
      r[i] == if t[i].fid == fid && After(SpanOf(t[i]), selStart, selEnd) then Shifted(t[i], d) else t[i]
  {
    MapWhere(t, (r: SpanRow) => r.fid == fid && After(SpanOf(r), selStart, selEnd), (r: SpanRow) => Shifted(r, d))
  }

  /** Updating by id the rows of a table with unique ids, each once, moves
      exactly those rows. */
  lemma {:induction false} MoveAllByIdPointwise(t: seq<SpanRow>, moved: seq<SpanRow>, d: int)
    requires UniqueRowIds(t) && UniqueRowIds(moved)
    requires forall m :: m in moved ==> m in t
    ensures forall i :: 0 <= i < |t| ==>
      MoveAllById(t, moved, d)[i] == if t[i] in moved then Shifted(t[i], d) else t[i]
  {
    if |moved| > 0 {
      var k := |moved| - 1;
      var m := moved[k];
      var front := moved[..k];
      FrontAndLast(moved);
      UniqueFront(t, moved);
      MoveAllByIdPointwise(t, front, d);
      MoveLastById(t, front, m, d);
    }
  }

  /** The rows updated before the last one have unique ids, come from the
      table and do not include the last. */
  lemma UniqueFront(t: seq<SpanRow>, moved: seq<SpanRow>)
    requires |moved| > 0 && UniqueRowIds(moved) && forall m :: m in moved ==> m in t
    ensures var front := moved[..|moved| - 1];
      UniqueRowIds(front) && (forall a :: a in front ==> a in t) && moved[|moved| - 1] !in front
  {
    var k := |moved| - 1;
    var front := moved[..k];
    assert forall a :: a in front ==> a in moved;
    forall j | 0 <= j < k ensures front[j] != moved[k] {
      assert moved[j].id != moved[k].id;
    }
  }

  /** One more update by id, of a row `m` of the table not updated before. */
  lemma MoveLastById(t: seq<SpanRow>, front: seq<SpanRow>, m: SpanRow, d: int)
    requires UniqueRowIds(t) && m in t && m !in front
    requires forall i :: 0 <= i < |t| ==>
      MoveAllById(t, front, d)[i] == if t[i] in front then Shifted(t[i], d) else t[i]
    ensures forall i :: 0 <= i < |t| ==>
      MoveById(MoveAllById(t, front, d), m, d)[i] == if t[i] in front + [m] then Shifted(t[i], d) else t[i]
  {
    var u := MoveAllById(t, front, d);
    forall i | 0 <= i < |t|
      ensures MoveById(u, m, d)[i] == if t[i] in front + [m] then Shifted(t[i], d) else t[i]
    {
      if t[i].id == m.id {
        IdPicksRow(t, i, m);
      }
      ByIdStep(t[i], u[i], MoveById(u, m, d)[i], m, front, d);
    }
  }

  /** In a table with unique ids, a row with the id of one of its rows is
      that row. */
  lemma IdPicksRow(t: seq<SpanRow>, i: int, m: SpanRow)
    requires UniqueRowIds(t) && m in t && 0 <= i < |t| && t[i].id == m.id
    ensures t[i] == m
  {
    var j :| 0 <= j < |t| && t[j] == m;
    assert i == j;
  }

  /** One row through one more update by id. */
  lemma ByIdStep(r: SpanRow, u: SpanRow, v: SpanRow, m: SpanRow, front: seq<SpanRow>, d: int)
    requires u == if r in front then Shifted(r, d) else r
    requires v == if u.id == m.id then Shifted(m, d) else u
    requires r.id == m.id ==> r == m
    requires m !in front
    ensures v == if r in front + [m] then Shifted(r, d) else r
  {
  }

  /** The by-id updates of the rows past the selection move exactly those
      rows: each is shifted once, whatever rows come before or after it. */
  lemma MoveAfterById(t: seq<SpanRow>, fid: int, selStart: int, selEnd: int, d: int)
    requires UniqueRowIds(t)
    ensures MoveAllById(t, RowsAfter(t, fid, selStart, selEnd), d) == ShiftAfter(t, fid, selStart, selEnd, d)
  {
    var moved := RowsAfter(t, fid, selStart, selEnd);
    WhereKeepsUniqueIds(t, (r: SpanRow) => r.fid == fid && After(SpanOf(r), selStart, selEnd));
    MoveAllByIdPointwise(t, moved, d);
  }

  /** Filtering a table with unique ids keeps its ids unique. */
  lemma {:induction false} WhereKeepsUniqueIds(t: seq<SpanRow>, p: SpanRow -> bool)
    requires UniqueRowIds(t)
    ensures UniqueRowIds(Where(t, p))
  {
    if |t| > 0 {
      var last := |t| - 1;
      var front := t[..last];
      assert UniqueRowIds(front);
      WhereKeepsUniqueIds(front, p);
      var w := Where(front, p);
      forall i | 0 <= i < |w| ensures w[i].id != t[last].id {
        assert w[i] in front;
        var j :| 0 <= j < last && front[j] == w[i];
      }
    }
  }

  /** The outcome of applying a list of updates to `code_text`: the table
      after the last statement that took effect, and whether a statement was
      refused by the uniqueness constraint (which ends the edit). */
  datatype Applied = Applied(table: seq<CodedText>, failed: bool)

  /** `UPDATE code_text SET pos0 = ?, pos1 = ? WHERE fid = ? AND pos0 = ? AND
      pos1 = ?` with the values fetched for span `s`. */
  function MoveCodings(t: seq<CodedText>, fid: int, s: Span, d: int): Result<seq<CodedText>> {
    UpdateCodings(t, (c: CodedText) => c.fid == fid && CodeSpanOf(c) == s, (c: CodedText) => ShiftedCoding(c, d))
  }

  /** The position updates for each fetched span, in order, up to the first
      one refused. */
  function MoveAllCodings(t: seq<CodedText>, fid: int, spans: seq<Span>, d: int): Applied {
    if |spans| == 0 then Applied(t, false)
    else
      var before := MoveAllCodings(t, fid, spans[..|spans| - 1], d);
      if before.failed then before
      else
        var r := MoveCodings(before.table, fid, spans[|spans| - 1], d);
        if r.Ok? then Applied(r.value, false) else Applied(before.table, true)
  }

  /** Once a prefix of the updates fails, the rest change nothing. */
  lemma {:induction false} MoveAllCodingsStops(t: seq<CodedText>, fid: int, spans: seq<Span>, d: int, k: nat)
    requires k <= |spans| && MoveAllCodings(t, fid, spans[..k], d).failed
    ensures MoveAllCodings(t, fid, spans, d) == MoveAllCodings(t, fid, spans[..k], d)
  {
    if k < |spans| {
      var n := |spans| - 1;
      assert spans[..n][..k] == spans[..k];
      MoveAllCodingsStops(t, fid, spans[..n], d, k);
      assert spans[..k] == spans[..n][..k];
    } else {
      assert spans[..k] == spans;
    }
  }

  /** `UPDATE code_text SET seltext = ?, pos1 = ? WHERE fid = ? AND pos0 = ?
      AND pos1 = ?`: a coding holding the selection takes its end `d` further
      and its text from the new file text. */
  function StretchCodings(t: seq<CodedText>, fid: int, s: Span, d: int, text: string): Result<seq<CodedText>> {
    UpdateCodings(t, (c: CodedText) => c.fid == fid && CodeSpanOf(c) == s,
                  (c: CodedText) => c.(seltext := Slice(text, s.0, s.1 + d), pos1 := s.1 + d))
  }

  /** The stretch updates for each fetched span, in order, up to the first one
      refused. */
  function StretchAllCodings(t: seq<CodedText>, fid: int, spans: seq<Span>, d: int, text: string): Applied {
    if |spans| == 0 then Applied(t, false)
    else StretchNext(StretchAllCodings(t, fid, spans[..|spans| - 1], d, text), fid, spans[|spans| - 1], d, text)
  }

  /** The stretch update for span `s`, unless an earlier one was refused. */
  function StretchNext(before: Applied, fid: int, s: Span, d: int, text: string): Applied {
    if before.failed then before
    else
      var r := StretchCodings(before.table, fid, s, d, text);
      if r.Ok? then Applied(r.value, false) else Applied(before.table, true)
  }

  lemma {:induction false} StretchAllCodingsStops(t: seq<CodedText>, fid: int, spans: seq<Span>, d: int,
                                                  text: string, k: nat)
    requires k <= |spans| && StretchAllCodings(t, fid, spans[..k], d, text).failed
    ensures StretchAllCodings(t, fid, spans, d, text) == StretchAllCodings(t, fid, spans[..k], d, text)
  {
    if k < |spans| {
      var n := |spans| - 1;
      assert spans[..n][..k] == spans[..k];
      StretchAllCodingsStops(t, fid, spans[..n], d, text, k);
    } else {
      assert spans[..k] == spans;
    }
  }

  /** `UPDATE annotation (or case_text) SET pos1 = ? WHERE fid = ? AND pos0 = ?
      AND pos1 = ?`. */
  function StretchRows(t: seq<SpanRow>, fid: int, s: Span, d: int): (r: seq<SpanRow>)
    ensures |r| == |t|
  {
    MapWhere(t, (r: SpanRow) => r.fid == fid && SpanOf(r) == s, (r: SpanRow) => r.(pos1 := s.1 + d))
  }

  function StretchAllRows(t: seq<SpanRow>, fid: int, spans: seq<Span>, d: int): (r: seq<SpanRow>)
    ensures |r| == |t|
  {
    if |spans| == 0 then t
    else StretchRows(StretchAllRows(t, fid, spans[..|spans| - 1], d), fid, spans[|spans| - 1], d)
  }

  /** How an edit of the file text ends. */
  datatype EditOutcome =
    | Ignored       // the selection is empty or longer than the limit: the menu click does nothing
    | CrossesSpans  // the selection mixes spanned and unspanned text
    | TooLong       // refused by the edit itself
    | Cancelled     // the edit dialog was closed
    | Edited        // the text was replaced and the spans moved
    | Aborted       // a span update was refused by the uniqueness of codings

  /** The file text and the three span tables after an edit. */
  datatype EditResult = EditResult(outcome: EditOutcome, text: string, codes: seq<CodedText>,
                                   annotations: seq<SpanRow>, cases: seq<SpanRow>)

  /** The restricted edit of file `fid` as written: replace the selection by
      `newText` (None when the dialog is cancelled); when the length changed,
      move every span past the selection by the difference (case links and
      annotations by id, codings by their old positions), then query again
      which spans hold the selection and stretch those. */
  function RestrictedEdit(text: string, fid: int, codes: seq<CodedText>, annotations: seq<SpanRow>,
                          cases: seq<SpanRow>, selStart: nat, selEnd: nat, newText: Option<string>)
    : (r: EditResult)
    requires selStart <= selEnd <= |text|
    ensures r.outcome in {TooLong, Cancelled, Edited, Aborted}
    ensures r.outcome == TooLong <==> selEnd - selStart > MaxEdit
    ensures r.outcome == Cancelled <==> selEnd - selStart <= MaxEdit && newText.None?
    ensures r.outcome in {TooLong, Cancelled} ==>
      r == EditResult(r.outcome, text, codes, annotations, cases)
    ensures r.outcome in {Edited, Aborted} ==>
      newText.Some? && r.text == Splice(text, selStart, selEnd, newText.value)
    ensures newText.Some? && |newText.value| == selEnd - selStart && r.outcome != TooLong ==>
      r == EditResult(Edited, r.text, codes, annotations, cases)
  {
    if selEnd - selStart > MaxEdit then EditResult(TooLong, text, codes, annotations, cases)
    else if newText.None? then EditResult(Cancelled, text, codes, annotations, cases)
    else if |newText.value| == selEnd - selStart then
      EditResult(Edited, Splice(text, selStart, selEnd, newText.value), codes, annotations, cases)
    else
      Realign(Splice(text, selStart, selEnd, newText.value), fid, codes, annotations, cases, selStart, selEnd,
              |newText.value| - (selEnd - selStart))
  }

  /** An edit refused as too long or cancelled changes nothing, and one that
      keeps the length changes only the text. */
  lemma RestrictedEditEarly(text: string, fid: int, codes: seq<CodedText>, annotations: seq<SpanRow>,
                            cases: seq<SpanRow>, selStart: nat, selEnd: nat, newText: Option<string>)
    requires selStart <= selEnd <= |text|
    ensures selEnd - selStart > MaxEdit ==>
      RestrictedEdit(text, fid, codes, annotations, cases, selStart, selEnd, newText)
        == EditResult(TooLong, text, codes, annotations, cases)
    ensures selEnd - selStart <= MaxEdit && newText.None? ==>
      RestrictedEdit(text, fid, codes, annotations, cases, selStart, selEnd, newText)
        == EditResult(Cancelled, text, codes, annotations, cases)
    ensures selEnd - selStart <= MaxEdit && newText.Some? && |newText.value| == selEnd - selStart ==>
      RestrictedEdit(text, fid, codes, annotations, cases, selStart, selEnd, newText)
        == EditResult(Edited, Splice(text, selStart, selEnd, newText.value), codes, annotations, cases)
  {
  }

  /** An edit that changes the length is the splice followed by the span
      updates. */
  lemma RestrictedEditRealigns(text: string, fid: int, codes: seq<CodedText>, annotations: seq<SpanRow>,
                               cases: seq<SpanRow>, selStart: nat, selEnd: nat, newText: string)
    requires selStart <= selEnd <= |text| && selEnd - selStart <= MaxEdit
    requires |newText| != selEnd - selStart
    ensures RestrictedEdit(text, fid, codes, annotations, cases, selStart, selEnd, Some(newText))
      == Realign(Splice(text, selStart, selEnd, newText), fid, codes, annotations, cases, selStart, selEnd,
                 |newText| - (selEnd - selStart))
  {
    var edit := Some(newText);
    assert edit.value == newText && !edit.None?;
  }

  /** The span updates of an edit that changed the length by `d`: move the
      case links, the annotations and the codings past the selection, then
      query again which spans hold the selection and stretch those. */
  function Realign(fulltext: string, fid: int, codes: seq<CodedText>, annotations: seq<SpanRow>,
                   cases: seq<SpanRow>, selStart: nat, selEnd: nat, d: int): (r: EditResult)
    ensures r.outcome in {Edited, Aborted} && r.text == fulltext
  {
    var cases' := MoveAllById(cases, RowsAfter(cases, fid, selStart, selEnd), d);
    var annotations' := MoveAllById(annotations, RowsAfter(annotations, fid, selStart, selEnd), d);
    var moved := MoveAllCodings(codes, fid, CodeSpansAfter(codes, fid, selStart, selEnd), d);
    if moved.failed then EditResult(Aborted, fulltext, moved.table, annotations', cases')
    else
      var cross := CrossoverCheck(fid, moved.table, annotations', cases', selStart, selEnd);
      var stretched := StretchAllCodings(moved.table, fid, cross.coded, d, fulltext);
      if stretched.failed then EditResult(Aborted, fulltext, stretched.table, annotations', cases')
      else
        EditResult(Edited, fulltext, stretched.table, StretchAllRows(annotations', fid, cross.annotated, d),
                   StretchAllRows(cases', fid, cross.cased, d))
  }

  /** The "Edit text" entry of the context menu, which is always offered: a
      click is ignored unless the selection holds 1 to 20 characters, and the
      edit is made only when the selection does not cross a span. */
  function MenuEdit(text: string, fid: int, codes: seq<CodedText>, annotations: seq<SpanRow>,
                    cases: seq<SpanRow>, selStart: nat, selEnd: nat, newText: Option<string>)
    : (r: EditResult)
    requires selStart <= selEnd <= |text|
    ensures r.outcome in {Ignored, CrossesSpans, TooLong, Cancelled} ==>
      r == EditResult(r.outcome, text, codes, annotations, cases)
    ensures r.outcome == Ignored <==> selStart == selEnd || selEnd - selStart > MaxEdit
    ensures r.outcome != TooLong
    ensures r.outcome == CrossesSpans ==>
      CrossoverCheck(fid, codes, annotations, cases, selStart, selEnd).crossover
    ensures r.outcome in {Edited, Aborted} ==>
      0 < selEnd - selStart <= MaxEdit && !CrossoverCheck(fid, codes, annotations, cases, selStart, selEnd).crossover
    ensures 0 < selEnd - selStart <= MaxEdit ==>
      (CrossoverCheck(fid, codes, annotations, cases, selStart, selEnd).crossover ==> r.outcome == CrossesSpans)
      && (!CrossoverCheck(fid, codes, annotations, cases, selStart, selEnd).crossover ==>
            r == RestrictedEdit(text, fid, codes, annotations, cases, selStart, selEnd, newText))
  {
    if selStart == selEnd || selEnd - selStart > MaxEdit then EditResult(Ignored, text, codes, annotations, cases)
    else if CrossoverCheck(fid, codes, annotations, cases, selStart, selEnd).crossover then
      EditResult(CrossesSpans, text, codes, annotations, cases)
    else RestrictedEdit(text, fid, codes, annotations, cases, selStart, selEnd, newText)
  }

  // ---------------------------------------------------------------------------
  // The edit keeps the store's constraints

  /** `UPDATE source SET fulltext = ? WHERE id = ?`. */
  function SetFulltext(sources: seq<Source>, id: int, text: string): (r: seq<Source>)
    ensures |r| == |sources|
    ensures forall i :: 0 <= i < |sources| ==>
      r[i] == if sources[i].id == id then sources[i].(fulltext := text) else sources[i]
    ensures UniqueSourceIds(sources) ==> UniqueSourceIds(r)
  {
    MapWhere(sources, (s: Source) => s.id == id, (s: Source) => s.(fulltext := text))
  }

  /** Two versions of a table whose rows have the same ids, in the same order. */
  predicate SameIds(t: seq<SpanRow>, u: seq<SpanRow>) {
    |t| == |u| && forall i :: 0 <= i < |t| ==> u[i].id == t[i].id
  }

  /** Ids unique before stay unique. */
  lemma SameIdsUnique(t: seq<SpanRow>, u: seq<SpanRow>)
    requires SameIds(t, u) && UniqueRowIds(t)
    ensures UniqueRowIds(u)
  {
    forall i, j | 0 <= i < j < |u| ensures u[i].id != u[j].id {
      assert u[i].id == t[i].id && u[j].id == t[j].id;
    }
  }

  lemma {:induction false} MoveAllByIdKeepsIds(t: seq<SpanRow>, moved: seq<SpanRow>, d: int)
    ensures SameIds(t, MoveAllById(t, moved, d))
  {
    if |moved| > 0 {
      MoveAllByIdKeepsIds(t, moved[..|moved| - 1], d);
    }
  }

  lemma {:induction false} StretchAllRowsKeepsIds(t: seq<SpanRow>, fid: int, spans: seq<Span>, d: int)
    ensures SameIds(t, StretchAllRows(t, fid, spans, d))
  {
    if |spans| > 0 {
      StretchAllRowsKeepsIds(t, fid, spans[..|spans| - 1], d);
    }
  }

  lemma {:induction false} MoveAllCodingsKeepsUnique(t: seq<CodedText>, fid: int, spans: seq<Span>, d: int)
    requires UniqueKeys(t)
    ensures UniqueKeys(MoveAllCodings(t, fid, spans, d).table)
  {
    if |spans| > 0 {
      MoveAllCodingsKeepsUnique(t, fid, spans[..|spans| - 1], d);
    }
  }

  lemma {:induction false} StretchAllCodingsKeepsUnique(t: seq<CodedText>, fid: int, spans: seq<Span>, d: int,
                                                        text: string)
    requires UniqueKeys(t)
    ensures UniqueKeys(StretchAllCodings(t, fid, spans, d, text).table)
  {
    if |spans| > 0 {
      StretchAllCodingsKeepsUnique(t, fid, spans[..|spans| - 1], d, text);
    }
  }

  /** Whatever its outcome, the edit leaves the coding keys unique and the
      annotation and case link ids as they were. */
  lemma RestrictedEditKeepsConstraints(text: string, fid: int, codes: seq<CodedText>, annotations: seq<SpanRow>,
                                       cases: seq<SpanRow>, selStart: nat, selEnd: nat, newText: Option<string>)
    requires selStart <= selEnd <= |text|
    requires UniqueKeys(codes)
    ensures var r := RestrictedEdit(text, fid, codes, annotations, cases, selStart, selEnd, newText);
      UniqueKeys(r.codes) && SameIds(annotations, r.annotations) && SameIds(cases, r.cases)
  {
    if selEnd - selStart <= MaxEdit && newText.Some? && |newText.value| != selEnd - selStart {
      RestrictedEditRealigns(text, fid, codes, annotations, cases, selStart, selEnd, newText.value);
      RealignKeepsConstraints(Splice(text, selStart, selEnd, newText.value), fid, codes, annotations, cases,
                              selStart, selEnd, |newText.value| - (selEnd - selStart));
    } else {
      RestrictedEditKeepsTables(text, fid, codes, annotations, cases, selStart, selEnd, newText);
    }
  }

  /** An edit refused, cancelled or of the same length leaves the tables as
      they were. */
  lemma RestrictedEditKeepsTables(text: string, fid: int, codes: seq<CodedText>, annotations: seq<SpanRow>,
                                  cases: seq<SpanRow>, selStart: nat, selEnd: nat, newText: Option<string>)
    requires selStart <= selEnd <= |text|
    requires !(selEnd - selStart <= MaxEdit && newText.Some? && |newText.value| != selEnd - selStart)
    ensures var r := RestrictedEdit(text, fid, codes, annotations, cases, selStart, selEnd, newText);
      r.codes == codes && r.annotations == annotations && r.cases == cases
  {
    RestrictedEditEarly(text, fid, codes, annotations, cases, selStart, selEnd, newText);
  }

  lemma RealignKeepsConstraints(fulltext: string, fid: int, codes: seq<CodedText>, annotations: seq<SpanRow>,
                                cases: seq<SpanRow>, selStart: nat, selEnd: nat, d: int)
    requires UniqueKeys(codes)
    ensures var r := Realign(fulltext, fid, codes, annotations, cases, selStart, selEnd, d);
      UniqueKeys(r.codes) && SameIds(annotations, r.annotations) && SameIds(cases, r.cases)
  {
    var cases' := MoveAllById(cases, RowsAfter(cases, fid, selStart, selEnd), d);
    var annotations' := MoveAllById(annotations, RowsAfter(annotations, fid, selStart, selEnd), d);
    MoveAllByIdKeepsIds(cases, RowsAfter(cases, fid, selStart, selEnd), d);
    MoveAllByIdKeepsIds(annotations, RowsAfter(annotations, fid, selStart, selEnd), d);
    var moved := MoveAllCodings(codes, fid, CodeSpansAfter(codes, fid, selStart, selEnd), d);
    MoveAllCodingsKeepsUnique(codes, fid, CodeSpansAfter(codes, fid, selStart, selEnd), d);
    if !moved.failed {
      var cross := CrossoverCheck(fid, moved.table, annotations', cases', selStart, selEnd);
      StretchAllCodingsKeepsUnique(moved.table, fid, cross.coded, d, fulltext);
      StretchAllRowsKeepsIds(annotations', fid, cross.annotated, d);
      StretchAllRowsKeepsIds(cases', fid, cross.cased, d);
      SameIdsTrans(annotations, annotations', StretchAllRows(annotations', fid, cross.annotated, d));
      SameIdsTrans(cases, cases', StretchAllRows(cases', fid, cross.cased, d));
    }
  }

  lemma SameIdsTrans(t: seq<SpanRow>, u: seq<SpanRow>, v: seq<SpanRow>)
    requires SameIds(t, u) && SameIds(u, v)
    ensures SameIds(t, v)
  {
  }

  // ---------------------------------------------------------------------------
  // Moving codings by their old positions

  /** No fetched span, moved by `d`, is another fetched span. */
  predicate NoChainedMoves(spans: seq<Span>, d: int) {
    forall s, s' :: s in spans && s' in spans ==> (s.0 + d, s.1 + d) != s'
  }

  /** Every coding of file `fid` past the selection moved by `d`, the others
      kept: what the position updates are meant to do. */
  function ShiftCodingsAfter(t: seq<CodedText>, fid: int, selStart: int, selEnd: int, d: int): (r: seq<CodedText>)
    ensures |r| == |t|
    ensures forall i :: 0 <= i < |t| ==>
      r[i] == if t[i].fid == fid && After(CodeSpanOf(t[i]), selStart, selEnd) then ShiftedCoding(t[i], d) else t[i]
  {
    MapWhere(t, (c: CodedText) => c.fid == fid && After(CodeSpanOf(c), selStart, selEnd),
             (c: CodedText) => ShiftedCoding(c, d))
  }

  /** When no moved span lands on a span still to be moved, the updates by old
      position move each coding with a fetched span exactly once. */
  lemma {:induction false} MoveAllCodingsPointwise(t: seq<CodedText>, fid: int, spans: seq<Span>, d: int)
    requires NoChainedMoves(spans, d) && !MoveAllCodings(t, fid, spans, d).failed
    ensures |MoveAllCodings(t, fid, spans, d).table| == |t|
    ensures forall i :: 0 <= i < |t| ==>
      MoveAllCodings(t, fid, spans, d).table[i]
        == if t[i].fid == fid && CodeSpanOf(t[i]) in spans then ShiftedCoding(t[i], d) else t[i]
  {
    if |spans| > 0 {
      var k := |spans| - 1;
      var front := spans[..k];
      var s := spans[k];
      assert spans == front + [s];
      var before := MoveAllCodings(t, fid, front, d);
      assert !before.failed;
      assert NoChainedMoves(front, d) by {
        assert forall x :: x in front ==> x in spans;
      }
      MoveAllCodingsPointwise(t, fid, front, d);
      var u := before.table;
      var r := MoveCodings(u, fid, s, d);
      assert r.Ok? && MoveAllCodings(t, fid, spans, d).table == r.value;
      assert r.value == MapWhere(u, (c: CodedText) => c.fid == fid && CodeSpanOf(c) == s,
                                 (c: CodedText) => ShiftedCoding(c, d));
      forall i | 0 <= i < |t|
        ensures r.value[i] == if t[i].fid == fid && CodeSpanOf(t[i]) in spans then ShiftedCoding(t[i], d) else t[i]
      {
        MoveStepPointwise(t[i], u[i], r.value[i], fid, front, s, d);
      }
    }
  }

  /** One coding through one more update by old position. */
  lemma MoveStepPointwise(c: CodedText, u: CodedText, v: CodedText, fid: int, front: seq<Span>, s: Span, d: int)
    requires NoChainedMoves(front + [s], d)
    requires u == if c.fid == fid && CodeSpanOf(c) in front then ShiftedCoding(c, d) else c
    requires v == if u.fid == fid && CodeSpanOf(u) == s then ShiftedCoding(u, d) else u
    ensures v == if c.fid == fid && CodeSpanOf(c) in front + [s] then ShiftedCoding(c, d) else c
  {
    var spans := front + [s];
    if c.fid == fid && CodeSpanOf(c) in front {
      assert CodeSpanOf(c) in spans && s in spans;
    }
  }

  /** Under the same condition, the updates of the edit move exactly the
      codings past the selection. */
  lemma MoveCodingsAfter(t: seq<CodedText>, fid: int, selStart: int, selEnd: int, d: int)
    requires NoChainedMoves(CodeSpansAfter(t, fid, selStart, selEnd), d)
    requires !MoveAllCodings(t, fid, CodeSpansAfter(t, fid, selStart, selEnd), d).failed
    ensures MoveAllCodings(t, fid, CodeSpansAfter(t, fid, selStart, selEnd), d).table
      == ShiftCodingsAfter(t, fid, selStart, selEnd, d)
  {
    var spans := CodeSpansAfter(t, fid, selStart, selEnd);
    MoveAllCodingsPointwise(t, fid, spans, d);
    forall i | 0 <= i < |t| && t[i].fid == fid
      ensures CodeSpanOf(t[i]) in spans <==> After(CodeSpanOf(t[i]), selStart, selEnd)
    {
      assert CodeSpanOf(t[i]) in CodeSpans(t, fid);
    }
  }

  // Tables of two codings, for the examples below

  lemma CodeSpansPair(a: CodedText, b: CodedText, fid: int)
    ensures CodeSpans([a, b], fid)
      == (if a.fid == fid then [CodeSpanOf(a)] else []) + (if b.fid == fid then [CodeSpanOf(b)] else [])
  {
    assert [a, b][..1] == [a];
    assert [a][..0] == [];
  }

  lemma SpansWherePair(x: Span, y: Span, test: SpanTest, selStart: int, selEnd: int)
    ensures SpansWhere([x, y], test, selStart, selEnd)
      == (if Passes(test, x, selStart, selEnd) then [x] else []) + (if Passes(test, y, selStart, selEnd) then [y] else [])
  {
    assert [x, y][..1] == [x];
    assert [x][..0] == [];
  }

  /** One position update on a table of two codings. */
  lemma MoveCodingsPair(a: CodedText, b: CodedText, fid: int, s: Span, d: int)
    ensures var a' := if a.fid == fid && CodeSpanOf(a) == s then ShiftedCoding(a, d) else a;
      var b' := if b.fid == fid && CodeSpanOf(b) == s then ShiftedCoding(b, d) else b;
      MoveCodings([a, b], fid, s, d) == if KeyOf(a') != KeyOf(b') then Ok([a', b']) else UniqueViolation
  {
    var a' := if a.fid == fid && CodeSpanOf(a) == s then ShiftedCoding(a, d) else a;
    var b' := if b.fid == fid && CodeSpanOf(b) == s then ShiftedCoding(b, d) else b;
    var u := MapWhere([a, b], (c: CodedText) => c.fid == fid && CodeSpanOf(c) == s, (c: CodedText) => ShiftedCoding(c, d));
    assert u == [a', b'];
    if KeyOf(a') != KeyOf(b') {
      forall i, j | 0 <= i < j < |u| ensures KeyOf(u[i]) != KeyOf(u[j]) {
        assert i == 0 && j == 1;
      }
    } else {
      assert KeyOf(u[0]) == KeyOf(u[1]);
    }
  }

  lemma MoveAllCodingsOne(t: seq<CodedText>, fid: int, s: Span, d: int)
    ensures MoveAllCodings(t, fid, [s], d)
      == var r := MoveCodings(t, fid, s, d); if r.Ok? then Applied(r.value, false) else Applied(t, true)
  {
    assert [s][..0] == [];
  }

  lemma MoveAllCodingsTwo(t: seq<CodedText>, fid: int, s1: Span, s2: Span, d: int)
    ensures var b := MoveAllCodings(t, fid, [s1], d);
      MoveAllCodings(t, fid, [s1, s2], d)
        == if b.failed then b
           else var r := MoveCodings(b.table, fid, s2, d); if r.Ok? then Applied(r.value, false) else Applied(b.table, true)
  {
    assert [s1, s2][..1] == [s1];
  }

  /** Two codings of one file, the second where the first lands when the
      text before both grows by 5 characters. */
  function ChainFirst(): CodedText {
    CodedText(1, 1, "a", 10, 20, "coder", "", "")
  }

  function ChainSecond(): CodedText {
    CodedText(2, 1, "b", 15, 25, "coder", "", "")
  }

  lemma ChainSpansAfter()
    ensures CodeSpansAfter([ChainFirst(), ChainSecond()], 1, 0, 5) == [(10, 20), (15, 25)]
  {
    CodeSpansPair(ChainFirst(), ChainSecond(), 1);
    SpansWherePair((10, 20), (15, 25), AfterTest, 0, 5);
  }

  /** The first update moves the first coding onto the second's span. */
  lemma ChainFirstUpdate()
    ensures MoveAllCodings([ChainFirst(), ChainSecond()], 1, [(10, 20)], 5)
      == Applied([ChainFirst().(pos0 := 15, pos1 := 25), ChainSecond()], false)
  {
    MoveAllCodingsOne([ChainFirst(), ChainSecond()], 1, (10, 20), 5);
    MoveCodingsPair(ChainFirst(), ChainSecond(), 1, (10, 20), 5);
  }

  /** Two codings where the first, moved, lands on the second: the updates by
      old position move the first coding twice, where each should move once. */
  lemma DoubleShiftExample()
    ensures MoveAllCodings([ChainFirst(), ChainSecond()], 1, CodeSpansAfter([ChainFirst(), ChainSecond()], 1, 0, 5), 5)
      == Applied([ChainFirst().(pos0 := 20, pos1 := 30), ChainSecond().(pos0 := 20, pos1 := 30)], false)
    ensures ShiftCodingsAfter([ChainFirst(), ChainSecond()], 1, 0, 5, 5)
      == [ChainFirst().(pos0 := 15, pos1 := 25), ChainSecond().(pos0 := 20, pos1 := 30)]
  {
    var t := [ChainFirst(), ChainSecond()];
    ChainSpansAfter();
    ChainFirstUpdate();
    MoveAllCodingsTwo(t, 1, (10, 20), (15, 25), 5);
    MoveCodingsPair(ChainFirst().(pos0 := 15, pos1 := 25), ChainSecond(), 1, (15, 25), 5);
    var shifted := ShiftCodingsAfter(t, 1, 0, 5, 5);
    assert shifted == [shifted[0], shifted[1]];
  }

  // ---------------------------------------------------------------------------
  // The edit as evidently intended

  /** The copy a coding keeps of its text is the text at its span. */
  predicate CodingMatchesText(c: CodedText, text: string) {
    0 <= c.pos0 <= c.pos1 <= |text| && c.seltext == text[c.pos0..c.pos1]
  }

  /** A coding after the edit as intended: one holding the selection ends `d`
      further and copies its new text, one past the selection moves by `d`. */
  function IntendedCoding(c: CodedText, fid: int, selStart: int, selEnd: int, d: int, text: string): CodedText {
    if c.fid != fid then c
    else if Encloses(CodeSpanOf(c), selStart, selEnd) then
      c.(seltext := Slice(text, c.pos0, c.pos1 + d), pos1 := c.pos1 + d)
    else if After(CodeSpanOf(c), selStart, selEnd) then ShiftedCoding(c, d)
    else c
  }

  /** An annotation or case link after the edit as intended. */
  function IntendedRow(r: SpanRow, fid: int, selStart: int, selEnd: int, d: int): SpanRow {
    if r.fid != fid then r
    else if Encloses(SpanOf(r), selStart, selEnd) then r.(pos1 := r.pos1 + d)
    else if After(SpanOf(r), selStart, selEnd) then Shifted(r, d)
    else r
  }

  /** The restricted edit as evidently intended: every span holding the
      selection is stretched and every span past it is moved, each exactly
      once and whatever the change of length, judged on the spans as they were
      before the edit. */
  function IntendedEdit(text: string, fid: int, codes: seq<CodedText>, annotations: seq<SpanRow>,
                        cases: seq<SpanRow>, selStart: nat, selEnd: nat, newText: Option<string>)
    : (r: EditResult)
    requires selStart <= selEnd <= |text|
    ensures r.outcome == TooLong <==> selEnd - selStart > MaxEdit
    ensures r.outcome in {TooLong, Cancelled} ==> r == EditResult(r.outcome, text, codes, annotations, cases)
    ensures r.outcome == Edited ==> newText.Some? && r.text == Splice(text, selStart, selEnd, newText.value)
    ensures |r.codes| == |codes| && |r.annotations| == |annotations| && |r.cases| == |cases|
  {
    if selEnd - selStart > MaxEdit then EditResult(TooLong, text, codes, annotations, cases)
    else if newText.None? then EditResult(Cancelled, text, codes, annotations, cases)
    else
      var fulltext := Splice(text, selStart, selEnd, newText.value);
      var d := |newText.value| - (selEnd - selStart);
      EditResult(Edited, fulltext,
                 seq(|codes|, i requires 0 <= i < |codes| => IntendedCoding(codes[i], fid, selStart, selEnd, d, fulltext)),
                 seq(|annotations|, i requires 0 <= i < |annotations| =>
                       IntendedRow(annotations[i], fid, selStart, selEnd, d)),
                 seq(|cases|, i requires 0 <= i < |cases| => IntendedRow(cases[i], fid, selStart, selEnd, d)))
  }

  /** One non-empty coding that matched the old text and does not cross the
      selection matches the new text after the intended edit. */
  lemma IntendedCodingMatches(c: CodedText, fid: int, text: string, selStart: nat, selEnd: nat, newText: string)
    requires selStart <= selEnd <= |text|
    requires c.fid == fid && CodingMatchesText(c, text) && c.pos0 < c.pos1
    requires !Straddles(CodeSpanOf(c), selStart, selEnd)
    ensures var fulltext := Splice(text, selStart, selEnd, newText);
      CodingMatchesText(IntendedCoding(c, fid, selStart, selEnd, |newText| - (selEnd - selStart), fulltext), fulltext)
  {
    var s := CodeSpanOf(c);
    if Encloses(s, selStart, selEnd) {
    } else if After(s, selStart, selEnd) {
      MovedCodingMatches(c, text, selStart, selEnd, newText);
    } else {
      EarlierCodingMatches(c, text, selStart, selEnd, newText);
    }
  }

  /** A coding past the selection, moved by the change of length, copies the
      new text. */
  lemma MovedCodingMatches(c: CodedText, text: string, selStart: nat, selEnd: nat, newText: string)
    requires selStart <= selEnd <= |text| && CodingMatchesText(c, text) && c.pos0 < c.pos1
    requires !Straddles(CodeSpanOf(c), selStart, selEnd) && After(CodeSpanOf(c), selStart, selEnd)
    ensures CodingMatchesText(ShiftedCoding(c, |newText| - (selEnd - selStart)),
                              Splice(text, selStart, selEnd, newText))
  {
    assert selEnd <= c.pos0 by {
      assert !Encloses(CodeSpanOf(c), selStart, selEnd);
    }
    var fulltext := Splice(text, selStart, selEnd, newText);
    var tail := selStart + |newText|;
    assert tail <= |fulltext| && fulltext[tail..] == text[selEnd..] by {
      SpliceParts(text, selStart, selEnd, newText);
    }
    ShiftedCodingMatches(c, text, fulltext, selEnd, tail);
  }

  /** A coding past `k` in `x` copies `y` once moved to where `y` repeats the
      tail of `x` from `k`. */
  lemma ShiftedCodingMatches(c: CodedText, x: string, y: string, k: nat, tail: nat)
    requires k <= c.pos0 && CodingMatchesText(c, x) && tail <= |y| && y[tail..] == x[k..]
    ensures CodingMatchesText(ShiftedCoding(c, tail - k), y)
  {
    SuffixSliceShift(x, y, k, tail, c.pos0, c.pos1);
  }

  /** Where `y` ends with the tail of `x` from `k`, a slice of that tail is
      found in `y` shifted by the difference of the two starts. */
  lemma SuffixSliceShift(x: string, y: string, k: nat, tail: nat, p0: nat, p1: nat)
    requires k <= p0 <= p1 <= |x| && tail <= |y| && y[tail..] == x[k..]
    ensures tail + (p1 - k) <= |y|
    ensures y[tail + (p0 - k)..tail + (p1 - k)] == x[p0..p1]
  {
    SliceOfSuffix(y, tail, p0 - k, p1 - k);
    SliceOfSuffix(x, k, p0 - k, p1 - k);
  }

  /** A slice of a suffix is a slice of the whole. */
  lemma SliceOfSuffix<T>(x: seq<T>, k: nat, a: nat, b: nat)
    requires k + b <= |x| && a <= b
    ensures x[k + a..k + b] == x[k..][a..b]
  {
  }

  /** A coding that ends before the selection copies the new text unchanged. */
  lemma EarlierCodingMatches(c: CodedText, text: string, selStart: nat, selEnd: nat, newText: string)
    requires selStart <= selEnd <= |text| && CodingMatchesText(c, text) && c.pos0 < c.pos1
    requires !Straddles(CodeSpanOf(c), selStart, selEnd)
    requires !Encloses(CodeSpanOf(c), selStart, selEnd) && !After(CodeSpanOf(c), selStart, selEnd)
    ensures CodingMatchesText(c, Splice(text, selStart, selEnd, newText))
  {
    var fulltext := Splice(text, selStart, selEnd, newText);
    SpliceParts(text, selStart, selEnd, newText);
    assert c.pos1 <= selStart;
    assert fulltext[..selStart] == text[..selStart];
    assert fulltext[c.pos0..c.pos1] == fulltext[..selStart][c.pos0..c.pos1];
    assert text[c.pos0..c.pos1] == text[..selStart][c.pos0..c.pos1];
  }

  /** After the intended edit of a selection that crosses no coding, every
      non-empty coding of the file that copied its text still does. */
  lemma IntendedEditKeepsCodedText(text: string, fid: int, codes: seq<CodedText>, annotations: seq<SpanRow>,
                                   cases: seq<SpanRow>, selStart: nat, selEnd: nat, newText: string)
    requires selStart <= selEnd <= |text| && selEnd - selStart <= MaxEdit
    requires !CrossoverCheck(fid, codes, annotations, cases, selStart, selEnd).crossover
    requires forall i :: 0 <= i < |codes| && codes[i].fid == fid ==>
      CodingMatchesText(codes[i], text) && codes[i].pos0 < codes[i].pos1
    ensures var r := IntendedEdit(text, fid, codes, annotations, cases, selStart, selEnd, Some(newText));
      r.outcome == Edited
      && forall i :: 0 <= i < |r.codes| && r.codes[i].fid == fid ==> CodingMatchesText(r.codes[i], r.text)
  {
    var r := IntendedEdit(text, fid, codes, annotations, cases, selStart, selEnd, Some(newText));
    IntendedEditCodes(text, fid, codes, annotations, cases, selStart, selEnd, newText);
    NoCrossingCoding(fid, codes, annotations, cases, selStart, selEnd);
    forall i | 0 <= i < |r.codes| && r.codes[i].fid == fid ensures CodingMatchesText(r.codes[i], r.text) {
      IntendedCodingMatches(codes[i], fid, text, selStart, selEnd, newText);
    }
  }

  /** The intended edit replaces the selection and takes each coding to its
      intended place. */
  lemma IntendedEditCodes(text: string, fid: int, codes: seq<CodedText>, annotations: seq<SpanRow>,
                          cases: seq<SpanRow>, selStart: nat, selEnd: nat, newText: string)
    requires selStart <= selEnd <= |text| && selEnd - selStart <= MaxEdit
    ensures var r := IntendedEdit(text, fid, codes, annotations, cases, selStart, selEnd, Some(newText));
      var fulltext := Splice(text, selStart, selEnd, newText);
      r.outcome == Edited && r.text == fulltext && |r.codes| == |codes|
      && forall i :: 0 <= i < |codes| ==>
           r.codes[i] == IntendedCoding(codes[i], fid, selStart, selEnd, |newText| - (selEnd - selStart), fulltext)
           && r.codes[i].fid == codes[i].fid
  {
  }

  /** A selection that passes the crossover check has no end of a coding of
      the file strictly inside it. */
  lemma NoCrossingCoding(fid: int, codes: seq<CodedText>, annotations: seq<SpanRow>, cases: seq<SpanRow>,
                         selStart: int, selEnd: int)
    requires !CrossoverCheck(fid, codes, annotations, cases, selStart, selEnd).crossover
    ensures forall i :: 0 <= i < |codes| && codes[i].fid == fid ==> !Straddles(CodeSpanOf(codes[i]), selStart, selEnd)
  {
    CrossoverCheckFacts(fid, codes, annotations, cases, selStart, selEnd);
  }

  /** A coding holding the selection and one just past it, in a text whose
      first four characters are replaced by two. */
  function HeldCoding(): CodedText {
    CodedText(1, 1, "abcd", 0, 4, "coder", "", "")
  }

  function NextCoding(): CodedText {
    CodedText(2, 1, "fgh", 5, 8, "coder", "", "")
  }

  function MovedNext(): CodedText {
    NextCoding().(pos0 := 3, pos1 := 6)
  }

  lemma RequerySpans()
    ensures CodeSpans([HeldCoding(), NextCoding()], 1) == [(0, 4), (5, 8)]
  {
    CodeSpansPair(HeldCoding(), NextCoding(), 1);
  }

  lemma RequeryFirstCheck()
    ensures !CrossoverCheck(1, [HeldCoding(), NextCoding()], [], [], 0, 4).crossover
  {
    RequerySpans();
    SpansWherePair((0, 4), (5, 8), StraddleTest, 0, 4);
    assert RowSpans([], 1) == [];
  }

  lemma RequeryMove()
    ensures MoveAllCodings([HeldCoding(), NextCoding()], 1, CodeSpansAfter([HeldCoding(), NextCoding()], 1, 0, 4), -2)
      == Applied([HeldCoding(), MovedNext()], false)
  {
    RequerySpans();
    SpansWherePair((0, 4), (5, 8), AfterTest, 0, 4);
    MoveAllCodingsOne([HeldCoding(), NextCoding()], 1, (5, 8), -2);
    MoveCodingsPair(HeldCoding(), NextCoding(), 1, (5, 8), -2);
  }

  lemma RequerySecondCheck()
    ensures CrossoverCheck(1, [HeldCoding(), MovedNext()], [], [], 0, 4) == Crossover(true, [], [], [])
  {
    CodeSpansPair(HeldCoding(), MovedNext(), 1);
    SpansWherePair((0, 4), (3, 6), StraddleTest, 0, 4);
  }

  lemma RequeryText()
    ensures Splice("abcdefghijkl", 0, 4, "xy") == "xyefghijkl"
    ensures !CodingMatchesText(HeldCoding(), "xyefghijkl")
  {
    RequerySplice();
    assert "xyefghijkl"[0..4][0] == 'x';
  }

  lemma RequerySplice()
    ensures Splice("abcdefghijkl", 0, 4, "xy") == "xyefghijkl"
  {
    SpliceParts("abcdefghijkl", 0, 4, "xy");
    assert "abcdefghijkl"[4..] == "efghijkl";
  }

  /** Shortening the selection moves the next coding into it; the query made
      after the move then reports a crossover, and the coding holding the
      selection is neither stretched nor given its new text. */
  lemma RequeryExample()
    ensures !CrossoverCheck(1, [HeldCoding(), NextCoding()], [], [], 0, 4).crossover
    ensures RestrictedEdit("abcdefghijkl", 1, [HeldCoding(), NextCoding()], [], [], 0, 4, Some("xy"))
      == EditResult(Edited, "xyefghijkl", [HeldCoding(), MovedNext()], [], [])
    ensures !CodingMatchesText(HeldCoding(), "xyefghijkl")
  {
    var t := [HeldCoding(), NextCoding()];
    RequeryText();
    RequeryFirstCheck();
    RestrictedEditRealigns("abcdefghijkl", 1, t, [], [], 0, 4, "xy");
    RequeryRealign();
  }

  lemma RequeryRealign()
    ensures Realign("xyefghijkl", 1, [HeldCoding(), NextCoding()], [], [], 0, 4, -2)
      == EditResult(Edited, "xyefghijkl", [HeldCoding(), MovedNext()], [], [])
  {
    var t := [HeldCoding(), NextCoding()];
    var moved := [HeldCoding(), MovedNext()];
    RequeryMove();
    RequerySecondCheck();
    assert MoveAllById([], RowsAfter([], 1, 0, 4), -2) == [];
    assert StretchAllCodings(moved, 1, [], -2, "xyefghijkl") == Applied(moved, false);
    assert StretchAllRows([], 1, [], -2) == [];
  }

  /** The intended edit of the same selection stretches the coding holding it
      to its new text and moves the next one once. */
  lemma RequeryIntended()
    ensures IntendedEdit("abcdefghijkl", 1, [HeldCoding(), NextCoding()], [], [], 0, 4, Some("xy")).codes
      == [HeldCoding().(seltext := "xy", pos1 := 2), MovedNext()]
  {
    RequeryText();
    assert Slice("xyefghijkl", 0, 2) == "xy";
  }

  /** Replacing a coded selection by text of the same length changes no span,
      and the coding keeps a copy of the text that is no longer there. */
  lemma SameLengthExample()
    ensures RestrictedEdit("teh cat", 1, [CodedText(1, 1, "teh", 0, 3, "coder", "", "")], [], [], 0, 3, Some("the"))
      == EditResult(Edited, "the cat", [CodedText(1, 1, "teh", 0, 3, "coder", "", "")], [], [])
    ensures !CodingMatchesText(CodedText(1, 1, "teh", 0, 3, "coder", "", ""), "the cat")
    ensures IntendedEdit("teh cat", 1, [CodedText(1, 1, "teh", 0, 3, "coder", "", "")], [], [], 0, 3, Some("the")).codes
      == [CodedText(1, 1, "the", 0, 3, "coder", "", "")]
  {
    SpliceParts("teh cat", 0, 3, "the");
    assert "teh cat"[3..] == " cat";
    assert "the cat"[0..3] == "the";
    assert Slice("the cat", 0, 3) == "the";
  }

  // ---------------------------------------------------------------------------
  // ODT import: from content.xml to plain text

  /** The marker after which the document body starts, and its length (22
      characters). */
  const BodyStart := "</text:sequence-decls>"
  const BodyStartLength := 22

  /** The marker where the document body ends. */
  const BodyEnd := "</office:text>"

  /** The replacements made on the body before tags are dropped, in the order
      they are made: they turn headings, paragraph and list ends and table cells
      into line breaks and mark where tables and images stood. */
  function OdtReplacements(): seq<(string, string)> {
    [("<text:h", "\n<text:h"), ("</text:h>", "\n\n"), ("</text:list-item>", "\n"), ("</text:span>", ""),
     ("</text:p>", "\n"), ("</text:a>", " "), ("</text:list>", ""), ("<text:list-item>", ""),
     ("<table:table table:name=", "\n=== TABLE ===\n<table:table table:name="),
     ("</table:table>", "=== END TABLE ===\n"), ("</table:table-cell>", "\n"), ("</table:table-row>", ""),
     ("<draw:image", "\n=== IMG ===<draw:image"), ("</draw:frame>", "\n")]
  }

  /** Every replaced string is a piece of markup: it starts with `<`. */
  predicate MarkupTargets(reps: seq<(string, string)>) {
    forall i :: 0 <= i < |reps| ==> |reps[i].0| > 0 && reps[i].0[0] == '<'
  }

  /** The replacements of `reps` made one after the other. */
  function ReplaceChain(data: string, reps: seq<(string, string)>): string
    requires MarkupTargets(reps)
  {
    if |reps| == 0 then data
    else ReplaceAll(ReplaceChain(data, reps[..|reps| - 1]), reps[|reps| - 1].0, reps[|reps| - 1].1)
  }

  /** A tag to drop opens at index `i`. */
  predicate TagStartAt(data: string, i: int) {
    OccursAt(data, "<text:", i) || OccursAt(data, "<table:", i) || OccursAt(data, "<draw:", i)
  }

  /** The comparisons of the scan, `data[i:i + 6] == "<text:"` and the like,
      hold exactly where a tag opens. */
  lemma TagStartSlices(data: string, i: nat)
    requires i < |data|
    ensures TagStartAt(data, i) <==>
      Slice(data, i, i + 6) == "<text:" || Slice(data, i, i + 7) == "<table:" || Slice(data, i, i + 6) == "<draw:"
  {
    OccursAtSlice(data, "<text:", i);
    OccursAtSlice(data, "<table:", i);
    OccursAtSlice(data, "<draw:", i);
  }

  /** The scan drops character `i`: a tag opens there, or the scan was inside
      a tag before it and the character before it did not close that tag. */
  predicate Dropped(data: string, i: nat)
    requires i < |data|
  {
    TagStartAt(data, i) || (i > 0 && data[i - 1] != '>' && Dropped(data, i - 1))
  }

  /** The characters the scan keeps among the first `n`. */
  function Kept(data: string, n: nat): (r: string)
    requires n <= |data|
    ensures |r| <= n
  {
    if n == 0 then []
    else Kept(data, n - 1) + (if Dropped(data, n - 1) then [] else [data[n - 1]])
  }

  /** Character `i` lies in a tag: one opens at or before it and no `>` stands
      between that opening and the character. */
  predicate InTag(data: string, i: nat) {
    exists j :: 0 <= j <= i && TagStartAt(data, j) && NoCloseBetween(data, j, i)
  }

  predicate NoCloseBetween(data: string, j: int, i: int) {
    forall k :: j <= k < i ==> 0 <= k < |data| && data[k] != '>'
  }

  /** The scan drops exactly the characters that lie in a tag, closing `>`
      included. */
  lemma {:induction false} DroppedIffInTag(data: string, i: nat)
    requires i < |data|
    ensures Dropped(data, i) <==> InTag(data, i)
  {
    if TagStartAt(data, i) {
      assert NoCloseBetween(data, i, i);
    } else if i > 0 {
      DroppedIffInTag(data, i - 1);
      if InTag(data, i) {
        InTagBefore(data, i);
      }
      if Dropped(data, i) {
        InTagExtends(data, i);
      }
    }
  }

  /** Inside a tag that did not open here, the character before is inside it
      too and is not its closing `>`. */
  lemma InTagBefore(data: string, i: nat)
    requires 0 < i < |data| && !TagStartAt(data, i) && InTag(data, i)
    ensures data[i - 1] != '>' && InTag(data, i - 1)
  {
    var j :| 0 <= j <= i && TagStartAt(data, j) && NoCloseBetween(data, j, i);
    assert j < i;
    assert NoCloseBetween(data, j, i - 1);
  }

  /** A tag not closed by the character before goes on here. */
  lemma InTagExtends(data: string, i: nat)
    requires 0 < i < |data| && data[i - 1] != '>' && InTag(data, i - 1)
    ensures InTag(data, i)
  {
    var j :| 0 <= j <= i - 1 && TagStartAt(data, j) && NoCloseBetween(data, j, i - 1);
    assert NoCloseBetween(data, j, i);
  }

  /** Without a tag opening, the scan keeps every character. */
  lemma {:induction false} KeptWithoutTags(data: string, n: nat)
    requires n <= |data|
    requires forall i :: 0 <= i < |data| ==> !TagStartAt(data, i)
    ensures Kept(data, n) == data[..n]
  {
    if n > 0 {
      KeptWithoutTags(data, n - 1);
      NotDroppedWithoutTags(data, n - 1);
      PrefixAndLast(data, n);
    }
  }

  lemma {:induction false} NotDroppedWithoutTags(data: string, i: nat)
    requires i < |data|
    requires forall k :: 0 <= k < |data| ==> !TagStartAt(data, k)
    ensures !Dropped(data, i)
  {
    if i > 0 {
      NotDroppedWithoutTags(data, i - 1);
    }
  }

  /** Markup that does not occur is not replaced. */
  lemma ReplaceAbsent(s: string, target: string, replacement: string)
    requires |target| > 0 && target[0] == '<'
    requires forall k :: 0 <= k < |s| ==> s[k] != '<'
    ensures ReplaceAll(s, target, replacement) == s
  {
    forall k ensures !OccursAt(s, target, k) {
      if 0 <= k && k + |target| <= |s| {
        assert s[k..k + |target|][0] == s[k];
      }
    }
  }

  /** Text without `<` passes through the replacements unchanged. */
  lemma {:induction false} ReplaceChainWithoutMarkup(data: string, reps: seq<(string, string)>)
    requires MarkupTargets(reps)
    requires forall k :: 0 <= k < |data| ==> data[k] != '<'
    ensures ReplaceChain(data, reps) == data
  {
    if |reps| > 0 {
      var n := |reps| - 1;
      assert MarkupTargets(reps[..n]) by {
        assert forall i :: 0 <= i < n ==> reps[..n][i] == reps[i];
      }
      ReplaceChainWithoutMarkup(data, reps[..n]);
      ReplaceAbsent(data, reps[n].0, reps[n].1);
    }
  }

  /** The text imported from an ODT file's `content.xml`: the body between the
      two markers, with the replacements made and the tags dropped; nothing
      when a marker is missing. */
  function OdtText(content: string): (r: string)
    ensures Find(content, BodyStart) == -1 || Find(content, BodyEnd) == -1 ==> r == ""
  {
    var dataStart := Find(content, BodyStart);
    var dataEnd := Find(content, BodyEnd);
    if dataStart == -1 || dataEnd == -1 then ""
    else
      var data := ReplaceChain(Slice(content, dataStart + BodyStartLength, dataEnd), OdtReplacements());
      Kept(data, |data|)
  }

  /** A body without markup is imported as it stands. */
  lemma OdtPlainBody(content: string)
    requires Find(content, BodyStart) != -1 && Find(content, BodyEnd) != -1
    requires var body := Slice(content, Find(content, BodyStart) + BodyStartLength, Find(content, BodyEnd));
      forall k :: 0 <= k < |body| ==> body[k] != '<'
    ensures OdtText(content) == Slice(content, Find(content, BodyStart) + BodyStartLength, Find(content, BodyEnd))
  {
    var body := Slice(content, Find(content, BodyStart) + BodyStartLength, Find(content, BodyEnd));
    var reps := OdtReplacements();
    assert MarkupTargets(reps) by {
      forall i | 0 <= i < |reps| ensures |reps[i].0| > 0 && reps[i].0[0] == '<' {
      }
    }
    ReplaceChainWithoutMarkup(body, reps);
    forall i | 0 <= i < |body| ensures !TagStartAt(body, i) {
      if i + 6 <= |body| { assert body[i..i + 6][0] == body[i]; }
      if i + 7 <= |body| { assert body[i..i + 7][0] == body[i]; }
    }
    KeptWithoutTags(body, |body|);
    assert body[..|body|] == body;
  }

  // ---------------------------------------------------------------------------
  // Attribute placeholders

  /** The ids of the sources, in table order. */
  function SourceIds(sources: seq<Source>): (r: seq<int>)
    ensures |r| == |sources| && forall i :: 0 <= i < |sources| ==> r[i] == sources[i].id
  {
    seq(|sources|, i requires 0 <= i < |sources| => sources[i].id)
  }

  /** The names of the attribute types that apply to files, in table order. */
  function FileAttributeNames(types: seq<AttributeType>): (r: seq<string>)
    ensures forall n :: n in r <==> exists i :: 0 <= i < |types| && types[i].caseOrFile == "file" && types[i].name == n
  {
    if |types| == 0 then []
    else
      var last := types[|types| - 1];
      var front := FileAttributeNames(types[..|types| - 1]);
      assert forall i :: 0 <= i < |types| - 1 ==> types[..|types| - 1][i] == types[i];
      front + (if last.caseOrFile == "file" then [last.name] else [])
  }

  /** An attribute row holds a value of `name` for `id`; the lookup does not ask
      whether the row belongs to a case or a file. */
  predicate HasValue(attrs: seq<Attribute>, id: int, name: string) {
    exists i :: 0 <= i < |attrs| && attrs[i].id == id && attrs[i].name == name
  }

  /** The empty value inserted for a file that has no value of an attribute. */
  function Placeholder(name: string, id: int, date: string, owner: string): Attribute {
    Attribute(name, "file", "", id, date, owner)
  }

  /** The inserts for one source: each name, in order, that has no value yet. */
  function AddForSource(attrs: seq<Attribute>, id: int, names: seq<string>, date: string, owner: string)
    : seq<Attribute>
  {
    if |names| == 0 then attrs
    else
      var before := AddForSource(attrs, id, names[..|names| - 1], date, owner);
      var name := names[|names| - 1];
      if HasValue(before, id, name) then before else before + [Placeholder(name, id, date, owner)]
  }

  /** The inserts for every source, in order. */
  function AddPlaceholders(attrs: seq<Attribute>, ids: seq<int>, names: seq<string>, date: string, owner: string)
    : seq<Attribute>
  {
    if |ids| == 0 then attrs
    else AddForSource(AddPlaceholders(attrs, ids[..|ids| - 1], names, date, owner), ids[|ids| - 1], names, date, owner)
  }

  /** What the inserts add: rows after the old ones, each a placeholder for a
      pair of an id and a name that had no value, no pair twice. */
  predicate AddsMissing(attrs: seq<Attribute>, r: seq<Attribute>, ids: seq<int>, names: seq<string>,
                        date: string, owner: string)
  {
    |attrs| <= |r| && r[..|attrs|] == attrs
    && (forall k :: |attrs| <= k < |r| ==>
          r[k] == Placeholder(r[k].name, r[k].id, date, owner) && r[k].id in ids && r[k].name in names
          && !HasValue(attrs, r[k].id, r[k].name))
    && (forall k, l :: |attrs| <= k < l < |r| ==> (r[k].id, r[k].name) != (r[l].id, r[l].name))
  }

  lemma {:induction false} AddForSourceFacts(attrs: seq<Attribute>, id: int, names: seq<string>, date: string,
                                             owner: string)
    ensures var r := AddForSource(attrs, id, names, date, owner);
      AddsMissing(attrs, r, [id], names, date, owner)
      && forall name :: name in names ==> HasValue(r, id, name)
  {
    var r := AddForSource(attrs, id, names, date, owner);
    if |names| > 0 {
      var n := |names| - 1;
      var before := AddForSource(attrs, id, names[..n], date, owner);
      AddForSourceFacts(attrs, id, names[..n], date, owner);
      assert names == names[..n] + [names[n]];
      forall name | name in names ensures HasValue(r, id, name) {
        if name in names[..n] {
          var i :| 0 <= i < |before| && before[i].id == id && before[i].name == name;
          assert r[i] == before[i];
        } else {
          assert name == names[n];
          if !HasValue(before, id, name) {
            assert r[|before|].id == id && r[|before|].name == name;
          }
        }
      }
      if !HasValue(before, id, names[n]) {
        var p := Placeholder(names[n], id, date, owner);
        assert r == before + [p];
        assert r[..|attrs|] == before[..|attrs|];
        forall k | |attrs| <= k < |before| ensures (before[k].id, before[k].name) != (p.id, p.name) {
          assert before[k].id == id;
        }
      }
    }
  }

  /** After the inserts every source has a value of every file attribute, and
      the inserts added only what was missing. */
  lemma {:induction false} AddPlaceholdersFacts(attrs: seq<Attribute>, ids: seq<int>, names: seq<string>,
                                                date: string, owner: string)
    ensures var r := AddPlaceholders(attrs, ids, names, date, owner);
      AddsMissing(attrs, r, ids, names, date, owner)
      && forall id, name :: id in ids && name in names ==> HasValue(r, id, name)
  {
    var r := AddPlaceholders(attrs, ids, names, date, owner);
    if |ids| > 0 {
      var n := |ids| - 1;
      var before := AddPlaceholders(attrs, ids[..n], names, date, owner);
      AddPlaceholdersFacts(attrs, ids[..n], names, date, owner);
      AddForSourceFacts(before, ids[n], names, date, owner);
      assert ids == ids[..n] + [ids[n]];
      AddsMissingCompose(attrs, before, r, ids, ids[..n], [ids[n]], names, date, owner);
      forall id, name | id in ids && name in names ensures HasValue(r, id, name) {
        if id in ids[..n] {
          ValueKept(before, r, id, name);
        }
      }
    }
  }

  /** A value in a table stays in any table that extends it. */
  lemma ValueKept(a: seq<Attribute>, b: seq<Attribute>, id: int, name: string)
    requires |a| <= |b| && b[..|a|] == a && HasValue(a, id, name)
    ensures HasValue(b, id, name)
  {
    var i :| 0 <= i < |a| && a[i].id == id && a[i].name == name;
    assert b[i] == a[i];
  }

  /** Two rounds of inserts, each adding only what was missing, add only what
      was missing at the start. */
  lemma AddsMissingCompose(attrs: seq<Attribute>, mid: seq<Attribute>, r: seq<Attribute>, ids: seq<int>,
                           ids1: seq<int>, ids2: seq<int>, names: seq<string>, date: string, owner: string)
    requires AddsMissing(attrs, mid, ids1, names, date, owner) && AddsMissing(mid, r, ids2, names, date, owner)
    requires forall id :: id in ids1 || id in ids2 ==> id in ids
    ensures AddsMissing(attrs, r, ids, names, date, owner)
  {
    assert r[..|attrs|] == mid[..|attrs|];
    forall k | |mid| <= k < |r| ensures !HasValue(attrs, r[k].id, r[k].name) {
      if HasValue(attrs, r[k].id, r[k].name) {
        ValueKept(attrs, mid, r[k].id, r[k].name);
      }
    }
    forall k | |attrs| <= k < |mid| ensures r[k] == mid[k] {
      assert r[..|mid|][k] == mid[k];
    }
    forall k, l | |attrs| <= k < l < |r| ensures (r[k].id, r[k].name) != (r[l].id, r[l].name) {
      if k < |mid| <= l {
        assert HasValue(mid, r[k].id, r[k].name);
      }
    }
  }

  /** `DELETE FROM attribute WHERE id = ?`. */
  function WithoutId(attrs: seq<Attribute>, id: int): (r: seq<Attribute>)
    ensures forall x :: x in r <==> x in attrs && x.id != id
  {
    if |attrs| == 0 then []
    else
      var last := attrs[|attrs| - 1];
      assert attrs == attrs[..|attrs| - 1] + [last];
      WithoutId(attrs[..|attrs| - 1], id) + (if last.id != id then [last] else [])
  }

  /** The deletes for each id in turn. */
  function DeleteIds(attrs: seq<Attribute>, ids: seq<int>): seq<Attribute> {
    if |ids| == 0 then attrs else WithoutId(DeleteIds(attrs, ids[..|ids| - 1]), ids[|ids| - 1])
  }

  lemma {:induction false} DeleteIdsMembers(attrs: seq<Attribute>, ids: seq<int>)
    ensures forall x :: x in DeleteIds(attrs, ids) <==> x in attrs && x.id !in ids
  {
    if |ids| > 0 {
      var n := |ids| - 1;
      DeleteIdsMembers(attrs, ids[..n]);
      assert ids == ids[..n] + [ids[n]];
    }
  }

  /** `SELECT DISTINCT attribute.id FROM attribute WHERE attribute.id NOT IN
      (SELECT source.id FROM source)`: each id once, in the order first met. */
  function StaleIds(attrs: seq<Attribute>, sourceIds: seq<int>): (r: seq<int>)
    ensures forall id :: id in r <==> id !in sourceIds && exists i :: 0 <= i < |attrs| && attrs[i].id == id
    ensures forall k, l :: 0 <= k < l < |r| ==> r[k] != r[l]
  {
    if |attrs| == 0 then []
    else
      var n := |attrs| - 1;
      var front := StaleIds(attrs[..n], sourceIds);
      assert forall i :: 0 <= i < n ==> attrs[..n][i] == attrs[i];
      front + (if attrs[n].id !in sourceIds && attrs[n].id !in front then [attrs[n].id] else [])
  }

  /** The reconciliation as written: placeholders are added for every source
      and file attribute without a value, then every attribute row whose id is
      not a source id is deleted. */
  function CheckPlaceholders(attrs: seq<Attribute>, sources: seq<Source>, types: seq<AttributeType>,
                             date: string, owner: string): seq<Attribute>
  {
    var ids := SourceIds(sources);
    var added := AddPlaceholders(attrs, ids, FileAttributeNames(types), date, owner);
    DeleteIds(added, StaleIds(added, ids))
  }

  /** Afterwards only rows whose id is a source id remain, case attributes
      included. */
  lemma CheckPlaceholdersMembers(attrs: seq<Attribute>, sources: seq<Source>, types: seq<AttributeType>,
                                 date: string, owner: string)
    ensures var added := AddPlaceholders(attrs, SourceIds(sources), FileAttributeNames(types), date, owner);
      forall x :: x in CheckPlaceholders(attrs, sources, types, date, owner) <==> x in added && x.id in SourceIds(sources)
  {
    var ids := SourceIds(sources);
    var added := AddPlaceholders(attrs, ids, FileAttributeNames(types), date, owner);
    var stale := StaleIds(added, ids);
    DeleteIdsMembers(added, stale);
    forall x | x in added ensures x.id in stale <==> x.id !in ids {
      var i :| 0 <= i < |added| && added[i] == x;
    }
  }

  /** A value of a source survives the deletion. */
  lemma ValueSurvives(added: seq<Attribute>, r: seq<Attribute>, ids: seq<int>, id: int, name: string)
    requires HasValue(added, id, name) && id in ids
    requires forall x :: x in r <==> x in added && x.id in ids
    ensures HasValue(r, id, name)
  {
    var k :| 0 <= k < |added| && added[k].id == id && added[k].name == name;
    assert added[k] in r;
    var m :| 0 <= m < |r| && r[m] == added[k];
  }

  /** Afterwards every source has a value of every file attribute. */
  lemma CheckPlaceholdersComplete(attrs: seq<Attribute>, sources: seq<Source>, types: seq<AttributeType>,
                                  date: string, owner: string)
    ensures forall i, name :: 0 <= i < |sources| && name in FileAttributeNames(types) ==>
      HasValue(CheckPlaceholders(attrs, sources, types, date, owner), sources[i].id, name)
  {
    var ids := SourceIds(sources);
    var names := FileAttributeNames(types);
    var added := AddPlaceholders(attrs, ids, names, date, owner);
    var r := CheckPlaceholders(attrs, sources, types, date, owner);
    assert forall id, name :: id in ids && name in names ==> HasValue(added, id, name) by {
      AddPlaceholdersFacts(attrs, ids, names, date, owner);
    }
    assert forall x :: x in r <==> x in added && x.id in ids by {
      CheckPlaceholdersMembers(attrs, sources, types, date, owner);
    }
    forall i, name | 0 <= i < |sources| && name in names ensures HasValue(r, sources[i].id, name) {
      assert ids[i] in ids;
      ValueSurvives(added, r, ids, ids[i], name);
    }
  }

  /** A case attribute whose case id is no source id is deleted. */
  lemma PlaceholdersDropCaseValue()
    ensures CheckPlaceholders([Attribute("age", "case", "30", 7, "", "coder")], [Source(1, "a.txt", "", None)], [],
                              "", "coder") == []
  {
    var attrs := [Attribute("age", "case", "30", 7, "", "coder")];
    var sources := [Source(1, "a.txt", "", None)];
    assert FileAttributeNames([]) == [];
    assert AddPlaceholders(attrs, [1], [], "", "coder") == attrs by {
      assert [1][..0] == [];
    }
    CheckPlaceholdersMembers(attrs, sources, [], "", "coder");
  }

  /** The deletion as intended: only file attributes whose file is gone. */
  function PruneFileAttributes(attrs: seq<Attribute>, sourceIds: seq<int>): (r: seq<Attribute>)
    ensures forall x :: x in r <==> x in attrs && (x.attrType != "file" || x.id in sourceIds)
  {
    if |attrs| == 0 then []
    else
      var last := attrs[|attrs| - 1];
      assert attrs == attrs[..|attrs| - 1] + [last];
      PruneFileAttributes(attrs[..|attrs| - 1], sourceIds)
        + (if last.attrType != "file" || last.id in sourceIds then [last] else [])
  }

  /** The reconciliation as intended. */
  function CheckPlaceholdersIntended(attrs: seq<Attribute>, sources: seq<Source>, types: seq<AttributeType>,
                                     date: string, owner: string): seq<Attribute>
  {
    var ids := SourceIds(sources);
    PruneFileAttributes(AddPlaceholders(attrs, ids, FileAttributeNames(types), date, owner), ids)
  }

  /** The intended reconciliation keeps every case attribute, removes every
      file attribute of a deleted file, and leaves every source a value of
      every file attribute. */
  lemma CheckPlaceholdersIntendedFacts(attrs: seq<Attribute>, sources: seq<Source>, types: seq<AttributeType>,
                                       date: string, owner: string)
    ensures var r := CheckPlaceholdersIntended(attrs, sources, types, date, owner);
      (forall x :: x in attrs && x.attrType == "case" ==> x in r)
      && (forall x :: x in r && x.attrType == "file" ==> x.id in SourceIds(sources))
      && (forall i, name :: 0 <= i < |sources| && name in FileAttributeNames(types) ==> HasValue(r, sources[i].id, name))
  {
    var ids := SourceIds(sources);
    var names := FileAttributeNames(types);
    var added := AddPlaceholders(attrs, ids, names, date, owner);
    var r := CheckPlaceholdersIntended(attrs, sources, types, date, owner);
    AddPlaceholdersFacts(attrs, ids, names, date, owner);
    forall x | x in attrs && x.attrType == "case" ensures x in r {
      var i :| 0 <= i < |attrs| && attrs[i] == x;
      assert added[i] == x;
    }
    forall i, name | 0 <= i < |sources| && name in names ensures HasValue(r, sources[i].id, name) {
      assert ids[i] in ids;
      var k :| 0 <= k < |added| && added[k].id == ids[i] && added[k].name == name;
      assert added[k] in r;
      var m :| 0 <= m < |r| && r[m] == added[k];
    }
  }
}
