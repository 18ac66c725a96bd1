/** The file manager: the table of sources on show and its actions on the
    project's store. The user's choices (the selection, the replacement text,
    the edit dialog's OK or Cancel) are parameters; the clock and the unzipped
    `content.xml` of an imported ODT file are given. */
module ManageFilesDialog {
  import opened Strings
  import opened Store
  import opened ManageFiles

  class FileManager {
    const db: Database
    const coder: string
    var source: seq<Source>

    ghost predicate Valid()
      reads this, db
    {
      db.Valid()
    }

    constructor (db: Database, coder: string)
      requires db.Valid()
      ensures Valid()
      ensures this.db == db && this.coder == coder && source == db.sources
    {
      this.db := db;
      this.coder := coder;
      source := db.sources;
    }

    /** Replaces the selection in the text of source `x` and moves the spans of
        its codings, annotations and case links to follow: the whole state
        afterwards is what `RestrictedEdit` says, and the store keeps its
        constraints, even when a coding update is refused part way. */
    method RestrictedEditText(x: nat, selStart: nat, selEnd: nat, newText: Option<string>)
      returns (outcome: EditOutcome)
      requires Valid()
      requires x < |source| && selStart <= selEnd <= |source[x].fulltext|
      modifies this`source, db`sources, db`codeText, db`annotations, db`caseText
      ensures Valid()
      ensures var f := old(source[x]);
        var r := RestrictedEdit(f.fulltext, f.id, old(db.codeText), old(db.annotations), old(db.caseText),
                                selStart, selEnd, newText);
        outcome == r.outcome
        && db.codeText == r.codes && db.annotations == r.annotations && db.caseText == r.cases
        && (outcome in {TooLong, Cancelled} ==> source == old(source) && db.sources == old(db.sources))
        && (outcome in {Edited, Aborted} ==>
              source == old(source)[x := f.(fulltext := r.text)]
              && db.sources == SetFulltext(old(db.sources), f.id, r.text))
    {
      var f := source[x];
      var r := EditTables(f.fulltext, f.id, db.codeText, db.annotations, db.caseText, selStart, selEnd, newText);
      RestrictedEditKeepsConstraints(f.fulltext, f.id, db.codeText, db.annotations, db.caseText,
                                     selStart, selEnd, newText);
      SameIdsUnique(db.annotations, r.annotations);
      SameIdsUnique(db.caseText, r.cases);
      if r.outcome in {Edited, Aborted} {
        source := source[x := f.(fulltext := r.text)];
        db.sources := SetFulltext(db.sources, f.id, r.text);
      }
      db.codeText, db.annotations, db.caseText := r.codes, r.annotations, r.cases;
      outcome := r.outcome;
    }

    /** "Edit text maximum 20 characters" from the context menu: the click
        edits a selection of 1 to 20 characters that crosses no coding or
        annotation, and is ignored otherwise. */
    method EditFromMenu(x: nat, selStart: nat, selEnd: nat, newText: Option<string>)
      returns (outcome: EditOutcome)
      requires Valid()
      requires x < |source| && selStart <= selEnd <= |source[x].fulltext|
      modifies this`source, db`sources, db`codeText, db`annotations, db`caseText
      ensures Valid()
      ensures var f := old(source[x]);
        var r := MenuEdit(f.fulltext, f.id, old(db.codeText), old(db.annotations), old(db.caseText),
                          selStart, selEnd, newText);
        outcome == r.outcome
        && db.codeText == r.codes && db.annotations == r.annotations && db.caseText == r.cases
        && (outcome in {Edited, Aborted} ==>
              source == old(source)[x := f.(fulltext := r.text)]
              && db.sources == SetFulltext(old(db.sources), f.id, r.text))
        && (outcome !in {Edited, Aborted} ==> source == old(source) && db.sources == old(db.sources))
    {
      var f := source[x];
      if selStart == selEnd || selEnd - selStart > MaxEdit {
        return Ignored;
      }
      var result := CrossoverCheck(f.id, db.codeText, db.annotations, db.caseText, selStart, selEnd);
      if result.crossover {
        return CrossesSpans;
      }
      outcome := RestrictedEditText(x, selStart, selEnd, newText);
    }

    /** Adds an empty value of every file attribute a source lacks, then deletes
        every attribute value whose id is not a source id. */
    method CheckAttributePlaceholders(date: string)
      requires Valid()
      modifies db`attributes
      ensures Valid()
      ensures db.attributes == CheckPlaceholders(old(db.attributes), db.sources, db.attributeTypes, date, coder)
    {
      var ids := SourceIds(db.sources);
      var names := FileAttributeNames(db.attributeTypes);
      var attrs := AddAllPlaceholders(db.attributes, ids, names, date, coder);
      var stale := StaleIds(attrs, ids);
      attrs := DeleteStale(attrs, stale);
      db.attributes := attrs;
    }
  }

  /** The statements of the restricted edit, in the order they are made: the
      new text, then (unless the length is unchanged) the case links, the
      annotations and the codings past the selection moved, then the spans
      holding the selection, fetched again, stretched. A refused coding update
      ends the edit. */
  method EditTables(text: string, fid: int, codes: seq<CodedText>, annotations: seq<SpanRow>,
                    cases: seq<SpanRow>, selStart: nat, selEnd: nat, newText: Option<string>)
    returns (r: EditResult)
    requires selStart <= selEnd <= |text|
    ensures r == RestrictedEdit(text, fid, codes, annotations, cases, selStart, selEnd, newText)
  {
    RestrictedEditEarly(text, fid, codes, annotations, cases, selStart, selEnd, newText);
    if selEnd - selStart > MaxEdit {
      return EditResult(TooLong, text, codes, annotations, cases);
    }
    if newText.None? {
      return EditResult(Cancelled, text, codes, annotations, cases);
    }
    if |newText.value| == selEnd - selStart {
      return EditResult(Edited, Splice(text, selStart, selEnd, newText.value), codes, annotations, cases);
    }
    r := ChangedLengthEdit(text, fid, codes, annotations, cases, selStart, selEnd, newText.value);
  }

  /** An edit that changes the length: the new text, then the span updates. */
  method ChangedLengthEdit(text: string, fid: int, codes: seq<CodedText>, annotations: seq<SpanRow>,
                           cases: seq<SpanRow>, selStart: nat, selEnd: nat, newText: string)
    returns (r: EditResult)
    requires selStart <= selEnd <= |text| && selEnd - selStart <= MaxEdit
    requires |newText| != selEnd - selStart
    ensures r == RestrictedEdit(text, fid, codes, annotations, cases, selStart, selEnd, Some(newText))
  {
    var fulltext := Splice(text, selStart, selEnd, newText);
    var d := |newText| - (selEnd - selStart);
    r := RealignTables(fulltext, fid, codes, annotations, cases, selStart, selEnd, d);
    assert r == Realign(Splice(text, selStart, selEnd, newText), fid, codes, annotations, cases, selStart, selEnd, |newText| - (selEnd - selStart));
    RestrictedEditRealigns(text, fid, codes, annotations, cases, selStart, selEnd, newText);
    assert r == RestrictedEdit(text, fid, codes, annotations, cases, selStart, selEnd, Some(newText));
  }

  /** The span updates of an edit that changed the length, one statement after
      the other; a refused coding update ends them. */
  method RealignTables(fulltext: string, fid: int, codes: seq<CodedText>, annotations: seq<SpanRow>,
                       cases: seq<SpanRow>, selStart: nat, selEnd: nat, d: int)
    returns (r: EditResult)
    ensures r == Realign(fulltext, fid, codes, annotations, cases, selStart, selEnd, d)
  {
    var postCases := RowsAfter(cases, fid, selStart, selEnd);
    var postAnnotations := RowsAfter(annotations, fid, selStart, selEnd);
    var postCodes := CodeSpansAfter(codes, fid, selStart, selEnd);
    var cases' := MoveRows(cases, postCases, d);
    var annotations' := MoveRows(annotations, postAnnotations, d);
    var moved := ApplyMoves(codes, fid, postCodes, d);
    if moved.failed {
      return EditResult(Aborted, fulltext, moved.table, annotations', cases');
    }
    var cross := CrossoverCheck(fid, moved.table, annotations', cases', selStart, selEnd);
    var stretched := ApplyStretches(moved.table, fid, cross.coded, d, fulltext);
    if stretched.failed {
      return EditResult(Aborted, fulltext, stretched.table, annotations', cases');
    }
    var annotations'' := StretchEach(annotations', fid, cross.annotated, d);
    var cases'' := StretchEach(cases', fid, cross.cased, d);
    return EditResult(Edited, fulltext, stretched.table, annotations'', cases'');
  }

  /** The by-id updates of `moved`, one statement after the other. */
  method MoveRows(t: seq<SpanRow>, moved: seq<SpanRow>, d: int) returns (u: seq<SpanRow>)
    ensures u == MoveAllById(t, moved, d)
  {
    u := t;
    var i := 0;
    while i < |moved|
      invariant 0 <= i <= |moved|
      invariant u == MoveAllById(t, moved[..i], d)
    {
      assert moved[..i + 1][..i] == moved[..i];
      u := MoveById(u, moved[i], d);
      i := i + 1;
    }
    assert moved[..i] == moved;
  }

  /** The coding updates by old position, one statement after the other, up
      to the first one the uniqueness constraint refuses. */
  method ApplyMoves(t: seq<CodedText>, fid: int, spans: seq<Span>, d: int) returns (a: Applied)
    ensures a == MoveAllCodings(t, fid, spans, d)
  {
    var u := t;
    var i := 0;
    while i < |spans|
      invariant 0 <= i <= |spans|
      invariant MoveAllCodings(t, fid, spans[..i], d) == Applied(u, false)
    {
      assert spans[..i + 1][..i] == spans[..i];
      var r := MoveCodings(u, fid, spans[i], d);
      if r.UniqueViolation? {
        MoveAllCodingsStops(t, fid, spans, d, i + 1);
        return Applied(u, true);
      }
      u := r.value;
      i := i + 1;
    }
    assert spans[..i] == spans;
    return Applied(u, false);
  }

  /** The stretch updates of the codings holding the selection, one after the
      other, up to the first one refused. */
  method ApplyStretches(t: seq<CodedText>, fid: int, spans: seq<Span>, d: int, text: string) returns (a: Applied)
    ensures a == StretchAllCodings(t, fid, spans, d, text)
  {
    var u := t;
    var i := 0;
    while i < |spans|
      invariant 0 <= i <= |spans|
      invariant StretchAllCodings(t, fid, spans[..i], d, text) == Applied(u, false)
    {
      assert spans[..i + 1][..i] == spans[..i];
      var r := StretchCodings(u, fid, spans[i], d, text);
      if r.UniqueViolation? {
        StretchAllCodingsStops(t, fid, spans, d, text, i + 1);
        return Applied(u, true);
      }
      u := r.value;
      i := i + 1;
    }
    assert spans[..i] == spans;
    return Applied(u, false);
  }

  /** The stretch updates of annotations or case links, one after the other. */
  method StretchEach(t: seq<SpanRow>, fid: int, spans: seq<Span>, d: int) returns (u: seq<SpanRow>)
    ensures u == StretchAllRows(t, fid, spans, d)
  {
    u := t;
    var i := 0;
    while i < |spans|
      invariant 0 <= i <= |spans|
      invariant u == StretchAllRows(t, fid, spans[..i], d)
    {
      assert spans[..i + 1][..i] == spans[..i];
      u := StretchRows(u, fid, spans[i], d);
      i := i + 1;
    }
    assert spans[..i] == spans;
  }

  /** Deletes the attribute values of each id of `stale`, one statement per id. */
  method DeleteStale(attrs: seq<Attribute>, stale: seq<int>) returns (r: seq<Attribute>)
    ensures r == DeleteIds(attrs, stale)
  {
    r := attrs;
    var i := 0;
    while i < |stale|
      invariant 0 <= i <= |stale|
      invariant r == DeleteIds(attrs, stale[..i])
    {
      assert stale[..i + 1][..i] == stale[..i];
      r := WithoutId(r, stale[i]);
      i := i + 1;
    }
    assert stale[..i] == stale;
  }

  /** The placeholder inserts: for each source, for each file attribute, a
      lookup and an insert when it finds no value. */
  method AddAllPlaceholders(attrs: seq<Attribute>, ids: seq<int>, names: seq<string>, date: string, owner: string)
    returns (r: seq<Attribute>)
    ensures r == AddPlaceholders(attrs, ids, names, date, owner)
  {
    r := attrs;
    var i := 0;
    while i < |ids|
      invariant 0 <= i <= |ids|
      invariant r == AddPlaceholders(attrs, ids[..i], names, date, owner)
    {
      assert ids[..i + 1][..i] == ids[..i];
      ghost var before := r;
      var j := 0;
      while j < |names|
        invariant 0 <= j <= |names|
        invariant r == AddForSource(before, ids[i], names[..j], date, owner)
      {
        assert names[..j + 1][..j] == names[..j];
        var found := HasValueOf(r, ids[i], names[j]);
        if !found {
          r := r + [Placeholder(names[j], ids[i], date, owner)];
        }
        j := j + 1;
      }
      assert names[..j] == names;
      i := i + 1;
    }
    assert ids[..i] == ids;
  }

  /** `SELECT value FROM attribute WHERE id = ? AND name = ?` finds a row. */
  method HasValueOf(attrs: seq<Attribute>, id: int, name: string) returns (found: bool)
    ensures found <==> HasValue(attrs, id, name)
  {
    found := false;
    var k := 0;
    while k < |attrs|
      invariant 0 <= k <= |attrs|
      invariant found <==> exists i :: 0 <= i < k && attrs[i].id == id && attrs[i].name == name
    {
      if attrs[k].id == id && attrs[k].name == name {
        found := true;
      }
      k := k + 1;
    }
  }

  /** The text of an ODT file from its `content.xml`: the body between the
      markers and the replacements, then the scan. */
  method ConvertOdtToText(content: string) returns (text: string)
    ensures text == OdtText(content)
  {
    var dataStart := Find(content, BodyStart);
    var dataEnd := Find(content, BodyEnd);
    if dataStart == -1 || dataEnd == -1 {
      return "";
    }
    var data := ReplaceChain(Slice(content, dataStart + BodyStartLength, dataEnd), OdtReplacements());
    text := DropTags(data);
  }

  /** The scan that drops every character from a tag opening up to and
      including the `>` that closes it. */
  method DropTags(data: string) returns (text: string)
    ensures text == Kept(data, |data|)
  {
    text := "";
    var tagged := false;
    var i := 0;
    while i < |data|
      invariant 0 <= i <= |data|
      invariant text == Kept(data, i)
      invariant tagged <==> i > 0 && Dropped(data, i - 1) && data[i - 1] != '>'
    {
      TagStartSlices(data, i);
      if Slice(data, i, i + 6) == "<text:" || Slice(data, i, i + 7) == "<table:" || Slice(data, i, i + 6) == "<draw:" {
        tagged := true;
      }
      if !tagged {
        text := text + [data[i]];
      }
      if data[i] == '>' {
        tagged := false;
      }
      i := i + 1;
    }
  }
}
