/** The text-coding dialog: the file on show, the current coder's codings in
    it, and the search cursor. Its actions read and change the project's
    codings in the store. Dialog choices (the tree item, the selection, the
    entries of input dialogs, the item picked from a list) are parameters. */
module CodeTextDialog {
  import opened Strings
  import opened Store
  import opened CodeText

  /** The outcome of "Mark". */
  datatype MarkOutcome = NoCodeSelected | CategorySelected | EmptySelection | AlreadyCoded | Marked

  class Dialog {
    const db: Database
    const coder: string
    var file: Option<Source>
    var codeText: seq<CodedText>
    var searchHits: seq<SearchHit>
    var searchIndex: int

    /** The store keeps its constraints, and the dialog shows only codings of
        the current coder in the file on show. */
    ghost predicate Valid()
      reads this, db
    {
      db.Valid()
      && forall c :: c in codeText ==> file.Some? && c.fid == file.value.id && c.owner == coder
    }

    constructor (db: Database, coder: string)
      requires db.Valid()
      ensures Valid()
      ensures this.db == db && this.coder == coder
      ensures file == None && codeText == [] && searchHits == [] && searchIndex == 0
    {
      this.db := db;
      this.coder := coder;
      file := None;
      codeText := [];
      searchHits := [];
      searchIndex := 0;
    }

    /** The text on show: the file's text, or nothing before a file is loaded. */
    function Text(): string
      reads this
    {
      if file.Some? then file.value.fulltext else ""
    }

    /** Reloads the codings on show from the store (nothing happens before a
        file is loaded). */
    method Reload()
      requires Valid()
      modifies this`codeText
      ensures Valid()
      ensures file.Some? ==> codeText == Loaded(db.codeText, file.value.id, coder)
      ensures file.None? ==> codeText == old(codeText)
    {
      if file.Some? {
        codeText := Loaded(db.codeText, file.value.id, coder);
      }
    }

    /** Shows file `f` with its codings. */
    method LoadFile(f: Source)
      requires Valid()
      modifies this`file, this`codeText
      ensures Valid()
      ensures file == Some(f) && codeText == Loaded(db.codeText, f.id, coder)
    {
      file := Some(f);
      codeText := Loaded(db.codeText, f.id, coder);
    }

    /** The current coder's codings on show that cover `location`. */
    method CodingsAt(location: int) returns (found: seq<CodedText>)
      ensures found == Under(codeText, location, coder)
    {
      found := [];
      var i := 0;
      while i < |codeText|
        invariant 0 <= i <= |codeText|
        invariant found == Under(codeText[..i], location, coder)
      {
        assert codeText[..i + 1][..i] == codeText[..i];
        var item := codeText[i];
        if Covers(item, location) && item.owner == coder {
          found := found + [item];
        }
        i := i + 1;
      }
      assert codeText[..i] == codeText;
    }

    /** "Mark": codes the selection with the selected code, unless no code is
        selected, the selection is empty, or this coding already exists. The
        menu offers it only while a file is on show. */
    method Mark(item: Option<TreeItem>, selStart: int, selEnd: int, selectedText: string, date: string)
      returns (outcome: MarkOutcome)
      requires Valid() && file.Some?
      modifies this`codeText, db`codeText
      ensures Valid()
      ensures item.None? ==> outcome == NoCodeSelected
      ensures item.Some? && item.value.CategoryItem? ==> outcome == CategorySelected
      ensures CodeOf(item).Some? && selStart == selEnd ==> outcome == EmptySelection
      ensures CodeOf(item).Some? && selStart != selEnd ==>
        var row := CodedText(CodeOf(item).value, file.value.id, selectedText, selStart, selEnd, coder, "", date);
        (outcome == AlreadyCoded <==> HasKey(old(db.codeText), KeyOf(row)))
        && (outcome == Marked <==> !HasKey(old(db.codeText), KeyOf(row)))
        && (outcome == Marked ==> codeText == old(codeText) + [row] && db.codeText == old(db.codeText) + [row])
      ensures outcome != Marked ==> codeText == old(codeText) && db.codeText == old(db.codeText)
    {
      if item.None? {
        return NoCodeSelected;
      }
      if item.value.CategoryItem? {
        return CategorySelected;
      }
      if selStart == selEnd {
        return EmptySelection;
      }
      var row := CodedText(item.value.cid, file.value.id, selectedText, selStart, selEnd, coder, "", date);
      if HasKey(db.codeText, KeyOf(row)) {
        return AlreadyCoded;
      }
      codeText := codeText + [row];
      var r := InsertCoding(db.codeText, row);
      if r.Ok? {
        db.codeText := r.value;
      }
      return Marked;
    }

    /** "Unmark": deletes the current coder's coding under `location` (the only
        one, or the one picked) from the store and reloads. */
    method Unmark(location: int, pick: Option<nat>) returns (removed: Option<CodedText>)
      requires Valid()
      modifies this`codeText, db`codeText
      ensures Valid()
      ensures removed == Chosen(Under(old(codeText), location, coder), pick)
      ensures removed.None? ==> codeText == old(codeText) && db.codeText == old(db.codeText)
      ensures removed.Some? ==>
        file.Some?
        && db.codeText == DeleteCoding(old(db.codeText), KeyOf(removed.value))
        && codeText == Loaded(db.codeText, file.value.id, coder)
    {
      var candidates := CodingsAt(location);
      removed := Chosen(candidates, pick);
      if removed.None? {
        return;
      }
      DeleteCodingKeepsUnique(db.codeText, KeyOf(removed.value));
      db.codeText := DeleteCoding(db.codeText, KeyOf(removed.value));
      Reload();
    }

    /** "Change start position" / "Change end position": moves one end of the
        chosen coding by the offset entered in the dialog (None when it is
        cancelled). */
    method ChangeCodePos(location: int, side: SpanEnd, pick: Option<nat>, entry: Option<int>)
      returns (change: Change)
      requires Valid()
      modifies this`codeText, db`codeText
      ensures Valid()
      ensures var r := PositionChange(old(db.codeText), Chosen(Under(old(codeText), location, coder), pick),
                                      side, entry, |Text()|);
        change == r.0 && db.codeText == r.1
        && (change == Updated ==> file.Some? && codeText == Loaded(db.codeText, file.value.id, coder))
        && (change != Updated ==> codeText == old(codeText))
    {
      var candidates := CodingsAt(location);
      var chosen := Chosen(candidates, pick);
      if chosen.None? || entry.None? {
        return Unchanged;
      }
      var c := chosen.value;
      var d := EndOffset(c, side, entry.value, |Text()|);
      if d == 0 {
        return Unchanged;
      }
      var p := MovedEnds(c, side, d);
      var r := Reposition(db.codeText, KeyOf(c), p.0, p.1);
      if r.UniqueViolation? {
        return Refused;
      }
      db.codeText := r.value;
      Reload();
      return Updated;
    }

    /** An arrow key with Alt or Shift while the text has focus: when exactly
        one coding of the current coder covers the cursor, one of its ends
        moves by a character. The coding on show moves before the store is
        updated, and stays moved when the update is refused. */
    method KeyNudge(cursor: int, n: Nudge) returns (change: Change)
      requires Valid()
      modifies this`codeText, db`codeText
      ensures Valid()
      ensures var here := Under(old(codeText), cursor, coder);
        if |here| != 1 then change == Unchanged && codeText == old(codeText) && db.codeText == old(db.codeText)
        else
          var r := NudgeChange(old(db.codeText), old(codeText), here[0], n, |Text()|);
          change == r.0 && db.codeText == r.1
          && (change == Updated ==> file.Some? && codeText == Loaded(db.codeText, file.value.id, coder))
          && (change != Updated ==> codeText == r.2)
    {
      var here := CodingsAt(cursor);
      if |here| != 1 {
        return Unchanged;
      }
      var c := here[0];
      var p := Nudged(c, n, |Text()|);
      if p.None? {
        return Unchanged;
      }
      var moved := c.(pos0 := p.value.0, pos1 := p.value.1);
      codeText := ReplaceFirst(codeText, c, moved);
      var r := Reposition(db.codeText, KeyOf(c), moved.pos0, moved.pos1);
      if r.UniqueViolation? {
        return Refused;
      }
      db.codeText := r.value;
      Reload();
      return Updated;
    }

    /** Merging code `oldCid` into `newCid` after the user confirms: its codings
        move to `newCid` and the code is deleted, unless the move is refused. */
    method MergeCodes(oldCid: int, newCid: int, confirmed: bool) returns (change: Change)
      requires Valid()
      modifies this`codeText, db`codeText, db`codeNames
      ensures Valid()
      ensures !confirmed ==> change == Unchanged
      ensures change != Updated ==>
        codeText == old(codeText) && db.codeText == old(db.codeText) && db.codeNames == old(db.codeNames)
      ensures confirmed ==> (change == Refused <==> MergedCodings(old(db.codeText), oldCid, newCid).UniqueViolation?)
      ensures confirmed ==> (change == Updated <==> MergedCodings(old(db.codeText), oldCid, newCid).Ok?)
      ensures change == Updated ==>
        db.codeText == MergedCodings(old(db.codeText), oldCid, newCid).value
        && db.codeNames == WithoutCode(old(db.codeNames), oldCid)
        && (file.Some? ==> codeText == Loaded(db.codeText, file.value.id, coder))
    {
      if !confirmed {
        return Unchanged;
      }
      var r := MergedCodings(db.codeText, oldCid, newCid);
      if r.UniqueViolation? {
        return Refused;
      }
      db.codeText := r.value;
      db.codeNames := WithoutCode(db.codeNames, oldCid);
      Reload();
      return Updated;
    }

    /** The names of the codes at `pos`, for the "codes in text" list. */
    method CodesHere(pos: int) returns (names: seq<CodeName>)
      ensures names == CodeNamesAt(codeText, db.codeNames, pos)
    {
      names := CodeNamesAtOf(codeText, db.codeNames, pos);
    }

    /** The ranges the overline pass marks: for each ordered pair of distinct
        codings on show that meet, their overlap. */
    method Overlaps() returns (overlaps: seq<(int, int)>)
      ensures overlaps == Overlapping(codeText, codeText)
    {
      overlaps := OverlapsOf(codeText);
    }

    /** Automatic coding: codes every literal match of each `|`-separated
        fragment in each chosen file with the selected code. Matches already
        coded are skipped by the store. */
    method AutoCode(item: Option<TreeItem>, findText: Option<string>, files: seq<Source>, date: string)
      requires Valid()
      modifies this`codeText, db`codeText
      ensures Valid()
      ensures CodeOf(item).None? || findText.None? || findText.value == "" || |files| == 0 ==>
        codeText == old(codeText) && db.codeText == old(db.codeText)
      ensures CodeOf(item).Some? && findText.Some? && findText.value != "" && |files| > 0 ==>
        Grows(old(db.codeText), db.codeText)
        && (forall k :: |old(db.codeText)| <= k < |db.codeText| ==>
              AutoCoded(db.codeText[k], CodeOf(item).value, Fragments(findText.value), files, coder, date))
        && AllAutoCoded(db.codeText, CodeOf(item).value, Fragments(findText.value), files, coder, date)
        && (file.Some? ==> codeText == Loaded(db.codeText, file.value.id, coder))
    {
      var code := CodeOf(item);
      if code.None? || findText.None? || findText.value == "" {
        return;
      }
      var cid := code.value;
      var frags := Fragments(findText.value);
      if |files| == 0 {
        return;
      }
      var t0 := db.codeText;
      var table, planned := PlanAutoCode(cid, frags, files, coder, date, t0);
      InsertAllFacts(t0, planned);
      db.codeText := table;
      Reload();
    }

    /** Sentence coding for one file: codes each of `sentences` (the pieces
        of `f`'s text split at `ending`) that holds `fragment`, keeping a
        running start that steps over each sentence and its ending. `table` is
        what inserting `before` into `t0` left. */
    method CodeFileSentences(cid: int, f: Source, sentences: seq<string>, fragment: string,
                             ending: string, date: string,
                             ghost t0: seq<CodedText>, table: seq<CodedText>, ghost before: seq<CodedText>)
      returns (table': seq<CodedText>, added: nat)
      requires table == InsertAll(t0, before)
      ensures table' == InsertAll(t0, before + FileSentenceRows(cid, f, sentences, fragment, ending, coder, date,
                                                                |sentences|))
      ensures added == CountContaining(sentences, fragment)
    {
      table', added := FileSentenceInserts(cid, f, sentences, fragment, ending, coder, date, t0, table, before);
    }

    /** Sentence coding over the chosen files, starting from table `t0`: the
        table left and the report's per-file lines. */
    method CodeFilesSentences(cid: int, fragment: string, ending: string, files: seq<Source>, date: string,
                              t0: seq<CodedText>)
      returns (table: seq<CodedText>, report: seq<(string, nat)>)
      requires |ending| > 0
      ensures table == InsertAll(t0, SentenceRows(cid, fragment, ending, files, coder, date))
      ensures report == SentenceReport(files, fragment, ending)
    {
      table, report := t0, [];
      var fi := 0;
      while fi < |files|
        invariant 0 <= fi <= |files|
        invariant table == InsertAll(t0, SentenceRows(cid, fragment, ending, files[..fi], coder, date))
        invariant report == SentenceReport(files[..fi], fragment, ending)
      {
        assert files[..fi + 1][..fi] == files[..fi];
        var sentences := Split(files[fi].fulltext, ending);
        var added;
        table, added := CodeFileSentences(cid, files[fi], sentences, fragment, ending, date, t0, table,
                                          SentenceRows(cid, fragment, ending, files[..fi], coder, date));
        if added > 0 {
          report := report + [(files[fi].name, added)];
        }
        fi := fi + 1;
      }
      assert files[..fi] == files;
    }

    /** Sentence coding: splits each chosen file's text at `ending` and codes
        every sentence that holds `fragment`. Returns the report's per-file
        lines; a file's count is the number of sentences holding the fragment,
        whether or not the store accepted each coding. */
    method CodeSentences(item: Option<TreeItem>, fragment: Option<string>, ending: Option<string>,
                         files: seq<Source>, date: string)
      returns (report: seq<(string, nat)>)
      requires Valid()
      modifies this`codeText, db`codeText
      ensures Valid()
      ensures CodeOf(item).None? || fragment.None? || fragment.value == "" || ending.None? || ending.value == "" ==>
        report == [] && codeText == old(codeText) && db.codeText == old(db.codeText)
      ensures CodeOf(item).Some? && fragment.Some? && fragment.value != "" && ending.Some? && ending.value != "" ==>
        report == SentenceReport(files, fragment.value, ending.value)
        && db.codeText == InsertAll(old(db.codeText),
                                    SentenceRows(CodeOf(item).value, fragment.value, ending.value, files, coder, date))
        && Grows(old(db.codeText), db.codeText)
        && (forall k :: |old(db.codeText)| <= k < |db.codeText| ==>
              SentenceCoded(db.codeText[k], CodeOf(item).value, fragment.value, ending.value, files, coder, date))
        && AllSentencesCoded(db.codeText, CodeOf(item).value, fragment.value, ending.value, files, coder, date)
        && (file.Some? ==> codeText == Loaded(db.codeText, file.value.id, coder))
    {
      report := [];
      var code := CodeOf(item);
      if code.None? || fragment.None? || fragment.value == "" || ending.None? || ending.value == "" {
        return;
      }
      var cid, text, end := code.value, fragment.value, ending.value;
      var t0 := db.codeText;
      var table;
      table, report := CodeFilesSentences(cid, text, end, files, date, t0);
      SentenceCodingFacts(t0, cid, text, end, files, coder, date);
      db.codeText := table;
      Reload();
    }

    /** A new search: its results, and the cursor before the first of them. */
    method NewSearch(hits: seq<SearchHit>)
      modifies this`searchHits, this`searchIndex
      ensures searchHits == hits && searchIndex == -1
    {
      searchHits := hits;
      searchIndex := -1;
    }

    /** Shows the file of a search result, unless it is on show already. */
    method ShowHit(hit: SearchHit)
      requires Valid()
      modifies this`file, this`codeText
      ensures Valid()
      ensures old(file).None? || old(file).value.id != hit.file.id ==>
        file == Some(hit.file) && codeText == Loaded(db.codeText, hit.file.id, coder)
      ensures old(file).Some? && old(file).value.id == hit.file.id ==>
        file == old(file) && codeText == old(codeText)
    {
      if file.None? || file.value.id != hit.file.id {
        LoadFile(hit.file);
      }
    }

    /** "Next": moves to the following result, wrapping to the first; None is
        the IndexError raised when there is no result at the new index. */
    method MoveToNext() returns (hit: Option<SearchHit>)
      requires Valid()
      modifies this`searchIndex, this`file, this`codeText
      ensures Valid()
      ensures searchIndex == NextIndex(old(searchIndex), |searchHits|)
      ensures hit == PyIndex(searchHits, searchIndex)
      ensures hit.None? ==> file == old(file) && codeText == old(codeText)
      ensures hit.Some? && (old(file).None? || old(file).value.id != hit.value.file.id) ==>
        file == Some(hit.value.file) && codeText == Loaded(db.codeText, hit.value.file.id, coder)
    {
      searchIndex := NextIndex(searchIndex, |searchHits|);
      hit := PyIndex(searchHits, searchIndex);
      if hit.Some? {
        ShowHit(hit.value);
      }
    }

    /** "Previous", as written: moves back one result, wrapping to the last
        only from index 0 (see PreviousAfterSearch for the step from -1). */
    method MoveToPrevious() returns (hit: Option<SearchHit>)
      requires Valid()
      modifies this`searchIndex, this`file, this`codeText
      ensures Valid()
      ensures searchIndex == PreviousIndexAsWritten(old(searchIndex), |searchHits|)
      ensures hit == PyIndex(searchHits, searchIndex)
      ensures hit.None? ==> file == old(file) && codeText == old(codeText)
      ensures hit.Some? && (old(file).None? || old(file).value.id != hit.value.file.id) ==>
        file == Some(hit.value.file) && codeText == Loaded(db.codeText, hit.value.file.id, coder)
    {
      searchIndex := PreviousIndexAsWritten(searchIndex, |searchHits|);
      hit := PyIndex(searchHits, searchIndex);
      if hit.Some? {
        ShowHit(hit.value);
      }
    }
  }

  /** The inserts of automatic coding, fragment by fragment and file by file:
      `planned` is every coding tried, in order, and `table` what the store
      holds after them. */
  method PlanAutoCode(cid: int, frags: set<string>, files: seq<Source>, coder: string, date: string,
                      t0: seq<CodedText>)
    returns (table: seq<CodedText>, ghost planned: seq<CodedText>)
    ensures table == InsertAll(t0, planned)
    ensures forall r :: r in planned ==> AutoCoded(r, cid, frags, files, coder, date)
    ensures forall txt, k, s ::
      (txt in frags && |txt| > 0 && 0 <= k < |files| && s in MatchStarts(files[k].fulltext, txt, 0)) ==>
      AutoRow(cid, files[k], txt, s, coder, date) in planned
  {
    table := t0;
    planned := [];
    var todo := frags;
    while todo != {}
      invariant todo <= frags
      invariant table == InsertAll(t0, planned)
      invariant forall r :: r in planned ==> AutoCoded(r, cid, frags, files, coder, date)
      invariant forall txt, k, s ::
        (txt in frags - todo && |txt| > 0 && 0 <= k < |files| && s in MatchStarts(files[k].fulltext, txt, 0)) ==>
        AutoRow(cid, files[k], txt, s, coder, date) in planned
      decreases |todo|
    {
      var txt :| txt in todo;
      if |txt| > 0 {
        table, planned := PlanFragment(cid, frags, files, txt, coder, date, t0, table, planned);
      }
      todo := todo - {txt};
    }
  }

  /** The inserts for each match of fragment `txt`, file by file. */
  method PlanFragment(cid: int, frags: set<string>, files: seq<Source>, txt: string, coder: string, date: string,
                      ghost t0: seq<CodedText>, table: seq<CodedText>, ghost planned: seq<CodedText>)
    returns (table': seq<CodedText>, ghost planned': seq<CodedText>)
    requires txt in frags && |txt| > 0
    requires table == InsertAll(t0, planned)
    ensures table' == InsertAll(t0, planned')
    ensures forall r :: r in planned' ==> r in planned || AutoCoded(r, cid, frags, files, coder, date)
    ensures forall r :: r in planned ==> r in planned'
    ensures forall k, s :: (0 <= k < |files| && s in MatchStarts(files[k].fulltext, txt, 0)) ==>
      AutoRow(cid, files[k], txt, s, coder, date) in planned'
  {
    table', planned' := table, planned;
    var fi := 0;
    while fi < |files|
      invariant 0 <= fi <= |files|
      invariant table' == InsertAll(t0, planned')
      invariant forall r :: r in planned' ==> r in planned || AutoCoded(r, cid, frags, files, coder, date)
      invariant forall r :: r in planned ==> r in planned'
      invariant forall k, s :: (0 <= k < fi && s in MatchStarts(files[k].fulltext, txt, 0)) ==>
        AutoRow(cid, files[k], txt, s, coder, date) in planned'
    {
      table', planned' := InsertMatches(cid, frags, files, fi, txt, coder, date, t0, table', planned');
      fi := fi + 1;
    }
  }

  /** The loop of sentence coding over the sentences of one file. */
  method FileSentenceInserts(cid: int, f: Source, sentences: seq<string>, fragment: string,
                             ending: string, coder: string, date: string,
                             ghost t0: seq<CodedText>, table: seq<CodedText>, ghost before: seq<CodedText>)
    returns (table': seq<CodedText>, added: nat)
    requires table == InsertAll(t0, before)
    ensures table' == InsertAll(t0, before + FileSentenceRows(cid, f, sentences, fragment, ending, coder, date,
                                                              |sentences|))
    ensures added == CountContaining(sentences, fragment)
  {
    table' := table;
    assert before + [] == before;
    var pos0 := 0;
    added := 0;
    var k := 0;
    while k < |sentences|
      invariant 0 <= k <= |sentences|
      invariant pos0 == Offset(sentences, ending, k)
      invariant added == CountContaining(sentences[..k], fragment)
      invariant table' == InsertAll(t0, before + FileSentenceRows(cid, f, sentences, fragment, ending, coder, date, k))
    {
      FileSentenceRowsNext(cid, f, sentences, fragment, ending, coder, date, k);
      ghost var offered := before + FileSentenceRows(cid, f, sentences, fragment, ending, coder, date, k);
      var sentence := sentences[k];
      if Contains(sentence, fragment) {
        var row := CodedText(cid, f.id, sentence, pos0, pos0 + |sentence|, coder, "", date);
        assert row == SentenceRow(cid, f, sentences, ending, k, coder, date);
        added := added + 1;
        var r := InsertCoding(table', row);
        if r.Ok? {
          table' := r.value;
        }
        InsertAllSnoc(t0, offered, row);
        assert before + FileSentenceRows(cid, f, sentences, fragment, ending, coder, date, k + 1) == offered + [row];
      } else {
        assert before + FileSentenceRows(cid, f, sentences, fragment, ending, coder, date, k + 1) == offered;
      }
      pos0 := pos0 + |sentence| + |ending|;
      k := k + 1;
    }
    assert sentences[..k] == sentences;
  }

  /** The loops of the "codes in text" list over the codings `shown`. */
  method CodeNamesAtOf(shown: seq<CodedText>, codeNames: seq<CodeName>, pos: int) returns (names: seq<CodeName>)
    ensures names == CodeNamesAt(shown, codeNames, pos)
  {
    names := [];
    var a := 0;
    while a < |shown|
      invariant 0 <= a <= |shown|
      invariant names == CodeNamesAt(shown[..a], codeNames, pos)
    {
      assert shown[..a + 1][..a] == shown[..a];
      var item := shown[a];
      if Covers(item, pos) {
        var more := WithCodeOf(codeNames, item.cid);
        names := names + more;
      }
      a := a + 1;
    }
    assert shown[..a] == shown;
  }

  /** The inner loop: the code names with id `cid`. */
  method WithCodeOf(codeNames: seq<CodeName>, cid: int) returns (names: seq<CodeName>)
    ensures names == WithCode(codeNames, cid)
  {
    names := [];
    var b := 0;
    while b < |codeNames|
      invariant 0 <= b <= |codeNames|
      invariant names == WithCode(codeNames[..b], cid)
    {
      assert codeNames[..b + 1][..b] == codeNames[..b];
      if codeNames[b].cid == cid {
        names := names + [codeNames[b]];
      }
      b := b + 1;
    }
    assert codeNames[..b] == codeNames;
  }

  /** The two nested loops of the overline pass over the codings `shown`. */
  method OverlapsOf(shown: seq<CodedText>) returns (overlaps: seq<(int, int)>)
    ensures overlaps == Overlapping(shown, shown)
  {
    overlaps := [];
    var a := 0;
    while a < |shown|
      invariant 0 <= a <= |shown|
      invariant overlaps == Overlapping(shown[..a], shown)
    {
      assert shown[..a + 1][..a] == shown[..a];
      var more := PairOverlapsOf(shown[a], shown);
      overlaps := overlaps + more;
      a := a + 1;
    }
    assert shown[..a] == shown;
  }

  /** The inner loop: the overlaps of coding `i` with each coding of `rows`. */
  method PairOverlapsOf(i: CodedText, rows: seq<CodedText>) returns (overlaps: seq<(int, int)>)
    ensures overlaps == PairOverlaps(i, rows)
  {
    overlaps := [];
    var b := 0;
    while b < |rows|
      invariant 0 <= b <= |rows|
      invariant overlaps == PairOverlaps(i, rows[..b])
    {
      assert rows[..b + 1][..b] == rows[..b];
      var j := rows[b];
      if j != i && Meets(i, j) {
        overlaps := overlaps + [OverlapRange(i, j)];
      }
      b := b + 1;
    }
    assert rows[..b] == rows;
  }

  /** The inserts for each match of fragment `txt` in file `files[fi]`. */
  method InsertMatches(cid: int, frags: set<string>, files: seq<Source>, fi: nat, txt: string,
                       coder: string, date: string,
                       ghost t0: seq<CodedText>, table: seq<CodedText>, ghost planned: seq<CodedText>)
    returns (table': seq<CodedText>, ghost planned': seq<CodedText>)
    requires fi < |files| && txt in frags && |txt| > 0
    requires table == InsertAll(t0, planned)
    ensures table' == InsertAll(t0, planned')
    ensures forall r :: r in planned' ==> r in planned || AutoCoded(r, cid, frags, files, coder, date)
    ensures forall r :: r in planned ==> r in planned'
    ensures forall s :: s in MatchStarts(files[fi].fulltext, txt, 0) ==>
      AutoRow(cid, files[fi], txt, s, coder, date) in planned'
  {
    var starts := MatchStarts(files[fi].fulltext, txt, 0);
    table', planned' := table, planned;
    var si := 0;
    while si < |starts|
      invariant 0 <= si <= |starts|
      invariant table' == InsertAll(t0, planned')
      invariant forall r :: r in planned' ==> r in planned || AutoCoded(r, cid, frags, files, coder, date)
      invariant forall r :: r in planned ==> r in planned'
      invariant forall m :: 0 <= m < si ==> AutoRow(cid, files[fi], txt, starts[m], coder, date) in planned'
    {
      var row := AutoRow(cid, files[fi], txt, starts[si], coder, date);
      assert AutoCoded(row, cid, frags, files, coder, date) by {
        assert row.pos0 in MatchStarts(files[fi].fulltext, row.seltext, 0);
      }
      var r := InsertCoding(table', row);
      if r.Ok? {
        table' := r.value;
      }
      InsertAllSnoc(t0, planned', row);
      planned' := planned' + [row];
      si := si + 1;
    }
  }
}
