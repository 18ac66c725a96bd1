# QualCoder character-span bookkeeping, in Dafny

QualCoder is a tool for qualitative data analysis. A researcher codes
characters `pos0`..`pos1` of a text file with a code (a row of `code_text`).
They can also annotate characters (a row of `annotation`) and link them to a
case (a row of `case_text`). This project models the bookkeeping behind
those spans, and proves what it keeps true. It has three parts.

- **The text-coding dialog** (`code_text.py`):
  - marking and unmarking;
  - moving one end of a coding through a dialog, or by one character with
    the arrow keys;
  - merging a code into another;
  - the code names and overlaps at a position;
  - automatic coding of literal text fragments, and of the sentences that
    hold a fragment;
  - the cursor over search results;
  - the tooltip snippet.
- **The file manager** (`manage_files.py`):
  - the crossover check that decides whether a selection may be edited;
  - the restricted edit, which replaces at most 20 characters of a file's
    text and moves and stretches every span of the three tables;
  - the test for a file with links;
  - the reconciliation of file attribute placeholders;
  - the tag-stripping scan of an ODT document body.
- **The main window's bookkeeping** (`qualcoder.py`):
  - the recent-projects file of `date|path` entries;
  - the settings that newer versions add to an old configuration;
  - the pruning of old project backups;
  - the splitting of a `date|path` entry before a project is opened.

## Layout

| module | file | contents |
|---|---|---|
| `Strings` | `strings.dfy` | Python's `str` operations: slices, `find`, `in`, `split`, `join` and `replace`. |
| `Sorting` | `sorting.dfy` | Python's string order, and `sort` / `sort(reverse=True)`. |
| `Store` | `store.dfy` | The database, with the uniqueness constraint of `code_text`. |
| `CodeText` | `code_text.dfy` | The rules of the text-coding dialog, as functions and lemmas. |
| `CodeTextDialog` | `code_text_dialog.dfy` | The dialog as a class, proved against `CodeText`. |
| `ManageFiles` | `manage_files.dfy` | The rules of the file manager, as functions and lemmas. |
| `ManageFilesDialog` | `manage_files_dialog.dfy` | The file manager as a class, proved against `ManageFiles`. |
| `QualCoderApp` | `qualcoder_app.dfy` | Recent projects, settings, backups and entry splitting: the functions, lemmas and the `App` class. |

**The database.** Each table is a sequence of records.
- A `WHERE` clause is a predicate on a record.
- A statement that writes to `code_text` returns `Ok` or `UniqueViolation`.
  The constraint `unique(cid, fid, pos0, pos1, owner)` refuses the whole
  statement.

**Dialog choices** are parameters, with `None` standing for a cancelled
dialog. They are:
- the tree item;
- the selection;
- the value of an integer or text input dialog;
- the item picked from a list;
- the edited text;
- a confirmation.

**The outside world** is also given as parameters:
- the current date and time;
- the set of paths that exist;
- the listing of a directory;
- the `content.xml` text of an ODT file.

**Files** are fields holding their lines or their mapping:
- the recent-projects file is `App.recentFile`;
- `config.ini` is `App.config`.

## Model

| member | source | states |
|---|---|---|
| `Strings.Slice` | qualcoder/manage_files.py:1187 | Python's `s[i:j]`. It is never longer than `s`, and it is the plain subsequence when `0 <= i <= j <= len(s)`. |
| `Strings.SliceBound` | qualcoder/qualcoder.py:1484-1485 | A slice bound: negative bounds count from the end, and out-of-range bounds are clamped into `0..n`. |
| `Strings.FindFrom` | qualcoder/manage_files.py:1182-1183 | `s.find(pat, start)`. It gives -1 exactly when there is no occurrence at or after `start`; otherwise it gives the first such occurrence. |
| `Strings.Find` | qualcoder/manage_files.py:1182-1183 | `s.find(pat)`. It gives -1 exactly when `pat` occurs nowhere; otherwise it gives the first index where it occurs. |
| `Strings.Contains` | qualcoder/code_text.py:1696 | `fragment in sentence` holds exactly when the fragment occurs at some index. |
| `Strings.Split` | qualcoder/qualcoder.py:162 | `s.split(sep)` always has at least one piece. |
| `Strings.ReplaceAll` | qualcoder/manage_files.py:1189-1202 | `s.replace(t, u)` is the pieces of `s.split(t)` joined with `u`. |
| `Strings.JoinSplit` | qualcoder/code_text.py:1692 | Joining the pieces of `s.split(sep)` with `sep` gives `s` back. |
| `Strings.SplitPartsAvoidSep` | qualcoder/qualcoder.py:162-167 | No piece of a split contains the separator. |
| `Strings.OffsetFront` | qualcoder/code_text.py:1711 | The offset of piece `i` is the first piece's length plus the separator's, plus the offset of piece `i-1` in the rest. |
| `Strings.JoinPieceAt` | qualcoder/code_text.py:1711 | Piece `i` stands in the joined string at the sum of the lengths of the pieces and separators before it. |
| `Strings.SplitPieceAt` | qualcoder/code_text.py:1692-1711 | Piece `i` of `s.split(sep)` is `s` at that running offset, the `pos0` of sentence coding. |
| `Strings.CountCharAppend` | qualcoder/qualcoder.py:162 | Occurrences of a character add up over a concatenation. |
| `Strings.CountCharZero` | qualcoder/qualcoder.py:162 | A string without the character has no occurrence of it. |
| `Strings.SplitCount` | qualcoder/qualcoder.py:162-167 | Splitting on one character gives one piece more than the character's occurrences. So `len(splt)` is 1 for an undated entry, 2 for a dated one, and more when the entry has two or more `\|`. |
| `Strings.SplitWithout` | qualcoder/qualcoder.py:164-165 | A string without the separator splits into itself alone. |
| `Strings.SplitAtFirst` | qualcoder/qualcoder.py:166-167 | `a + "\|" + b`, with no `\|` in `a`, splits into `a` followed by the pieces of `b`. |
| `Sorting.BelowIrreflexive` | qualcoder/qualcoder.py:172 | Python's `<` on strings is irreflexive. |
| `Sorting.BelowTransitive` | qualcoder/qualcoder.py:172 | Python's `<` on strings is transitive. |
| `Sorting.BelowTotal` | qualcoder/qualcoder.py:172 | Of two different strings, one is below the other. |
| `Sorting.BelowAsymmetric` | qualcoder/qualcoder.py:172 | Of two strings, at most one is below the other. |
| `Sorting.InOrderTotal` | qualcoder/qualcoder.py:220 | Any two strings may stand in some order. |
| `Sorting.InOrderTransitive` | qualcoder/qualcoder.py:220 | The order a sort produces is transitive. |
| `Sorting.Insert` | qualcoder/qualcoder.py:220 | Inserting into a sorted list keeps it sorted, adds exactly that element, and grows it by one. |
| `Sorting.Sort` | qualcoder/qualcoder.py:172 | `sort()` and `sort(reverse=True)` give a sorted permutation of the list. |
| `Sorting.SortedWithExtra` | qualcoder/qualcoder.py:219-220 | A string above every entry is in the sorted list, and every other entry there is below it. |
| `Sorting.GreatestFirst` | qualcoder/qualcoder.py:172 | In descending order, a string above every other entry comes first. |
| `Sorting.OnlyAtEnd` | qualcoder/qualcoder.py:220-226 | An element that occurs once and stands last stands nowhere else. |
| `Sorting.GreatestLast` | qualcoder/qualcoder.py:219-220 | In ascending order, a string above every other entry comes last, and only there. |
| `Store.MapWhere` | qualcoder/code_text.py:889 | An `UPDATE ... WHERE` keeps the table's length. It changes exactly the rows the clause matches. |
| `Store.Where` | qualcoder/manage_files.py:782-795 | A `SELECT ... WHERE` gives exactly the rows that match, never more rows than the table. |
| `Store.InsertCoding` | qualcoder/qualcoder.py:1208 | An insert into `code_text` is refused exactly when a row with the same `(cid, fid, pos0, pos1, owner)` exists. Otherwise the row is appended, and the keys stay unique. |
| `Store.UpdateCodings` | qualcoder/qualcoder.py:1208 | An update of `code_text` is refused, as a whole, exactly when the updated table would hold two rows with one key. |
| `Store.DuplicateInsertRefused` | qualcoder/code_text.py:1487-1503 | Inserting one coding twice: the second insert is refused, and exactly one row has the key. |
| `Store.Database.constructor` | qualcoder/qualcoder.py:1198-1210 | A new project's tables are empty and meet their constraints. |
| `CodeText.CodeOf` | qualcoder/code_text.py:1470-1476 | There is a code exactly when a tree item is selected and it is a code rather than a category. The result is that code's id. |
| `CodeText.Under` | qualcoder/code_text.py:1516-1519 | The candidates of unmark, of moving an end and of the arrow keys. They are exactly the current coder's codings with `pos0 <= location <= pos1`, so another coder's coding is never a candidate. |
| `CodeText.Loaded` | qualcoder/code_text.py:1274-1288 | The codings on show are exactly the current coder's codings of the file. |
| `CodeText.Chosen` | qualcoder/code_text.py:1520-1533 | A sole candidate is taken. With no candidate, nothing is taken. A coding picked from the list is always a candidate. |
| `CodeText.ReplaceFirst` | qualcoder/code_text.py:664 | Changing the coding on show in place keeps the list's length. It brings in only the changed coding. |
| `CodeText.DialogInt` | qualcoder/code_text.py:537 | The integer input dialog gives a value within its minimum and maximum, and the value entered when it is in range. |
| `CodeText.MovedEndStaysInText` | qualcoder/code_text.py:533-552 | Moving the start keeps it in `0..pos1-1`, and moving the end keeps it in `pos0+1..len(text)`. In both cases the other end stays put, and a zero entry moves nothing. |
| `CodeText.Reposition` | qualcoder/code_text.py:554-556 | The update by key gives the new ends to the rows with that key and leaves every other row alone. |
| `CodeText.RepositionRefusedIff` | qualcoder/code_text.py:554-557 | The move is refused exactly when the ends change and another coding already has the resulting key. |
| `CodeText.PositionChange` | qualcoder/code_text.py:507-559 | The store is untouched unless the change is made, and coding keys stay unique. |
| `CodeText.PositionChangeMovesChosen` | qualcoder/code_text.py:547-556 | A change that is made changes only the chosen coding. Only the chosen end moves, and the coding stays inside the text and non-empty. |
| `CodeText.Nudged` | qualcoder/code_text.py:659-713 | Each arrow-key edit moves exactly one end by exactly one character. A coding inside the text stays inside it and non-empty. |
| `CodeText.ExtendRightStopsShort` | qualcoder/code_text.py:676-677 | As written, Shift+Right refuses to extend a coding that ends one character before the end of the text. The extended coding would still lie in the text, and "Change end position" allows it. |
| `CodeText.ExtendedRight` | qualcoder/code_text.py:673-685 | Shift+Right as intended: the end moves one character right exactly when the new end is within the text. |
| `CodeText.ExtendedRightAgrees` | qualcoder/code_text.py:676 | The intended Shift+Right agrees with the source everywhere except at the last character. |
| `CodeText.NudgeChange` | qualcoder/code_text.py:640-713 | An arrow key that does nothing leaves the store and the list on show alone. A refused update leaves the store alone. Coding keys stay unique. |
| `CodeText.NudgeRefusedLeavesStaleCoding` | qualcoder/code_text.py:664-668 | When the update is refused by the uniqueness constraint, the store is unchanged. The coding on show has still been moved in place. |
| `CodeText.DeleteCoding` | qualcoder/code_text.py:1537-1538 | The delete by key removes exactly the rows with that key. |
| `CodeText.DeleteCodingKeeps` | qualcoder/code_text.py:1537-1538 | A delete whose key no row has changes nothing. |
| `CodeText.RemoveBeforeLast` | qualcoder/code_text.py:1542 | Removing element `i` commutes with taking off the last element. |
| `CodeText.DeleteCodingRemovesOne` | qualcoder/code_text.py:1537-1542 | With unique keys, unmark removes exactly the chosen coding and keeps the order of the rest. |
| `CodeText.DeleteCodingKeepsUnique` | qualcoder/code_text.py:1537-1538 | Deleting keeps the coding keys unique. |
| `CodeText.WithCode` | qualcoder/code_text.py:1420-1422 | The code names with a given id. |
| `CodeText.WithoutCode` | qualcoder/code_text.py:898 | Deleting from `code_name` by id keeps exactly the other codes. |
| `CodeText.MergeRefusedIff` | qualcoder/code_text.py:888-897 | A merge is refused exactly when the two codes code the same characters of one file for one coder. Merging a code into itself changes nothing. |
| `CodeText.CodeNamesAt` | qualcoder/code_text.py:1415-1422 | The codes listed at a position are exactly those with a coding on show that covers it. |
| `CodeText.OverlapRange` | qualcoder/code_text.py:1352-1362 | For a pair that meets, the two ends of the overlined range are `max(pos0)` and `min(pos1)`, in either order. |
| `CodeText.PairOverlapsSound` | qualcoder/code_text.py:1351-1362 | Every range the inner loop adds comes from a distinct coding that meets the outer one. |
| `CodeText.OverlapsSound` | qualcoder/code_text.py:1348-1362 | Every overlined range comes from two distinct codings, one of them starting within the other. |
| `CodeText.PairOverlapsComplete` | qualcoder/code_text.py:1351-1362 | Every distinct coding that meets the outer one has its range added. |
| `CodeText.OverlapsComplete` | qualcoder/code_text.py:1348-1362 | Every pair of distinct codings that meets has its range overlined. |
| `CodeText.Fragments` | qualcoder/code_text.py:1750-1755 | The fragments of automatic coding are exactly the distinct non-empty `\|`-separated pieces. |
| `CodeText.MatchStarts` | qualcoder/code_text.py:1776 | Each start is an occurrence of the fragment, and the starts increase without overlapping matches. |
| `CodeText.MatchStartsComplete` | qualcoder/code_text.py:1776 | Every occurrence is matched, or lies inside an earlier match. The matches are the leftmost non-overlapping ones. |
| `CodeText.AutoCodedMatchesText` | qualcoder/code_text.py:1778-1782 | An automatically coded span lies in its file, and the text at the span is the coded fragment. |
| `CodeText.SentenceRowMatchesText` | qualcoder/code_text.py:1692-1711 | With the running offset, the text at a sentence coding's span is the sentence. |
| `CodeText.CountContaining` | qualcoder/code_text.py:1694-1703 | The count of codes added is at most the number of sentences. |
| `CodeText.CountContainingZero` | qualcoder/code_text.py:1712-1713 | The count is zero exactly when no sentence holds the fragment, and then the file is not reported. |
| `CodeText.FileSentenceRowsFacts` | qualcoder/code_text.py:1695-1711 | One coding is offered per sentence counted, including those the constraint refuses. Each coding offered is a sentence that holds the fragment, and every such sentence is offered. |
| `CodeText.FileSentenceRowsCount` | qualcoder/code_text.py:1695-1703 | One coding is offered for each sentence that holds the fragment, so their number is the count the loop reports. |
| `CodeText.FileSentenceRowsSound` | qualcoder/code_text.py:1695-1711 | Each coding offered is one of the file's sentences that holds the fragment, at its running offset. |
| `CodeText.FileSentenceRowsComplete` | qualcoder/code_text.py:1695-1711 | Every sentence of the file that holds the fragment has its coding offered. |
| `CodeText.SentenceRowsFacts` | qualcoder/code_text.py:1691-1711 | Over all files, each coding offered is a sentence coding, and every sentence that holds the fragment is offered. |
| `CodeText.SentenceRowsSound` | qualcoder/code_text.py:1691-1711 | Over all files, each coding offered is a sentence coding of one of the files. |
| `CodeText.SentenceRowsComplete` | qualcoder/code_text.py:1691-1711 | Over all files, every sentence that holds the fragment has its coding offered. |
| `CodeText.SentenceReport` | qualcoder/code_text.py:1712-1713 | At most one report line per file, each with a positive count. |
| `CodeText.InsertAllFacts` | qualcoder/code_text.py:1702-1710 | Inserting a batch one row at a time keeps the old codings and adds only rows of the batch. Keys stay unique, and each key of the batch is in the table afterwards. |
| `CodeText.InsertStep` | qualcoder/code_text.py:1702-1710 | One more insert, whether the constraint refuses it or not, keeps the old codings and adds only rows of the batch. |
| `CodeText.SentenceCodingFacts` | qualcoder/code_text.py:1691-1711 | Sentence coding keeps the old codings, adds only sentence codings, and leaves every sentence that holds the fragment coded. |
| `CodeText.PyIndex` | qualcoder/code_text.py:438 | Python's `list[i]`: `s[i]` for `0 <= i < len(s)`, `s[len(s) + i]` for a negative index down to `-len(s)`, and None, standing for an `IndexError`, exactly outside that range. |
| `CodeText.NextIndex` | qualcoder/code_text.py:450-452 | "Next" from any index in `-1..n-1` lands in `0..n-1`, and it wraps from the last result to the first. |
| `CodeText.PreviousIndexAsWritten` | qualcoder/code_text.py:434-436 | "Previous", as written, stays in `0..n-1` from a result, and it wraps from the first result to the last. |
| `CodeText.PreviousAfterSearch` | qualcoder/code_text.py:434-438 | Right after a new search, "previous" goes to index -2. That is the second-to-last result, or an `IndexError` with a single result. |
| `CodeText.PreviousIndex` | qualcoder/code_text.py:434-436 | "Previous" as intended: it goes back one, and from the first result or from before it, it goes to the last. |
| `CodeText.PreviousUndoesNext` | qualcoder/code_text.py:434-452 | "Previous" after "next" returns to the same result, both as written and as intended. |
| `CodeText.Cleaned` | qualcoder/code_text.py:1835-1837 | The coded text in a tooltip has no line breaks. |
| `CodeText.Snippet` | qualcoder/code_text.py:1833-1850 | The snippet has no line breaks. A text of at most 90 characters is shown whole, and a longer one is cut to at most 85. |
| `CodeText.SnippetHasNoBreak` | qualcoder/code_text.py:1840-1841 | The first and last 40 characters of a cleaned text have no line break. |
| `CodeText.PieceCharsIn` | qualcoder/code_text.py:1840 | A word of the split holds only characters of the snippet. |
| `CodeText.JoinCharsFrom` | qualcoder/code_text.py:1850 | Joined words hold only characters of the text, or spaces. |
| `CodeText.JoinPrefixShorter` | qualcoder/code_text.py:1843 | Dropping the last word does not lengthen the joined text. |
| `CodeText.JoinSuffixShorter` | qualcoder/code_text.py:1847 | Dropping the first word does not lengthen the joined text. |
| `CodeText.NoCharAfterReplace` | qualcoder/code_text.py:1836-1837 | Replacing a character by nothing removes it. |
| `CodeText.JoinAvoids` | qualcoder/code_text.py:1850 | Joining words without a character, using a separator without it, gives a text without it. |
| `CodeText.KeepsAbsentChar` | qualcoder/code_text.py:1837 | Removing `\r` brings back no `\n`. |
| `CodeTextDialog.Dialog.constructor` | qualcoder/code_text.py:93-103 | A new dialog shows no file and no codings, and its search cursor is 0 over no results. |
| `CodeTextDialog.Dialog.Reload` | qualcoder/code_text.py:1274-1288 | The codings on show become the current coder's codings of the file on show. |
| `CodeTextDialog.Dialog.LoadFile` | qualcoder/code_text.py:1255-1265 | The file is on show, with its codings. |
| `CodeTextDialog.Dialog.CodingsAt` | qualcoder/code_text.py:1516-1519 | The loop gathers exactly the candidates under the location. |
| `CodeTextDialog.Dialog.Mark` | qualcoder/code_text.py:1462-1510 | Nothing is added without a code, for a category, for an empty selection, or when the key is already coded (and "already coded" holds exactly when it is). Otherwise the coding is made: exactly one coding of the current coder is appended to the store and to the list on show. |
| `CodeTextDialog.Dialog.Unmark` | qualcoder/code_text.py:1511-1546 | The coding removed is the chosen candidate, and the store loses its key. Without a candidate, nothing changes. |
| `CodeTextDialog.Dialog.ChangeCodePos` | qualcoder/code_text.py:507-559 | The store becomes what the chosen end move gives. The list on show is reloaded after a change and unchanged otherwise. |
| `CodeTextDialog.Dialog.KeyNudge` | qualcoder/code_text.py:640-713 | An arrow key acts only when exactly one candidate is under the cursor. Then the store and the list on show become what the nudge gives. |
| `CodeTextDialog.Dialog.MergeCodes` | qualcoder/code_text.py:876-905 | Without confirmation, nothing changes. A confirmed merge is refused exactly when the update violates the constraint, and made exactly when it does not. Once merged, the codings are recoded and the old code is deleted. |
| `CodeTextDialog.Dialog.CodesHere` | qualcoder/code_text.py:1407-1422 | The nested loops list the codes at the position. |
| `CodeTextDialog.CodeNamesAtOf` | qualcoder/code_text.py:1416-1422 | The outer loop over the codings on show gives the codes listed at the position. |
| `CodeTextDialog.WithCodeOf` | qualcoder/code_text.py:1420-1422 | The inner loop gives the code names with the coding's id. |
| `CodeTextDialog.Dialog.Overlaps` | qualcoder/code_text.py:1344-1362 | The nested loops add exactly the overlap ranges of every ordered pair of codings on show, which are sound and complete by the lemmas above. |
| `CodeTextDialog.OverlapsOf` | qualcoder/code_text.py:1348-1362 | The outer loop gives the overlap ranges of every ordered pair of codings on show. |
| `CodeTextDialog.PairOverlapsOf` | qualcoder/code_text.py:1351-1362 | The inner loop gives the overlap ranges of one coding with each other coding on show. |
| `CodeTextDialog.Dialog.AutoCode` | qualcoder/code_text.py:1723-1798 | Nothing changes without a code, a text or a file. Otherwise the store grows by automatic codings only, and every match of every fragment in every chosen file is coded. |
| `CodeTextDialog.PlanAutoCode` | qualcoder/code_text.py:1767-1792 | The store after the loops is the inserts of every match, tried in order. Each coding tried is an automatic coding, and every match of every fragment in every file is tried. |
| `CodeTextDialog.PlanFragment` | qualcoder/code_text.py:1769-1792 | The loop over the files tries every match of one fragment, keeps what was tried before, and tries only automatic codings. |
| `CodeTextDialog.InsertMatches` | qualcoder/code_text.py:1776-1792 | The loop over the matches in one file tries each of them, keeps what was tried before, and tries only automatic codings. |
| `CodeTextDialog.Dialog.CodeFileSentences` | qualcoder/code_text.py:1691-1713 | The running-offset loop over one file inserts that file's offered sentence codings, and its count is the number of sentences that hold the fragment. |
| `CodeTextDialog.FileSentenceInserts` | qualcoder/code_text.py:1693-1711 | The loop over one file's sentences inserts the codings offered for them, and counts each sentence that holds the fragment, refused or not. |
| `CodeTextDialog.Dialog.CodeFilesSentences` | qualcoder/code_text.py:1684-1716 | The loop over the files inserts every file's offered codings and builds the report. |
| `CodeTextDialog.Dialog.CodeSentences` | qualcoder/code_text.py:1638-1721 | Nothing changes, and nothing is reported, without a code, a fragment or an ending. Otherwise the store grows by sentence codings only, and every sentence that holds the fragment is coded. |
| `CodeTextDialog.Dialog.NewSearch` | qualcoder/code_text.py:384-385 | A new search holds its results, with the cursor at -1. |
| `CodeTextDialog.Dialog.ShowHit` | qualcoder/code_text.py:440-441 | The result's file is loaded unless it is already on show. |
| `CodeTextDialog.Dialog.MoveToNext` | qualcoder/code_text.py:447-461 | The cursor moves to the next index and the result there is shown. |
| `CodeTextDialog.Dialog.MoveToPrevious` | qualcoder/code_text.py:431-445 | The cursor moves to the previous index as written, and the result there is shown. |
| `ManageFiles.CodeSpans` | qualcoder/manage_files.py:521-523 | The spans fetched for the file's codings are exactly theirs, whoever the coder. |
| `ManageFiles.RowSpans` | qualcoder/manage_files.py:515-520 | The spans fetched for the file's annotations or case links are exactly theirs. |
| `ManageFiles.SpansWhere` | qualcoder/manage_files.py:681-683 | A query's test keeps exactly the spans that pass it. |
| `ManageFiles.CrossoverCheckFacts` | qualcoder/manage_files.py:665-721 | The selection is rejected exactly when a coding of any coder, or an annotation, has an end strictly inside it; case links never reject it. Otherwise the three lists are exactly the spans that hold the whole selection. |
| `ManageFiles.IsCaseLinkedOrCodedOrAnnotated` | qualcoder/manage_files.py:508-526 | True exactly when the file has a case link, an annotation or a coding. |
| `ManageFiles.RowSpansNonEmpty` | qualcoder/manage_files.py:515-520 | The query for a file's annotations or case links returns rows exactly when one belongs to the file. |
| `ManageFiles.CodeSpansNonEmpty` | qualcoder/manage_files.py:521-523 | The query for a file's codings returns rows exactly when one belongs to the file. |
| `ManageFiles.SpliceParts` | qualcoder/manage_files.py:762-764 | The new text is the text before the selection, then the new text, then the text after the selection. |
| `ManageFiles.MoveById` | qualcoder/manage_files.py:805-809 | The update by id moves only the row with that id, to the fetched ends plus the difference. |
| `ManageFiles.MoveAllById` | qualcoder/manage_files.py:801-809 | The by-id updates keep the table's length; what they move is stated by `MoveAllByIdPointwise`. |
| `ManageFiles.ShiftAfter` | qualcoder/manage_files.py:782-790 | Every row of the file past the selection moves by the difference, and the other rows stay put. |
| `ManageFiles.MoveAllByIdPointwise` | qualcoder/manage_files.py:801-809 | With unique ids, each fetched row moves exactly once, and no other row moves. |
| `ManageFiles.MoveAfterById` | qualcoder/manage_files.py:782-809 | The case-link and annotation updates move exactly the rows past the selection: `pos1 > selend` and not holding the selection. |
| `ManageFiles.WhereKeepsUniqueIds` | qualcoder/manage_files.py:782-790 | Rows fetched from a table with unique ids have unique ids. |
| `ManageFiles.MoveAllCodingsStops` | qualcoder/manage_files.py:810-812 | Once a coding update is refused, the ones after it change nothing. |
| `ManageFiles.StretchAllCodingsStops` | qualcoder/manage_files.py:821-825 | Once a stretch update is refused, the ones after it change nothing. |
| `ManageFiles.StretchRows` | qualcoder/manage_files.py:827-834 | The stretch of annotations or case links keeps the table's length. |
| `ManageFiles.StretchAllRows` | qualcoder/manage_files.py:827-834 | The stretches of each fetched span keep the table's length. |
| `ManageFiles.RestrictedEdit` | qualcoder/manage_files.py:723-835 | The edit is refused exactly when the selection is over 20 characters, and cancelled exactly when the dialog is, changing nothing. Otherwise the text is spliced, and a same-length edit touches no span. |
| `ManageFiles.RestrictedEditEarly` | qualcoder/manage_files.py:755-774 | A too-long selection and a cancelled dialog change nothing; an edit of the same length changes only the text. |
| `ManageFiles.RestrictedEditRealigns` | qualcoder/manage_files.py:762-835 | An edit that changes the length is the splice followed by the span updates. |
| `ManageFiles.Realign` | qualcoder/manage_files.py:780-835 | The span updates end with the edit made or aborted by a refused coding update, and keep the new text. |
| `ManageFiles.MenuEdit` | qualcoder/manage_files.py:649-656 | The menu entry is always there. A click is ignored, changing nothing, exactly when the selection is empty or over 20 characters. For a selection of 1 to 20 characters, one that crosses a span gives `CrossesSpans` and changes nothing, and one that crosses none goes on to the restricted edit. It is never refused as too long. |
| `ManageFiles.SetFulltext` | qualcoder/manage_files.py:767-771 | The update of `source` changes only the text of the source with that id, and keeps ids unique. |
| `ManageFiles.MoveAllByIdKeepsIds` | qualcoder/manage_files.py:805-809 | The by-id updates keep every row's id in place. |
| `ManageFiles.StretchAllRowsKeepsIds` | qualcoder/manage_files.py:827-834 | The stretches keep every row's id in place. |
| `ManageFiles.MoveAllCodingsKeepsUnique` | qualcoder/manage_files.py:810-812 | The coding moves leave the keys unique. |
| `ManageFiles.StretchAllCodingsKeepsUnique` | qualcoder/manage_files.py:821-825 | The coding stretches leave the keys unique. |
| `ManageFiles.RestrictedEditKeepsConstraints` | qualcoder/manage_files.py:723-835 | Whatever its outcome, the edit keeps coding keys unique and the ids of annotations and case links. |
| `ManageFiles.RestrictedEditKeepsTables` | qualcoder/manage_files.py:755-774 | A refused, cancelled or same-length edit leaves the three tables as they were. |
| `ManageFiles.RealignKeepsConstraints` | qualcoder/manage_files.py:780-835 | The span updates keep coding keys unique and the ids of annotations and case links in place. |
| `ManageFiles.ShiftCodingsAfter` | qualcoder/manage_files.py:792-812 | As intended, every coding of the file past the selection moves by the difference, and the others stay put. |
| `ManageFiles.MoveAllCodingsPointwise` | qualcoder/manage_files.py:810-812 | When no moved span lands on a span still to be moved, the updates by old position move each fetched coding exactly once. |
| `ManageFiles.MoveCodingsAfter` | qualcoder/manage_files.py:792-812 | Under the same condition, the coding updates are the intended shift. |
| `ManageFiles.ChainSpansAfter` | qualcoder/manage_files.py:792-795 | In the double-shift example, both codings are past the selection. |
| `ManageFiles.ChainFirstUpdate` | qualcoder/manage_files.py:811-812 | The first update moves the first coding onto the second's old span. |
| `ManageFiles.DoubleShiftExample` | qualcoder/manage_files.py:810-812 | The second update, by old position, moves the first coding again, to 20..30 rather than 15..25. |
| `ManageFiles.IntendedEdit` | qualcoder/manage_files.py:723-835 | The edit as intended refuses exactly the selections over 20 characters, splices the text, and keeps every table's length. |
| `ManageFiles.IntendedEditCodes` | qualcoder/manage_files.py:762-835 | The intended edit splices the text and takes each coding to its intended place, keeping its file. |
| `ManageFiles.IntendedCodingMatches` | qualcoder/manage_files.py:823-825 | A coding that matched the old text and does not cross the selection matches the new text after the intended move or stretch. |
| `ManageFiles.MovedCodingMatches` | qualcoder/manage_files.py:810-812 | A coding past the selection, moved by the change of length, copies the new text. |
| `ManageFiles.EarlierCodingMatches` | qualcoder/manage_files.py:762-764 | A coding that ends before the selection copies the new text unchanged. |
| `ManageFiles.NoCrossingCoding` | qualcoder/manage_files.py:681-693 | A selection that passes the crossover check has no end of a coding of the file strictly inside it. |
| `ManageFiles.IntendedEditKeepsCodedText` | qualcoder/manage_files.py:815-834 | After the intended edit of a selection that crosses no coding, every coding of the file copies the new text at its span. |
| `ManageFiles.RequerySpans` | qualcoder/manage_files.py:521-523 | The example's two codings and their spans. |
| `ManageFiles.RequeryFirstCheck` | qualcoder/manage_files.py:649-651 | The example's selection crosses no span before the edit. |
| `ManageFiles.RequeryMove` | qualcoder/manage_files.py:810-812 | Shortening moves the next coding back by two, into the old selection. |
| `ManageFiles.RequerySecondCheck` | qualcoder/manage_files.py:819 | The check made again after the move finds a crossover and returns no held spans. |
| `ManageFiles.RequeryRealign` | qualcoder/manage_files.py:780-835 | In the example, the span updates move the next coding and stretch nothing. |
| `ManageFiles.RequeryText` | qualcoder/manage_files.py:762-764 | The example's new text, in which the held coding's copy no longer matches. |
| `ManageFiles.RequeryExample` | qualcoder/manage_files.py:819-825 | Because the held spans are queried again after the shift, the coding that holds the selection is not stretched and its copy of the text goes stale. |
| `ManageFiles.RequeryIntended` | qualcoder/manage_files.py:819-825 | The intended edit stretches that coding to the new text. |
| `ManageFiles.SameLengthExample` | qualcoder/manage_files.py:772-774 | A same-length edit of coded text keeps the old copy of the text ("teh" in "the cat"), where the intended edit copies "the". |
| `ManageFiles.TagStartSlices` | qualcoder/manage_files.py:1207 | The scan's slice comparisons hold exactly where a tag opens. |
| `ManageFiles.Kept` | qualcoder/manage_files.py:1204-1213 | The scan keeps no more characters than it reads. |
| `ManageFiles.DroppedIffInTag` | qualcoder/manage_files.py:1205-1212 | A character is dropped exactly when a tag opens at or before it and no `>` stands between, so the closing `>` is dropped too. |
| `ManageFiles.KeptWithoutTags` | qualcoder/manage_files.py:1204-1213 | With no tag opening, the scan keeps every character. |
| `ManageFiles.NotDroppedWithoutTags` | qualcoder/manage_files.py:1206-1212 | With no tag opening, no character is dropped. |
| `ManageFiles.ReplaceAbsent` | qualcoder/manage_files.py:1189-1202 | Markup that does not occur is not replaced. |
| `ManageFiles.ReplaceChainWithoutMarkup` | qualcoder/manage_files.py:1189-1202 | A body without `<` passes through the fourteen replacements unchanged. |
| `ManageFiles.OdtText` | qualcoder/manage_files.py:1182-1186 | The import is "" when either body marker is missing. |
| `ManageFiles.OdtPlainBody` | qualcoder/manage_files.py:1182-1213 | A body without markup is imported as it stands: the text between the end of the sequence declarations and the end of the office text. |
| `ManageFiles.SourceIds` | qualcoder/manage_files.py:237-239 | The ids of the sources, in order. |
| `ManageFiles.FileAttributeNames` | qualcoder/manage_files.py:240-242 | Exactly the names of the attribute types that apply to files. |
| `ManageFiles.AddForSourceFacts` | qualcoder/manage_files.py:245-254 | For one source, the inserts add only placeholders after the old rows, and leave a value of every file attribute. |
| `ManageFiles.AddPlaceholdersFacts` | qualcoder/manage_files.py:244-254 | For every source, the inserts add only placeholders after the old rows, and leave every source with a value of every file attribute. |
| `ManageFiles.AddsMissingCompose` | qualcoder/manage_files.py:244-254 | Two rounds of inserts that each add only missing placeholders add only what was missing at the start. |
| `ManageFiles.WithoutId` | qualcoder/manage_files.py:262 | The delete by id keeps exactly the rows with another id. |
| `ManageFiles.DeleteIdsMembers` | qualcoder/manage_files.py:261-263 | The deletes keep exactly the rows whose id is not deleted. |
| `ManageFiles.StaleIds` | qualcoder/manage_files.py:257-260 | The ids to delete are exactly the distinct attribute ids that are no source id. |
| `ManageFiles.CheckPlaceholdersMembers` | qualcoder/manage_files.py:243-263 | Afterwards, exactly the rows (old or added) whose id is a source id remain, whatever their type. |
| `ManageFiles.ValueSurvives` | qualcoder/manage_files.py:256-263 | A value of a source survives the deletes. |
| `ManageFiles.CheckPlaceholdersComplete` | qualcoder/manage_files.py:243-263 | Afterwards, every source has a value of every file attribute. |
| `ManageFiles.PlaceholdersDropCaseValue` | qualcoder/manage_files.py:257-263 | A case attribute whose case id is no source id is deleted. |
| `ManageFiles.PruneFileAttributes` | qualcoder/manage_files.py:256-263 | The deletion as intended keeps every case attribute, and every file attribute whose file exists. |
| `ManageFiles.CheckPlaceholdersIntendedFacts` | qualcoder/manage_files.py:231-263 | The reconciliation as intended keeps every case attribute and leaves file attributes only for existing files. Every source has a value of every file attribute. |
| `ManageFilesDialog.FileManager.constructor` | qualcoder/manage_files.py:278-282 | The table on show holds the project's sources. |
| `ManageFilesDialog.FileManager.RestrictedEditText` | qualcoder/manage_files.py:723-835 | The three span tables and the outcome are those of the restricted edit. A refused or cancelled edit changes no text. Otherwise the source's text is spliced, both on show and in `source`. The store keeps its constraints. |
| `ManageFilesDialog.FileManager.EditFromMenu` | qualcoder/manage_files.py:623-656 | The menu action acts exactly as the menu edit; when no edit is made, nothing changes. |
| `ManageFilesDialog.FileManager.CheckAttributePlaceholders` | qualcoder/manage_files.py:231-263 | The attribute table becomes the reconciliation as written. |
| `ManageFilesDialog.DeleteStale` | qualcoder/manage_files.py:261-263 | The delete statements, one per stale id, leave the rows the deletes keep. |
| `ManageFilesDialog.EditTables` | qualcoder/manage_files.py:772-835 | The statements of the edit, in order with their early returns, give the restricted edit. |
| `ManageFilesDialog.ChangedLengthEdit` | qualcoder/manage_files.py:762-835 | The splice and the span updates, in order, give the restricted edit when the length changes. |
| `ManageFilesDialog.RealignTables` | qualcoder/manage_files.py:780-835 | The statements of the span updates, with the early return on a refused coding update, give the realignment. |
| `ManageFilesDialog.MoveRows` | qualcoder/manage_files.py:801-809 | The loop of by-id updates gives the by-id moves. |
| `ManageFilesDialog.ApplyMoves` | qualcoder/manage_files.py:810-812 | The loop of coding updates stops at the first refused one. |
| `ManageFilesDialog.ApplyStretches` | qualcoder/manage_files.py:821-825 | The loop of stretch updates stops at the first refused one. |
| `ManageFilesDialog.StretchEach` | qualcoder/manage_files.py:827-834 | The loop of stretches of annotations or case links. |
| `ManageFilesDialog.AddAllPlaceholders` | qualcoder/manage_files.py:244-254 | The nested loops insert the placeholders for every source and file attribute that lacks a value. |
| `ManageFilesDialog.HasValueOf` | qualcoder/manage_files.py:246-250 | The lookup finds a row exactly when the source has a value of the attribute. |
| `ManageFilesDialog.ConvertOdtToText` | qualcoder/manage_files.py:1174-1213 | The body is cut out, replaced and scanned into the imported text. |
| `ManageFilesDialog.DropTags` | qualcoder/manage_files.py:1204-1213 | The `tagged`-flag scan keeps exactly the characters not in a tag. |
| `QualCoderApp.ProjectPathUndated` | qualcoder/qualcoder.py:162-165 | An entry without `\|` is its own path. |
| `QualCoderApp.ProjectPathDated` | qualcoder/qualcoder.py:162-167 | The path of a `date\|path` entry is the path it was made from. |
| `QualCoderApp.ProjectPathOfMalformed` | qualcoder/qualcoder.py:162-167 | An entry with two or more `\|` has the path "". |
| `QualCoderApp.ProjectPathIdempotent` | qualcoder/qualcoder.py:1597-1605 | A path holds no `\|`, so splitting it again in `open_project` gives it back. |
| `QualCoderApp.ProjectToOpenIff` | qualcoder/qualcoder.py:1302-1308 | A project is opened exactly when the entry's path ends in `.qda`, and then it is that path. The length test adds nothing. |
| `QualCoderApp.ProjectPathIsPart` | qualcoder/qualcoder.py:1302-1307 | An entry's path is no longer than the entry. |
| `QualCoderApp.StartupOpensEntry` | qualcoder/qualcoder.py:1596-1605 | Starting with an entry opens what opening that entry from the menu opens. |
| `QualCoderApp.ExistingEntries` | qualcoder/qualcoder.py:159-169 | Exactly the entries whose project path exists. |
| `QualCoderApp.KeepExisting` | qualcoder/qualcoder.py:159-169 | The loop keeps exactly the entries whose project path exists, in order. |
| `QualCoderApp.Paths` | qualcoder/qualcoder.py:174-184 | The project path of each entry. |
| `QualCoderApp.DedupMembers` | qualcoder/qualcoder.py:171-185 | Every kept entry comes from the list. No project is kept twice, and every project in the list is kept. |
| `QualCoderApp.KeepNewestPerProject` | qualcoder/qualcoder.py:173-184 | The loop keeps the first entry of each project, as the deduplication does. |
| `QualCoderApp.DedupIndices` | qualcoder/qualcoder.py:175-184 | Each kept entry stands somewhere in the list. |
| `QualCoderApp.DedupSorted` | qualcoder/qualcoder.py:172-185 | The result stays sorted newest first. |
| `QualCoderApp.DedupKeepsNewest` | qualcoder/qualcoder.py:171-185 | The entry kept for each project is its newest. |
| `QualCoderApp.FirstTen` | qualcoder/qualcoder.py:187-192 | At most ten lines are written, the first ones, and ten whenever there are that many. |
| `QualCoderApp.AppendDropsNewest` | qualcoder/qualcoder.py:218-226 | With ten projects listed, the entry of a newly opened project sorts last of eleven and is cut off. |
| `QualCoderApp.AppendIntendedKeepsNewest` | qualcoder/qualcoder.py:195-226 | As intended, a newly opened project is the first line of the file. |
| `QualCoderApp.CompletedFacts` | qualcoder/qualcoder.py:385-391 | Afterwards, every listed key is present, old values are unchanged, missing keys get their defaults, and nothing else is added. |
| `QualCoderApp.CompletedGrowsIff` | qualcoder/qualcoder.py:393-395 | The configuration grows, and so is written, exactly when a listed key was missing. |
| `QualCoderApp.CompletedIdempotent` | qualcoder/qualcoder.py:385-391 | Completing twice adds nothing the second time. |
| `QualCoderApp.IsBackupIff` | qualcoder/qualcoder.py:1491 | The name test is exactly "starts with `projectname_BKUP_` and ends with `.qda`". |
| `QualCoderApp.Backups` | qualcoder/qualcoder.py:1488-1492 | Exactly the listed names that are backups of the project, taken from the listing. |
| `QualCoderApp.ListBackups` | qualcoder/qualcoder.py:1488-1492 | The loop over the listing keeps exactly the backups of the project. |
| `QualCoderApp.BackupsToRemoveFacts` | qualcoder/qualcoder.py:1493-1499 | All but five backups are removed (none when five or fewer). Each one removed is a backup of the project, no newer than any kept. |
| `QualCoderApp.App.constructor` | qualcoder/qualcoder.py:129-139 | The application starts with no project and the given recent-projects file and configuration. |
| `QualCoderApp.App.ReadPreviousProjectPaths` | qualcoder/qualcoder.py:144-193 | The result is the existing entries, newest first, one per project; the file is rewritten with its first ten. |
| `QualCoderApp.App.AppendRecentProject` | qualcoder/qualcoder.py:195-226 | The file becomes what appending gives at that time: unchanged for an empty path, and rewritten by the read when the path is the newest entry's. |
| `QualCoderApp.App.CheckAndAddAdditionalSettings` | qualcoder/qualcoder.py:357-396 | The result is the completed configuration, and it is written exactly when it grew. |
| `QualCoderApp.App.DeleteBackupFolders` | qualcoder/qualcoder.py:1481-1499 | The directory, and the backups to delete given its listing. |
| `QualCoderApp.AddMissingSettings` | qualcoder/qualcoder.py:385-391 | The loop over the keys gives the completed configuration. |
| `QualCoderApp.WriteLines` | qualcoder/qualcoder.py:188-192 | The loop that stops after `i > 8` writes the first ten lines. |

## Left out

- All Qt work is not part of this model, only the decision rules it calls:
  - tree building, highlighting, underlining and overlining;
  - menus, message boxes and tooltip HTML;
  - code counts;
  - the clipboard and "Select all" actions of the file manager's menu.
- SQLite's connections, commits and row ids are left out.
  - A statement refused by `unique(cid, fid, pos0, pos1, owner)` leaves the table as the statements before it made it. The source neither rolls those back nor catches the error in the edit, so the model stops there with the outcome `Aborted`.
- `search_for_text` compiles the user's pattern as a regular expression. Python's regular expression engine is not part of this model, so `NewSearch` takes the results as given.
- `auto_code` escapes its fragment, so its matches are modelled as literal matches.
- `selectedText` from Qt can hold U+2029 for a line break. The selection's text is a parameter, and that substitution is not modelled.
- `convert_odt_to_text` leaves out:
  - the zip read of `content.xml`;
  - the `unicode_escape` and byte round trip of its text.
  The content is a parameter.
- The time stamps from `datetime.now()` are a parameter.
- `os.path.exists` is a set of existing paths, and `os.listdir` is a listing parameter.
- `shutil.rmtree` of the old backup, and of the backups to remove, is not performed. `App.DeleteBackupFolders` returns the directory and the names. Its early returns for an empty project path and for the backup made on opening are not modelled.
- `write_config_ini` is an assignment to `App.config`. `merge_settings_with_default_stylesheet` is not part of this model.
- `line.strip()` on the lines of the recent-projects file is left out; lines are given stripped.
- `open_project` is modelled only for its splitting of the entry and its `.qda` test. The connection and the backup it makes are left out.
- The misspelled key `dialogmanagesttributes_w`, and the two keys listed twice, are kept as the source lists them.
- `merge_codes` also updates `code_av` and `code_image`. Those tables are not part of this model.
- `CodeText.Loaded`: the query orders codings by the length of their text, longest first, for drawing. The model keeps table order and states membership only.
- `ManageFilesDialog.FileManager.constructor`: the source list is ordered by name in the source. The model keeps table order.
- `ManageFiles.StaleIds`: the ids come in order of first appearance rather than ascending. The deletes leave the same rows either way.
- `ManageFiles.CrossoverCheckFacts`: when an annotation rejects the selection, the codings that hold the selection were already gathered. The contract does not state that list, only that the other two are empty.
- `ManageFiles.Kept`: its own contract gives only the length bound. Which characters are kept is stated by `ManageFiles.DroppedIffInTag`.
- `ManageFiles.MoveAllById`, `ManageFiles.StretchRows`, `ManageFiles.StretchAllRows`: their contracts give the length. What they change is stated by `ManageFiles.MoveAllByIdPointwise` and the `KeepsIds` lemmas.
- `CodeText.Snippet`: for a long text, the contract bounds the length rather than stating the exact cut at word boundaries.
- `Strings.Split`: its own contract gives only the count of pieces. What the pieces are is stated by `Strings.JoinSplit`, `Strings.SplitPartsAvoidSep` and `Strings.SplitPieceAt`.

## Findings

| source | as written | input that shows it | evidently intended | confidence | as-written member | corrected member |
|---|---|---|---|---|---|---|
| qualcoder/code_text.py:434-438 | A new search sets the index to -1. "Previous" then subtracts one and wraps only at -1, so it lands on -2. | One result, then "Previous": `search_indices[-2]` raises `IndexError`. With more results, it shows the second-to-last. | Wrap to the last result from before the first. | high; not executed | `CodeText.PreviousAfterSearch` | `CodeText.PreviousIndex` |
| qualcoder/code_text.py:676-677 | Shift+Right refuses when `pos1 + 1 >= len(text)`, so a coding can never be extended to the last character. | Text "abc", coding 0..2, Shift+Right: refused, though 0..3 lies in the text. | Refuse only when `pos1 + 1 > len(text)`. | high; not executed | `CodeText.ExtendRightStopsShort` | `CodeText.ExtendedRight` |
| qualcoder/manage_files.py:810-812 | The codings past the selection are moved by their old `(pos0, pos1)`, one update at a time. A coding moved onto a span still to be moved is moved again. | Codings 10..20 and 15..25 of one file, edit that adds 5 before them: the first ends at 20..30. | Each coding past the selection moves once. | high; not executed | `ManageFiles.DoubleShiftExample` | `ManageFiles.MoveCodingsAfter` |
| qualcoder/manage_files.py:819-825 | The spans that hold the selection are queried again after the shift. A span moved into the selection makes that check report a crossover, and nothing is stretched. | "abcdefghijkl", codings 0..4 and 5..8, selection 0..4 replaced by "xy": coding 0..4 keeps "abcd" in "xyefghijkl". | Stretch the spans that held the selection before the edit. | high; not executed | `ManageFiles.RequeryExample` | `ManageFiles.IntendedEditKeepsCodedText` |
| qualcoder/manage_files.py:772-774 | A same-length edit returns before any span update, so a coding of the selection keeps its old copy of the text. | "teh cat", coding 0..3 "teh", selection 0..3 replaced by "the": the coding keeps "teh". | Copy the new text into the codings that hold the selection. | high; not executed | `ManageFiles.SameLengthExample` | `ManageFiles.IntendedEditKeepsCodedText` |
| qualcoder/manage_files.py:257-263 | Every attribute row whose id is no source id is deleted, whatever its type. A case attribute's id is a case id. | Case attribute "age" for case 7, only source 1: the case's value is deleted. | Delete only file attributes of deleted files. | high; not executed | `ManageFiles.PlaceholdersDropCaseValue` | `ManageFiles.CheckPlaceholdersIntendedFacts` |
| qualcoder/qualcoder.py:218-226 | The dated entry is appended, the list is sorted ascending, and the first ten lines are written. The newest entry sorts last. | Ten projects listed, open an eleventh: its entry is not written. | Sort newest first, as the read does, so the new entry is the first line. | high; not executed | `QualCoderApp.AppendDropsNewest` | `QualCoderApp.AppendIntendedKeepsNewest` |

The dialog methods follow the source as written. The corrected definitions
stand beside them:
- `CodeText.PreviousIndex`;
- `CodeText.ExtendedRight`;
- `ManageFiles.ShiftCodingsAfter`;
- `ManageFiles.IntendedEdit`;
- `ManageFiles.CheckPlaceholdersIntended`;
- `QualCoderApp.AppendedFileIntended`.

Each has its intended property proved about it.
