/** The project database as in-memory tables: each SQLite table is a sequence
    of records, a `WHERE` clause is a predicate on a record, and the
    `UNIQUE(cid, fid, pos0, pos1, owner)` constraint of `code_text` is checked
    on every statement that writes to that table. */
module Store {

  datatype Option<T> = None | Some(value: T)

  /** What a statement against `code_text` does: it either takes effect or is
      refused as a whole by the uniqueness constraint (SQLite rolls the
      statement back and raises an integrity error). */
  datatype Result<T> = Ok(value: T) | UniqueViolation

  /** A row of `code_text`: code `cid` applied by `owner` to characters
      `pos0`..`pos1` of file `fid`, with a copy `seltext` of those characters. */
  datatype CodedText = CodedText(cid: int, fid: int, seltext: string, pos0: int, pos1: int,
                                 owner: string, memo: string, date: string)

  /** A row of `annotation` or of `case_text`, which have the same shape: `id` is
      the row's primary key (`anid` or `id`) and `caseid` is the linked case
      (unused, 0, for an annotation). */
  datatype SpanRow = SpanRow(id: int, fid: int, pos0: int, pos1: int, caseid: int,
                             owner: string, memo: string, date: string)

  /** A row of `source`; `mediapath` is None for a text file. */
  datatype Source = Source(id: int, name: string, fulltext: string, mediapath: Option<string>)

  /** A row of `code_name`. */
  datatype CodeName = CodeName(cid: int, name: string, color: string)

  /** A row of `attribute_type`; `caseOrFile` is "case" or "file". */
  datatype AttributeType = AttributeType(name: string, caseOrFile: string)

  /** A row of `attribute`: the value of attribute `name` for case or file `id`. */
  datatype Attribute = Attribute(name: string, attrType: string, value: string, id: int,
                                 date: string, owner: string)

  /** The columns of the uniqueness constraint of `code_text`. */
  datatype CodingKey = CodingKey(cid: int, fid: int, pos0: int, pos1: int, owner: string)

  function KeyOf(c: CodedText): CodingKey {
    CodingKey(c.cid, c.fid, c.pos0, c.pos1, c.owner)
  }

  predicate HasKey(t: seq<CodedText>, k: CodingKey) {
    exists i :: 0 <= i < |t| && KeyOf(t[i]) == k
  }

  predicate UniqueKeys(t: seq<CodedText>) {
    forall i, j :: 0 <= i < j < |t| ==> KeyOf(t[i]) != KeyOf(t[j])
  }

  predicate UniqueRowIds(t: seq<SpanRow>) {
    forall i, j :: 0 <= i < j < |t| ==> t[i].id != t[j].id
  }

  predicate UniqueSourceIds(t: seq<Source>) {
    forall i, j :: 0 <= i < j < |t| ==> t[i].id != t[j].id
  }

  /** A table is its rows before the last one followed by the last one. */
  lemma FrontAndLast<T>(t: seq<T>)
    requires |t| > 0
    ensures t[..|t| - 1] + [t[|t| - 1]] == t
  {
  }

  /** The first `n` rows are the first `n - 1` followed by row `n - 1`. */
  lemma PrefixAndLast<T>(t: seq<T>, n: nat)
    requires 0 < n <= |t|
    ensures t[..n] == t[..n - 1] + [t[n - 1]]
  {
  }

  /** `UPDATE ... SET f(row) WHERE p(row)` on any table, without a constraint. */
  function MapWhere<T>(t: seq<T>, p: T -> bool, f: T -> T): (r: seq<T>)
    ensures |r| == |t|
    ensures forall i :: 0 <= i < |t| ==> r[i] == if p(t[i]) then f(t[i]) else t[i]
  {
    seq(|t|, i requires 0 <= i < |t| => if p(t[i]) then f(t[i]) else t[i])
  }

  /** `SELECT ... WHERE p(row)`: the rows that match, in order (and what
      `DELETE ... WHERE` leaves is `Where` of the negated condition). */
  function Where<T(==, !new)>(t: seq<T>, p: T -> bool): (r: seq<T>)
    ensures |r| <= |t|
    ensures forall x :: x in r <==> x in t && p(x)
  {
    if |t| == 0 then []
    else
      assert t == t[..|t| - 1] + [t[|t| - 1]];
      Where(t[..|t| - 1], p) + (if p(t[|t| - 1]) then [t[|t| - 1]] else [])
  }

  /** `INSERT INTO code_text`: refused when a row with the same key exists. */
  function InsertCoding(t: seq<CodedText>, c: CodedText): (r: Result<seq<CodedText>>)
    ensures r.Ok? <==> !HasKey(t, KeyOf(c))
    ensures r.Ok? ==> r.value == t + [c]
    ensures UniqueKeys(t) && r.Ok? ==> UniqueKeys(r.value)
  {
    if HasKey(t, KeyOf(c)) then UniqueViolation else Ok(t + [c])
  }

  /** `UPDATE code_text SET f(row) WHERE p(row)`: refused as a whole when the
      updated table would hold two rows with one key. */
  function UpdateCodings(t: seq<CodedText>, p: CodedText -> bool, f: CodedText -> CodedText)
    : (r: Result<seq<CodedText>>)
    ensures r.Ok? <==> UniqueKeys(MapWhere(t, p, f))
    ensures r.Ok? ==> r.value == MapWhere(t, p, f)
  {
    var u := MapWhere(t, p, f);
    if UniqueKeys(u) then Ok(u) else UniqueViolation
  }

  /** Inserting one coding twice leaves exactly one row with its key: the
      second insert is refused. */
  lemma DuplicateInsertRefused(t: seq<CodedText>, c: CodedText, c': CodedText)
    requires UniqueKeys(t) && !HasKey(t, KeyOf(c)) && KeyOf(c') == KeyOf(c)
    ensures InsertCoding(t, c).Ok?
    ensures InsertCoding(InsertCoding(t, c).value, c') == UniqueViolation
    ensures forall i :: 0 <= i < |t| + 1 && KeyOf(InsertCoding(t, c).value[i]) == KeyOf(c) ==> i == |t|
  {
    var u := t + [c];
    assert KeyOf(u[|t|]) == KeyOf(c');
  }

  /** The project file's tables. */
  class Database {
    var sources: seq<Source>
    var codeNames: seq<CodeName>
    var codeText: seq<CodedText>
    var annotations: seq<SpanRow>
    var caseText: seq<SpanRow>
    var attributeTypes: seq<AttributeType>
    var attributes: seq<Attribute>

    /** The table constraints: primary keys and the uniqueness of codings. */
    ghost predicate Valid()
      reads this
    {
      UniqueSourceIds(sources) && UniqueKeys(codeText)
      && UniqueRowIds(annotations) && UniqueRowIds(caseText)
    }

    /** A new, empty project. */
    constructor ()
      ensures Valid()
      ensures sources == [] && codeNames == [] && codeText == []
      ensures annotations == [] && caseText == [] && attributeTypes == [] && attributes == []
    {
      sources, codeNames, codeText := [], [], [];
      annotations, caseText, attributeTypes, attributes := [], [], [], [];
    }
  }
}
