/**
 * The CSV bulk import of users: reading the file into rows (`parseCSV`,
 * `parseCSVLine`), checking the rows against the known departments
 * (`validateUsers`) and the template offered for download
 * (`generateCSVTemplate`).
 */
module BulkImport {
  import opened Wrappers
  import opened Seqs
  import opened Text
  import opened Types

  // ---------------------------------------------------------------------------
  // parseCSVLine
  // ---------------------------------------------------------------------------

  predicate IsQuote(c: char) {
    c == '"'
  }

  /** An odd number of double quotes occurs in s: the scan of s ends inside quotes. */
  predicate InQuotes(s: string) {
    |Filter(IsQuote, s)| % 2 == 1
  }

  lemma InQuotesSnoc(s: string, c: char)
    ensures InQuotes(s + [c]) == if c == '"' then !InQuotes(s) else InQuotes(s)
  {
    FilterSnoc(IsQuote, s, c);
  }

  /** The number of commas in s that stand outside quotes: the field separators. */
  function SeparatorCount(s: string): nat
    decreases |s|
  {
    if s == [] then 0
    else SeparatorCount(DropLast(s)) + (if Last(s) == ',' && !InQuotes(DropLast(s)) then 1 else 0)
  }

  /**
   * The raw fields of a line: the text between the commas that stand outside
   * quotes, with the quote characters still in it.
   */
  function Pieces(s: string): (r: seq<string>)
    ensures |r| == 1 + SeparatorCount(s)
    decreases |s|
  {
    if s == [] then [""]
    else
      var p := Pieces(DropLast(s));
      if Last(s) == ',' && !InQuotes(DropLast(s)) then p + [""]
      else DropLast(p) + [Last(p) + [Last(s)]]
  }

  /** Rejoining the raw fields with commas gives back the line: nothing but separators is lost. */
  lemma {:induction false} JoinPieces(s: string)
    ensures Join(Pieces(s), ",") == s
    decreases |s|
  {
    if s != [] {
      var init, c := DropLast(s), Last(s);
      var p := Pieces(init);
      JoinPieces(init);
      if c == ',' && !InQuotes(init) {
        assert Pieces(s) == p + [""];
        JoinEmptyLast(p, ",");
      } else {
        assert Pieces(s) == DropLast(p) + [Last(p) + [c]];
        JoinExtendLast(p, ",", [c]);
      }
      assert init + [c] == s;
    }
  }

  /** A line without quotes breaks into raw fields exactly where `split(',')` breaks it. */
  lemma {:induction false} PiecesWithoutQuotes(s: string)
    requires '"' !in s
    ensures Pieces(s) == Split(s, ',')
    decreases |s|
  {
    if s != [] {
      assert '"' !in DropLast(s) by { assert forall c :: c in DropLast(s) ==> c in s; }
      FilterDropsAll(IsQuote, DropLast(s));
      PiecesWithoutQuotes(DropLast(s));
    }
  }

  /** A raw field as the parser returns it: quotes removed, then trimmed. */
  function CleanField(piece: string): string {
    Trim(RemoveQuotes(piece))
  }

  /**
   * What `parseCSVLine` returns: one field per raw field, so one more than
   * the commas outside quotes, none holding a quote, each one trimmed.
   */
  function Fields(line: string): (r: seq<string>)
    ensures |r| == 1 + SeparatorCount(line)
    ensures forall k :: 0 <= k < |r| ==> '"' !in r[k] && IsTrimmed(r[k])
  {
    var r := Map(CleanField, Pieces(line));
    assert forall k :: 0 <= k < |r| ==> '"' !in r[k] by {
      forall k | 0 <= k < |r| ensures '"' !in r[k] { TrimChars(RemoveQuotes(Pieces(line)[k])); }
    }
    r
  }

  /** On a line without quotes, parsing equals `line.split(',').map(s => s.trim())`. */
  lemma FieldsWithoutQuotes(line: string)
    requires '"' !in line
    ensures Fields(line) == Map(Trim, Split(line, ','))
  {
    PiecesWithoutQuotes(line);
    SplitPiecesChars(line, ',');
    var p := Split(line, ',');
    forall k | 0 <= k < |p| ensures CleanField(p[k]) == Trim(p[k]) {
      assert '"' !in p[k];
    }
  }

  /** A comma outside quotes closes the current raw field and opens an empty one. */
  lemma ScanSeparator(s: string)
    requires !InQuotes(s)
    ensures Map(CleanField, DropLast(Pieces(s + [',']))) == Map(CleanField, DropLast(Pieces(s))) + [Trim(RemoveQuotes(Last(Pieces(s))))]
    ensures RemoveQuotes(Last(Pieces(s + [',']))) == ""
  {
    var p := Pieces(s);
    SnocParts(s, ',');
    assert Pieces(s + [',']) == p + [""];
    assert DropLast(p + [""]) == p;
    MapSnoc(CleanField, DropLast(p), Last(p));
    DropLastAndLast(p);
  }

  /** Any other character joins the current raw field; a quote leaves no trace after quote removal. */
  lemma ScanOther(s: string, ch: char)
    requires !(ch == ',' && !InQuotes(s))
    ensures DropLast(Pieces(s + [ch])) == DropLast(Pieces(s))
    ensures RemoveQuotes(Last(Pieces(s + [ch]))) == RemoveQuotes(Last(Pieces(s))) + (if ch == '"' then [] else [ch])
  {
    var p := Pieces(s);
    SnocParts(s, ch);
    assert Pieces(s + [ch]) == DropLast(p) + [Last(p) + [ch]];
    RemoveQuotesSnoc(Last(p), ch);
  }

  /** `parseCSVLine`: the character-by-character scanner, with `current` and `inQuotes`. */
  method ParseCsvLine(line: string) returns (values: seq<string>)
    ensures values == Fields(line)
  {
    values := [];
    var current: string := "";
    var inQuotes := false;
    for i := 0 to |line|
      invariant inQuotes == InQuotes(line[..i])
      invariant current == RemoveQuotes(Last(Pieces(line[..i])))
      invariant values == Map(CleanField, DropLast(Pieces(line[..i])))
    {
      var ch := line[i];
      assert line[..i + 1] == line[..i] + [ch];
      InQuotesSnoc(line[..i], ch);
      if ch == '"' {
        ScanOther(line[..i], ch);
        inQuotes := !inQuotes;
      } else if ch == ',' && !inQuotes {
        ScanSeparator(line[..i]);
        values := values + [Trim(current)];
        current := "";
      } else {
        ScanOther(line[..i], ch);
        current := current + [ch];
      }
    }
    ghost var p := Pieces(line);
    assert line[..|line|] == line;
    MapSnoc(CleanField, DropLast(p), Last(p));
    DropLastAndLast(p);
    values := values + [Trim(current)];
  }

  // ---------------------------------------------------------------------------
  // parseCSV
  // ---------------------------------------------------------------------------

  /** The errors `parseCSV` throws; `Message` is the text of the thrown Error. */
  datatype CsvError = TooFewLines | MissingNameColumn | MissingDepartmentColumn
  {
    function Message(): (r: string)
      ensures "CSV " <= r
    {
      match this
      case TooFewLines => "CSV " + "file must have a header row and at least one data row"
      case MissingNameColumn => "CSV must have a \"Name\" column"
      case MissingDepartmentColumn => "CSV must have a \"Department\" column"
    }
  }

  /** The three errors can be told apart by their text alone. */
  lemma MessagesDistinct(a: CsvError, b: CsvError)
    requires a != b
    ensures a.Message() != b.Message()
  {
  }

  predicate IsNonBlank(line: string) {
    Trim(line) != ""
  }

  /** `csvContent.split('\n').filter(line => line.trim() !== '')`. */
  function NonBlankLines(content: string): (r: seq<string>)
    ensures forall k :: 0 <= k < |r| ==> IsNonBlank(r[k]) && '\n' !in r[k]
    ensures |r| <= |Split(content, '\n')|
  {
    var r := Filter(IsNonBlank, Split(content, '\n'));
    FilterMembers(IsNonBlank, Split(content, '\n'));
    r
  }

  /** A header cell as the column lookup compares it: trimmed, lower-cased, quotes removed. */
  function HeaderKey(cell: string): (r: string)
    ensures '"' !in r
  {
    RemoveQuotes(ToLower(Trim(cell)))
  }

  /** The header line is split on every comma, quoted or not. */
  function HeaderKeys(headerLine: string): (r: seq<string>)
    ensures |r| == |Split(headerLine, ',')|
    ensures forall k :: 0 <= k < |r| ==> '"' !in r[k]
  {
    Map(HeaderKey, Split(headerLine, ','))
  }

  /** `findIndex(h => h === key)`: the first position of key, or -1. */
  function FindIndex(cells: seq<string>, key: string): (r: int)
    ensures -1 <= r < |cells|
    ensures r == -1 <==> key !in cells
    ensures r >= 0 ==> cells[r] == key && key !in cells[..r]
  {
    if cells == [] then -1
    else if cells[0] == key then 0
    else
      var k := FindIndex(cells[1..], key);
      assert cells == [cells[0]] + cells[1..];
      if k == -1 then -1
      else
        assert cells[..k + 1] == [cells[0]] + cells[1..][..k];
        k + 1
  }

  /** `values[index]?.trim().replace(/"/g, '') || ''`: a missing cell reads as "". */
  function Cell(values: seq<string>, index: nat): (r: string)
    ensures '"' !in r
    ensures index >= |values| ==> r == ""
  {
    if index < |values| then RemoveQuotes(Trim(values[index])) else ""
  }

  /**
   * The row read from non-blank line i (the header is line 0): nothing when
   * there is no such line or its name cell is empty, otherwise a row
   * numbered i + 1.
   */
  function RowAt(lines: seq<string>, i: nat, nameIndex: nat, departmentIndex: nat): (r: seq<ParsedUserRow>)
    ensures |r| <= 1
    ensures r != [] ==> r[0].rowNumber == i + 1 && r[0].name != "" && '"' !in r[0].name && '"' !in r[0].department
  {
    if i >= |lines| then []
    else
      var line := Trim(lines[i]);
      if line == "" then []
      else
        var values := Fields(line);
        var name := Cell(values, nameIndex);
        if name == "" then [] else [ParsedUserRow(name, Cell(values, departmentIndex), i + 1)]
  }

  /** Line i yields at most one row, and that row carries the number i + 1. */
  ghost predicate Numbered(read: nat -> seq<ParsedUserRow>) {
    forall i: nat :: |read(i)| <= 1 && (read(i) != [] ==> read(i)[0].rowNumber == i + 1)
  }

  /** The rows that lines 1 .. n - 1 yield, in line order. */
  function RowsOf(read: nat -> seq<ParsedUserRow>, n: nat): seq<ParsedUserRow>
    requires n >= 1
    decreases n
  {
    if n == 1 then [] else RowsOf(read, n - 1) + read(n - 1)
  }

  lemma {:induction false} RowsOfNumbered(read: nat -> seq<ParsedUserRow>, n: nat)
    requires n >= 1 && Numbered(read)
    ensures forall k :: 0 <= k < |RowsOf(read, n)| ==> 2 <= RowsOf(read, n)[k].rowNumber <= n
    ensures forall k :: 0 <= k < |RowsOf(read, n)| ==> read(RowsOf(read, n)[k].rowNumber - 1) == [RowsOf(read, n)[k]]
    ensures forall k, l :: 0 <= k < l < |RowsOf(read, n)| ==> RowsOf(read, n)[k].rowNumber < RowsOf(read, n)[l].rowNumber
    decreases n
  {
    if n > 1 {
      RowsOfNumbered(read, n - 1);
      var prefix := RowsOf(read, n - 1);
      var row := read(n - 1);
      var r := RowsOf(read, n);
      assert r == prefix + row;
      assert |row| <= 1;
      forall k | 0 <= k < |r|
        ensures 2 <= r[k].rowNumber <= n && read(r[k].rowNumber - 1) == [r[k]]
      {
        if k < |prefix| {
          assert r[k] == prefix[k];
        } else {
          assert r[k] == row[0] && row == [row[0]];
        }
      }
      forall k, l | 0 <= k < l < |r|
        ensures r[k].rowNumber < r[l].rowNumber
      {
        assert r[k] == prefix[k];
        if l < |prefix| {
          assert r[l] == prefix[l];
        } else {
          assert r[l] == row[0];
        }
      }
    }
  }

  lemma {:induction false} RowsOfComplete(read: nat -> seq<ParsedUserRow>, n: nat, i: nat)
    requires 1 <= i < n && Numbered(read) && read(i) != []
    ensures exists k :: 0 <= k < |RowsOf(read, n)| && RowsOf(read, n)[k] == read(i)[0]
    decreases n
  {
    var prefix := RowsOf(read, n - 1);
    var r := RowsOf(read, n);
    assert r == prefix + read(n - 1);
    if i == n - 1 {
      assert r[|prefix|] == read(i)[0];
    } else {
      RowsOfComplete(read, n - 1, i);
      var k :| 0 <= k < |prefix| && prefix[k] == read(i)[0];
      assert r[k] == prefix[k];
    }
  }

  /** The reader `parseCSV` applies to its non-blank lines once it knows the two columns. */
  function Reader(lines: seq<string>, nameIndex: nat, departmentIndex: nat): nat -> seq<ParsedUserRow> {
    (i: nat) => RowAt(lines, i, nameIndex, departmentIndex)
  }

  lemma ReaderNumbered(lines: seq<string>, nameIndex: nat, departmentIndex: nat)
    ensures Numbered(Reader(lines, nameIndex, departmentIndex))
  {
    var read := Reader(lines, nameIndex, departmentIndex);
    forall i: nat ensures |read(i)| <= 1 && (read(i) != [] ==> read(i)[0].rowNumber == i + 1) {
      assert read(i) == RowAt(lines, i, nameIndex, departmentIndex);
    }
  }

  /** The rows read from the data lines lines[1..n], in line order. */
  function DataRows(lines: seq<string>, n: nat, nameIndex: nat, departmentIndex: nat): seq<ParsedUserRow>
    requires 1 <= n
  {
    RowsOf(Reader(lines, nameIndex, departmentIndex), n)
  }

  lemma DataRowsSnoc(lines: seq<string>, n: nat, nameIndex: nat, departmentIndex: nat)
    requires 1 <= n
    ensures DataRows(lines, n + 1, nameIndex, departmentIndex)
         == DataRows(lines, n, nameIndex, departmentIndex) + RowAt(lines, n, nameIndex, departmentIndex)
  {
    assert Reader(lines, nameIndex, departmentIndex)(n) == RowAt(lines, n, nameIndex, departmentIndex);
  }

  lemma {:induction false} RowsOfCount(read: nat -> seq<ParsedUserRow>, n: nat)
    requires n >= 1 && Numbered(read)
    ensures |RowsOf(read, n)| <= n - 1
    decreases n
  {
    if n > 1 {
      RowsOfCount(read, n - 1);
      assert |read(n - 1)| <= 1;
    }
  }

  /** Row k of the rows is the row of line j, where j + 1 is its number. */
  lemma RowsOfAt(read: nat -> seq<ParsedUserRow>, n: nat, k: nat) returns (j: nat)
    requires 1 <= n && Numbered(read)
    requires k < |RowsOf(read, n)|
    ensures 1 <= j < n && RowsOf(read, n)[k].rowNumber == j + 1
    ensures read(j) == [RowsOf(read, n)[k]]
  {
    RowsOfNumbered(read, n);
    j := RowsOf(read, n)[k].rowNumber - 1;
  }

  /**
   * Each row comes from one data line: row k is the row that line j reads
   * as, and its number j + 1 is the position of the line among the non-blank
   * lines plus one, so at least 2; its name is non-empty, and neither its name
   * nor its department holds a quote.
   */
  lemma DataRowAt(lines: seq<string>, n: nat, nameIndex: nat, departmentIndex: nat, k: nat) returns (j: nat)
    requires 1 <= n && k < |DataRows(lines, n, nameIndex, departmentIndex)|
    ensures 1 <= j < n && DataRows(lines, n, nameIndex, departmentIndex)[k].rowNumber == j + 1
    ensures RowAt(lines, j, nameIndex, departmentIndex) == [DataRows(lines, n, nameIndex, departmentIndex)[k]]
    ensures var row := DataRows(lines, n, nameIndex, departmentIndex)[k];
      row.name != "" && '"' !in row.name && '"' !in row.department
  {
    assert DataRows(lines, n, nameIndex, departmentIndex) == RowsOf(Reader(lines, nameIndex, departmentIndex), n);
    ReaderNumbered(lines, nameIndex, departmentIndex);
    j := RowsOfAt(Reader(lines, nameIndex, departmentIndex), n, k);
    assert Reader(lines, nameIndex, departmentIndex)(j) == RowAt(lines, j, nameIndex, departmentIndex);
  }

  /** At most one row per data line. */
  lemma DataRowsCount(lines: seq<string>, n: nat, nameIndex: nat, departmentIndex: nat)
    requires 1 <= n
    ensures |DataRows(lines, n, nameIndex, departmentIndex)| <= n - 1
  {
    assert DataRows(lines, n, nameIndex, departmentIndex) == RowsOf(Reader(lines, nameIndex, departmentIndex), n);
    ReaderNumbered(lines, nameIndex, departmentIndex);
    RowsOfCount(Reader(lines, nameIndex, departmentIndex), n);
  }

  /** Every row has a non-empty name, and neither its name nor its department holds a quote. */
  lemma DataRowsClean(lines: seq<string>, n: nat, nameIndex: nat, departmentIndex: nat)
    requires 1 <= n
    ensures forall k :: 0 <= k < |DataRows(lines, n, nameIndex, departmentIndex)| ==>
      var row := DataRows(lines, n, nameIndex, departmentIndex)[k];
      row.name != "" && '"' !in row.name && '"' !in row.department
  {
    forall k | 0 <= k < |DataRows(lines, n, nameIndex, departmentIndex)|
      ensures var row := DataRows(lines, n, nameIndex, departmentIndex)[k];
        row.name != "" && '"' !in row.name && '"' !in row.department
    {
      var j := DataRowAt(lines, n, nameIndex, departmentIndex, k);
    }
  }

  /** The rows come out in line order: their numbers strictly increase. */
  lemma DataRowsIncreasing(lines: seq<string>, n: nat, nameIndex: nat, departmentIndex: nat)
    requires 1 <= n
    ensures forall k, l :: 0 <= k < l < |DataRows(lines, n, nameIndex, departmentIndex)| ==>
      DataRows(lines, n, nameIndex, departmentIndex)[k].rowNumber < DataRows(lines, n, nameIndex, departmentIndex)[l].rowNumber
  {
    assert DataRows(lines, n, nameIndex, departmentIndex) == RowsOf(Reader(lines, nameIndex, departmentIndex), n);
    ReaderNumbered(lines, nameIndex, departmentIndex);
    RowsOfNumbered(Reader(lines, nameIndex, departmentIndex), n);
  }

  /** Every data line whose name cell is non-empty yields its row. */
  lemma DataRowsComplete(lines: seq<string>, n: nat, nameIndex: nat, departmentIndex: nat, i: nat)
    requires 1 <= i < n
    requires RowAt(lines, i, nameIndex, departmentIndex) != []
    ensures exists k :: 0 <= k < |DataRows(lines, n, nameIndex, departmentIndex)|
                     && DataRows(lines, n, nameIndex, departmentIndex)[k] == RowAt(lines, i, nameIndex, departmentIndex)[0]
  {
    assert DataRows(lines, n, nameIndex, departmentIndex) == RowsOf(Reader(lines, nameIndex, departmentIndex), n);
    ReaderNumbered(lines, nameIndex, departmentIndex);
    assert Reader(lines, nameIndex, departmentIndex)(i) == RowAt(lines, i, nameIndex, departmentIndex);
    RowsOfComplete(Reader(lines, nameIndex, departmentIndex), n, i);
  }

  /** The loop of `parseCSV` over the data lines lines[1..], pushing one row per named line. */
  method ReadRows(lines: seq<string>, nameIndex: nat, departmentIndex: nat) returns (users: seq<ParsedUserRow>)
    requires |lines| >= 1
    ensures users == DataRows(lines, |lines|, nameIndex, departmentIndex)
  {
    users := [];
    for i := 1 to |lines|
      invariant users == DataRows(lines, i, nameIndex, departmentIndex)
    {
      DataRowsSnoc(lines, i, nameIndex, departmentIndex);
      var line := Trim(lines[i]);
      if line == "" {
        assert RowAt(lines, i, nameIndex, departmentIndex) == [];
        continue;
      }
      var values := ParseCsvLine(line);
      var name := Cell(values, nameIndex);
      var department := Cell(values, departmentIndex);
      if name != "" {
        assert RowAt(lines, i, nameIndex, departmentIndex) == [ParsedUserRow(name, department, i + 1)];
        users := users + [ParsedUserRow(name, department, i + 1)];
      } else {
        assert RowAt(lines, i, nameIndex, departmentIndex) == [];
      }
    }
  }

  /**
   * `parseCSV`: fewer than two non-blank lines, a header without a "name"
   * cell, or one without a "department" cell (checked in that order) is an
   * error; otherwise the rows of the data lines.
   */
  method ParseCsv(content: string) returns (r: Result<seq<ParsedUserRow>, CsvError>)
    ensures var lines := NonBlankLines(content);
      && (r == Err(TooFewLines) <==> |lines| < 2)
      && (r == Err(MissingNameColumn) <==> |lines| >= 2 && "name" !in HeaderKeys(lines[0]))
      && (r == Err(MissingDepartmentColumn) <==>
            |lines| >= 2 && "name" in HeaderKeys(lines[0]) && "department" !in HeaderKeys(lines[0]))
      && (r.Ok? ==>
            && |lines| >= 2
            && r.value == DataRows(lines, |lines|,
                                   FindIndex(HeaderKeys(lines[0]), "name"),
                                   FindIndex(HeaderKeys(lines[0]), "department"))
            && |r.value| <= |lines| - 1)
  {
    var lines := NonBlankLines(content);
    if |lines| < 2 {
      return Err(TooFewLines);
    }
    var header := HeaderKeys(lines[0]);
    var nameIndex := FindIndex(header, "name");
    var departmentIndex := FindIndex(header, "department");
    if nameIndex == -1 {
      return Err(MissingNameColumn);
    }
    if departmentIndex == -1 {
      return Err(MissingDepartmentColumn);
    }
    var users := ReadRows(lines, nameIndex, departmentIndex);
    DataRowsCount(lines, |lines|, nameIndex, departmentIndex);
    return Ok(users);
  }

  // ---------------------------------------------------------------------------
  // validateUsers
  // ---------------------------------------------------------------------------

  const NameTooShort := "Name must be at least 2 characters"
  const DepartmentRequired := "Department is required"

  function UnknownDepartment(department: string): string {
    "Department \"" + department + "\" does not exist in the system"
  }

  function LowerName(d: Department): string {
    ToLower(d.name)
  }

  /** `departments.map(d => d.name.toLowerCase())`. */
  function DepartmentNames(departments: seq<Department>): (r: seq<string>)
    ensures |r| == |departments|
    ensures forall i :: 0 <= i < |r| ==> r[i] == ToLower(departments[i].name)
  {
    Map(LowerName, departments)
  }

  /** The messages collected for one row: the name check first, then the department check. */
  function RowErrors(row: ParsedUserRow, departmentNames: seq<string>): (r: seq<string>)
    ensures |r| <= 2
    ensures r == [] <==> |row.name| >= 2 && row.department != "" && ToLower(row.department) in departmentNames
  {
    (if |row.name| < 2 then [NameTooShort] else [])
    + (if row.department == "" then [DepartmentRequired]
       else if ToLower(row.department) !in departmentNames then [UnknownDepartment(row.department)]
       else [])
  }

  function Accepts(departmentNames: seq<string>): ParsedUserRow -> bool {
    row => RowErrors(row, departmentNames) == []
  }

  function Rejects(departmentNames: seq<string>): ParsedUserRow -> bool {
    row => RowErrors(row, departmentNames) != []
  }

  function Reject(departmentNames: seq<string>): ParsedUserRow -> InvalidRow {
    row => InvalidRow(row, Join(RowErrors(row, departmentNames), "; "))
  }

  /** One more row lands in exactly one of the two lists, at its end. */
  lemma ValidationStep(rows: seq<ParsedUserRow>, row: ParsedUserRow, departmentNames: seq<string>)
    ensures Filter(Accepts(departmentNames), rows + [row])
         == Filter(Accepts(departmentNames), rows) + (if RowErrors(row, departmentNames) == [] then [row] else [])
    ensures Map(Reject(departmentNames), Filter(Rejects(departmentNames), rows + [row]))
         == Map(Reject(departmentNames), Filter(Rejects(departmentNames), rows))
            + (if RowErrors(row, departmentNames) != [] then [Reject(departmentNames)(row)] else [])
  {
    FilterSnoc(Accepts(departmentNames), rows, row);
    FilterSnoc(Rejects(departmentNames), rows, row);
    MapSnoc(Reject(departmentNames), Filter(Rejects(departmentNames), rows), row);
  }

  /** The checks `validateUsers` runs on one row, pushing a message per failed check. */
  method CollectErrors(user: ParsedUserRow, departmentNames: seq<string>) returns (errors: seq<string>)
    ensures errors == RowErrors(user, departmentNames)
  {
    errors := [];
    if |user.name| < 2 {
      errors := errors + [NameTooShort];
    }
    if user.department == "" {
      errors := errors + [DepartmentRequired];
    } else if ToLower(user.department) !in departmentNames {
      errors := errors + [UnknownDepartment(user.department)];
    }
  }

  /** `validateUsers`: one pass over the rows, sending each to the valid or the invalid list. */
  method ValidateUsers(users: seq<ParsedUserRow>, departments: seq<Department>) returns (r: ValidationResult)
    ensures r.valid == Filter(Accepts(DepartmentNames(departments)), users)
    ensures r.invalid == Map(Reject(DepartmentNames(departments)), Filter(Rejects(DepartmentNames(departments)), users))
  {
    var validUsers: seq<ParsedUserRow> := [];
    var invalidUsers: seq<InvalidRow> := [];
    var departmentNames := DepartmentNames(departments);
    for i := 0 to |users|
      invariant validUsers == Filter(Accepts(departmentNames), users[..i])
      invariant invalidUsers == Map(Reject(departmentNames), Filter(Rejects(departmentNames), users[..i]))
    {
      var user := users[i];
      var errors := CollectErrors(user, departmentNames);
      assert users[..i + 1] == users[..i] + [user];
      ValidationStep(users[..i], user, departmentNames);
      if |errors| > 0 {
        invalidUsers := invalidUsers + [InvalidRow(user, Join(errors, "; "))];
      } else {
        validUsers := validUsers + [user];
      }
    }
    assert users[..|users|] == users;
    return ValidationResult(validUsers, invalidUsers);
  }

  /** A row is valid exactly when its name has two or more characters and its department exists. */
  lemma AcceptsIff(row: ParsedUserRow, departments: seq<Department>)
    ensures Accepts(DepartmentNames(departments))(row) <==>
      && |row.name| >= 2
      && row.department != ""
      && exists d :: d in departments && ToLower(d.name) == ToLower(row.department)
  {
    var names := DepartmentNames(departments);
    if ToLower(row.department) in names {
      var k :| 0 <= k < |names| && names[k] == ToLower(row.department);
      assert departments[k] in departments;
    }
    if exists d :: d in departments && ToLower(d.name) == ToLower(row.department) {
      var d :| d in departments && ToLower(d.name) == ToLower(row.department);
      var k :| 0 <= k < |departments| && departments[k] == d;
      assert names[k] == ToLower(row.department);
    }
  }

  /**
   * Validation splits the rows: every row lands in exactly one list, both
   * lists keep the input order, and each invalid entry carries its row.
   */
  lemma ValidationPartitions(users: seq<ParsedUserRow>, departments: seq<Department>)
    ensures var names := DepartmentNames(departments);
      var valid := Filter(Accepts(names), users);
      var rejected := Filter(Rejects(names), users);
      var invalid := Map(Reject(names), rejected);
      && |valid| + |invalid| == |users|
      && IsSubsequence(valid, users)
      && IsSubsequence(rejected, users)
      && (forall k :: 0 <= k < |invalid| ==> invalid[k].row == rejected[k])
  {
    var names := DepartmentNames(departments);
    FilterComplement(Accepts(names), Rejects(names), users);
    FilterIsSubsequence(Accepts(names), users);
    FilterIsSubsequence(Rejects(names), users);
  }

  /**
   * The error text of an invalid row: the name message first, then "; ",
   * then the department message; an empty department is reported as
   * required, never as unknown.
   */
  lemma ErrorText(row: ParsedUserRow, departments: seq<Department>)
    requires Rejects(DepartmentNames(departments))(row)
    ensures var error := Reject(DepartmentNames(departments))(row).error;
      var lead := if |row.name| < 2 then NameTooShort + "; " else "";
      && ((|row.name| < 2 && row.department != "" && ToLower(row.department) in DepartmentNames(departments))
            ==> error == NameTooShort)
      && (row.department == "" ==> error == lead + DepartmentRequired)
      && ((row.department != "" && ToLower(row.department) !in DepartmentNames(departments))
            ==> error == lead + UnknownDepartment(row.department))
  {
    var errors := RowErrors(row, DepartmentNames(departments));
    if |errors| == 2 {
      assert DropLast(errors) == [errors[0]];
      assert Join(errors, "; ") == errors[0] + "; " + errors[1];
    }
  }

  // ---------------------------------------------------------------------------
  // generateCSVTemplate
  // ---------------------------------------------------------------------------

  const TemplateHeader := "Name,Department"
  const ExampleRows := ["John Doe,Engineering", "Jane Smith,Marketing", "Bob Johnson,Finance"]
  const NoDepartments := "No departments found - " + "please create departments first"

  function DepartmentName(d: Department): string {
    d.name
  }

  /** `departments.map(d => d.name).join(', ')`. */
  function DepartmentList(departments: seq<Department>): (r: string)
    ensures departments == [] ==> r == ""
    ensures |departments| == 1 ==> r == departments[0].name
    ensures |departments| >= 2 ==> departments[0].name + ", " <= r
    ensures |departments| >= 2 ==> |r| >= 2 + |Last(departments).name| && r[|r| - 2 - |Last(departments).name|..] == ", " + Last(departments).name
  {
    var names := Map(DepartmentName, departments);
    if |departments| >= 2 then
      JoinEnds(names, ", ");
      Join(names, ", ")
    else
      Join(names, ", ")
  }

  /** The department line: the list, or the fallback text when the list is the empty string. */
  function AvailableDepartmentsLine(departments: seq<Department>): (r: string)
    ensures "# " <= r && |r| > 2
    ensures departments == [] ==> r == "# " + NoDepartments
    ensures |departments| >= 2 ==> r[2..] == DepartmentList(departments)
  {
    var list := DepartmentList(departments);
    "# " + (if list == "" then NoDepartments else list)
  }

  /** The instruction lines that follow the examples, ending with the department line. */
  function Instructions(departments: seq<Department>): (r: seq<string>)
    ensures |r| == 11 && r[0] == "" && r[1] == ""
    ensures Last(r) == AvailableDepartmentsLine(departments)
  {
    [ "",
      "",
      "# INSTRUCTIONS:",
      "# 1. Fill in the Name and Department columns above",
      "# 2. Department must match one of the existing departments in the system",
      "# 3. Delete these instruction lines before uploading",
      "# 4. Save the file and upload it",
      "# Note: The list above are examples",
      "#",
      "# Available Departments:",
      AvailableDepartmentsLine(departments) ]
  }

  /** `generateCSVTemplate`: the header, the examples and the instructions joined with line feeds. */
  function GenerateCsvTemplate(departments: seq<Department>): (r: string)
    ensures TemplateHeader + "\n" <= r
    ensures |r| >= 1 + |AvailableDepartmentsLine(departments)|
    ensures r[|r| - 1 - |AvailableDepartmentsLine(departments)|..] == "\n" + AvailableDepartmentsLine(departments)
  {
    var lines := [TemplateHeader] + ExampleRows + Instructions(departments);
    assert lines[0] == TemplateHeader && Last(lines) == AvailableDepartmentsLine(departments);
    JoinEnds(lines, "\n");
    Join(lines, "\n")
  }

  /** The header and the example rows hold no line feed. */
  lemma LeadingLinesOneEach()
    ensures forall j :: 0 <= j < 4 ==> '\n' !in ([TemplateHeader] + ExampleRows)[j]
  {
    assert '\n' !in TemplateHeader;
    assert '\n' !in ExampleRows[0] && '\n' !in ExampleRows[1] && '\n' !in ExampleRows[2];
  }

  /** The department line holds no line feed when no department name does. */
  lemma DepartmentsLineOneLine(departments: seq<Department>)
    requires forall k :: 0 <= k < |departments| ==> '\n' !in departments[k].name
    ensures '\n' !in AvailableDepartmentsLine(departments)
  {
    JoinAvoids(Map(DepartmentName, departments), ", ", '\n');
    assert '\n' !in NoDepartments;
  }

  /**
   * Lines that read as the template: at least 15 of them, first the header,
   * then the three example rows, and last the list of departments, or the
   * fallback text when the list is empty (in particular when there are no
   * departments).
   */
  predicate ReadsAsTemplate(lines: seq<string>, departments: seq<Department>) {
    && |lines| >= 15
    && lines[..4] == [TemplateHeader] + ExampleRows
    && Last(lines) == "# " + (if DepartmentList(departments) == "" then NoDepartments else DepartmentList(departments))
    && (departments == [] ==> Last(lines) == "# " + NoDepartments)
  }

  /** When no department name holds a line feed, the template splits back into its lines. */
  lemma TemplateShape(departments: seq<Department>)
    requires forall k :: 0 <= k < |departments| ==> '\n' !in departments[k].name
    ensures ReadsAsTemplate(Split(GenerateCsvTemplate(departments), '\n'), departments)
  {
    var head := [TemplateHeader] + ExampleRows;
    var rest := Instructions(departments);
    LeadingLinesOneEach();
    DepartmentsLineOneLine(departments);
    assert Last(head + rest) == AvailableDepartmentsLine(departments);
    JoinedShape(head, rest, '\n');
  }

  lemma JoinedShape(head: seq<string>, rest: seq<string>, c: char)
    requires |head| >= 1 && |rest| >= 1
    requires forall j :: 0 <= j < |head| ==> c !in head[j]
    requires c !in Last(head + rest)
    ensures |Split(Join(head + rest, [c]), c)| >= |head| + |rest|
    ensures Split(Join(head + rest, [c]), c)[..|head|] == head
    ensures Last(Split(Join(head + rest, [c]), c)) == Last(head + rest)
  {
    var parts := head + rest;
    SplitJoinLength(parts, c);
    SplitJoinLast(parts, c);
    assert forall j :: 0 <= j < |head| ==> parts[j] == head[j];
    SplitJoinPrefix(parts, c, |head|);
    assert parts[..|head|] == head;
  }
}
