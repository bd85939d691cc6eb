/**
 * `load_csv_to_sqlite_tool(directory_path)`: clears the metadata catalog,
 * opens `./tmp/db.sqlite`, and for every `.csv` entry of the directory reads
 * the file, normalises its column names and its text cells, replaces the
 * table named after the file in SQLite, and replaces that table's rows in the
 * catalog. Per-file failures are collected as messages; a failure to connect
 * or to list the directory ends the run with one message.
 *
 * The model is in two layers: `ProcessFile`, `Step` and `Run` say what one
 * entry and a whole listing do to the tables, the catalog, the count and the
 * messages; `LoadFile` and `LoadCsvToSqliteTool` do it step by step on the
 * store and the database and are proved to agree with them.
 */
module LoadCsv {
  import opened Wrappers
  import opened Text
  import opened Frames
  import opened NameNormalizer
  import opened Catalog
  import opened Database

  // ---------------------------------------------------------------------------
  // Inputs

  /** What `pd.read_csv` makes of a file: a frame, `EmptyDataError`, or any other exception. */
  datatype ParseOutcome = Parsed(frame: Frame) | EmptyData | ParseError(msg: string)

  /**
   * One name returned by `os.listdir`, with what pandas reads from it and what
   * `to_sql` raises when asked to store it (`None` when it succeeds).
   */
  datatype DirEntry = DirEntry(filename: string, parse: ParseOutcome, toSqlError: Option<string>)

  // ---------------------------------------------------------------------------
  // Messages

  /** `str(e)` for the `AttributeError` raised by `df[col].dtype` when `col` labels two columns. */
  const NoDtypeError: string := "'DataFrame' object has no attribute 'dtype'"

  function EmptyFileWarning(filename: string): string {
    "O arquivo CSV '" + filename + "' est\U{E1} vazio e foi ignorado."
  }

  function FailureMessage(filename: string, error: string): string {
    "Falha ao processar '" + filename + "': " + error
  }

  function ConnectionErrorMessage(error: string): string {
    "Erro ao estabelecer conex\U{E3}o com o banco de dados " + "ou listar diret\U{F3}rio: " + error
  }

  const LoadedSuffix: string :=
    " arquivos CSV carregados com sucesso" + " no SQLite e metadados atualizados."
  const ErrorsHeader: string := "\n\nErros/Avisos durante o processo:\n"

  /** The closing status: the count of loaded files, then every collected message, one per line. */
  function StatusMessage(loaded: nat, errors: seq<string>): (msg: string)
    ensures forall k :: 0 <= k < |errors| ==> Contains(msg, errors[k])
    // The error block is appended only when there is something to report.
    ensures errors == [] <==> msg == NatToString(loaded) + LoadedSuffix
    ensures errors != [] ==> StartsWith(msg, NatToString(loaded) + LoadedSuffix + ErrorsHeader)
  {
    var head := NatToString(loaded) + LoadedSuffix;
    if errors == [] then head
    else
      var msg := head + ErrorsHeader + Join("\n", errors);
      assert msg[..|head + ErrorsHeader|] == head + ErrorsHeader;
      forall k | 0 <= k < |errors| ensures Contains(msg, errors[k]) {
        JoinContainsPart("\n", errors, k);
        ContainsAfter(head + ErrorsHeader, Join("\n", errors), errors[k]);
      }
      msg
  }

  /** The status message starts with the count, which reads back as the number of loaded files. */
  lemma StatusMessageCount(loaded: nat, errors: seq<string>)
    ensures ParseDigits(LeadingDigits(StatusMessage(loaded, errors))) == loaded
  {
    var d := NatToString(loaded);
    var tail := if errors == [] then "" else ErrorsHeader + Join("\n", errors);
    var rest := LoadedSuffix + tail;
    assert StatusMessage(loaded, errors) == d + rest by {
      if errors != [] {
        assert d + LoadedSuffix + ErrorsHeader + Join("\n", errors) == d + rest;
      }
    }
    assert rest[0] == LoadedSuffix[0] == ' ';
    LeadingDigitsOf(d, rest);
    ParseNatToString(loaded);
  }

  // ---------------------------------------------------------------------------
  // Table names: normalize_name(os.path.splitext(filename)[0])

  /** The index of the last `.` of `s`, or -1. */
  function LastDot(s: string): (i: int)
    ensures -1 <= i < |s|
    ensures i >= 0 ==> s[i] == '.'
    ensures forall k :: i < k < |s| ==> s[k] != '.'
  {
    if s == [] then -1
    else if s[|s| - 1] == '.' then |s| - 1
    else LastDot(s[..|s| - 1])
  }

  predicate AllDots(s: string) {
    forall k :: 0 <= k < |s| ==> s[k] == '.'
  }

  /**
   * `os.path.splitext(name)[0]` for a name without a directory part: the text
   * before the last dot, unless nothing but dots precede it (`.csv` is its own root).
   */
  function SplitExtRoot(name: string): (root: string)
    ensures |root| <= |name| && root == name[..|root|]
    ensures root != name ==> name[|root|] == '.' && forall k :: |root| < k < |name| ==> name[k] != '.'
    ensures root != name ==> exists k :: 0 <= k < |root| && root[k] != '.'
  {
    var i := LastDot(name);
    if i >= 0 && !AllDots(name[..i]) then name[..i] else name
  }

  /** A `.csv` name loses exactly its extension, unless it is dots followed by `.csv`. */
  lemma CsvRoot(name: string)
    requires EndsWith(name, ".csv")
    ensures SplitExtRoot(name) == if AllDots(name[..|name| - 4]) then name else name[..|name| - 4]
  {
    var n := |name|;
    assert name[n - 4..][0] == '.' && name[n - 3] == 'c' && name[n - 2] == 's' && name[n - 1] == 'v';
    var i := LastDot(name);
    assert i == n - 4;
  }

  function TableNameOf(nfkd: Decomposition, filename: string): (t: string)
    ensures IsNormalName(t)
  {
    NormalizeName(nfkd, SplitExtRoot(filename))
  }

  /** A file named only `.csv` is loaded into a table named `csv`. */
  lemma DotCsvTableName(nfkd: Decomposition)
    requires FixesAscii(nfkd)
    ensures TableNameOf(nfkd, ".csv") == "csv"
  {
    CsvRoot(".csv");
    assert AllDots(".csv"[..0]);
    NormalizeDotCsv(nfkd);
  }

  lemma NormalizeDotCsv(nfkd: Decomposition)
    requires FixesAscii(nfkd)
    ensures NormalizeName(nfkd, ".csv") == "csv"
  {
    DotCsvWordRuns(nfkd);
    CollapseUnderscoreCsv();
    TrimUnderscoreCsv();
  }

  lemma CollapseUnderscoreCsv()
    ensures CollapseUnderscores("_csv") == "_csv"
  {
    assert NoDoubleUnderscore("_csv");
    CollapseFixesNoDouble("_csv");
  }

  lemma TrimUnderscoreCsv()
    ensures TrimUnderscores("_csv") == "csv"
  {
    assert "_csv"[1..] == "csv";
    assert SkipUnderscores("_csv") == "csv";
    assert TrimTrailingUnderscores("csv") == "csv";
  }

  /** The dot of `.csv` is a run of characters outside the name alphabet: it becomes one underscore. */
  lemma DotCsvWordRuns(nfkd: Decomposition)
    requires FixesAscii(nfkd)
    ensures ReplaceNonWordRuns(AsciiFold(nfkd, Lower(".csv"))) == "_csv"
  {
    LowerDotCsv();
    DotCsvAscii();
    var folded := AsciiFold(nfkd, ".csv");
    assert folded == ".csv";
    ReplaceDotCsv();
  }

  lemma LowerDotCsv()
    ensures Lower(".csv") == ".csv"
  {
    var s := ".csv";
    assert forall i :: 0 <= i < |s| ==> LowerChar(s[i]) == s[i];
  }

  lemma DotCsvAscii()
    ensures IsAscii(".csv")
  {
  }

  lemma ReplaceDotCsv()
    ensures ReplaceNonWordRuns(".csv") == "_csv"
  {
    var s := ".csv";
    assert !IsWordChar(s[0]) && s[1..] == "csv";
    assert IsWordChar("csv"[0]);
    assert SkipNonWord("csv") == "csv";
    assert IsWord("csv");
  }

  // ---------------------------------------------------------------------------
  // Columns

  /** `df.columns = [normalize_name(col) for col in df.columns]`. */
  function RenameColumns(nfkd: Decomposition, cols: seq<Column>): (r: seq<Column>)
    ensures |r| == |cols|
    ensures forall i :: 0 <= i < |r| ==>
      r[i].name == NormalizeName(nfkd, cols[i].name) && r[i].dtype == cols[i].dtype && r[i].values == cols[i].values
  {
    seq(|cols|, i requires 0 <= i < |cols| => cols[i].(name := NormalizeName(nfkd, cols[i].name)))
  }

  /** No label is shared by two columns; otherwise `df[col]` is a frame and has no `dtype`. */
  predicate UniqueNames(cols: seq<Column>) {
    forall i, j :: 0 <= i < j < |cols| ==> cols[i].name != cols[j].name
  }

  /** Two columns whose names normalise alike (`Valor Total`, `valor_total`) make a file fail. */
  lemma CollidingNamesExample(nfkd: Decomposition, a: Column, b: Column)
    requires NormalizeName(nfkd, a.name) == NormalizeName(nfkd, b.name)
    ensures !UniqueNames(RenameColumns(nfkd, [a, b]))
  {
    var r := RenameColumns(nfkd, [a, b]);
    assert r[0].name == r[1].name;
  }

  /**
   * The text-cell normalisation of line 85: `str(x)`, fold to ASCII, upper-case,
   * strip white space.
   */
  function NormalizeText(nfkd: Decomposition, v: Value): (r: string)
    ensures IsAscii(r)
    ensures forall i :: 0 <= i < |r| ==> !('a' <= r[i] <= 'z')
    ensures r == [] || (!IsSpace(r[0]) && !IsSpace(r[|r| - 1]))
    ensures IsStripOf(r, Upper(AsciiFold(nfkd, ToStr(v))))
  {
    var x := AsciiFold(nfkd, ToStr(v));
    UpperStripped(x);
    Strip(Upper(x))
  }

  /** Upper-casing an ASCII text and stripping it leaves an ASCII text without lower-case letters. */
  lemma UpperStripped(x: string)
    requires IsAscii(x)
    ensures var r := Strip(Upper(x));
      && IsAscii(r)
      && (forall i :: 0 <= i < |r| ==> !('a' <= r[i] <= 'z'))
      && IsStripOf(r, Upper(x))
  {
    var u := Upper(x);
    UpperAscii(x);
    StripInfixAt(u);
    StripIsInfix(u);
    UpperInfix(Strip(u), u, |u| - |StripLeft(u)|);
  }

  /** An infix of an ASCII text without lower-case letters is one too. */
  lemma UpperInfix(r: string, u: string, a: int)
    requires InfixAt(r, u, a)
    requires IsAscii(u) && forall i :: 0 <= i < |u| ==> !('a' <= u[i] <= 'z')
    ensures IsAscii(r) && forall i :: 0 <= i < |r| ==> !('a' <= r[i] <= 'z')
  {
    forall i | 0 <= i < |r| ensures IsAsciiChar(r[i]) && !('a' <= r[i] <= 'z') {
      assert r[i] == u[a + i];
    }
  }

  /** Normalising an already normalised cell changes nothing. */
  lemma NormalizeTextIdempotent(nfkd: Decomposition, v: Value)
    requires FixesAscii(nfkd)
    ensures NormalizeText(nfkd, Str(NormalizeText(nfkd, v))) == NormalizeText(nfkd, v)
  {
    var x := NormalizeText(nfkd, v);
    NormalizedTextFixed(nfkd, x);
  }

  /** A text already in normal form is its own normal form. */
  lemma NormalizedTextFixed(nfkd: Decomposition, x: string)
    requires FixesAscii(nfkd) && IsAscii(x)
    requires forall i :: 0 <= i < |x| ==> !('a' <= x[i] <= 'z')
    requires x == [] || (!IsSpace(x[0]) && !IsSpace(x[|x| - 1]))
    ensures NormalizeText(nfkd, Str(x)) == x
  {
    assert AsciiFold(nfkd, x) == x;
    assert Upper(x) == x;
    StripUnchanged(x);
  }

  /** An accented lower-case word becomes the capitalised word without its accent. */
  lemma NormalizeTextExample()
    ensures NormalizeText(LatinDecomposition, Str("s\U{E3}o")) == "SAO"
  {
    NormalizeTextOfStr(LatinDecomposition, "s\U{E3}o");
    LatinFoldExample();
    UpperSaoExample();
    StripSaoExample();
  }

  lemma NormalizeTextOfStr(nfkd: Decomposition, s: string)
    ensures NormalizeText(nfkd, Str(s)) == Strip(Upper(AsciiFold(nfkd, s)))
  {
  }

  lemma StripSaoExample()
    ensures Strip("SAO") == "SAO"
  {
    StripUnchanged("SAO");
  }

  lemma UpperSaoExample()
    ensures Upper("sao") == "SAO"
  {
  }

  /** A column of dtype `object` has every cell normalised; any other column is left alone. */
  function NormalizeColumn(nfkd: Decomposition, c: Column): (r: Column)
    ensures r.name == c.name && r.dtype == c.dtype && |r.values| == |c.values|
    ensures c.dtype != "object" ==> r == c
    ensures c.dtype == "object" ==>
      forall i :: 0 <= i < |c.values| ==> r.values[i] == Str(NormalizeText(nfkd, c.values[i]))
  {
    if c.dtype == "object" then
      c.(values := seq(|c.values|, i requires 0 <= i < |c.values| => Str(NormalizeText(nfkd, c.values[i]))))
    else c
  }

  /** Every text cell of a normalised column is ASCII, has no lower-case letter and no outer white space. */
  lemma NormalizedColumnCells(nfkd: Decomposition, c: Column, i: nat)
    requires c.dtype == "object" && i < |c.values|
    ensures var v := NormalizeColumn(nfkd, c).values[i];
      && v.Str? && IsAscii(v.s) && (v.s == [] || (!IsSpace(v.s[0]) && !IsSpace(v.s[|v.s| - 1])))
      && (forall k :: 0 <= k < |v.s| ==> !('a' <= v.s[k] <= 'z'))
  {
  }

  lemma NormalizeColumnIdempotent(nfkd: Decomposition, c: Column)
    requires FixesAscii(nfkd)
    ensures NormalizeColumn(nfkd, NormalizeColumn(nfkd, c)) == NormalizeColumn(nfkd, c)
  {
    var once := NormalizeColumn(nfkd, c);
    var twice := NormalizeColumn(nfkd, once);
    if c.dtype == "object" {
      forall i | 0 <= i < |c.values| ensures twice.values[i] == once.values[i] {
        NormalizeTextIdempotent(nfkd, c.values[i]);
      }
    }
  }

  function NormalizeColumns(nfkd: Decomposition, cols: seq<Column>): (r: seq<Column>)
    ensures |r| == |cols| && forall i :: 0 <= i < |r| ==> r[i] == NormalizeColumn(nfkd, cols[i])
  {
    seq(|cols|, i requires 0 <= i < |cols| => NormalizeColumn(nfkd, cols[i]))
  }

  /**
   * The loop of lines 80-86 on the frame's columns, in place. It stops with an
   * error at the first column whose label another column shares; otherwise
   * every column ends normalised.
   */
  method NormalizeTextColumns(nfkd: Decomposition, cols: array<Column>) returns (raised: bool)
    modifies cols
    ensures raised <==> !UniqueNames(old(cols[..]))
    ensures !raised ==> cols[..] == NormalizeColumns(nfkd, old(cols[..]))
  {
    ghost var original := cols[..];
    var names := ColumnNames(cols[..]);
    for i := 0 to cols.Length
      invariant forall k :: 0 <= k < i ==> cols[k] == NormalizeColumn(nfkd, original[k])
      invariant forall k :: i <= k < cols.Length ==> cols[k] == original[k]
      invariant forall k, j :: 0 <= k < i && 0 <= j < cols.Length && j != k ==> names[j] != names[k]
    {
      if exists j :: 0 <= j < cols.Length && j != i && names[j] == names[i] {
        return true;
      }
      cols[i] := NormalizeColumn(nfkd, cols[i]);
    }
    assert cols[..] == NormalizeColumns(nfkd, original);
    return false;
  }

  // ---------------------------------------------------------------------------
  // Metadata of one table

  /** One record per column: its name, its dtype, the table and the file it came from. */
  function MetadataRows(table: string, filename: string, cols: seq<Column>): (rows: seq<MetaRow>)
    ensures |rows| == |cols|
    ensures forall i :: 0 <= i < |rows| ==> rows[i].columnName == cols[i].name && rows[i].dataType == cols[i].dtype
    ensures forall x :: x in rows ==> x.tableName == table && x.sourceFile == filename
  {
    seq(|cols|, i requires 0 <= i < |cols| => MetaRow(table, cols[i].name, cols[i].dtype, filename))
  }

  /**
   * `pd.DataFrame(columns_metadata)`: its columns are the keys of the records,
   * so a table without columns gives a frame without columns.
   */
  function MetadataFrame(table: string, filename: string, cols: seq<Column>): (m: MetaFrame)
    ensures RequiredColumns <= m.columns <==> cols != []
  {
    MetaFrame(if cols == [] then {} else RequiredColumns, MetadataRows(table, filename, cols))
  }

  /** Lines 93-102. */
  method CollectMetadata(table: string, filename: string, cols: seq<Column>) returns (rows: seq<MetaRow>)
    ensures rows == MetadataRows(table, filename, cols)
  {
    rows := [];
    for i := 0 to |cols|
      invariant |rows| == i
      invariant forall k :: 0 <= k < i ==> rows[k] == MetaRow(table, cols[k].name, cols[k].dtype, filename)
    {
      rows := rows + [MetaRow(table, cols[i].name, cols[i].dtype, filename)];
    }
  }

  // ---------------------------------------------------------------------------
  // One entry, as a function

  /**
   * The stored columns are the parsed ones in their order, each renamed by
   * `normalize_name`, with its dtype kept and, in a text column, every cell normalised.
   */
  predicate StoredColumns(nfkd: Decomposition, parsed: seq<Column>, stored: seq<Column>) {
    && |stored| == |parsed|
    && forall i :: 0 <= i < |stored| ==>
      && stored[i].name == NormalizeName(nfkd, parsed[i].name)
      && stored[i].dtype == parsed[i].dtype
      && |stored[i].values| == |parsed[i].values|
      && forall j :: 0 <= j < |stored[i].values| ==>
        stored[i].values[j] == if parsed[i].dtype == "object" then Str(NormalizeText(nfkd, parsed[i].values[j])) else parsed[i].values[j]
  }

  /** What happens to one entry before the catalog is touched. */
  datatype FileOutcome = Skipped | Failed(msg: string) | Stored(table: string, frame: Frame, meta: MetaFrame)

  function ProcessFile(nfkd: Decomposition, e: DirEntry): (r: FileOutcome)
    ensures r.Skipped? <==> !EndsWith(e.filename, ".csv")
    ensures r.Stored? ==> r.table == TableNameOf(nfkd, e.filename)
    ensures r.Stored? ==> UniqueNames(r.frame.columns) && |r.meta.rows| == |r.frame.columns|
    ensures r.Stored? ==> forall x :: x in r.meta.rows ==> x.tableName == r.table && x.sourceFile == e.filename
    ensures r.Stored? ==> (RequiredColumns <= r.meta.columns <==> r.frame.columns != [])
    ensures r.Stored? ==> forall i :: 0 <= i < |r.frame.columns| ==> IsNormalName(r.frame.columns[i].name)
  {
    if !EndsWith(e.filename, ".csv") then Skipped
    else match e.parse
      case EmptyData => Failed(EmptyFileWarning(e.filename))
      case ParseError(m) => Failed(FailureMessage(e.filename, m))
      case Parsed(df) =>
        var renamed := RenameColumns(nfkd, df.columns);
        if !UniqueNames(renamed) then Failed(FailureMessage(e.filename, NoDtypeError))
        else if e.toSqlError.Some? then Failed(FailureMessage(e.filename, e.toSqlError.value))
        else
          var table := TableNameOf(nfkd, e.filename);
          var cols := NormalizeColumns(nfkd, renamed);
          Stored(table, Frame(cols), MetadataFrame(table, e.filename, cols))
  }

  /**
   * What becomes of one `.csv` entry: which failure it reports, in the order
   * the code checks them, or the table it stores, built from the parsed
   * columns, and the metadata of that table.
   */
  lemma ProcessFileOutcome(nfkd: Decomposition, e: DirEntry)
    ensures var r := ProcessFile(nfkd, e);
      && (r.Stored? ==> EndsWith(e.filename, ".csv") && e.parse.Parsed? && e.toSqlError.None?)
      && (r.Stored? ==> StoredColumns(nfkd, e.parse.frame.columns, r.frame.columns))
      && (r.Stored? ==> r.meta.rows == MetadataRows(r.table, e.filename, r.frame.columns))
    ensures var r := ProcessFile(nfkd, e);
      EndsWith(e.filename, ".csv") ==> match e.parse
        case EmptyData => r == Failed(EmptyFileWarning(e.filename))
        case ParseError(m) => r == Failed(FailureMessage(e.filename, m))
        case Parsed(df) =>
          if !UniqueNames(RenameColumns(nfkd, df.columns)) then r == Failed(FailureMessage(e.filename, NoDtypeError))
          else if e.toSqlError.Some? then r == Failed(FailureMessage(e.filename, e.toSqlError.value))
          else r.Stored?
  {
  }

  /** An entry that passes every check is stored under its table name with its normalised columns. */
  lemma ProcessFileStores(nfkd: Decomposition, e: DirEntry)
    requires EndsWith(e.filename, ".csv") && e.parse.Parsed? && e.toSqlError.None?
    requires UniqueNames(RenameColumns(nfkd, e.parse.frame.columns))
    ensures var table := TableNameOf(nfkd, e.filename);
      var cols := NormalizeColumns(nfkd, RenameColumns(nfkd, e.parse.frame.columns));
      ProcessFile(nfkd, e) == Stored(table, Frame(cols), MetadataFrame(table, e.filename, cols))
  {
  }

  /** The state the loop carries: the SQLite tables, the catalog rows, the count and the messages. */
  datatype Ingest = Ingest(tables: map<string, Frame>, catalog: seq<MetaRow>, loaded: nat, errors: seq<string>)

  /**
   * One iteration of the loop. A stored table is written to SQLite before its
   * metadata is offered to the catalog, so a table whose metadata the catalog
   * refuses is in SQLite but not counted and not catalogued.
   */
  function Step(nfkd: Decomposition, s: Ingest, e: DirEntry): Ingest
  {
    Apply(s, ProcessFile(nfkd, e), e.filename)
  }

  /** What an entry's outcome does to the state. */
  function Apply(s: Ingest, o: FileOutcome, filename: string): Ingest
  {
    match o
    case Skipped => s
    case Failed(m) => s.(errors := s.errors + [m])
    case Stored(t, f, meta) =>
      if RequiredColumns <= meta.columns then
        Ingest(s.tables[t := f], Replaced(s.catalog, t, meta.rows), s.loaded + 1, s.errors)
      else
        Ingest(s.tables[t := f], s.catalog, s.loaded, s.errors + [FailureMessage(filename, ShapeError)])
  }

  /** A `.csv` entry is counted as loaded or reported by one message; any other changes nothing. */
  lemma StepAccounts(nfkd: Decomposition, s: Ingest, e: DirEntry)
    ensures var r := Step(nfkd, s, e);
      && r.loaded + |r.errors| == s.loaded + |s.errors| + (if EndsWith(e.filename, ".csv") then 1 else 0)
      && |s.errors| <= |r.errors| && r.errors[..|s.errors|] == s.errors
      && (!EndsWith(e.filename, ".csv") ==> r == s)
  {
    var o := ProcessFile(nfkd, e);
    ApplyOutcome(s, o, e.filename);
    var r := Apply(s, o, e.filename);
    assert o.Skipped? <==> !EndsWith(e.filename, ".csv");
    if !o.Skipped? {
      assert r.errors == s.errors || r.errors == s.errors + [r.errors[|r.errors| - 1]];
      assert r.errors[..|s.errors|] == s.errors;
    }
  }

  /**
   * Per outcome: a skipped entry changes nothing, a failed one adds its
   * message, a stored one writes its table to SQLite and then either replaces
   * the table's catalog rows and is counted, or is reported with the catalog's
   * error and leaves the catalog as it was.
   */
  lemma ApplyOutcome(s: Ingest, o: FileOutcome, filename: string)
    ensures var r := Apply(s, o, filename);
      && (o.Skipped? ==> r == s)
      && (o.Failed? ==> r == s.(errors := s.errors + [o.msg]))
      && (o.Stored? ==> r.tables == s.tables[o.table := o.frame])
      && (o.Stored? && RequiredColumns <= o.meta.columns ==>
        r.loaded == s.loaded + 1 && r.errors == s.errors && r.catalog == Replaced(s.catalog, o.table, o.meta.rows))
      && (o.Stored? && !(RequiredColumns <= o.meta.columns) ==>
        r.loaded == s.loaded && r.errors == s.errors + [FailureMessage(filename, ShapeError)] && r.catalog == s.catalog)
  {
  }

  /** The number of `.csv` entries of a listing. */
  function CsvCount(es: seq<DirEntry>): nat
    decreases |es|
  {
    if es == [] then 0
    else CsvCount(es[..|es| - 1]) + if EndsWith(es[|es| - 1].filename, ".csv") then 1 else 0
  }

  /** The loop over a listing, entry by entry in listing order. */
  function Run(nfkd: Decomposition, s: Ingest, es: seq<DirEntry>): Ingest
    decreases |es|
  {
    if es == [] then s else Step(nfkd, Run(nfkd, s, es[..|es| - 1]), es[|es| - 1])
  }

  // ---------------------------------------------------------------------------
  // Properties of a run

  /** Every catalogued table is a table of the database. */
  predicate CatalogInTables(s: Ingest) {
    forall x :: x in s.catalog ==> x.tableName in s.tables
  }

  lemma StepKeepsCatalogInTables(nfkd: Decomposition, s: Ingest, e: DirEntry)
    requires CatalogInTables(s)
    ensures CatalogInTables(Step(nfkd, s, e))
  {
  }

  lemma {:induction false} RunKeepsCatalogInTables(nfkd: Decomposition, s: Ingest, es: seq<DirEntry>)
    requires CatalogInTables(s)
    ensures CatalogInTables(Run(nfkd, s, es))
    decreases |es|
  {
    if es != [] {
      RunKeepsCatalogInTables(nfkd, s, es[..|es| - 1]);
      StepKeepsCatalogInTables(nfkd, Run(nfkd, s, es[..|es| - 1]), es[|es| - 1]);
    }
  }



  /**
   * Every `.csv` entry is either counted as loaded or reported by exactly one
   * message; nothing else adds to either, and no message is ever dropped.
   */
  lemma {:induction false} RunAccountsForEveryCsv(nfkd: Decomposition, s: Ingest, es: seq<DirEntry>)
    ensures var r := Run(nfkd, s, es);
      && r.loaded + |r.errors| == s.loaded + |s.errors| + CsvCount(es)
      && |s.errors| <= |r.errors| && r.errors[..|s.errors|] == s.errors
    decreases |es|
  {
    if es != [] {
      var p := Run(nfkd, s, es[..|es| - 1]);
      RunAccountsForEveryCsv(nfkd, s, es[..|es| - 1]);
      StepAccounts(nfkd, p, es[|es| - 1]);
      var r := Step(nfkd, p, es[|es| - 1]);
      assert r.errors[..|s.errors|] == p.errors[..|s.errors|];
    }
  }

  /** Entry `e` writes table `t` to SQLite. */
  predicate Writes(nfkd: Decomposition, e: DirEntry, t: string) {
    var o := ProcessFile(nfkd, e);
    o.Stored? && o.table == t
  }

  /** What one entry does to one table: it is written by the entry, or it keeps what it had. */
  lemma StepOnTable(nfkd: Decomposition, p: Ingest, e: DirEntry, t: string)
    ensures var q := Step(nfkd, p, e);
      var o := ProcessFile(nfkd, e);
      if Writes(nfkd, e, t) then
        && t in q.tables && q.tables[t] == o.frame
        && Filter(q.catalog, t) == (if RequiredColumns <= o.meta.columns then o.meta.rows else Filter(p.catalog, t))
      else
        && (t in q.tables <==> t in p.tables)
        && (t in p.tables ==> q.tables[t] == p.tables[t])
        && Filter(q.catalog, t) == Filter(p.catalog, t)
  {
    var o := ProcessFile(nfkd, e);
    if o.Stored? && RequiredColumns <= o.meta.columns {
      ReplacedFilter(p.catalog, o.table, o.meta.rows, t);
    }
  }

  /** Table `t` is as entry outcome `o` left it: its frame in SQLite and, if the catalog took them, its rows. */
  predicate HoldsWrite(r: Ingest, o: FileOutcome, t: string)
    requires o.Stored?
  {
    t in r.tables && r.tables[t] == o.frame
    && (RequiredColumns <= o.meta.columns ==> Filter(r.catalog, t) == o.meta.rows)
  }

  /** Table `t` is in `q` as it was in `p`, in SQLite and in the catalog. */
  predicate KeepsTable(q: Ingest, p: Ingest, t: string) {
    (t in q.tables <==> t in p.tables)
    && (t in p.tables ==> q.tables[t] == p.tables[t])
    && Filter(q.catalog, t) == Filter(p.catalog, t)
  }

  lemma WritingStep(nfkd: Decomposition, p: Ingest, e: DirEntry, t: string)
    requires Writes(nfkd, e, t)
    ensures HoldsWrite(Step(nfkd, p, e), ProcessFile(nfkd, e), t)
  {
    StepOnTable(nfkd, p, e, t);
  }

  lemma OtherStep(nfkd: Decomposition, p: Ingest, e: DirEntry, t: string)
    requires !Writes(nfkd, e, t)
    ensures KeepsTable(Step(nfkd, p, e), p, t)
  {
    StepOnTable(nfkd, p, e, t);
  }

  /**
   * A table no entry of the listing writes keeps what it had, both in SQLite
   * and in the catalog.
   */
  lemma {:induction false} UnwrittenTableKept(nfkd: Decomposition, s: Ingest, es: seq<DirEntry>, t: string)
    requires forall j :: 0 <= j < |es| ==> !Writes(nfkd, es[j], t)
    ensures KeepsTable(Run(nfkd, s, es), s, t)
    decreases |es|
  {
    if es != [] {
      UnwrittenTableKept(nfkd, s, es[..|es| - 1], t);
      OtherStep(nfkd, Run(nfkd, s, es[..|es| - 1]), es[|es| - 1], t);
    }
  }

  /**
   * The last entry that writes table `t` decides it: SQLite holds that entry's
   * frame and, when the catalog accepted its metadata, the catalog rows of `t`
   * are exactly that entry's metadata.
   */
  lemma {:induction false} LastWriteWins(nfkd: Decomposition, s: Ingest, es: seq<DirEntry>, k: nat, t: string)
    requires k < |es| && Writes(nfkd, es[k], t)
    requires forall j :: k < j < |es| ==> !Writes(nfkd, es[j], t)
    ensures HoldsWrite(Run(nfkd, s, es), ProcessFile(nfkd, es[k]), t)
    decreases |es|
  {
    var init := es[..|es| - 1];
    if k == |es| - 1 {
      WritingLast(nfkd, s, es, t);
    } else {
      assert !Writes(nfkd, es[|es| - 1], t);
      assert init[k] == es[k];
      assert forall j :: k < j < |init| ==> init[j] == es[j];
      LastWriteWins(nfkd, s, init, k, t);
      OtherLast(nfkd, s, es, t);
      KeptWriteHolds(Run(nfkd, s, es), Run(nfkd, s, init), ProcessFile(nfkd, es[k]), t);
    }
  }

  lemma WritingLast(nfkd: Decomposition, s: Ingest, es: seq<DirEntry>, t: string)
    requires es != [] && Writes(nfkd, es[|es| - 1], t)
    ensures HoldsWrite(Run(nfkd, s, es), ProcessFile(nfkd, es[|es| - 1]), t)
  {
    WritingStep(nfkd, Run(nfkd, s, es[..|es| - 1]), es[|es| - 1], t);
  }

  lemma OtherLast(nfkd: Decomposition, s: Ingest, es: seq<DirEntry>, t: string)
    requires es != [] && !Writes(nfkd, es[|es| - 1], t)
    ensures KeepsTable(Run(nfkd, s, es), Run(nfkd, s, es[..|es| - 1]), t)
  {
    OtherStep(nfkd, Run(nfkd, s, es[..|es| - 1]), es[|es| - 1], t);
  }

  lemma KeptWriteHolds(q: Ingest, p: Ingest, o: FileOutcome, t: string)
    requires o.Stored? && HoldsWrite(p, o, t) && KeepsTable(q, p, t)
    ensures HoldsWrite(q, o, t)
  {
  }

  /**
   * The run starts from a cleared catalog, so a table left in SQLite by an
   * earlier run and not written by this one stays in the database with no rows
   * in the catalog.
   */
  lemma StaleTableUncatalogued(nfkd: Decomposition, tables: map<string, Frame>, es: seq<DirEntry>, t: string)
    requires t in tables
    requires forall j :: 0 <= j < |es| ==> !Writes(nfkd, es[j], t)
    ensures var r := Run(nfkd, Ingest(tables, [], 0, []), es);
      t in r.tables && r.tables[t] == tables[t] && Filter(r.catalog, t) == []
  {
    UnwrittenTableKept(nfkd, Ingest(tables, [], 0, []), es, t);
  }

  /** An empty file adds one warning and changes neither SQLite nor the catalog. */
  lemma EmptyFileOnlyWarns(nfkd: Decomposition, s: Ingest, e: DirEntry)
    requires EndsWith(e.filename, ".csv") && e.parse.EmptyData?
    ensures Step(nfkd, s, e) == s.(errors := s.errors + [EmptyFileWarning(e.filename)])
  {
  }

  /** An entry whose name does not end in `.csv` changes nothing. */
  lemma OtherEntriesIgnored(nfkd: Decomposition, s: Ingest, e: DirEntry)
    requires !EndsWith(e.filename, ".csv")
    ensures Step(nfkd, s, e) == s
  {
  }

  // ---------------------------------------------------------------------------
  // The tool

  /** The body of the per-file `try` (lines 70-113), on the store and the database. */
  method LoadFile(store: DataFrameStore, db: SqliteDb, nfkd: Decomposition, e: DirEntry, loaded: nat, errors: seq<string>)
    returns (loaded': nat, errors': seq<string>)
    modifies store, db
    ensures db.present == old(db.present)
    ensures Ingest(db.tables, store.rows, loaded', errors')
         == Step(nfkd, Ingest(old(db.tables), old(store.rows), loaded, errors), e)
  {
    loaded', errors' := loaded, errors;
    ghost var before := Ingest(db.tables, store.rows, loaded, errors);
    ghost var outcome := ProcessFile(nfkd, e);
    if !EndsWith(e.filename, ".csv") {
      return;
    }
    match e.parse {
      case EmptyData =>
        errors' := errors + [EmptyFileWarning(e.filename)];
      case ParseError(m) =>
        errors' := errors + [FailureMessage(e.filename, m)];
      case Parsed(df) =>
        loaded', errors' := LoadParsed(store, db, nfkd, e, loaded, errors);
    }
  }

  /** Lines 78-106: a file pandas could read, renamed, normalised and stored. */
  method LoadParsed(store: DataFrameStore, db: SqliteDb, nfkd: Decomposition, e: DirEntry, loaded: nat, errors: seq<string>)
    returns (loaded': nat, errors': seq<string>)
    requires EndsWith(e.filename, ".csv") && e.parse.Parsed?
    modifies store, db
    ensures db.present == old(db.present)
    ensures Ingest(db.tables, store.rows, loaded', errors')
         == Step(nfkd, Ingest(old(db.tables), old(store.rows), loaded, errors), e)
  {
    loaded', errors' := loaded, errors;
    ghost var before := Ingest(db.tables, store.rows, loaded, errors);
    var table := TableNameOf(nfkd, e.filename);
    var renamed := RenameColumns(nfkd, e.parse.frame.columns);
    var raised, normalized := NormalizeRenamed(nfkd, renamed);
    if raised {
      errors' := errors + [FailureMessage(e.filename, NoDtypeError)];
      StepSharedLabel(nfkd, before, e);
      return;
    }
    if e.toSqlError.Some? {
      errors' := errors + [FailureMessage(e.filename, e.toSqlError.value)];
      StepToSqlFails(nfkd, before, e);
      return;
    }
    StepStores(nfkd, before, e);
    loaded', errors' := StoreTable(store, db, table, e.filename, normalized, loaded, errors);
  }

  /** Lines 80-86 on a fresh frame: the renamed columns are copied into an array and normalised in place. */
  method NormalizeRenamed(nfkd: Decomposition, renamed: seq<Column>) returns (raised: bool, normalized: seq<Column>)
    ensures raised <==> !UniqueNames(renamed)
    ensures !raised ==> normalized == NormalizeColumns(nfkd, renamed)
  {
    var cols := new Column[|renamed|](i requires 0 <= i < |renamed| => renamed[i]);
    assert cols[..] == renamed;
    raised := NormalizeTextColumns(nfkd, cols);
    normalized := cols[..];
  }

  /** A parsed file with a shared column label is reported with the `AttributeError`. */
  lemma StepSharedLabel(nfkd: Decomposition, s: Ingest, e: DirEntry)
    requires EndsWith(e.filename, ".csv") && e.parse.Parsed?
    requires !UniqueNames(RenameColumns(nfkd, e.parse.frame.columns))
    ensures Step(nfkd, s, e) == s.(errors := s.errors + [FailureMessage(e.filename, NoDtypeError)])
  {
    StepFails(nfkd, s, e, FailureMessage(e.filename, NoDtypeError));
  }

  /** A parsed file that `to_sql` refuses is reported with the error `to_sql` raised. */
  lemma StepToSqlFails(nfkd: Decomposition, s: Ingest, e: DirEntry)
    requires EndsWith(e.filename, ".csv") && e.parse.Parsed? && e.toSqlError.Some?
    requires UniqueNames(RenameColumns(nfkd, e.parse.frame.columns))
    ensures Step(nfkd, s, e) == s.(errors := s.errors + [FailureMessage(e.filename, e.toSqlError.value)])
  {
    StepFails(nfkd, s, e, FailureMessage(e.filename, e.toSqlError.value));
  }

  /** An entry that passes every check does what its stored outcome does. */
  lemma StepStores(nfkd: Decomposition, s: Ingest, e: DirEntry)
    requires EndsWith(e.filename, ".csv") && e.parse.Parsed? && e.toSqlError.None?
    requires UniqueNames(RenameColumns(nfkd, e.parse.frame.columns))
    ensures var table := TableNameOf(nfkd, e.filename);
      var cols := NormalizeColumns(nfkd, RenameColumns(nfkd, e.parse.frame.columns));
      Step(nfkd, s, e) == Apply(s, Stored(table, Frame(cols), MetadataFrame(table, e.filename, cols)), e.filename)
  {
    ProcessFileStores(nfkd, e);
  }

  /** An entry that fails adds its message and changes nothing else. */
  lemma StepFails(nfkd: Decomposition, s: Ingest, e: DirEntry, m: string)
    requires ProcessFile(nfkd, e) == Failed(m)
    ensures Step(nfkd, s, e) == s.(errors := s.errors + [m])
  {
  }

  /** Lines 89-106: the table written to SQLite, then its metadata offered to the catalog. */
  method StoreTable(store: DataFrameStore, db: SqliteDb, table: string, filename: string, cols: seq<Column>,
                    loaded: nat, errors: seq<string>)
    returns (loaded': nat, errors': seq<string>)
    modifies store, db
    ensures db.present == old(db.present)
    ensures Ingest(db.tables, store.rows, loaded', errors')
         == Apply(Ingest(old(db.tables), old(store.rows), loaded, errors),
                  Stored(table, Frame(cols), MetadataFrame(table, filename, cols)), filename)
  {
    loaded', errors' := loaded, errors;
    db.tables := db.tables[table := Frame(cols)];
    var rows := CollectMetadata(table, filename, cols);
    var meta := MetaFrame(if |rows| == 0 then {} else RequiredColumns, rows);
    assert meta == MetadataFrame(table, filename, cols);
    var rejected := store.AddMetadata(table, meta);
    if rejected.Some? {
      errors' := errors + [FailureMessage(filename, rejected.value)];
    } else {
      loaded' := loaded + 1;
    }
  }

  /**
   * `load_csv_to_sqlite_tool(directory_path)`. `connectError` is what
   * `sqlite3.connect` raised, if anything; `listing` is what `os.listdir`
   * returned or raised. The catalog is cleared before either is attempted.
   */
  method LoadCsvToSqliteTool(
    cls: DataFrameStoreClass, db: SqliteDb, nfkd: Decomposition,
    connectError: Option<string>, listing: Result<seq<DirEntry>, string>)
    returns (msg: string)
    modifies cls, cls.instance, db
    ensures cls.instance != null
    ensures old(cls.instance) != null ==> cls.instance == old(cls.instance)
    ensures connectError.Some? ==>
      && msg == ConnectionErrorMessage(connectError.value)
      && cls.instance.rows == [] && db.present == old(db.present) && db.tables == old(db.tables)
    ensures connectError.None? ==> db.present
    ensures connectError.None? && listing.Err? ==>
      msg == ConnectionErrorMessage(listing.error) && cls.instance.rows == [] && db.tables == old(db.tables)
    ensures connectError.None? && listing.Ok? ==>
      var final := Run(nfkd, Ingest(old(db.tables), [], 0, []), listing.value);
      && db.tables == final.tables && cls.instance.rows == final.catalog
      && msg == StatusMessage(final.loaded, final.errors)
    ensures forall x :: x in cls.instance.rows ==> x.tableName in db.tables
  {
    var store := cls.New();
    store.Clear();
    if connectError.Some? {
      return ConnectionErrorMessage(connectError.value);
    }
    db.present := true;
    if listing.Err? {
      return ConnectionErrorMessage(listing.error);
    }
    ghost var start := Ingest(db.tables, [], 0, []);
    var loaded, errors := LoadEntries(store, db, nfkd, listing.value);
    RunKeepsCatalogInTables(nfkd, start, listing.value);
    msg := StatusMessage(loaded, errors);
  }

  /** Lines 59-113: every entry in listing order, from no files loaded and no messages. */
  method LoadEntries(store: DataFrameStore, db: SqliteDb, nfkd: Decomposition, entries: seq<DirEntry>)
    returns (loaded: nat, errors: seq<string>)
    modifies store, db
    ensures db.present == old(db.present)
    ensures Ingest(db.tables, store.rows, loaded, errors)
         == Run(nfkd, Ingest(old(db.tables), old(store.rows), 0, []), entries)
  {
    ghost var start := Ingest(db.tables, store.rows, 0, []);
    loaded, errors := 0, [];
    for i := 0 to |entries|
      invariant db.present == old(db.present)
      invariant Ingest(db.tables, store.rows, loaded, errors) == Run(nfkd, start, entries[..i])
    {
      assert entries[..i + 1][..i] == entries[..i];
      loaded, errors := LoadFile(store, db, nfkd, entries[i], loaded, errors);
    }
    assert entries[..|entries|] == entries;
  }
}
