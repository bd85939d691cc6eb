/**
 * `sqlite_query_tool(sql_query)`: runs one SQL statement against
 * `./tmp/db.sqlite`. A statement that starts with `select` (after stripping
 * white space, ignoring case) is read into a DataFrame and rendered as a
 * Markdown table; any other statement is executed and committed. Every failure
 * becomes an `[ERRO]` message that quotes the statement.
 */
module SqliteQuery {
  import opened Wrappers
  import opened Text
  import opened Frames
  import opened Database

  const ErrorTag: string := "[ERRO]"
  const NotFoundMessage: string :=
    ErrorTag + " Banco de dados SQLite n\U{E3}o encontrado em './tmp/db.sqlite'. "
    + "Certifique-se de que os dados foram carregados."
  const NoRowsMessage: string :=
    "A consulta SQL foi executada com sucesso, " + "mas n\U{E3}o retornou resultados."
  const WriteDoneMessage: string :=
    "Comando SQL (n\U{E3}o SELECT) " + "executado com sucesso."

  /** What SQLite or pandas raised: a `sqlite3.Error`, or any other exception. */
  datatype DbError = SqliteError(msg: string) | UnexpectedError(msg: string)

  /**
   * SQLite and pandas, which are not part of this model, as functions of the
   * tables: `read` is `connect` followed by `pd.read_sql_query`, `write` is
   * `connect`, `execute` and `commit` (the new tables, or what was raised;
   * a failed statement is rolled back), `toMarkdown` is `df.to_markdown(index=False)`.
   */
  datatype Engine = Engine(
    read: (map<string, Frame>, string) -> Result<Frame, DbError>,
    write: (map<string, Frame>, string) -> Result<map<string, Frame>, DbError>,
    toMarkdown: Frame -> Result<string, string>)

  // ---------------------------------------------------------------------------
  // Routing

  /** `sql_query.strip().lower().startswith("select")`. */
  predicate IsSelect(sql: string)
    ensures IsSelect(sql) <==>
      var t := Strip(sql); |t| >= 6 && forall i :: 0 <= i < 6 ==> LowerChar(t[i]) == "select"[i]
  {
    StartsWith(Lower(Strip(sql)), "select")
  }

  /** Two texts that differ only in the case of their letters. */
  predicate SameUpToCase(a: string, b: string) {
    |a| == |b| && forall i :: 0 <= i < |a| ==> LowerChar(a[i]) == LowerChar(b[i])
  }

  /** Case mapping never turns white space into something else, nor the reverse. */
  lemma SpaceUpToCase(c: char, d: char)
    requires LowerChar(c) == LowerChar(d)
    ensures IsSpace(c) == IsSpace(d)
  {
  }

  lemma {:induction false} StripLeftUpToCase(a: string, b: string)
    requires SameUpToCase(a, b)
    ensures SameUpToCase(StripLeft(a), StripLeft(b))
    decreases |a|
  {
    if a != [] {
      SpaceUpToCase(a[0], b[0]);
      if IsSpace(a[0]) {
        StripLeftUpToCase(a[1..], b[1..]);
      }
    }
  }

  lemma {:induction false} StripRightUpToCase(a: string, b: string)
    requires SameUpToCase(a, b)
    ensures SameUpToCase(StripRight(a), StripRight(b))
    decreases |a|
  {
    if a != [] {
      SpaceUpToCase(a[|a| - 1], b[|b| - 1]);
      if IsSpace(a[|a| - 1]) {
        StripRightUpToCase(a[..|a| - 1], b[..|b| - 1]);
      }
    }
  }

  /** `SELECT`, `Select` and `select` are routed alike: only letter case differs. */
  lemma IsSelectIgnoresCase(a: string, b: string)
    requires SameUpToCase(a, b)
    ensures IsSelect(a) == IsSelect(b)
  {
    StripLeftUpToCase(a, b);
    StripRightUpToCase(StripLeft(a), StripLeft(b));
    assert Lower(Strip(a)) == Lower(Strip(b));
  }

  /** Leading and trailing white space do not change the route. */
  lemma IsSelectIgnoresSurroundingSpace(w1: string, sql: string, w2: string)
    requires forall k :: 0 <= k < |w1| ==> IsSpace(w1[k])
    requires forall k :: 0 <= k < |w2| ==> IsSpace(w2[k])
    ensures IsSelect(w1 + sql + w2) == IsSelect(sql)
  {
    StripIgnoresSurroundingSpace(w1, sql, w2);
  }

  /** Capitals do not hide a SELECT. */
  lemma SelectExample()
    ensures IsSelect("Select 1")
  {
    StripUnchanged("Select 1");
    LowerSelectExample();
  }

  lemma LowerSelectExample()
    ensures StartsWith(Lower("Select 1"), "select")
  {
    var l := Lower("Select 1");
    assert l[0] == 's' && l[1] == 'e' && l[2] == 'l' && l[3] == 'e' && l[4] == 'c' && l[5] == 't';
    assert l[..6] == "select";
  }

  /** A statement whose first word is not `select`, a `WITH` query included, takes the write path. */
  lemma WithQueryExample()
    ensures !IsSelect("WITH q AS (SELECT 1) SELECT * FROM q")
  {
    var w := "WITH q AS (SELECT 1) SELECT * FROM q";
    StripUnchanged(w);
    assert Lower(w)[0] == 'w';
  }

  // ---------------------------------------------------------------------------
  // Messages

  /** The two `except` branches: both tagged `[ERRO]`, both quoting the statement in a code fence. */
  function ErrorMessage(e: DbError, sql: string): (r: string)
    ensures StartsWith(r, ErrorTag)
    ensures Contains(r, Fence + sql + Fence)
    ensures EndsWith(r, "\nSQL tentado: " + Fence + sql + Fence)
  {
    var head := ErrorTag + match e
      case SqliteError(m) => " Erro ao executar SQL: " + m
      case UnexpectedError(m) => " Erro inesperado ao executar SQL: " + m;
    var tail := "\nSQL tentado: " + Fence + sql + Fence;
    assert (head + tail)[..6] == ErrorTag;
    ContainsMiddle(head + "\nSQL tentado: ", Fence + sql + Fence, []);
    assert head + "\nSQL tentado: " + (Fence + sql + Fence) + [] == head + tail;
    head + tail
  }

  /** The two success messages are not error messages; the missing-database message is one. */
  lemma MessageTags()
    ensures StartsWith(NotFoundMessage, ErrorTag)
    ensures !StartsWith(NoRowsMessage, ErrorTag) && !StartsWith(WriteDoneMessage, ErrorTag)
  {
    assert NoRowsMessage[0] == 'A';
    assert WriteDoneMessage[0] == 'C';
    assert NotFoundMessage[..6] == ErrorTag;
  }

  // ---------------------------------------------------------------------------
  // The tool

  /**
   * `sqlite_query_tool(sql)`. A missing database file is reported without
   * touching anything; a SELECT leaves the tables as they are; any other
   * statement replaces them by what SQLite made of them, unless it failed.
   */
  method SqliteQueryTool(db: SqliteDb, sql: string, engine: Engine) returns (response: string)
    modifies db
    ensures db.present == old(db.present)
    ensures !db.present ==> response == NotFoundMessage && db.tables == old(db.tables)
    ensures db.present && IsSelect(sql) ==> db.tables == old(db.tables)
    ensures db.present && IsSelect(sql) ==>
      match engine.read(old(db.tables), sql)
      case Err(e) => response == ErrorMessage(e, sql)
      case Ok(f) =>
        if IsEmpty(f) then response == NoRowsMessage
        else match engine.toMarkdown(f)
          case Ok(table) => response == table
          case Err(m) => response == ErrorMessage(UnexpectedError(m), sql)
    ensures db.present && !IsSelect(sql) ==>
      match engine.write(old(db.tables), sql)
      case Err(e) => response == ErrorMessage(e, sql) && db.tables == old(db.tables)
      case Ok(t) => response == WriteDoneMessage && db.tables == t
  {
    if !db.present {
      return NotFoundMessage;
    }
    if IsSelect(sql) {
      var read := engine.read(db.tables, sql);
      match read {
        case Err(e) =>
          response := ErrorMessage(e, sql);
        case Ok(f) =>
          if IsEmpty(f) {
            response := NoRowsMessage;
          } else {
            var rendered := engine.toMarkdown(f);
            match rendered {
              case Ok(table) => response := table;
              case Err(m) => response := ErrorMessage(UnexpectedError(m), sql);
            }
          }
      }
    } else {
      var written := engine.write(db.tables, sql);
      match written {
        case Err(e) =>
          response := ErrorMessage(e, sql);
        case Ok(t) =>
          db.tables := t;
          response := WriteDoneMessage;
      }
    }
  }
}
