# CSV-to-SQLite ingestion and query tools, modelled in Dafny

The system is a set of agent tools that answer questions about fiscal CSV files
(invoice headers and items). This project models their deterministic core:

- **`normalize_name`** (`NameNormalizer`): turns a file or column name into a SQL
  identifier. It lower-cases the name, folds it to ASCII through NFKD, turns each
  run of characters outside `[a-z0-9_]` into `_`, collapses repeated `_` and trims
  `_` from both ends.
- **`load_csv_to_sqlite_tool`** (`LoadCsv`): clears the metadata catalog and opens
  `./tmp/db.sqlite`. For every `.csv` entry of a directory it then does four things:
  - reads the file;
  - normalises its column names and its text cells (ASCII fold, upper case, stripped);
  - replaces the SQLite table named after the file;
  - replaces that table's rows in the catalog.

  It returns a status message with the number of files loaded and every warning or
  error it collected.
- **`DataFrameStore`** (`Catalog`): the process-wide singleton that holds the
  metadata catalog. Each catalog row is `table_name, column_name, data_type,
  source_file`. `add_metadata` replaces a table's rows.
- **Schema context** (`SchemaContext`): the text the query analyser builds from the
  catalog for the SQL generator. It has one line per table, in ascending order of
  table name. Each line lists the table's columns with their dtypes.
- **`sql_generator_tool` post-processing** (`SqlGenerator`) and the shared fence
  cleaning (`Fences`): the language model's reply is stripped and cleaned of a
  ```` ```sql ```` fence.
- **`sqlite_query_tool`** (`SqliteQuery`): runs a SELECT through pandas and renders
  it as Markdown, or executes and commits any other statement. Every failure
  becomes an `[ERRO]` message.
- **`metadata_query_tool`** (`MetadataQuery`): answers a question about the
  catalog. It has three parts:
  - an empty-catalog guard;
  - ```` ```python ```` fence cleaning of the generated code;
  - shaping of what evaluating that code returned.

Supporting modules:

- `Text`: the Python `str` operations the pipeline uses, over `seq<char>`.
- `Frames`: DataFrames as named, typed columns of cells.
- `Database`: the SQLite file, modelled as a class holding whether the file
  exists and its tables.
- `Wrappers`: `Option` and `Result`.

Stateful code is modelled as classes:

- The catalog is `Catalog.DataFrameStore`. Its `rows` field is reassigned by
  `AddMetadata` and `Clear`.
- The singleton's class attribute `_instance` is `Catalog.DataFrameStoreClass.instance`.
- The database file is `Database.SqliteDb`.
- The loader's in-place column loop is a method over an `array<Column>`.

The loader's state-changing methods are proved equal to pure specification
functions. `LoadCsv.Step` specifies one directory entry and `LoadCsv.Run` a whole
listing. What one entry does is stated by `LoadCsv.ProcessFileOutcome`,
`LoadCsv.ApplyOutcome` and `LoadCsv.StepAccounts`. The properties of a run are
proved as lemmas about those functions.

The inputs the program gets from code outside this model are parameters:

- `Decomposition` stands for NFKD.
- A directory entry carries what `pd.read_csv` and `to_sql` do with it.
- `Engine` stands for SQLite reads and writes and `to_markdown`.
- The language model's reply is a `Result`.
- The `exec` evaluation is a function from the catalog and the code to a result.

### Edge cases the model follows

The code behaves as follows in these cases, and the model does the same.

- **Duplicate column names.** When two column labels normalise to the same name,
  `df[col].dtype` raises `AttributeError` at `load_csv_tool.py:82`. The file is then
  reported as failed, and neither column is stored.
  - `LoadCsv.CollidingNamesExample` shows such a pair.
  - `LoadCsv.NormalizeTextColumns` raises exactly when the names are not unique.
- **Empty table names.** A name without letters or digits normalises to the empty
  text, and the loader uses it as a table name
  (`NameNormalizer.NormalizeSymbolsExample`).
- **Clearing before connecting.** The catalog is cleared before the connection is
  attempted. A connection failure therefore leaves an empty catalog.
- **Stale tables.** Tables from an earlier run that this run does not write stay
  in SQLite without catalog rows (`LoadCsv.StaleTableUncatalogued`). What a run
  keeps is "every catalogued table is in SQLite" (`LoadCsv.RunKeepsCatalogInTables`).

## Model

| member | source | states |
|---|---|---|
| NameNormalizer.AsciiFold | desafio2_nf_a10i/desafio2nf/tools/load_csv_tool.py:24 | The result is ASCII and holds exactly the ASCII characters of the decomposition. ASCII input is kept unchanged when NFKD fixes ASCII. |
| NameNormalizer.ReplaceNonWordRuns | desafio2_nf_a10i/desafio2nf/tools/load_csv_tool.py:26 | The result uses only `[a-z0-9_]` and has a letter or digit exactly when the input does. A text already over `[a-z0-9_]` is unchanged. |
| NameNormalizer.ReplaceKeepsAlnums | desafio2_nf_a10i/desafio2nf/tools/load_csv_tool.py:26 | The replacement keeps every letter and digit of the input, in order, and adds none. |
| NameNormalizer.ReplaceRunBetween | desafio2_nf_a10i/desafio2nf/tools/load_csv_tool.py:18-26 | Between two word characters (or an end), a run of characters outside `[a-z0-9_]` becomes exactly one `_`, and each side is replaced on its own. |
| NameNormalizer.ReplaceAppend | desafio2_nf_a10i/desafio2nf/tools/load_csv_tool.py:26 | After a word character the replacement works on the two sides separately: no run is merged across that boundary. |
| NameNormalizer.ReplaceAppendBefore | desafio2_nf_a10i/desafio2nf/tools/load_csv_tool.py:26 | Before a word character the replacement also works on the two sides separately. |
| NameNormalizer.ReplaceSeparator | desafio2_nf_a10i/desafio2nf/tools/load_csv_tool.py:26 | A non-empty text with no letter or digit becomes a non-empty run of `_` only. |
| NameNormalizer.ReplaceSeparated | desafio2_nf_a10i/desafio2nf/tools/load_csv_tool.py:26 | Between two non-empty normal words, only the separator is replaced; the words are kept. |
| NameNormalizer.CollapseUnderscores | desafio2_nf_a10i/desafio2nf/tools/load_csv_tool.py:28 | The result is empty exactly when the input is, and starts with the same character. The run law is `CollapseRunBetween`. |
| NameNormalizer.CollapseKeepsWord | desafio2_nf_a10i/desafio2nf/tools/load_csv_tool.py:28 | Collapsing underscores keeps a text inside `[a-z0-9_]`. |
| NameNormalizer.CollapseKeepsAlnum | desafio2_nf_a10i/desafio2nf/tools/load_csv_tool.py:28 | Collapsing underscores keeps the letters and digits in order: it adds none and loses none. |
| NameNormalizer.CollapseLeavesNoDouble | desafio2_nf_a10i/desafio2nf/tools/load_csv_tool.py:28 | After collapsing, no two underscores are adjacent. |
| NameNormalizer.CollapseFixesNoDouble | desafio2_nf_a10i/desafio2nf/tools/load_csv_tool.py:28 | A text with no adjacent underscores is left unchanged. |
| NameNormalizer.CollapseAppend | desafio2_nf_a10i/desafio2nf/tools/load_csv_tool.py:28 | After a character other than `_`, collapsing works on the two sides separately. |
| NameNormalizer.CollapseRun | desafio2_nf_a10i/desafio2nf/tools/load_csv_tool.py:28 | A run of `_` in front of a text that does not start with `_` becomes exactly one `_`. |
| NameNormalizer.CollapseRunBetween | desafio2_nf_a10i/desafio2nf/tools/load_csv_tool.py:28 | `re.sub(r'_+', '_', s)`: a run of `_` between two parts that do not touch it with `_` becomes exactly one `_`, and each part is collapsed on its own. |
| NameNormalizer.TrimUnderscores | desafio2_nf_a10i/desafio2nf/tools/load_csv_tool.py:30 | `strip('_')`: the result neither starts nor ends with `_`. It keeps the presence of letters and digits. A text without an edge `_` is unchanged. |
| NameNormalizer.TrimIsSlice | desafio2_nf_a10i/desafio2nf/tools/load_csv_tool.py:30 | The trimmed text is an infix of the input, starting where the leading underscores end. |
| NameNormalizer.TrimKeepsWord | desafio2_nf_a10i/desafio2nf/tools/load_csv_tool.py:30 | Trimming keeps a text inside `[a-z0-9_]`. |
| NameNormalizer.TrimKeepsNoDouble | desafio2_nf_a10i/desafio2nf/tools/load_csv_tool.py:30 | Trimming never makes two underscores adjacent. |
| NameNormalizer.TrimKeepsAlnums | desafio2_nf_a10i/desafio2nf/tools/load_csv_tool.py:30 | Trimming `_` keeps the letters and digits in order. |
| NameNormalizer.NormalizeName | desafio2_nf_a10i/desafio2nf/tools/load_csv_tool.py:13-31 | The result is a normal name: only `[a-z0-9_]`, no `__`, no `_` at either end. It is empty exactly when the lower-cased, ASCII-folded name has no letter or digit. What it gives for two words around a separator is `NormalizeSeparatedName`. |
| NameNormalizer.NormalizeNameKeepsAlnums | desafio2_nf_a10i/desafio2nf/tools/load_csv_tool.py:13-31 | The result has exactly the letters and digits of the lower-cased, ASCII-folded name, in the same order. |
| NameNormalizer.NormalizeFoldedNormal | desafio2_nf_a10i/desafio2nf/tools/load_csv_tool.py:13-31 | When the lower-cased, folded name is already normal, it is the result: steps 3 to 5 change nothing. |
| NameNormalizer.NormalizeSpacedWords | desafio2_nf_a10i/desafio2nf/tools/load_csv_tool.py:13-31 | Two non-empty normal words separated by a space normalise to the words joined by one `_`. |
| NameNormalizer.NormalizeSpacedName | desafio2_nf_a10i/desafio2nf/tools/load_csv_tool.py:13-31 | The same for any name that lower-cases to two normal words and a space. |
| NameNormalizer.NormalizeSeparatedName | desafio2_nf_a10i/desafio2nf/tools/load_csv_tool.py:13-31 | A name that lower-cases to two non-empty normal words around any run of ASCII characters other than letters and digits (spaces, `_`, punctuation, mixed) normalises to the words joined by exactly one `_`. |
| NameNormalizer.NormalizeSpacedExample | desafio2_nf_a10i/desafio2nf/tools/load_csv_tool.py:13-31 | `Valor Total` normalises to `valor_total` for any NFKD that leaves ASCII unchanged. |
| NameNormalizer.NormalizeUnderscoreRunExamples | desafio2_nf_a10i/desafio2nf/tools/load_csv_tool.py:26-28 | `Valor_ Total` and `Valor__Total` both normalise to `valor_total`. |
| NameNormalizer.NormalizeNameFixesNormal | desafio2_nf_a10i/desafio2nf/tools/load_csv_tool.py:13-31 | A name that is already normal is returned unchanged. |
| NameNormalizer.NormalizeNameIdempotent | desafio2_nf_a10i/desafio2nf/tools/load_csv_tool.py:13-31 | Normalising twice gives the same result as normalising once. |
| NameNormalizer.NormalizeAccentExample | desafio2_nf_a10i/desafio2nf/tools/load_csv_tool.py:22-24 | `São` normalises to `sao`: lower-cased and accent removed. |
| NameNormalizer.NormalizeSymbolsExample | desafio2_nf_a10i/desafio2nf/tools/load_csv_tool.py:26-30 | A name made only of symbols (`-.-`) normalises to the empty text. |
| NameNormalizer.LatinDecomposition | desafio2_nf_a10i/desafio2nf/tools/load_csv_tool.py:24 | A partial sample NFKD: every accented Latin-1 letter, `À` to `ÿ`, splits into base letter and combining mark. It leaves ASCII text unchanged. |
| Text.Lower | desafio2_nf_a10i/desafio2nf/tools/load_csv_tool.py:22 | `str.lower()` character by character, preserving length. ASCII capitals map to small letters and other ASCII is kept. |
| Text.Upper | desafio2_nf_a10i/desafio2nf/tools/load_csv_tool.py:85 | `str.upper()` character by character: each small ASCII letter becomes its capital, other characters are kept, and no small ASCII letter is left. |
| Text.DropNonAscii | desafio2_nf_a10i/desafio2nf/tools/load_csv_tool.py:24 | `encode('ascii', 'ignore')`: the result is ASCII, no longer than the input, holds exactly the input's ASCII characters, and equals the input when that is ASCII. |
| Text.DropNonAsciiChar | desafio2_nf_a10i/desafio2nf/tools/load_csv_tool.py:24 | A single character is kept exactly when it is ASCII. |
| Text.DropNonAsciiAppend | desafio2_nf_a10i/desafio2nf/tools/load_csv_tool.py:24 | The fold works piecewise on a concatenation, so the kept characters stay in input order. |
| Text.Strip | desafio2_nf_a10i/desafio2nf/tools/sqlite_query_tool.py:30 | `str.strip()`: no white space at either end. |
| Text.StripIsInfix | desafio2_nf_a10i/desafio2nf/tools/sqlite_query_tool.py:30 | The stripped text is an infix of the input with only white space cut off before and after it. |
| Text.StripIdempotent | desafio2_nf_a10i/desafio2nf/tools/sql_generator_tool.py:77-80 | Stripping a stripped text changes nothing. |
| Text.StripIgnoresSurroundingSpace | desafio2_nf_a10i/desafio2nf/tools/sqlite_query_tool.py:30 | White space around a text does not change its stripped form. |
| Text.RemoveFenceLeavesNone | desafio2_nf_a10i/desafio2nf/tools/sql_generator_tool.py:80 | After `replace("```", "")`, no triple backtick remains, even where removal brings backticks together. |
| Text.RemoveAll | desafio2_nf_a10i/desafio2nf/tools/sql_generator_tool.py:80 | `replace(p, "")` keeps only characters of the input, in their order (a subsequence), and never makes a text longer. |
| Fences.RemoveAllFirst | desafio2_nf_a10i/desafio2nf/tools/sql_generator_tool.py:80 | Everything before the first occurrence of `p` is kept, that occurrence is removed and the rest is processed in turn. |
| Text.JoinContainsPart | desafio2_nf_a10i/desafio2nf/tools/load_csv_tool.py:123 | Every joined part occurs in the joined text. |
| Text.JoinAppend | desafio2nf/agents/query_analyzer_agent.py:39 | `sep.join(parts + [p])` is `sep.join(parts)`, the separator and `p`. |
| Text.JoinPartAt | desafio2nf/agents/query_analyzer_agent.py:39-42 | `sep.join` lays the parts out in order: each part sits at its offset, a separator follows every part but the last, and the last part ends the text. |
| Text.JoinPartsInOrder | desafio2nf/agents/query_analyzer_agent.py:39-42 | An earlier part occurs wholly before a later one, with at least a separator between them. |
| Text.ParseNatToString | desafio2_nf_a10i/desafio2nf/tools/load_csv_tool.py:121 | The decimal rendering of a count reads back as the count. |
| Text.NatToString | desafio2_nf_a10i/desafio2nf/tools/load_csv_tool.py:121 | `str(n)` is a non-empty text of decimal digits. |
| Text.LessTransitive | desafio2nf/agents/query_analyzer_agent.py:37 | Python's string order, used to sort `groupby` keys, is transitive. |
| Text.LessTotal | desafio2nf/agents/query_analyzer_agent.py:37 | Any two distinct strings are ordered one way or the other. |
| Catalog.DataFrameStore.constructor | desafio2nf/services/dataframe_store.py:7 | A new store holds no rows. |
| Catalog.DataFrameStoreClass.New | desafio2nf/services/dataframe_store.py:9-15 | The first call creates an empty store and records it. Every later call returns that same store. |
| Catalog.ConstructTwice | desafio2nf/services/dataframe_store.py:9-15 | Two constructions return one and the same object. |
| Catalog.DataFrameStore.AddMetadata | desafio2nf/services/dataframe_store.py:17-38 | Raises (store unchanged) exactly when a required column is missing. Otherwise drops the table's old rows, keeps the other rows in order and appends the new ones. |
| Catalog.ReplacedFilter | desafio2nf/services/dataframe_store.py:33-37 | After `add_metadata(t, M)`, table `t` has exactly the rows of M and every other table keeps its rows. |
| Catalog.ReplacedIdempotent | desafio2nf/services/dataframe_store.py:33-37 | Adding the same metadata twice leaves the state one call leaves. |
| Catalog.DataFrameStore.GetAllMetadata | desafio2nf/services/dataframe_store.py:40-47 | A copy of every row, in order. |
| Catalog.DataFrameStore.GetMetadataByTable | desafio2nf/services/dataframe_store.py:49-59 | Exactly the rows of the table, in catalog order (a subsequence of the catalog). Together with the rows of the other tables they make up the whole catalog, as a multiset. |
| Catalog.DataFrameStore.Clear | desafio2nf/services/dataframe_store.py:61-67 | No rows remain. |
| Catalog.DataFrameStore.GetTableNames | desafio2nf/services/dataframe_store.py:69-73 | Exactly the table names of the rows, each once, in order of first appearance. |
| Catalog.Distinct | desafio2nf/services/dataframe_store.py:73 | `unique()`: the same elements, no repeats, in first-appearance order. |
| Catalog.Filter | desafio2nf/services/dataframe_store.py:59 | The selection keeps exactly the rows of the table, in catalog order. |
| Catalog.Without | desafio2nf/services/dataframe_store.py:34 | The selection keeps exactly the rows of the other tables, in their original order. |
| SchemaContext.SortedNames | desafio2nf/agents/query_analyzer_agent.py:37 | `groupby` keys: the distinct names, strictly ascending. |
| SchemaContext.GroupKeys | desafio2nf/agents/query_analyzer_agent.py:37-41 | Every table of the catalog once, ascending, and no other name. |
| SchemaContext.TableLine | desafio2nf/agents/query_analyzer_agent.py:38-40 | The line starts with `Tabela '<t>': `, lists the `column dtype` entry of every row of the group and ends with a period. |
| SchemaContext.TableLineEmpty | desafio2nf/agents/query_analyzer_agent.py:38-40 | A group with no rows gives exactly `Tabela '<t>': .`. |
| SchemaContext.TableLineSingle | desafio2nf/agents/query_analyzer_agent.py:38-40 | One row gives exactly `Tabela '<t>': <column> <dtype>.`. |
| SchemaContext.TableLineAppend | desafio2nf/agents/query_analyzer_agent.py:38-40 | One more row replaces the final period by `, `, the new `column dtype` entry and a period: the entries appear in row order, separated by `, `. |
| SchemaContext.TableLines | desafio2nf/agents/query_analyzer_agent.py:37-41 | One line per key, made from that table's rows in catalog order. |
| SchemaContext.SchemaContextOf | desafio2nf/agents/query_analyzer_agent.py:31-42 | The fixed "no metadata" sentence exactly when the catalog is empty. Otherwise the text ends with a period. The line layout is `ContextLineAt`. |
| SchemaContext.ContextListsEveryTable | desafio2nf/agents/query_analyzer_agent.py:37-42 | Every catalogued table has its own line in the context, listing its rows. |
| SchemaContext.ContextIsJoin | desafio2nf/agents/query_analyzer_agent.py:42 | With at least one table, the context is the table lines joined by `\n`. |
| SchemaContext.ContextLineAt | desafio2nf/agents/query_analyzer_agent.py:37-42 | Line `k` of the context is the line of the `k`-th smallest table name: the first line opens the text, exactly one line break follows each line but the last, the next line starts right after it, and the last line ends the text. |
| SchemaContext.ContextLinesInOrder | desafio2nf/agents/query_analyzer_agent.py:37-42 | For two group keys in sorted order, the smaller name's line ends before the larger name's line begins. |
| SchemaContext.GroupsPartitionRows | desafio2nf/agents/query_analyzer_agent.py:37-41 | Grouping by distinct keys that cover every row puts each row in exactly one group. |
| SchemaContext.ContextCoversEveryRow | desafio2nf/agents/query_analyzer_agent.py:37-42 | The groups of the context together are the catalog rows, as a multiset. |
| Fences.CleanFences | desafio2_nf_a10i/desafio2nf/tools/sql_generator_tool.py:79-80 | When the lower-cased text contains the opener, no triple backtick and no outer white space remain. Otherwise the text is returned unchanged, plain fences included. |
| Fences.LowerCaseTagRemoved | desafio2_nf_a10i/desafio2nf/tools/sql_generator_tool.py:79-80 | A reply fenced with the exact opener gives the stripped code alone. |
| Fences.OpenerMissed | desafio2_nf_a10i/desafio2nf/tools/sql_generator_tool.py:80 | A tag in a different case is not matched by the case-sensitive `replace`. |
| Fences.UpperCaseTagKept | desafio2_nf_a10i/desafio2nf/tools/sql_generator_tool.py:79-80 | As written: a tag in a different case triggers the cleaning but stays in front of the code. |
| Fences.CleanFencesAnyCase | desafio2_nf_a10i/desafio2nf/tools/sql_generator_tool.py:79-80 | Corrected cleaning: the opener is removed in any case, matching the trigger. |
| Fences.AnyCaseTagRemoved | desafio2_nf_a10i/desafio2nf/tools/sql_generator_tool.py:79-80 | Corrected: whatever the tag's case, the stripped code alone is left. |
| Fences.CleanedAnyCaseHasNoFence | desafio2_nf_a10i/desafio2nf/tools/sql_generator_tool.py:79-80 | The corrected cleaning also leaves no triple backtick. |
| SqlGenerator.PostProcessSql | desafio2_nf_a10i/desafio2nf/tools/sql_generator_tool.py:76-83 | A failing model call becomes an `[ERRO] Falha ao gerar SQL:` message. A reply gives SQL with no outer white space; if it mentions ```` ```sql ```` in any case, without any triple backtick; otherwise it is only stripped. |
| SqlGenerator.FencedReplyUnstripped | desafio2_nf_a10i/desafio2nf/tools/sql_generator_tool.py:77-80 | A reply that starts and ends with a backtick is cleaned exactly as it came. |
| SqlGenerator.OtherCaseTagKept | desafio2_nf_a10i/desafio2nf/tools/sql_generator_tool.py:79-80 | As written: a fence tagged `SQL`, `Sql`, … keeps the tag in front of the statement. |
| SqlGenerator.UpperCaseFenceKeepsTag | desafio2_nf_a10i/desafio2nf/tools/sql_generator_tool.py:79-80 | As written: ```` ```SQL\nSELECT 1\n``` ```` gives `SQL\nSELECT 1`. |
| SqlGenerator.CorrectedDropsTag | desafio2_nf_a10i/desafio2nf/tools/sql_generator_tool.py:79-80 | Corrected: a fence tagged `sql` in any case gives the stripped statement alone. |
| SqlGenerator.CorrectedLosesFences | desafio2_nf_a10i/desafio2nf/tools/sql_generator_tool.py:79-80 | The corrected post-processing still leaves no triple backtick. |
| SqlGenerator.CorrectedUpperCaseFence | desafio2_nf_a10i/desafio2nf/tools/sql_generator_tool.py:79-80 | Corrected: the same ```` ```SQL ```` reply gives `SELECT 1`. |
| SqliteQuery.IsSelect | desafio2_nf_a10i/desafio2nf/tools/sqlite_query_tool.py:30 | The SELECT route is taken exactly when the stripped statement's first six characters spell `select` in any case. |
| SqliteQuery.IsSelectIgnoresCase | desafio2_nf_a10i/desafio2nf/tools/sqlite_query_tool.py:30 | Statements that differ only in letter case take the same route. |
| SqliteQuery.IsSelectIgnoresSurroundingSpace | desafio2_nf_a10i/desafio2nf/tools/sqlite_query_tool.py:30 | Surrounding white space does not change the route. |
| SqliteQuery.SelectExample | desafio2_nf_a10i/desafio2nf/tools/sqlite_query_tool.py:30 | `Select 1` is routed as a SELECT. |
| SqliteQuery.WithQueryExample | desafio2_nf_a10i/desafio2nf/tools/sqlite_query_tool.py:30 | A `WITH … SELECT` query takes the execute-and-commit route. |
| SqliteQuery.ErrorMessage | desafio2_nf_a10i/desafio2nf/tools/sqlite_query_tool.py:42-45 | Both failure messages start with `[ERRO]` and end by quoting the statement between fences. |
| SqliteQuery.MessageTags | desafio2_nf_a10i/desafio2nf/tools/sqlite_query_tool.py:23-40 | The missing-database message is an `[ERRO]` message. The two success messages are not. |
| SqliteQuery.SqliteQueryTool | desafio2_nf_a10i/desafio2nf/tools/sqlite_query_tool.py:9-48 | Missing file: the not-found message, nothing changed. SELECT: tables unchanged; the no-rows message, the Markdown table or an `[ERRO]` message. Other statements: the new tables and the done message, or the tables unchanged and an `[ERRO]` message. |
| LoadCsv.StatusMessage | desafio2_nf_a10i/desafio2nf/tools/load_csv_tool.py:121-123 | With no messages it is exactly the count and the success sentence. Otherwise it starts with those and the `Erros/Avisos` header, and every collected message occurs in it. |
| LoadCsv.StatusMessageCount | desafio2_nf_a10i/desafio2nf/tools/load_csv_tool.py:121 | The status message begins with the count of loaded files, which reads back as that number. |
| LoadCsv.LastDot | desafio2_nf_a10i/desafio2nf/tools/load_csv_tool.py:70 | The index of the last `.`, or -1 when there is none. |
| LoadCsv.CsvRoot | desafio2_nf_a10i/desafio2nf/tools/load_csv_tool.py:70 | `splitext(name)[0]` of a `.csv` name drops exactly `.csv`, unless only dots precede it. |
| LoadCsv.SplitExtRoot | desafio2_nf_a10i/desafio2nf/tools/load_csv_tool.py:70 | `splitext(name)[0]` is a prefix of the name. When it differs, the name continues with the last dot, and the root has a character other than a dot. |
| LoadCsv.TableNameOf | desafio2_nf_a10i/desafio2nf/tools/load_csv_tool.py:70 | Every table name is a normal name. |
| LoadCsv.DotCsvTableName | desafio2_nf_a10i/desafio2nf/tools/load_csv_tool.py:62-70 | A file named just `.csv` is loaded into the table `csv`. |
| LoadCsv.RenameColumns | desafio2_nf_a10i/desafio2nf/tools/load_csv_tool.py:77 | The same columns in the same order, each renamed by `normalize_name`. |
| LoadCsv.CollidingNamesExample | desafio2_nf_a10i/desafio2nf/tools/load_csv_tool.py:77-82 | Two columns whose names normalise alike leave the frame with a shared label. |
| LoadCsv.NormalizeText | desafio2_nf_a10i/desafio2nf/tools/load_csv_tool.py:84-86 | A normalised cell is ASCII and has no small letter. It is the upper-cased ASCII fold of the cell with exactly its outer white space removed. |
| LoadCsv.UpperStripped | desafio2_nf_a10i/desafio2nf/tools/load_csv_tool.py:85 | Upper-casing and stripping an ASCII text gives ASCII without small letters, cut from the upper-cased text. |
| LoadCsv.NormalizedTextFixed | desafio2_nf_a10i/desafio2nf/tools/load_csv_tool.py:85 | An ASCII text with no small letter and no outer white space is its own normal form. |
| LoadCsv.NormalizeTextIdempotent | desafio2_nf_a10i/desafio2nf/tools/load_csv_tool.py:84-86 | Normalising a normalised cell changes nothing. |
| LoadCsv.NormalizeTextExample | desafio2_nf_a10i/desafio2nf/tools/load_csv_tool.py:85 | `são` becomes `SAO`. |
| LoadCsv.NormalizeColumn | desafio2_nf_a10i/desafio2nf/tools/load_csv_tool.py:80-86 | The name, dtype and length are kept. In an `object` column each cell becomes its normalised text. Any other column is unchanged. |
| LoadCsv.NormalizedColumnCells | desafio2_nf_a10i/desafio2nf/tools/load_csv_tool.py:82-86 | Every cell of a normalised `object` column is text that is ASCII, with no small letter and no outer white space. |
| LoadCsv.NormalizeColumnIdempotent | desafio2_nf_a10i/desafio2nf/tools/load_csv_tool.py:80-86 | Normalising a column twice gives the same result as once. |
| LoadCsv.NormalizeColumns | desafio2_nf_a10i/desafio2nf/tools/load_csv_tool.py:80-86 | Each column is normalised, in order. |
| LoadCsv.NormalizeTextColumns | desafio2_nf_a10i/desafio2nf/tools/load_csv_tool.py:80-86 | In place on the column array: raises exactly when a label is shared. Otherwise every column ends normalised. |
| LoadCsv.MetadataRows | desafio2_nf_a10i/desafio2nf/tools/load_csv_tool.py:93-102 | One record per column, in order, with its name and dtype, the table and the file. |
| LoadCsv.MetadataFrame | desafio2_nf_a10i/desafio2nf/tools/load_csv_tool.py:105 | The metadata frame has the required columns exactly when the table has at least one column. |
| LoadCsv.CollectMetadata | desafio2_nf_a10i/desafio2nf/tools/load_csv_tool.py:93-102 | The loop builds exactly the metadata rows. |
| LoadCsv.ProcessFile | desafio2_nf_a10i/desafio2nf/tools/load_csv_tool.py:62-113 | A non-`.csv` entry is skipped, and only those are. A stored table has the normalised file name, unique normal column names and one metadata row per column tagged with the table and file. |
| LoadCsv.ProcessFileOutcome | desafio2_nf_a10i/desafio2nf/tools/load_csv_tool.py:62-113 | For a `.csv` entry, the failure is the empty-file warning, the parse error, the duplicate-label error or the `to_sql` error, checked in that order. Otherwise the table is stored. A stored frame has the parsed columns in order, each renamed, dtype kept, and text cells normalised. Its metadata is one row per column. |
| LoadCsv.ProcessFileStores | desafio2_nf_a10i/desafio2nf/tools/load_csv_tool.py:74-106 | An entry that passes every check stores its normalised columns under its table name, with their metadata. |
| LoadCsv.StepAccounts | desafio2_nf_a10i/desafio2nf/tools/load_csv_tool.py:61-113 | A `.csv` entry adds exactly one to the loaded count plus the messages. Earlier messages are kept in front. Any other entry changes nothing. |
| LoadCsv.ApplyOutcome | desafio2_nf_a10i/desafio2nf/tools/load_csv_tool.py:89-113 | A failure only appends its message. A stored table is written to SQLite. It is then counted with its catalog rows replaced, or, when the catalog refuses its metadata, reported with the catalog unchanged. |
| LoadCsv.RunKeepsCatalogInTables | desafio2_nf_a10i/desafio2nf/tools/load_csv_tool.py:61-113 | Every catalogued table stays a table of the database throughout a run. |
| LoadCsv.RunAccountsForEveryCsv | desafio2_nf_a10i/desafio2nf/tools/load_csv_tool.py:61-113 | Each `.csv` entry is either counted as loaded or reported by one message. Earlier messages are never lost. |
| LoadCsv.StepOnTable | desafio2_nf_a10i/desafio2nf/tools/load_csv_tool.py:89-106 | An entry either writes a table (new frame; catalog rows replaced if accepted) or leaves it as it was in both places. |
| LoadCsv.UnwrittenTableKept | desafio2_nf_a10i/desafio2nf/tools/load_csv_tool.py:61-113 | A table no entry writes keeps its frame and its catalog rows. |
| LoadCsv.LastWriteWins | desafio2_nf_a10i/desafio2nf/tools/load_csv_tool.py:89-106 | The last entry writing a table decides its frame and, when accepted, its catalog rows. |
| LoadCsv.StaleTableUncatalogued | desafio2_nf_a10i/desafio2nf/tools/load_csv_tool.py:47-89 | A table from an earlier run that this run does not write stays in SQLite with no catalog rows. |
| LoadCsv.EmptyFileOnlyWarns | desafio2_nf_a10i/desafio2nf/tools/load_csv_tool.py:110-111 | An empty CSV adds one warning and changes nothing else. |
| LoadCsv.OtherEntriesIgnored | desafio2_nf_a10i/desafio2nf/tools/load_csv_tool.py:62 | A non-`.csv` entry changes nothing. |
| LoadCsv.LoadFile | desafio2_nf_a10i/desafio2nf/tools/load_csv_tool.py:62-113 | The database, catalog, count and messages after one entry are those `Step` gives. |
| LoadCsv.LoadParsed | desafio2_nf_a10i/desafio2nf/tools/load_csv_tool.py:74-113 | For a parsed file, the database, catalog, count and messages afterwards are those `Step` gives. |
| LoadCsv.NormalizeRenamed | desafio2_nf_a10i/desafio2nf/tools/load_csv_tool.py:80-86 | On a copy of the renamed columns: raises exactly when a label is shared, otherwise returns the normalised columns. |
| LoadCsv.StepSharedLabel | desafio2_nf_a10i/desafio2nf/tools/load_csv_tool.py:77-82 | A parsed file with a shared column label only adds the `AttributeError` failure message. |
| LoadCsv.StepToSqlFails | desafio2_nf_a10i/desafio2nf/tools/load_csv_tool.py:89 | A parsed file that `to_sql` refuses only adds the failure message carrying that error. |
| LoadCsv.StepStores | desafio2_nf_a10i/desafio2nf/tools/load_csv_tool.py:89-108 | A file that passes every check has the effect of storing its normalised columns and metadata. |
| LoadCsv.StepFails | desafio2_nf_a10i/desafio2nf/tools/load_csv_tool.py:110-113 | An entry that fails adds its message and changes nothing else. |
| LoadCsv.StoreTable | desafio2_nf_a10i/desafio2nf/tools/load_csv_tool.py:89-108 | The table is written, then its metadata is offered to the catalog. The new state is what a stored outcome does. |
| LoadCsv.LoadEntries | desafio2_nf_a10i/desafio2nf/tools/load_csv_tool.py:61-113 | After the loop, the state is `Run` over the listing in order. |
| LoadCsv.LoadCsvToSqliteTool | desafio2_nf_a10i/desafio2nf/tools/load_csv_tool.py:33-125 | Uses the singleton store. A connect or listing failure returns the connection error message with an emptied catalog. Otherwise the tables, catalog and status message are those of `Run` from an empty catalog, and every catalogued table is in SQLite. |
| MetadataQuery.NoResultWarning | desafio2_nf_a10i/desafio2nf/tools/metadata_query_tool.py:89 | The warning starts with `[AVISO]` and ends by quoting the code between fences. |
| MetadataQuery.ExecFailureMessage | desafio2_nf_a10i/desafio2nf/tools/metadata_query_tool.py:91-92 | The failure message starts with `[ERRO]`, contains the exception's text and ends with the code block. |
| MetadataQuery.GeneratedCode | desafio2_nf_a10i/desafio2nf/tools/metadata_query_tool.py:69-73 | The code has no outer white space. A reply mentioning ```` ```python ```` in any case loses every triple backtick; any other is only stripped. |
| MetadataQuery.FencedReplyUnstripped | desafio2_nf_a10i/desafio2nf/tools/metadata_query_tool.py:69-73 | A reply starting and ending with a backtick is cleaned exactly as it came. |
| MetadataQuery.OtherCaseTagKept | desafio2_nf_a10i/desafio2nf/tools/metadata_query_tool.py:72-73 | As written: a fence tagged `Python`, `PYTHON`, … keeps the tag in front of the code. |
| MetadataQuery.LowerCaseTagDropped | desafio2_nf_a10i/desafio2nf/tools/metadata_query_tool.py:72-73 | A ```` ```python ```` fence gives the bare code. |
| MetadataQuery.ShapeResult | desafio2_nf_a10i/desafio2nf/tools/metadata_query_tool.py:84-92 | A DataFrame gives its Markdown, another value its `str()`, `None` the warning quoting the code. A raised exception gives the failure message. |
| MetadataQuery.OwnMessagesTagged | desafio2_nf_a10i/desafio2nf/tools/metadata_query_tool.py:36-92 | The empty-catalog note starts with `[INFO]`. A shaped `None` result starts with `[AVISO]` and every failure with `[ERRO]`; neither starts with `[INFO]`. |
| MetadataQuery.UnshapedResultQuotesCode | desafio2_nf_a10i/desafio2nf/tools/metadata_query_tool.py:84-92 | A `None` result, an exception or a failed rendering is reported with the code that produced it. |
| MetadataQuery.MetadataQueryTool | desafio2_nf_a10i/desafio2nf/tools/metadata_query_tool.py:32-92 | An empty catalog returns the `[INFO]` message. A failing model call escapes as `UnboundLocalError`, and only then. Otherwise the result is the shaped evaluation of the cleaned code. |
| MetadataQuery.EmptyCatalogIgnoresModel | desafio2_nf_a10i/desafio2nf/tools/metadata_query_tool.py:35-36 | With an empty catalog, the answer does not depend on the model or the evaluator. |
| MetadataQuery.EvaluatorSeesCleanedCode | desafio2_nf_a10i/desafio2nf/tools/metadata_query_tool.py:72-80 | The evaluator is handed `result_exec = <cleaned code>`, which has no fence. |
| MetadataQuery.PredictFailureEscapes | desafio2_nf_a10i/desafio2nf/tools/metadata_query_tool.py:68-92 | As written: a failing model call is not reported; it escapes as an exception. |
| MetadataQuery.MetadataQueryToolCorrected | desafio2_nf_a10i/desafio2nf/tools/metadata_query_tool.py:68-92 | Corrected: a failing model call returns an `[ERRO]` message carrying the exception's text. |
| MetadataQuery.CorrectedAgrees | desafio2_nf_a10i/desafio2nf/tools/metadata_query_tool.py:68-92 | Wherever the original returns, the corrected tool returns the same text. Where the original raises, the corrected one returns an `[ERRO]` message. |

## Left out

- The language-model calls (`ChatOpenAI`, `llm.predict`) and the prompts: the model's reply is an input.
- `exec` of generated Python: its result is an input, a function of the catalog and the code.
- `all_metadata_df.to_markdown` in the prompt of `metadata_query_tool` (line 41) is outside the `try`. Its failure and the `ChatOpenAI` construction failure are not modelled.
- pandas and SQLite internals are oracles given per entry or as an `Engine`:
  - CSV parsing and dtype inference;
  - `to_sql`;
  - `read_sql_query`;
  - statement execution and commit;
  - `to_markdown`.
- `to_sql` either stores the whole frame or fails without changing the database. A partial write is not modelled.
- NFKD tables: NFKD is the parameter `Decomposition`. The only assumption is that it leaves ASCII unchanged. `LatinDecomposition` is a partial sample instance: it decomposes the accented Latin-1 letters only.
- Text.LowerChar: maps only ASCII and Latin-1 capitals. The rest of Unicode case mapping is not modelled.
- Text.UpperChar: maps only ASCII small letters. Cells are upper-cased after the ASCII fold, so nothing else reaches it.
- File-system effects: `os.makedirs`, `os.path.join`, the fixed database path, `conn.close()`.
  - The directory listing is an input sequence in listing order.
  - `os.path.splitext` is modelled only for names without a directory part, which is what `os.listdir` returns.
- The `print` and logging calls of the store and the agents.
- The store's class-level `_metadata_store` frame and the instance attribute that shadows it: the singleton holds a single `rows` field.
- The rest of the agent orchestration, the user interface and the prompt texts.
- Concurrency: the tools run one at a time.
- LoadCsv.ProcessFile: `to_sql` is an oracle, so a parsed frame with no columns may be stored. pandas rejects a header-only CSV with no columns as empty data, so the program never reaches that case. In the model the table is then written while the catalog refuses its metadata (`LoadCsv.ApplyOutcome`).

## Findings

| source | as written | input that shows it | evidently intended | confidence | as-written member | corrected member |
|---|---|---|---|---|---|---|
| desafio2_nf_a10i/desafio2nf/tools/sql_generator_tool.py:79-80 | Fence cleaning is triggered by a case-insensitive test, but the opener is removed case-sensitively. | A reply fenced as ```` ```SQL\nSELECT 1\n``` ```` returns `SQL\nSELECT 1`. The same happens in metadata_query_tool.py:72-73 with ```` ```Python ````. | Remove the opener in any case, leaving `SELECT 1`. | not executed | SqlGenerator.UpperCaseFenceKeepsTag, SqlGenerator.OtherCaseTagKept, MetadataQuery.OtherCaseTagKept, Fences.UpperCaseTagKept | SqlGenerator.CorrectedUpperCaseFence, SqlGenerator.CorrectedDropsTag, Fences.AnyCaseTagRemoved, Fences.CleanFencesAnyCase |
| desafio2_nf_a10i/desafio2nf/tools/metadata_query_tool.py:69-92 | When `llm.predict` raises, the `except` handler formats `generated_code`, which was never bound. | A non-empty catalog and a failing model call raise `UnboundLocalError` instead of returning a message. | Return the `[ERRO]` failure message with an empty code block. | not executed | MetadataQuery.PredictFailureEscapes, MetadataQuery.MetadataQueryTool | MetadataQuery.MetadataQueryToolCorrected, MetadataQuery.CorrectedAgrees |
