# PyHive's SQLAlchemy dialect for Hive, modelled in Dafny

This project models the text-translation core of PyHive's SQLAlchemy dialect
(`pyhive/sqlalchemy_hive.py`) and proves properties of it. That core covers:

- **Statement rewriting (`HiveCompiler`).** `visit_insert` rewrites
  `INSERT INTO t (cols)` into Hive's `INSERT INTO TABLE t` and keeps a
  `PARTITION (...)` clause. `visit_column` cuts the schema off a
  `schema.table.column` reference.
- **DDL emission (`HiveDDLCompiler`, `HiveTypeCompiler`).** This covers the
  suffixes on primary and foreign key constraints, the column `COMMENT`
  suffix, and the table options `post_create_table` emits in a fixed order
  (with sorted `TBLPROPERTIES`). It also covers the Hive names of SQLAlchemy's
  generic type tags, recursing through `ARRAY<...>`.
- **Result column names (`HiveExecutionContext._translate_colname`).**
- **Table introspection (`HiveDialect`).** This is how `_get_table_columns`
  and `has_table` tell a missing table. `get_columns` normalises and filters
  `DESCRIBE` rows, stops at the partition marker and resolves the type text
  through the registry `_type_map`. `get_indexes` collects the partition
  columns.
- **The registry and `HiveArray.__init__`,** and the value dispatch of the
  string-backed types `HiveDate`, `HiveTimestamp` and `HiveDecimal`.

## Modules

| file | module | models |
|---|---|---|
| `wrappers.dfy` | `Wrappers` | `Option`, `Result` and the exceptions the code raises |
| `text.dfy` | `Text` | the Python string primitives used: `str.strip`, `\s`, `\w`, `split`/`join`, `count`, `index`, `lower`, `str` ordering |
| `patterns.dfy` | `Patterns` | regexes of the shape `A.*B.*C` (literal pieces and `.*` gaps, `.` excluding newline) under `re.match` and `re.search` |
| `types.dfy` | `Types` | `_type_map`, `HiveArray.__init__` |
| `coercion.dfy` | `Coercion` | the result processors of `HiveDate`, `HiveTimestamp`, `HiveDecimal`, and the refused bind |
| `compiler.dfy` | `Compiler` | `visit_insert` (both regexes and `re.sub`), `visit_column` |
| `typecompiler.dfy` | `TypeCompiler` | the `HiveTypeCompiler` visits |
| `ddl.dfy` | `Ddl` | constraint and column suffixes, `post_create_table` |
| `execution.dfy` | `Execution` | `_translate_colname` |
| `dialect.dfy` | `Dialect` | `_get_table_columns`, `has_table`, `get_columns`, `get_indexes` |

The three loops of the source are modelled by methods whose loops keep
invariants. `Dialect.ColumnsFromRows` is the `get_columns` loop, proved equal to
the function `Dialect.Collect`. `Dialect.IndexesFromRows` holds the two
`get_indexes` loops: the enumerate loop with `break`, then the loop collecting
the names. Everything else in the core is pure and is modelled by functions and
lemmas. `connection.execute` is a function parameter. It maps a statement to
the rows it returns, or to the exception it raises.

## Model

| member | source | states |
|---|---|---|
| Compiler.MatchAt | pyhive/sqlalchemy_hive.py:302-305 | `re.match` of either INSERT regex at the start of a text: the match and the text after it, which is strictly shorter than the text. `MatchAtSound` and `MatchAtComplete` characterise exactly when it matches and what |
| Compiler.MatchAtSound | pyhive/sqlalchemy_hive.py:302-305 | where either INSERT regex matches at the start of a text, the match is well formed: the target is non-empty without whitespace, the column list has no `)`, the partition spec is non-empty without `)`. The text is exactly the matched text followed by the rest |
| Compiler.MatchAtComplete | pyhive/sqlalchemy_hive.py:302-305 | every well-formed match is found by its regex at the start of the text, whatever follows it; with `MatchAtSound` the regex matches there exactly when the text begins with a well-formed match, and the match is unique |
| Compiler.FoundCorrect | pyhive/sqlalchemy_hive.py:319 | `regex.search` succeeds exactly when the regex matches at some position of the text |
| Compiler.Found | pyhive/sqlalchemy_hive.py:319-322 | `regex.search` on the statement. `FoundCorrect` states that it succeeds exactly when the regex matches at some position |
| Compiler.FirstMatch | pyhive/sqlalchemy_hive.py:319 | when the search succeeds, the leftmost position where the regex matches: it matches there and at no earlier position |
| Compiler.FoundFrom | pyhive/sqlalchemy_hive.py:319 | a match at any position makes the search succeed |
| Compiler.SubAll | pyhive/sqlalchemy_hive.py:320-325 | `re.sub` replacing every match, leftmost first: a text where the regex matches nowhere is left unchanged |
| Compiler.SubAllKeepsPrefix | pyhive/sqlalchemy_hive.py:320-325 | `re.sub` leaves the text before the leftmost match unchanged |
| Compiler.NotFoundWithoutKeyword | pyhive/sqlalchemy_hive.py:302-305 | a text without `INSERT INTO ` matches neither regex |
| Compiler.SubAllAtMatch | pyhive/sqlalchemy_hive.py:320 | a text starting with a well-formed match, with no further match after it, becomes the replacement followed by the rest |
| Compiler.VisitInsert | pyhive/sqlalchemy_hive.py:313-325 | `visit_insert` fails exactly when neither regex is found in the statement, with the assertion message naming the statement. The rewritten text is stated by `InsertPlain` and `InsertPartitioned` |
| Compiler.VisitInsertRefuses | pyhive/sqlalchemy_hive.py:313-325 | `visit_insert` fails its assertion, with the message naming the statement, exactly when neither regex matches at any position |
| Compiler.InsertPlain | pyhive/sqlalchemy_hive.py:313-320 | `INSERT INTO T (cols)rest` becomes `INSERT INTO TABLE Trest` when `rest` holds no further match |
| Compiler.InsertPartitioned | pyhive/sqlalchemy_hive.py:313-325 | `INSERT INTO T PARTITION (spec) (cols)rest` becomes `INSERT INTO TABLE T PARTITION (spec)rest` when the plain regex matches nowhere and `rest` holds no further partitioned match |
| Compiler.VisitColumn | pyhive/sqlalchemy_hive.py:327-337 | with 0 or 1 dots the reference is unchanged. With 2 dots the result has exactly 1 dot and is what follows the first dot. With more dots the assertion fails with its message |
| Compiler.VisitColumnIdempotent | pyhive/sqlalchemy_hive.py:327-337 | rewriting an accepted reference a second time changes nothing |
| Ddl.PrimaryKeyClause | pyhive/sqlalchemy_hive.py:365-366 | the generic rendering followed by exactly ` DISABLE NOVALIDATE RELY` |
| Ddl.ForeignKeyClause | pyhive/sqlalchemy_hive.py:368-369 | the generic rendering followed by exactly ` DISABLE NOVALIDATE` |
| Ddl.PrimaryKeyRelies | pyhive/sqlalchemy_hive.py:365-369 | the two constraint clauses differ only in the trailing ` RELY` |
| Ddl.ConstraintClausesInjective | pyhive/sqlalchemy_hive.py:365-369 | distinct renderings stay distinct once suffixed |
| Ddl.CreateColumn | pyhive/sqlalchemy_hive.py:398-403 | the column definition is kept as a prefix. It grows exactly when the comment is truthy, and then by ` COMMENT '<comment>'` |
| Ddl.CreateColumnComment | pyhive/sqlalchemy_hive.py:398-403 | the comment can be read back from the definition it was appended to |
| Ddl.PairTransitive | pyhive/sqlalchemy_hive.py:390 | Python's tuple `<` on `(key, value)` pairs is transitive (with `PairIrreflexive`, `PairAsymmetric`, `PairTotal`, `PairNotLessTransitive`: a strict total order) |
| Ddl.PairIrreflexive | pyhive/sqlalchemy_hive.py:390 | no pair is less than itself |
| Ddl.PairAsymmetric | pyhive/sqlalchemy_hive.py:390 | of two pairs, at most one is less than the other |
| Ddl.PairTotal | pyhive/sqlalchemy_hive.py:390 | of two distinct pairs, one is less than the other |
| Ddl.PairNotLessTransitive | pyhive/sqlalchemy_hive.py:390 | "not less than" is transitive |
| Ddl.Insert | pyhive/sqlalchemy_hive.py:390 | inserting into a sorted sequence keeps it sorted and adds exactly that element |
| Ddl.SortPairs | pyhive/sqlalchemy_hive.py:390-392 | `sorted(items)` is sorted, a permutation of the items, and keys never decrease |
| Ddl.SortedUnique | pyhive/sqlalchemy_hive.py:390-392 | two sorted permutations of the same items are equal, so `SortPairs` is exactly Python's `sorted` |
| Ddl.PropertyItems | pyhive/sqlalchemy_hive.py:388-393 | one `'k' = 'v'` item per property, in the same order |
| Ddl.PropertiesLine | pyhive/sqlalchemy_hive.py:387-394 | the line starts with `TBLPROPERTIES (` and ends with `)`. `PropertyItems` and `SortPairs` state what lies between, and `PropertiesLineOrderFree` that the given order does not show |
| Ddl.PropertiesLineOrderFree | pyhive/sqlalchemy_hive.py:387-394 | the `TBLPROPERTIES` line does not depend on the order the properties were given in |
| Ddl.PropertiesLineExample | pyhive/sqlalchemy_hive.py:387-394 | `{"b": "2", "a": "1"}` gives `TBLPROPERTIES ('a' = '1', 'b' = '2')` |
| Ddl.Slot | pyhive/sqlalchemy_hive.py:374-394 | the option in slot `k` (comment, partitioned by, clustered by, stored as, properties), if present, has rank `k` |
| Ddl.Present | pyhive/sqlalchemy_hive.py:374-394 | only present options are kept, and there are no more of them than slots |
| Ddl.PresentFrom | pyhive/sqlalchemy_hive.py:374-394 | every kept option comes from the slot its rank names |
| Ddl.PresentIncreasing | pyhive/sqlalchemy_hive.py:374-394 | the kept options' ranks strictly increase |
| Ddl.PresentComplete | pyhive/sqlalchemy_hive.py:374-394 | every present option is kept |
| Ddl.Options | pyhive/sqlalchemy_hive.py:374-394 | at most one option per slot, so at most five. `OptionsInOrder` states their order and that exactly the table's options are kept |
| Ddl.OptionsInOrder | pyhive/sqlalchemy_hive.py:374-394 | the options come out strictly in the order COMMENT, PARTITIONED BY, CLUSTERED BY, STORED AS, TBLPROPERTIES. Each is the table's own option of that kind, and every option the table has is emitted |
| Ddl.OptionLines | pyhive/sqlalchemy_hive.py:374-396 | one line per option, in order |
| Ddl.PostCreateTable | pyhive/sqlalchemy_hive.py:371-396 | the text starts with a newline. `PostCreateTableLines` states that the option lines follow it, one per line |
| Ddl.PostCreateTableLines | pyhive/sqlalchemy_hive.py:371-396 | when no option value holds a newline, the output is `\n` followed by exactly the option lines joined with `\n` (splitting recovers them) |
| Ddl.PostCreateTableEmpty | pyhive/sqlalchemy_hive.py:371-396 | a table without options gets just `\n` |
| Ddl.JoinSingleLine | pyhive/sqlalchemy_hive.py:394-396 | joining single-line pieces with a separator without newline gives a single line |
| TypeCompiler.Render | pyhive/sqlalchemy_hive.py:406-442 | an array type renders as `ARRAY<...>`. `RenderNested` states the nesting, and `RenderReflects` that each name reads back as the type's class |
| TypeCompiler.RenderNested | pyhive/sqlalchemy_hive.py:440-442 | an array type renders as `ARRAY<` once per level, the innermost type's name, then as many `>` |
| TypeCompiler.RenderReflects | pyhive/sqlalchemy_hive.py:406-442 | the Hive name of every overridden type, lower-cased as `DESCRIBE` prints it, starts with a registry word. That word names the class the type stands for (`INT` → `int` → Integer, `BINARY` → `binary` → String, an array → `array` → HiveArray) |
| TypeCompiler.HiveNameResolves | pyhive/sqlalchemy_hive.py:406-438 | the lower-cased name of a non-array type is a word not starting with `a`, and the registry maps it to the type's class |
| TypeCompiler.ArrayReads | pyhive/sqlalchemy_hive.py:440-442 | the lower-cased `ARRAY<...>` text starts with the word `array` |
| Types.Lookup | pyhive/sqlalchemy_hive.py:279-298 | a token resolves exactly when it is a registry key. Only non-empty lower-case words resolve, never to NullType, and only `array` resolves to HiveArray |
| Types.NewHiveArray | pyhive/sqlalchemy_hive.py:195-207 | an array instance as item type raises ValueError, and only that does. A class is instantiated, and the `HiveArray` class itself raises TypeError for want of its argument. A name resolves through the registry, with KeyError on a miss. The dimensions and `zero_indexes` are kept |
| Types.NestedArrayByName | pyhive/sqlalchemy_hive.py:195-203 | the nesting check covers instances only: the name `"array"` yields an array whose item is the array class |
| Coercion.DateResult | pyhive/sqlalchemy_hive.py:65-76 | `None` and dates pass through, a datetime keeps its date, and text succeeds exactly when the parser does, giving the parsed date, or fails with the parser's error. Anything else is a TypeError, and the result is always `None` or a date |
| Coercion.TimestampResult | pyhive/sqlalchemy_hive.py:90-99 | `None` and datetimes pass through, text succeeds exactly when the parser does, giving the parsed datetime, or fails with the parser's error, and anything else is a TypeError |
| Coercion.DecimalResult | pyhive/sqlalchemy_hive.py:116-125 | `None` and decimals pass through, text succeeds exactly when `Decimal` does, giving the parsed decimal, or fails with its error, and anything else is a TypeError |
| Coercion.ResultProcessorsIdempotent | pyhive/sqlalchemy_hive.py:65-125 | processing a processed value again gives the same value |
| Coercion.TextFailsOnlyByFormat | pyhive/sqlalchemy_hive.py:65-125 | with parsers that fail only by a format error, text fails only by a format error |
| Coercion.ResultRoundTrip | pyhive/sqlalchemy_hive.py:65-99 | text the parser reads back as `x` comes out as `x` (as a datetime, or as its date) |
| Coercion.DecimalRoundTrip | pyhive/sqlalchemy_hive.py:116-125 | text that `Decimal` reads back as `x` comes out as `x` |
| Coercion.BindParam | pyhive/sqlalchemy_hive.py:53-54 | binding any value raises NotImplementedError |
| Execution.TranslateColname | pyhive/sqlalchemy_hive.py:458-465 | unless raw names are kept, the new name has no dot. The original name comes back exactly when it was changed, that is when raw names are not kept and it holds a dot. A changed name is the part after the last dot |
| Execution.TranslateQualified | pyhive/sqlalchemy_hive.py:458-465 | `table.column` with a dot-free column translates to `column`, whatever dots the table part holds |
| Dialect.FullTableName | pyhive/sqlalchemy_hive.py:520-522 | `schema.table` when the schema is truthy: the schema, one dot, then the table. The bare table name otherwise |
| Dialect.TableColumns | pyhive/sqlalchemy_hive.py:519-541 | engine exceptions propagate unchanged unless the operational error's text matches the not-found regex. A NULL name in a single row raises TypeError. Row sets of any size but one come back unchanged. NoSuchTable always names the full table |
| Dialect.TableColumnsMissing | pyhive/sqlalchemy_hive.py:519-541 | NoSuchTable is raised exactly when one of two things holds: the operational error's text matches `TExecuteStatementResp.*SemanticException.*Table not found <full name>` at some position, or exactly one row comes back and its name matches `Table .* does not exist` at its start |
| Dialect.HasTable | pyhive/sqlalchemy_hive.py:543-548 | `True` exactly when `DESCRIBE` succeeds, `False` exactly when it raises NoSuchTable, and any other exception propagates |
| Dialect.HasTableMissing | pyhive/sqlalchemy_hive.py:519-548 | `has_table` answers `False` exactly when the engine reports the table missing in one of the two ways |
| Dialect.Cell | pyhive/sqlalchemy_hive.py:553 | a cell becomes `None` exactly when it is NULL or empty. Otherwise it is `Strip` of the cell (characterised by `Text.Strip`): no longer than before and not starting with whitespace |
| Dialect.CellBlank | pyhive/sqlalchemy_hive.py:553 | a whitespace-only cell becomes `""`, not `None` |
| Dialect.Normalised | pyhive/sqlalchemy_hive.py:553-555 | a row is kept exactly when its stripped name is non-empty and not `# col_name`, and then as its stripped name with its type and comment cells normalised |
| Dialect.Filtered | pyhive/sqlalchemy_hive.py:553-555 | no kept row has an empty name or the header name |
| Dialect.FilteredAppend | pyhive/sqlalchemy_hive.py:553-555 | filtering works row by row and keeps the rows' order |
| Dialect.FilteredOne | pyhive/sqlalchemy_hive.py:553-555 | a row is kept, normalised, exactly when its stripped name is truthy and not `# col_name` |
| Dialect.ArrayItemName | pyhive/sqlalchemy_hive.py:573 | a match of `^array<(\w+)>` without regard to case gives a non-empty word that sits between a case-folded `array<` and a `>` |
| Dialect.ArrayItemNameOf | pyhive/sqlalchemy_hive.py:573 | any text of that shape matches, with its word as the group |
| Dialect.Resolve | pyhive/sqlalchemy_hive.py:564-575 | at most one warning, and the only exceptions are TypeError, AttributeError and KeyError. `ResolveSpec` and `ResolveTypes` state when each arises and what the type is |
| Dialect.ResolveSpec | pyhive/sqlalchemy_hive.py:564-575 | a NULL type raises TypeError, and type text with no leading `\w` raises AttributeError. KeyError comes exactly for an array item word the registry does not know, and names it. The warning comes exactly when the leading word is unknown, says so, and comes at most once |
| Dialect.ResolveTypes | pyhive/sqlalchemy_hive.py:564-575 | the class is NullType exactly when the leading word is unknown, and otherwise the registry's class. An item type is set exactly when `^array<(\w+)>` matches without regard to case, and it is the registry's class for the group |
| Dialect.UpperCaseArray | pyhive/sqlalchemy_hive.py:564-575 | `ARRAY<int>` resolves to NullType with item type Integer and one warning |
| Dialect.ResolveArrayOf | pyhive/sqlalchemy_hive.py:564-575 | `array<w>` with a known word `w` resolves to HiveArray with `w`'s class as item type, without warning |
| Dialect.ResolveRendered | pyhive/sqlalchemy_hive.py:406-438 | reflecting what the type compiler emits for an overridden non-array type, lower-cased, gives the type's class back without item type or warning |
| Dialect.ResolveRenderedArray | pyhive/sqlalchemy_hive.py:440-442 | the same for an array of such a type: HiveArray with the item's class |
| Dialect.MarkerIndex | pyhive/sqlalchemy_hive.py:557-559 | the index of the first `# Partition Information` row, or the number of rows when there is none |
| Dialect.Collect | pyhive/sqlalchemy_hive.py:556-586 | on success, one column per row before the marker |
| Dialect.CollectColumns | pyhive/sqlalchemy_hive.py:556-586 | column `i` comes from row `i`: its name and its comment, `nullable` true, no default, and the type its type text resolves to |
| Dialect.FirstFailure | pyhive/sqlalchemy_hive.py:556-576 | the first row before the marker whose type fails to resolve |
| Dialect.CollectFails | pyhive/sqlalchemy_hive.py:556-576 | `get_columns` fails exactly when some row before the marker fails to resolve, with that first row's exception |
| Dialect.CollectWarnings | pyhive/sqlalchemy_hive.py:556-576 | the warnings are those of each row before the marker, in row order, up to and including the first row that fails to resolve |
| Dialect.ColumnsFromRows | pyhive/sqlalchemy_hive.py:556-586 | the loop gives exactly the columns and warnings `Collect` specifies |
| Dialect.GetColumns | pyhive/sqlalchemy_hive.py:550-586 | an exception from `DESCRIBE` propagates; otherwise the result is the loop over the normalised, filtered rows |
| Dialect.CollectOwnItems | pyhive/sqlalchemy_hive.py:573-575 | (corrected) each column's item type is the one its own type text names |
| Dialect.SharedItemOverwritten | pyhive/sqlalchemy_hive.py:573-575 | (as written) with `array<int>` then `array<string>`, the first column reports item type String, not Integer |
| Dialect.PartitionNames | pyhive/sqlalchemy_hive.py:602-608 | the names of the rows after the first marker, in order; none without a marker |
| Dialect.IndexesFromRows | pyhive/sqlalchemy_hive.py:602-612 | no rows raises UnboundLocalError, and only that. With no partition names the result is `[]`. Otherwise it is one index named `partition`, not unique, over those names |
| Dialect.NoPartitions | pyhive/sqlalchemy_hive.py:602-612 | no index is reported exactly when there is no marker or the marker is the last row |
| Dialect.GetIndexes | pyhive/sqlalchemy_hive.py:596-612 | an exception from `DESCRIBE` propagates; otherwise the result is that of the loops over the normalised, filtered rows |
| Text.Strip | pyhive/sqlalchemy_hive.py:553 | `str.strip()`: the input is the result surrounded by whitespace only, and the result neither starts nor ends with whitespace |
| Text.StripBlank | pyhive/sqlalchemy_hive.py:553 | a whitespace-only string strips to `""` |
| Text.LeadingWord | pyhive/sqlalchemy_hive.py:564 | `re.search(r"^\w+", s)` matches exactly when `s` starts with a word character, and gives the longest word prefix |
| Text.Split | pyhive/sqlalchemy_hive.py:463 | `s.split(c)`: one piece more than there are `c`s, no piece holds `c`, and joining the pieces with `c` gives `s` back |
| Text.SplitJoin | pyhive/sqlalchemy_hive.py:463 | splitting pieces joined with a separator they do not hold gives the pieces back |
| Text.LastPiece | pyhive/sqlalchemy_hive.py:463 | `s.split(c)[-1]` holds no `c` and is what follows the last `c`, or all of `s` when `s` holds none |
| Text.LessTransitive | pyhive/sqlalchemy_hive.py:390 | Python's `<` on `str` is transitive (with `LessIrreflexive`, `LessAsymmetric` and `LessTotal`: a strict total order) |
| Text.LessIrreflexive | pyhive/sqlalchemy_hive.py:390 | no string is less than itself |
| Text.LessAsymmetric | pyhive/sqlalchemy_hive.py:390 | of two strings, at most one is less than the other |
| Text.LessTotal | pyhive/sqlalchemy_hive.py:390 | of two distinct strings, one is less than the other |
| Text.Lower | pyhive/sqlalchemy_hive.py:573 | case folding keeps the length and folds each character by itself |
| Text.CountAppend | pyhive/sqlalchemy_hive.py:329 | `count` adds up over concatenation |
| Patterns.MatchCorrect | pyhive/sqlalchemy_hive.py:538-539 | `re.match` of `A.*B` succeeds exactly when the pieces can be placed from the start, with no newline in any gap |
| Patterns.SearchCorrect | pyhive/sqlalchemy_hive.py:530-532 | `re.search` succeeds exactly when the regex matches at some position |

## Left out

- `\w` is modelled as ASCII letters, digits and `_`. Python's `\w` on `str` also matches non-ASCII letters and digits.
- `re.I` and the lower-case `DESCRIBE` output are modelled as ASCII case folding.
- `\s` and `str.strip()` use the fixed set of characters Python treats as whitespace.
- `HiveArray`'s `literal_processor`, `bind_processor` and `result_processor` are left out. They depend on SQLAlchemy's `_apply_item_processor` and `dialect_impl`, which are not part of this model. `zero_indexes` is only stored.
- The date, time and decimal parsers (`dateutil.parser.parse`, `decimal.Decimal`) are function parameters. Their own errors are abstracted as one format error.
- The connection and DB-API plumbing is left out: `dbapi`, `import_dbapi`, `create_connect_args`, `get_schema_names`, `get_table_names`, `get_view_names` and identifier quoting. `connection.execute` is a function parameter.
- The delegating visitors are left out: `visit_concat_op_binary`, `visit_array`, `visit_char_length_func`, the regexp operators and the hint-text hooks. They only forward to SQLAlchemy internals.
- The generic compilers' output that the Hive compilers post-process is an opaque string parameter. So is the rendering of a type the Hive type compiler does not override (`Generic`).
- The dialect's capability flags, `do_rollback` and the unicode checks are constants or no-ops.
- `util.warn` is modelled as a returned list of warning messages.
- `DESCRIBE` rows are modelled with exactly three cells. A row of another width would make Python's unpacking raise ValueError.
- The `hive_table_properties` dict is a sequence of `(key, value)` pairs, and the `hive_*` option values are their rendered text.
- `re.escape(full_table)` is modelled as the table name taken literally.
- Compiler.VisitInsert: its contract states only when it fails. The rewritten text is stated by `InsertPlain`, `InsertPartitioned`, `SubAllKeepsPrefix` and the match lemmas.
- Compiler.InsertPlain: the result is stated only when no further match follows the first. The `re.sub` model `SubAll` handles any number of matches, but no lemma describes several.
- Compiler.InsertPartitioned: the same holds. The result is stated only for a single partitioned match and no plain match.
- Dialect.Collect: the item type is kept per column, not written onto the class object shared through `_type_map`. The as-written behaviour is under Findings.

## Findings

| source | as written | input that shows it | evidently intended | confidence | as-written member | corrected member |
|---|---|---|---|---|---|---|
| pyhive/sqlalchemy_hive.py:573-575 | `mapped_type.item_type = ...` assigns to the class object taken from `_type_map`, such as `HiveArray`. That object is shared by every array column, so every array column reports the item type of the last one | `DESCRIBE` rows `a array<int>` and `b array<string>`: column `a` reports item type String | each column's type carries the item type its own type text names (`a` gets Integer) | not executed | Dialect.SharedItemOverwritten | Dialect.CollectOwnItems |
