/** `HiveDialect`: table introspection through `DESCRIBE` output. The one call
    into the database, `connection.execute`, is the parameter `execute`. */
module Dialect {
  import opened Wrappers
  import opened Text
  import opened Patterns
  import opened Types
  import opened TypeCompiler

  /** One row of `DESCRIBE` output: column name, type text and comment, each of
      which the driver may return as NULL. */
  datatype Row = Row(colName: Option<string>, colType: Option<string>, comment: Option<string>)

  /** What executing a statement gives: its rows, or the exception it raised
      (`operational` for an `OperationalError`) with its first argument. */
  datatype ExecOutcome = Rows(rows: seq<Row>) | Raised(operational: bool, message: string)

  /** `schema.table` when the schema is truthy, else the bare table name. */
  function FullTableName(table: string, schema: Option<string>): (r: string)
    ensures !Truthy(schema) ==> r == table
    ensures Truthy(schema) ==> |r| == |schema.value| + 1 + |table|
    ensures Truthy(schema) ==> r[..|schema.value|] == schema.value && r[|schema.value|] == '.' && r[|schema.value| + 1..] == table
  {
    if Truthy(schema) then schema.value + "." + table else table
  }

  function DescribeStatement(table: string, schema: Option<string>): string {
    "DESCRIBE " + FullTableName(table, schema)
  }

  /** `TExecuteStatementResp.*SemanticException.*Table not found <full>`, with
      the table name escaped, so that it matches literally. */
  function NotFoundPattern(full: string): seq<string> {
    ["TExecuteStatementResp", "SemanticException", "Table not found " + full]
  }

  /** `Table .* does not exist`. */
  const DoesNotExist: seq<string> := ["Table ", " does not exist"]

  /** `_get_table_columns`: the raw `DESCRIBE` rows, or the exception. */
  function TableColumns(execute: string -> ExecOutcome, table: string, schema: Option<string>): (r: Result<seq<Row>>)
    ensures var out := execute(DescribeStatement(table, schema));
            && (out.Raised? ==> r.Err? && (r.error.NoSuchTable? || r.error == EngineError(out.operational, out.message)))
            && (out.Raised? && !out.operational ==> r == Err(EngineError(false, out.message)))
            && (out.Rows? && |out.rows| != 1 ==> r == Ok(out.rows))
            && (out.Rows? ==> r == Ok(out.rows) || r == Err(TypeError) || (r.Err? && r.error.NoSuchTable?))
            && (r == Err(TypeError) <==> out.Rows? && |out.rows| == 1 && out.rows[0].colName.None?)
            && (r.Err? && r.error.NoSuchTable? ==> r.error.table == FullTableName(table, schema))
  {
    var full := FullTableName(table, schema);
    match execute(DescribeStatement(table, schema))
    case Raised(op, msg) =>
      if op && Search(msg, 0, NotFoundPattern(full)) then Err(NoSuchTable(full))
      else Err(EngineError(op, msg))
    case Rows(rows) =>
      if |rows| == 1 && rows[0].colName.None? then Err(TypeError)
      else if |rows| == 1 && Match(rows[0].colName.value, DoesNotExist) then Err(NoSuchTable(full))
      else Ok(rows)
  }

  /** What tells a missing table, in terms of where the regexes match: an
      operational error whose text matches the not-found pattern somewhere, or a
      single row whose name matches `Table .* does not exist` at its start. */
  ghost predicate ReportsMissing(out: ExecOutcome, full: string) {
    || (out.Raised? && out.operational
        && exists i :: 0 <= i <= |out.message| && MatchesAt(out.message, i, NotFoundPattern(full)))
    || (out.Rows? && |out.rows| == 1 && out.rows[0].colName.Some?
        && MatchesAt(out.rows[0].colName.value, 0, DoesNotExist))
  }

  lemma TableColumnsMissing(execute: string -> ExecOutcome, table: string, schema: Option<string>)
    ensures var full := FullTableName(table, schema);
            TableColumns(execute, table, schema) == Err(NoSuchTable(full))
            <==> ReportsMissing(execute(DescribeStatement(table, schema)), full)
  {
    var full := FullTableName(table, schema);
    var out := execute(DescribeStatement(table, schema));
    if out.Raised? {
      SearchCorrect(out.message, 0, NotFoundPattern(full));
    } else if |out.rows| == 1 && out.rows[0].colName.Some? {
      MatchCorrect(out.rows[0].colName.value, DoesNotExist);
    }
  }

  /** `has_table`: `False` exactly when the table is missing; any other
      exception passes through. */
  function HasTable(execute: string -> ExecOutcome, table: string, schema: Option<string>): (r: Result<bool>)
    ensures var d := TableColumns(execute, table, schema);
            && (r == Ok(true) <==> d.Ok?)
            && (r == Ok(false) <==> d.Err? && d.error.NoSuchTable?)
            && (r.Err? ==> d == Err(r.error) && !r.error.NoSuchTable?)
  {
    match TableColumns(execute, table, schema)
    case Ok(_) => Ok(true)
    case Err(NoSuchTable(_)) => Ok(false)
    case Err(e) => Err(e)
  }

  lemma HasTableMissing(execute: string -> ExecOutcome, table: string, schema: Option<string>)
    ensures HasTable(execute, table, schema) == Ok(false)
            <==> ReportsMissing(execute(DescribeStatement(table, schema)), FullTableName(table, schema))
  {
    TableColumnsMissing(execute, table, schema);
  }

  // ---------------------------------------------------------------- row normalisation

  /** `col.strip() if col else None`. */
  function Cell(c: Option<string>): (r: Option<string>)
    ensures r.None? <==> !Truthy(c)
    ensures r.Some? ==> r.value == Strip(c.value)
    ensures r.Some? ==> |r.value| <= |c.value| && (r.value == [] || !IsSpace(r.value[0]))
  {
    if Truthy(c) then Some(Strip(c.value)) else None
  }

  /** A whitespace-only cell survives as the empty string; only an empty or NULL one becomes `None`. */
  lemma CellBlank(c: string)
    requires c != [] && AllSpace(c)
    ensures Cell(Some(c)) == Some("")
  {
    StripBlank(c);
  }

  /** A row that passed the filter: its name is known to be non-empty. */
  datatype Described = Described(name: string, colType: Option<string>, comment: Option<string>)

  const HeaderName := "# col_name"
  const PartitionMarker := "# Partition Information"

  /** Normalises a row, and keeps it when its first cell is truthy and not the header. */
  function Normalised(row: Row): (r: Option<Described>)
    ensures r.Some? <==> Truthy(row.colName) && Strip(row.colName.value) != "" && Strip(row.colName.value) != HeaderName
    ensures r.Some? ==> r.value == Described(Strip(row.colName.value), Cell(row.colType), Cell(row.comment))
  {
    var name := Cell(row.colName);
    if Truthy(name) && name.value != HeaderName then
      Some(Described(name.value, Cell(row.colType), Cell(row.comment)))
    else None
  }

  /** Every row normalised, the blank and header rows dropped, the others kept in order. */
  function Filtered(rows: seq<Row>): (r: seq<Described>)
    ensures |r| <= |rows|
    ensures forall i :: 0 <= i < |r| ==> r[i].name != "" && r[i].name != HeaderName
  {
    if rows == [] then []
    else
      match Normalised(rows[0])
      case Some(d) => [d] + Filtered(rows[1..])
      case None => Filtered(rows[1..])
  }

  /** Filtering works row by row, so it keeps the order of the rows. */
  lemma {:induction false} FilteredAppend(a: seq<Row>, b: seq<Row>)
    ensures Filtered(a + b) == Filtered(a) + Filtered(b)
  {
    if a == [] {
      assert a + b == b;
    } else {
      assert (a + b)[0] == a[0] && (a + b)[1..] == a[1..] + b;
      FilteredAppend(a[1..], b);
      var rest := Filtered(a[1..]);
      match Normalised(a[0])
      case Some(d) =>
        assert ([d] + rest) + Filtered(b) == [d] + (rest + Filtered(b));
      case None =>
    }
  }

  /** A row is kept exactly when its normalised name is non-empty and not the header. */
  lemma FilteredOne(row: Row)
    ensures Filtered([row]) == if Normalised(row).Some? then [Normalised(row).value] else []
    ensures Normalised(row).Some? <==> Truthy(row.colName) && Strip(row.colName.value) != "" && Strip(row.colName.value) != HeaderName
  {
    assert [row][1..] == [];
  }

  // ---------------------------------------------------------------- type resolution

  /** The type a column is reflected as, and the item type found in `array<...>` text. */
  datatype ColumnType = ColumnType(cls: TypeClass, item: Option<TypeClass>)

  datatype Column = Column(name: string, ctype: ColumnType, nullable: bool, default: Option<string>, comment: Option<string>)

  function UnknownTypeWarning(colType: string, colName: string): string {
    "Did not recognize type '" + colType + "' of column '" + colName + "'"
  }

  /** The group of `^array<(\w+)>` matched without regard to case: greedy `\w+`
      must be followed by `>`. */
  function ArrayItemName(s: string): (r: Option<string>)
    ensures r.Some? ==> r.value != [] && AllWord(r.value) && 6 + |r.value| < |s|
    ensures r.Some? ==> Lower(s[..6]) == "array<" && s[6..6 + |r.value|] == r.value && s[6 + |r.value|] == '>'
  {
    if |s| >= 6 && Lower(s[..6]) == "array<" then
      var w := WordPrefix(s[6..]);
      if w != [] && 6 + |w| < |s| && s[6 + |w|] == '>' then Some(w) else None
    else None
  }

  /** The regex finds the item name of any text of that shape. */
  lemma ArrayItemNameOf(p: string, w: string, rest: string)
    requires |p| == 6 && Lower(p) == "array<" && w != [] && AllWord(w)
    ensures ArrayItemName(p + w + ">" + rest) == Some(w)
  {
    var s := p + w + ">" + rest;
    WordAfterPrefix(p, w, rest);
  }

  lemma WordAfterPrefix(p: string, w: string, rest: string)
    requires |p| == 6 && AllWord(w)
    ensures var s := p + w + ">" + rest;
            s[..6] == p && WordPrefix(s[6..]) == w && 6 + |w| < |s| && s[6 + |w|] == '>'
  {
    var s := p + w + ">" + rest;
    assert s[..6] == p;
    assert s[6..] == w + (">" + rest);
    WordPrefixOf(w, ">" + rest);
    assert s[6 + |w|] == '>';
  }

  /** One column's type: its class from the leading word of the type text, or
      `NullType` and a warning when the registry does not know that word; then
      the item type when the text is `array<word>`. Any exception ends the row. */
  function Resolve(name: string, colType: Option<string>): (r: (Result<ColumnType>, seq<string>))
    ensures |r.1| <= 1
    ensures r.0.Err? ==> r.0.error == TypeError || r.0.error == AttributeError || r.0.error.KeyError?
  {
    match colType
    case None => (Err(TypeError), [])
    case Some(t) =>
      match LeadingWord(t)
      case None => (Err(AttributeError), [])
      case Some(tok) =>
        var cls := if Lookup(tok).Some? then Lookup(tok).value else NullType;
        var warnings := if Lookup(tok).Some? then [] else [UnknownTypeWarning(t, name)];
        match ArrayItemName(t)
        case None => (Ok(ColumnType(cls, None)), warnings)
        case Some(w) =>
          match Lookup(w)
          case None => (Err(KeyError(w)), warnings)
          case Some(item) => (Ok(ColumnType(cls, Some(item))), warnings)
  }

  /** The exceptions: `TypeError` for a NULL type, `AttributeError` for a type
      text with no leading word, `KeyError` for an unknown array item name. The
      class is the registry's for the leading word, or `NullType` with exactly one
      warning; the item type is the registry's for the array item name. */
  lemma ResolveSpec(name: string, colType: Option<string>)
    ensures var r := Resolve(name, colType);
      && (r.0 == Err(TypeError) <==> colType.None?)
      && (r.0 == Err(AttributeError) <==> colType.Some? && LeadingWord(colType.value).None?)
      && (r.0.Err? && r.0.error.KeyError? ==>
            colType.Some? && ArrayItemName(colType.value) == Some(r.0.error.key) && Lookup(r.0.error.key).None?)
      && (colType.Some? && LeadingWord(colType.value).Some? && ArrayItemName(colType.value).Some?
          && Lookup(ArrayItemName(colType.value).value).None? ==>
            r.0 == Err(KeyError(ArrayItemName(colType.value).value)))
      && (r.0.Ok? ==> colType.Some? && LeadingWord(colType.value).Some?)
      && |r.1| <= 1
      && (r.1 != [] <==> colType.Some? && LeadingWord(colType.value).Some? && Lookup(LeadingWord(colType.value).value).None?)
      && (r.1 != [] ==> r.1 == [UnknownTypeWarning(colType.value, name)])
  {
  }

  lemma ResolveTypes(name: string, t: string)
    requires Resolve(name, Some(t)).0.Ok?
    ensures var ct := Resolve(name, Some(t)).0.value;
      var tok := LeadingWord(t).value;
      && LeadingWord(t).Some?
      && (ct.cls == NullType <==> Lookup(tok).None?)
      && (Lookup(tok).Some? ==> ct.cls == Lookup(tok).value)
      && (ct.item.Some? <==> ArrayItemName(t).Some?)
      && (ct.item.Some? ==> Lookup(ArrayItemName(t).value) == ct.item)
  {
  }

  /** Because the word lookup is case-sensitive and the array match is not,
      `ARRAY<int>` reflects as `NullType` with a warning, yet still gets an item type. */
  lemma UpperCaseArray(name: string)
    ensures Resolve(name, Some("ARRAY<int>")) ==
      (Ok(ColumnType(NullType, Some(Integer))), [UnknownTypeWarning("ARRAY<int>", name)])
  {
    UpperArrayWords();
    UpperArrayLookups();
  }

  lemma UpperArrayWords()
    ensures LeadingWord("ARRAY<int>") == Some("ARRAY")
    ensures ArrayItemName("ARRAY<int>") == Some("int")
  {
    UpperArrayLeading();
    UpperArrayItem();
  }

  lemma UpperArrayLeading()
    ensures LeadingWord("ARRAY<int>") == Some("ARRAY")
  {
    assert "ARRAY<int>" == "ARRAY" + "<int>";
    WordPrefixOf("ARRAY", "<int>");
  }

  lemma UpperArrayItem()
    ensures ArrayItemName("ARRAY<int>") == Some("int")
  {
    assert "ARRAY<int>" == "ARRAY<" + "int" + ">" + "";
    UpperArrayPrefix();
    ArrayItemNameOf("ARRAY<", "int", "");
  }

  lemma UpperArrayLookups()
    ensures Lookup("ARRAY").None? && Lookup("int") == Some(Integer)
  {
  }

  lemma UpperArrayPrefix() ensures Lower("ARRAY<") == "array<" {}

  lemma LowerArrayPrefix() ensures Lower("array<") == "array<" {}

  /** `array<w>` for a known item name `w` reflects as an array of `w`'s class, without warning. */
  lemma ResolveArrayOf(name: string, w: string)
    requires w != [] && AllWord(w) && Lookup(w).Some?
    ensures Resolve(name, Some("array<" + w + ">")) == (Ok(ColumnType(HiveArray, Lookup(w))), [])
  {
    ArrayWords(w);
    assert Lookup("array") == Some(HiveArray);
  }

  lemma ArrayWords(w: string)
    requires w != [] && AllWord(w)
    ensures LeadingWord("array<" + w + ">") == Some("array")
    ensures ArrayItemName("array<" + w + ">") == Some(w)
  {
    ArrayLeadingWord(w);
    ArrayItemWord(w);
  }

  lemma ArrayLeadingWord(w: string)
    ensures LeadingWord("array<" + w + ">") == Some("array")
  {
    assert "array<" + w + ">" == "array" + ("<" + w + ">");
    WordPrefixOf("array", "<" + w + ">");
  }

  lemma ArrayItemWord(w: string)
    requires w != [] && AllWord(w)
    ensures ArrayItemName("array<" + w + ">") == Some(w)
  {
    assert "array<" + w + ">" == "array<" + w + ">" + "";
    LowerArrayPrefix();
    ArrayItemNameOf("array<", w, "");
  }

  /** What the type compiler emits for an overridden non-array type, printed
      lower-case as `DESCRIBE` prints it, reflects back as the class the type
      stands for, without warning and without item type. */
  lemma ResolveRendered(name: string, t: SqlType)
    requires !t.Generic? && !t.ARRAY?
    ensures Resolve(name, Some(Lower(Render(t)))) == (Ok(ColumnType(Reflected(t), None)), [])
  {
    HiveNameResolves(t);
    HiveNameRead(HiveName(t));
  }

  /** A lower-case word not starting with `a` is its own leading word and no array text. */
  lemma HiveNameRead(w: string)
    requires AllWord(w) && w != [] && w[0] != 'a' && 'a' <= w[0] <= 'z'
    ensures LeadingWord(w) == Some(w) && ArrayItemName(w).None?
  {
    WordPrefixOf(w, "");
    assert w + "" == w;
    if |w| >= 6 {
      assert Lower(w[..6])[0] == LowerChar(w[0]) == w[0];
    }
  }

  /** An array of an overridden non-array type reflects back as `HiveArray`
      with that type's class as its item type. */
  lemma ResolveRenderedArray(name: string, t: SqlType)
    requires t.ARRAY? && !t.item.Generic? && !t.item.ARRAY?
    ensures Resolve(name, Some(Lower(Render(t)))) == (Ok(ColumnType(HiveArray, Some(Reflected(t.item)))), [])
  {
    var w := HiveName(t.item);
    HiveNameResolves(t.item);
    LowerArrayText(Render(t.item));
    assert Lower(Render(t)) == "array" + ("<" + w + ">");
    ArrayRegroup(w);
    ResolveArrayOf(name, w);
  }

  // ---------------------------------------------------------------- get_columns

  /** The index of the first partition marker row, or the number of rows. */
  function MarkerIndex(rows: seq<Described>): (r: nat)
    ensures r <= |rows|
    ensures forall i :: 0 <= i < r ==> rows[i].name != PartitionMarker
    ensures r < |rows| ==> rows[r].name == PartitionMarker
  {
    if rows == [] then 0
    else if rows[0].name == PartitionMarker then 0
    else 1 + MarkerIndex(rows[1..])
  }

  /** Prefixes columns and warnings already produced to the outcome of the remaining rows. */
  function Prepend(cols: seq<Column>, warnings: seq<string>, later: (Result<seq<Column>>, seq<string>)): (Result<seq<Column>>, seq<string>) {
    (if later.0.Ok? then Ok(cols + later.0.value) else later.0, warnings + later.1)
  }

  /** What the `get_columns` loop produces from the filtered rows: a column per
      row up to the first partition marker, and the warnings issued on the way;
      the first exception ends the loop. */
  function Collect(rows: seq<Described>): (r: (Result<seq<Column>>, seq<string>))
    ensures r.0.Ok? ==> |r.0.value| == MarkerIndex(rows)
  {
    if rows == [] || rows[0].name == PartitionMarker then (Ok([]), [])
    else
      var res := Resolve(rows[0].name, rows[0].colType);
      if res.0.Err? then (Err(res.0.error), res.1)
      else
        var col := Column(rows[0].name, res.0.value, true, None, rows[0].comment);
        Prepend([col], res.1, Collect(rows[1..]))
  }

  /** Each column comes from the row at its position: its name and comment, a
      nullable column without default, of the type that row resolves to. */
  lemma {:induction false} CollectColumns(rows: seq<Described>)
    requires Collect(rows).0.Ok?
    ensures forall i :: 0 <= i < |Collect(rows).0.value| ==>
      && Collect(rows).0.value[i].name == rows[i].name
      && Collect(rows).0.value[i].comment == rows[i].comment
      && Collect(rows).0.value[i].nullable && Collect(rows).0.value[i].default.None?
      && Resolve(rows[i].name, rows[i].colType).0 == Ok(Collect(rows).0.value[i].ctype)
  {
    if rows != [] && rows[0].name != PartitionMarker {
      CollectColumns(rows[1..]);
      var cols := Collect(rows).0.value;
      var rest := Collect(rows[1..]).0.value;
      forall i | 1 <= i < |cols|
        ensures cols[i] == rest[i - 1] && rows[i] == rows[1..][i - 1]
      {
      }
    }
  }

  /** The position of the first row before the marker that fails to resolve,
      or the marker's position when there is none. */
  function FirstFailure(rows: seq<Described>): (r: nat)
    ensures r <= MarkerIndex(rows)
    ensures forall j :: 0 <= j < r ==> Resolve(rows[j].name, rows[j].colType).0.Ok?
    ensures r < MarkerIndex(rows) ==> Resolve(rows[r].name, rows[r].colType).0.Err?
  {
    if rows == [] || rows[0].name == PartitionMarker then 0
    else if Resolve(rows[0].name, rows[0].colType).0.Err? then 0
    else 1 + FirstFailure(rows[1..])
  }

  /** `get_columns` fails exactly when a row before the marker fails to resolve,
      and with the exception of the first such row. */
  lemma {:induction false} CollectFails(rows: seq<Described>)
    ensures Collect(rows).0.Err? <==> FirstFailure(rows) < MarkerIndex(rows)
    ensures Collect(rows).0.Err? ==>
      Collect(rows).0.error == Resolve(rows[FirstFailure(rows)].name, rows[FirstFailure(rows)].colType).0.error
  {
    if rows != [] && rows[0].name != PartitionMarker && Resolve(rows[0].name, rows[0].colType).0.Ok? {
      CollectFails(rows[1..]);
      var f := FirstFailure(rows[1..]);
      if f < |rows[1..]| {
        assert rows[1..][f] == rows[f + 1];
      }
    }
  }

  /** The warnings issued by the rows from the first up to, not including, row `n`, in row order. */
  function RowWarnings(rows: seq<Described>, n: nat): seq<string>
    requires n <= |rows|
  {
    if n == 0 then [] else Resolve(rows[0].name, rows[0].colType).1 + RowWarnings(rows[1..], n - 1)
  }

  /** The rows `get_columns` resolves: those before the marker, stopping after the first failure. */
  function ResolvedRows(rows: seq<Described>): (n: nat)
    ensures n <= |rows|
  {
    if FirstFailure(rows) < MarkerIndex(rows) then FirstFailure(rows) + 1 else MarkerIndex(rows)
  }

  /** The warnings are those of each resolved row, in row order: every row before
      the marker up to the first failure, that failing row included. */
  lemma {:induction false} CollectWarnings(rows: seq<Described>)
    ensures Collect(rows).1 == RowWarnings(rows, ResolvedRows(rows))
  {
    if rows != [] && rows[0].name != PartitionMarker {
      var res := Resolve(rows[0].name, rows[0].colType);
      if res.0.Err? {
        assert ResolvedRows(rows) == 1;
        assert RowWarnings(rows[1..], 0) == [];
        assert res.1 + [] == res.1;
      } else {
        CollectWarnings(rows[1..]);
        assert ResolvedRows(rows) == ResolvedRows(rows[1..]) + 1;
      }
    }
  }

  lemma PrependStep(cols: seq<Column>, warnings: seq<string>, col: Column, w: seq<string>, later: (Result<seq<Column>>, seq<string>))
    ensures Prepend(cols, warnings, Prepend([col], w, later)) == Prepend(cols + [col], warnings + w, later)
  {
    if later.0.Ok? {
      assert cols + ([col] + later.0.value) == (cols + [col]) + later.0.value;
    }
    assert warnings + (w + later.1) == (warnings + w) + later.1;
  }

  /** The `get_columns` loop over the filtered rows. */
  method ColumnsFromRows(rows: seq<Described>) returns (r: Result<seq<Column>>, warnings: seq<string>)
    ensures (r, warnings) == Collect(rows)
  {
    var result: seq<Column> := [];
    warnings := [];
    var k := 0;
    assert rows[0..] == rows;
    assert Collect(rows).0.Ok? ==> [] + Collect(rows).0.value == Collect(rows).0.value;
    assert [] + Collect(rows).1 == Collect(rows).1;
    while k < |rows|
      invariant 0 <= k <= |rows|
      invariant Collect(rows) == Prepend(result, warnings, Collect(rows[k..]))
      decreases |rows| - k
    {
      var row := rows[k];
      assert rows[k..][0] == row && rows[k..][1..] == rows[k + 1..];
      if row.name == PartitionMarker {
        assert result + [] == result && warnings + [] == warnings;
        r := Ok(result);
        return;
      }
      var res := Resolve(row.name, row.colType);
      if res.0.Err? {
        r := Err(res.0.error);
        warnings := warnings + res.1;
        return;
      }
      var col := Column(row.name, res.0.value, true, None, row.comment);
      PrependStep(result, warnings, col, res.1, Collect(rows[k + 1..]));
      result := result + [col];
      warnings := warnings + res.1;
      k := k + 1;
    }
    assert rows[k..] == [];
    assert result + [] == result && warnings + [] == warnings;
    r := Ok(result);
  }

  /** `get_columns`: describe the table, normalise and filter the rows, and
      resolve each column up to the partition marker. */
  method GetColumns(execute: string -> ExecOutcome, table: string, schema: Option<string>)
    returns (r: Result<seq<Column>>, warnings: seq<string>)
    ensures TableColumns(execute, table, schema).Err? ==>
      r == Err(TableColumns(execute, table, schema).error) && warnings == []
    ensures TableColumns(execute, table, schema).Ok? ==>
      (r, warnings) == Collect(Filtered(TableColumns(execute, table, schema).value))
  {
    var described := TableColumns(execute, table, schema);
    if described.Err? {
      r := Err(described.error);
      warnings := [];
      return;
    }
    r, warnings := ColumnsFromRows(Filtered(described.value));
  }

  // ---------------------------------------------------------------- the shared item type

  /** As written, the item type is assigned to the class object that the
      registry shares between all columns (and all calls): after the loop, each
      class holds the item type of the last array column of that class, or what
      it held before. */
  function SharedItems(cols: seq<Column>, classes: map<TypeClass, TypeClass>): (m: map<TypeClass, TypeClass>)
    ensures classes.Keys <= m.Keys
  {
    if cols == [] then classes
    else
      var before := SharedItems(cols[..|cols| - 1], classes);
      var last := cols[|cols| - 1].ctype;
      if last.item.Some? then before[last.cls := last.item.value] else before
  }

  /** The item type column `i` reports as written: whatever its class holds after the loop. */
  function AsWrittenItem(cols: seq<Column>, i: nat, classes: map<TypeClass, TypeClass>): Option<TypeClass>
    requires i < |cols|
  {
    var m := SharedItems(cols, classes);
    if cols[i].ctype.cls in m then Some(m[cols[i].ctype.cls]) else None
  }

  /** Two array columns, `array<int>` then `array<string>`: each resolves to its
      own item type, but as written the first one reports `String` too. */
  lemma SharedItemOverwritten()
    ensures Collect(TwoArrays()).0 == Ok(TwoArrayColumns())
    ensures TwoArrayColumns()[0].ctype.item == Some(Integer)
    ensures AsWrittenItem(TwoArrayColumns(), 0, map[]) == Some(String)
  {
    TwoArraysCollect();
    var cols := TwoArrayColumns();
    assert cols[..1] == [cols[0]] && cols[..1][..0] == [];
  }

  function TwoArrays(): seq<Described> {
    [Described("a", Some("array<int>"), None), Described("b", Some("array<string>"), None)]
  }

  function TwoArrayColumns(): seq<Column> {
    [Column("a", ColumnType(HiveArray, Some(Integer)), true, None, None),
     Column("b", ColumnType(HiveArray, Some(String)), true, None, None)]
  }

  lemma TwoArraysCollect()
    ensures Collect(TwoArrays()).0 == Ok(TwoArrayColumns())
  {
    TwoArraysResolve();
    CollectPair(TwoArrays()[0], TwoArrays()[1], TwoArrayColumns()[0].ctype, TwoArrayColumns()[1].ctype);
  }

  /** Two ordinary rows that resolve give their two columns. */
  lemma CollectPair(r1: Described, r2: Described, t1: ColumnType, t2: ColumnType)
    requires r1.name != PartitionMarker && r2.name != PartitionMarker
    requires Resolve(r1.name, r1.colType).0 == Ok(t1) && Resolve(r2.name, r2.colType).0 == Ok(t2)
    ensures Collect([r1, r2]).0 == Ok([Column(r1.name, t1, true, None, r1.comment), Column(r2.name, t2, true, None, r2.comment)])
  {
    var c1 := Column(r1.name, t1, true, None, r1.comment);
    var c2 := Column(r2.name, t2, true, None, r2.comment);
    assert [r2][1..] == [];
    assert Collect([r2]).0 == Ok([c2] + []);
    assert [r1, r2][0] == r1 && [r1, r2][1..] == [r2];
    assert Collect([r1, r2]).0 == Ok([c1] + ([c2] + []));
    assert [c1] + ([c2] + []) == [c1, c2];
  }

  lemma TwoArraysResolve()
    ensures Resolve("a", Some("array<int>")) == (Ok(ColumnType(HiveArray, Some(Integer))), [])
    ensures Resolve("b", Some("array<string>")) == (Ok(ColumnType(HiveArray, Some(String))), [])
  {
    IntArrayResolve();
    StringArrayResolve();
  }

  lemma IntArrayResolve()
    ensures Resolve("a", Some("array<int>")) == (Ok(ColumnType(HiveArray, Some(Integer))), [])
  {
    assert "array<int>" == "array<" + "int" + ">";
    assert AllWord("int") && Lookup("int") == Some(Integer);
    ResolveArrayOf("a", "int");
  }

  lemma StringArrayResolve()
    ensures Resolve("b", Some("array<string>")) == (Ok(ColumnType(HiveArray, Some(String))), [])
  {
    assert "array<string>" == "array<" + "string" + ">";
    assert AllWord("string") && Lookup("string") == Some(String);
    ResolveArrayOf("b", "string");
  }

  /** In the model, each column's item type is the one its own type text names. */
  lemma {:induction false} CollectOwnItems(rows: seq<Described>)
    requires Collect(rows).0.Ok?
    ensures forall i :: 0 <= i < |Collect(rows).0.value| ==>
      rows[i].colType.Some? &&
      (Collect(rows).0.value[i].ctype.item.Some? <==> ArrayItemName(rows[i].colType.value).Some?) &&
      (Collect(rows).0.value[i].ctype.item.Some? ==>
         Collect(rows).0.value[i].ctype.item == Lookup(ArrayItemName(rows[i].colType.value).value))
  {
    CollectColumns(rows);
    forall i | 0 <= i < |Collect(rows).0.value|
      ensures rows[i].colType.Some?
      ensures Collect(rows).0.value[i].ctype.item.Some? <==> ArrayItemName(rows[i].colType.value).Some?
      ensures Collect(rows).0.value[i].ctype.item.Some? ==>
         Collect(rows).0.value[i].ctype.item == Lookup(ArrayItemName(rows[i].colType.value).value)
    {
      ResolveSpec(rows[i].name, rows[i].colType);
      ResolveTypes(rows[i].name, rows[i].colType.value);
    }
  }

  // ---------------------------------------------------------------- get_indexes

  datatype Index = Index(name: string, columnNames: seq<string>, unique: bool)

  /** The names of the rows after the first partition marker, in order; none
      when there is no marker. */
  function PartitionNames(rows: seq<Described>): (r: seq<string>)
    ensures MarkerIndex(rows) == |rows| ==> r == []
    ensures MarkerIndex(rows) < |rows| ==>
      |r| == |rows| - MarkerIndex(rows) - 1
      && forall i :: 0 <= i < |r| ==> r[i] == rows[MarkerIndex(rows) + 1 + i].name
  {
    var m := MarkerIndex(rows);
    if m < |rows| then Names(rows[m + 1..]) else []
  }

  function Names(rows: seq<Described>): (r: seq<string>)
    ensures |r| == |rows| && forall i :: 0 <= i < |rows| ==> r[i] == rows[i].name
  {
    if rows == [] then [] else [rows[0].name] + Names(rows[1..])
  }

  /** The `get_indexes` loops: find the marker, then collect the names after it.
      With no rows at all the loop variable is never bound. */
  method IndexesFromRows(rows: seq<Described>) returns (r: Result<seq<Index>>)
    ensures rows == [] <==> r == Err(UnboundLocalError)
    ensures rows != [] && PartitionNames(rows) == [] ==> r == Ok([])
    ensures PartitionNames(rows) != [] ==> r == Ok([Index("partition", PartitionNames(rows), false)])
  {
    var last: Option<nat> := None;
    var k := 0;
    while k < |rows|
      invariant 0 <= k <= |rows|
      invariant forall j :: 0 <= j < k ==> rows[j].name != PartitionMarker
      invariant last == if k == 0 then None else Some(k - 1)
    {
      last := Some(k);
      if rows[k].name == PartitionMarker {
        break;
      }
      k := k + 1;
    }
    if last.None? {
      return Err(UnboundLocalError);
    }
    var i := last.value;
    assert i == MarkerIndex(rows) || (MarkerIndex(rows) == |rows| && i == |rows| - 1);
    var names: seq<string> := [];
    var m := i + 1;
    while m < |rows|
      invariant i + 1 <= m <= |rows|
      invariant |names| == m - i - 1
      invariant forall j :: 0 <= j < |names| ==> names[j] == rows[i + 1 + j].name
    {
      names := names + [rows[m].name];
      m := m + 1;
    }
    assert names == PartitionNames(rows);
    if names != [] {
      r := Ok([Index("partition", names, false)]);
    } else {
      r := Ok([]);
    }
  }

  /** No index is reported exactly when there is no marker or nothing follows it. */
  lemma NoPartitions(rows: seq<Described>)
    ensures PartitionNames(rows) == [] <==> MarkerIndex(rows) >= |rows| - 1
  {
  }

  /** `get_indexes`: describe the table, normalise and filter the rows, then collect the partition columns. */
  method GetIndexes(execute: string -> ExecOutcome, table: string, schema: Option<string>)
    returns (r: Result<seq<Index>>)
    ensures TableColumns(execute, table, schema).Err? ==> r == Err(TableColumns(execute, table, schema).error)
    ensures TableColumns(execute, table, schema).Ok? ==>
      var rows := Filtered(TableColumns(execute, table, schema).value);
      && (rows == [] <==> r == Err(UnboundLocalError))
      && (rows != [] && PartitionNames(rows) == [] ==> r == Ok([]))
      && (PartitionNames(rows) != [] ==> r == Ok([Index("partition", PartitionNames(rows), false)]))
  {
    var described := TableColumns(execute, table, schema);
    if described.Err? {
      return Err(described.error);
    }
    r := IndexesFromRows(Filtered(described.value));
  }
}
