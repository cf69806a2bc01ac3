/** `HiveExecutionContext`: result column names. Hive reports a result column
    as `table.column` by default; the dialect keeps only the part after the last dot. */
module Execution {
  import opened Wrappers
  import opened Text

  /** The name to use for a result column, and the original name when it was changed. */
  function TranslateColname(name: string, preserveRaw: bool): (r: (string, Option<string>))
    ensures !preserveRaw ==> '.' !in r.0
    ensures r.1.Some? <==> !preserveRaw && '.' in name
    ensures r.1.Some? ==> r.1.value == name
    ensures r.1.None? ==> r.0 == name
    ensures r.1.Some? ==> |r.0| < |name| && name == name[..|name| - |r.0| - 1] + "." + r.0
  {
    if !preserveRaw && '.' in name then (LastPiece(name, '.'), Some(name)) else (name, None)
  }

  /** Translating a translated name changes nothing further. */
  lemma TranslateColnameIdempotent(name: string, preserveRaw: bool)
    ensures var once := TranslateColname(name, preserveRaw).0;
            TranslateColname(once, preserveRaw) == (once, None)
  {
  }

  /** `t.c` translates to `c` when `c` holds no dot, whatever the table part is. */
  lemma TranslateQualified(table: string, column: string)
    requires '.' !in column
    ensures TranslateColname(table + "." + column, false) == (column, Some(table + "." + column))
  {
    var name := table + "." + column;
    var parts := Split(table, '.') + [column];
    JoinSnoc(Split(table, '.'), column);
    assert Join(parts, ".") == name;
    forall i | 0 <= i < |parts|
      ensures '.' !in parts[i]
    {
      if i < |parts| - 1 {
        assert parts[i] == Split(table, '.')[i];
      }
    }
    SplitJoin(parts, '.');
    assert '.' in name by {
      assert name[|table|] == '.';
    }
  }

  lemma {:induction false} JoinSnoc(parts: seq<string>, last: string)
    requires |parts| > 0
    ensures Join(parts + [last], ".") == Join(parts, ".") + "." + last
  {
    if |parts| == 1 {
      assert parts + [last] == [parts[0], last];
    } else {
      assert (parts + [last])[1..] == parts[1..] + [last];
      JoinSnoc(parts[1..], last);
    }
  }
}
