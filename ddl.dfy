/** `HiveDDLCompiler`: the text the Hive DDL compiler appends to what the
    generic DDL compiler renders. The generic renderings are opaque strings. */
module Ddl {
  import opened Wrappers
  import opened Text

  const PrimaryKeySuffix := " DISABLE NOVALIDATE RELY"
  const ForeignKeySuffix := " DISABLE NOVALIDATE"

  /** A primary key constraint is declared but not enforced, and relied on by the optimiser. */
  function PrimaryKeyClause(rendered: string): (r: string)
    ensures StartsWith(r, rendered) && r[|rendered|..] == PrimaryKeySuffix
  {
    rendered + PrimaryKeySuffix
  }

  /** A foreign key constraint is declared but neither enforced nor relied on. */
  function ForeignKeyClause(rendered: string): (r: string)
    ensures StartsWith(r, rendered) && r[|rendered|..] == ForeignKeySuffix
  {
    rendered + ForeignKeySuffix
  }

  /** The two constraint clauses differ exactly in the trailing ` RELY`. */
  lemma PrimaryKeyRelies(rendered: string)
    ensures PrimaryKeyClause(rendered) == ForeignKeyClause(rendered) + " RELY"
  {
    assert PrimaryKeySuffix == ForeignKeySuffix + " RELY";
  }

  /** Distinct generic renderings stay distinct once suffixed. */
  lemma ConstraintClausesInjective(a: string, b: string)
    ensures PrimaryKeyClause(a) == PrimaryKeyClause(b) ==> a == b
    ensures ForeignKeyClause(a) == ForeignKeyClause(b) ==> a == b
  {
    if PrimaryKeyClause(a) == PrimaryKeyClause(b) {
      assert |a| == |b|;
      assert a == PrimaryKeyClause(a)[..|a|];
    }
    if ForeignKeyClause(a) == ForeignKeyClause(b) {
      assert |a| == |b|;
      assert a == ForeignKeyClause(a)[..|a|];
    }
  }

  /** A column definition gains ` COMMENT '<comment>'` when its comment is truthy. */
  function CreateColumn(text: string, comment: Option<string>): (r: string)
    ensures StartsWith(r, text)
    ensures |r| == |text| <==> !Truthy(comment)
    ensures Truthy(comment) ==> r[|text|..] == " COMMENT '" + comment.value + "'"
  {
    if Truthy(comment) then text + " COMMENT '" + comment.value + "'" else text
  }

  /** The comment can be read back from the column definition it was appended to. */
  lemma CreateColumnComment(text: string, c: string)
    requires c != ""
    ensures var r := CreateColumn(text, Some(c));
            |r| == |text| + |c| + 11 && r[|text| + 10..|r| - 1] == c
  {
    var r := CreateColumn(text, Some(c));
    assert r == text + " COMMENT '" + c + "'";
  }

  // ---------------------------------------------------------------- TBLPROPERTIES

  type Property = (string, string)

  /** Python's `<` on a `(key, value)` tuple of strings: by key, then by value. */
  predicate PairLess(a: Property, b: Property) {
    Less(a.0, b.0) || (a.0 == b.0 && Less(a.1, b.1))
  }

  lemma PairIrreflexive(a: Property)
    ensures !PairLess(a, a)
  {
    LessIrreflexive(a.0);
    LessIrreflexive(a.1);
  }

  lemma PairTotal(a: Property, b: Property)
    requires a != b
    ensures PairLess(a, b) || PairLess(b, a)
  {
    if a.0 != b.0 {
      LessTotal(a.0, b.0);
    } else {
      LessTotal(a.1, b.1);
    }
  }

  lemma PairAsymmetric(a: Property, b: Property)
    requires PairLess(a, b)
    ensures !PairLess(b, a)
  {
    if Less(a.0, b.0) {
      LessAsymmetric(a.0, b.0);
      if b.0 == a.0 { LessIrreflexive(a.0); }
    } else {
      LessIrreflexive(a.0);
      LessAsymmetric(a.1, b.1);
    }
  }

  /** "Not less than" is transitive, as the order is total. */
  lemma PairNotLessTransitive(a: Property, b: Property, c: Property)
    requires !PairLess(b, a) && !PairLess(c, b)
    ensures !PairLess(c, a)
  {
    if a != b && b != c {
      PairTotal(a, b);
      PairTotal(b, c);
      if PairLess(c, a) {
        PairTransitive(a, b, c);
        PairAsymmetric(a, c);
      }
    }
  }

  lemma PairTransitive(a: Property, b: Property, c: Property)
    requires PairLess(a, b) && PairLess(b, c)
    ensures PairLess(a, c)
  {
    if Less(a.0, b.0) && Less(b.0, c.0) {
      LessTransitive(a.0, b.0, c.0);
    } else if Less(a.1, b.1) && Less(b.1, c.1) && a.0 == b.0 && b.0 == c.0 {
      LessTransitive(a.1, b.1, c.1);
    }
  }

  /** No element is less than one before it. */
  predicate Sorted(s: seq<Property>) {
    forall i, j :: 0 <= i < j < |s| ==> !PairLess(s[j], s[i])
  }

  /** Places `x` before the first element not less than it. */
  function Insert(x: Property, s: seq<Property>): (r: seq<Property>)
    requires Sorted(s)
    ensures Sorted(r)
    ensures multiset(r) == multiset(s) + multiset{x}
  {
    if s == [] then [x]
    else if !PairLess(s[0], x) then
      InsertFront(x, s);
      [x] + s
    else
      var rest := Insert(x, s[1..]);
      InsertLater(x, s, rest);
      assert s == [s[0]] + s[1..];
      [s[0]] + rest
  }

  lemma InsertFront(x: Property, s: seq<Property>)
    requires Sorted(s) && s != [] && !PairLess(s[0], x)
    ensures Sorted([x] + s)
  {
    var r := [x] + s;
    forall i, j | 0 <= i < j < |r|
      ensures !PairLess(r[j], r[i])
    {
      if i == 0 {
        if j == 1 {
        } else {
          PairNotLessTransitive(x, s[0], s[j - 1]);
        }
      }
    }
  }

  lemma InsertLater(x: Property, s: seq<Property>, rest: seq<Property>)
    requires Sorted(s) && s != [] && PairLess(s[0], x)
    requires Sorted(rest) && multiset(rest) == multiset(s[1..]) + multiset{x}
    ensures Sorted([s[0]] + rest)
  {
    var r := [s[0]] + rest;
    forall i, j | 0 <= i < j < |r|
      ensures !PairLess(r[j], r[i])
    {
      if i == 0 {
        var y := rest[j - 1];
        assert y in multiset(rest);
        if y == x {
          PairAsymmetric(s[0], x);
        } else {
          assert y in multiset(s[1..]);
          var k :| 0 <= k < |s[1..]| && s[1..][k] == y;
          assert s[k + 1] == y;
        }
      }
    }
  }

  /** `sorted(items)`: an insertion sort of the table properties. */
  function SortPairs(s: seq<Property>): (r: seq<Property>)
    ensures Sorted(r)
    ensures multiset(r) == multiset(s)
    ensures forall i, j :: 0 <= i < j < |r| ==> !Less(r[j].0, r[i].0)
  {
    if s == [] then []
    else
      var r := Insert(s[0], SortPairs(s[1..]));
      assert s == [s[0]] + s[1..];
      r
  }

  /** A sorted permutation is unique: `SortPairs` gives exactly what Python's `sorted` gives. */
  lemma {:induction false} SortedUnique(a: seq<Property>, b: seq<Property>)
    requires Sorted(a) && Sorted(b) && multiset(a) == multiset(b)
    ensures a == b
    decreases |a|
  {
    assert |a| == |multiset(a)| == |b|;
    if a != [] {
      SortedHeads(a, b);
      assert a == [a[0]] + a[1..] && b == [b[0]] + b[1..];
      assert multiset(a) == multiset{a[0]} + multiset(a[1..]);
      assert multiset(b) == multiset{b[0]} + multiset(b[1..]);
      assert multiset(a[1..]) == multiset(a) - multiset{a[0]};
      assert multiset(b[1..]) == multiset(b) - multiset{b[0]};
      SortedTail(a);
      SortedTail(b);
      SortedUnique(a[1..], b[1..]);
    }
  }

  lemma SortedTail(s: seq<Property>)
    requires Sorted(s) && s != []
    ensures Sorted(s[1..])
  {
    var t := s[1..];
    forall i, j | 0 <= i < j < |t|
      ensures !PairLess(t[j], t[i])
    {
      assert t[j] == s[j + 1] && t[i] == s[i + 1];
    }
  }

  /** Two sorted sequences with the same elements start with the same (least) element. */
  lemma SortedHeads(a: seq<Property>, b: seq<Property>)
    requires Sorted(a) && Sorted(b) && multiset(a) == multiset(b) && a != [] && b != []
    ensures a[0] == b[0]
  {
    assert a[0] in multiset(b);
    assert b[0] in multiset(a);
    var i :| 0 <= i < |b| && b[i] == a[0];
    var j :| 0 <= j < |a| && a[j] == b[0];
    PairIrreflexive(a[0]);
    assert !PairLess(a[0], b[0]) by {
      if i > 0 { assert !PairLess(b[i], b[0]); }
    }
    assert !PairLess(b[0], a[0]) by {
      if j > 0 { assert !PairLess(a[j], a[0]); }
    }
    if a[0] != b[0] {
      PairTotal(a[0], b[0]);
    }
  }

  /** One property as `'<key>' = '<value>'`. */
  function PropertyItem(p: Property): string {
    "'" + p.0 + "' = '" + p.1 + "'"
  }

  function PropertyItems(ps: seq<Property>): (r: seq<string>)
    ensures |r| == |ps|
    ensures forall i :: 0 <= i < |ps| ==> r[i] == PropertyItem(ps[i])
  {
    if ps == [] then [] else [PropertyItem(ps[0])] + PropertyItems(ps[1..])
  }

  /** The `TBLPROPERTIES` line: the properties sorted, then listed with `, `. */
  function PropertiesLine(ps: seq<Property>): (r: string)
    ensures |r| > 15 && r[..15] == "TBLPROPERTIES (" && r[|r| - 1] == ')'
  {
    var inner := Join(PropertyItems(SortPairs(ps)), ", ");
    Enclosed("TBLPROPERTIES (", inner, ")")
  }


  /** The order the properties were given in does not show in the line. */
  lemma PropertiesLineOrderFree(a: seq<Property>, b: seq<Property>)
    requires multiset(a) == multiset(b)
    ensures PropertiesLine(a) == PropertiesLine(b)
  {
    SortedUnique(SortPairs(a), SortPairs(b));
  }

  /** `{"b": "2", "a": "1"}` renders with `a` first. */
  lemma PropertiesLineExample()
    ensures PropertiesLine([("b", "2"), ("a", "1")]) == "TBLPROPERTIES ('a' = '1', 'b' = '2')"
  {
    ExampleSorted();
    ExampleItems();
  }

  lemma ExampleSorted()
    ensures SortPairs([("b", "2"), ("a", "1")]) == [("a", "1"), ("b", "2")]
  {
    var s := [("b", "2"), ("a", "1")];
    var t := [("a", "1"), ("b", "2")];
    assert PairLess(t[0], t[1]);
    PairAsymmetric(t[0], t[1]);
    PairIrreflexive(t[0]);
    PairIrreflexive(t[1]);
    assert Sorted(t);
    assert multiset(s) == multiset(t);
    SortedUnique(SortPairs(s), t);
  }

  lemma ExampleItems()
    ensures Join(PropertyItems([("a", "1"), ("b", "2")]), ", ") == "'a' = '1', 'b' = '2'"
  {
    var items := PropertyItems([("a", "1"), ("b", "2")]);
    assert items[0] == "'a' = '1'" && items[1] == "'b' = '2'";
    assert items == ["'a' = '1'", "'b' = '2'"];
  }

  // ---------------------------------------------------------------- post_create_table

  /** The table's comment and its `hive_*` keyword arguments; a keyword argument
      absent from `table.kwargs` is `None`, and its value is rendered with `str`. */
  datatype TableSpec = TableSpec(
    comment: Option<string>,
    partitionedBy: Option<string>,
    clusteredBy: Option<string>,
    storedAs: Option<string>,
    properties: Option<seq<Property>>)

  /** One table-level option of `CREATE TABLE`. */
  datatype TableOption =
    | Comment(text: string)
    | PartitionedBy(spec: string)
    | ClusteredBy(spec: string)
    | StoredAs(format: string)
    | Properties(pairs: seq<Property>)

  /** The position of an option kind in the emitted order. */
  function Rank(o: TableOption): nat {
    match o
    case Comment(_) => 0
    case PartitionedBy(_) => 1
    case ClusteredBy(_) => 2
    case StoredAs(_) => 3
    case Properties(_) => 4
  }

  /** The option of rank `k` when the table has it: a truthy comment, or a
      `hive_*` keyword argument that is present, whatever its value. */
  function Slot(t: TableSpec, k: nat): (r: Option<TableOption>)
    ensures r.Some? ==> Rank(r.value) == k
  {
    if k == 0 then (if Truthy(t.comment) then Some(Comment(t.comment.value)) else None)
    else if k == 1 then (if t.partitionedBy.Some? then Some(PartitionedBy(t.partitionedBy.value)) else None)
    else if k == 2 then (if t.clusteredBy.Some? then Some(ClusteredBy(t.clusteredBy.value)) else None)
    else if k == 3 then (if t.storedAs.Some? then Some(StoredAs(t.storedAs.value)) else None)
    else if k == 4 then (if t.properties.Some? then Some(Properties(t.properties.value)) else None)
    else None
  }

  /** The present values, in order. */
  function Present(xs: seq<Option<TableOption>>): (r: seq<TableOption>)
    ensures |r| <= |xs|
  {
    if xs == [] then []
    else if xs[0].Some? then [xs[0].value] + Present(xs[1..])
    else Present(xs[1..])
  }

  /** Slot `k` of `xs` holds an option of rank `base + k`, if any. */
  predicate RankedFrom(xs: seq<Option<TableOption>>, base: nat) {
    forall k :: 0 <= k < |xs| && xs[k].Some? ==> Rank(xs[k].value) == base + k
  }

  lemma RankedTail(xs: seq<Option<TableOption>>, base: nat)
    requires RankedFrom(xs, base) && xs != []
    ensures RankedFrom(xs[1..], base + 1)
  {
    forall k | 0 <= k < |xs[1..]| && xs[1..][k].Some?
      ensures Rank(xs[1..][k].value) == base + 1 + k
    {
      assert xs[1..][k] == xs[k + 1];
    }
  }

  /** Every value `Present` keeps sits in the slot its rank names. */
  lemma {:induction false} PresentFrom(xs: seq<Option<TableOption>>, base: nat)
    requires RankedFrom(xs, base)
    ensures forall i :: 0 <= i < |Present(xs)| ==>
              base <= Rank(Present(xs)[i]) < base + |xs| && xs[Rank(Present(xs)[i]) - base] == Some(Present(xs)[i])
  {
    if xs != [] {
      RankedTail(xs, base);
      PresentFrom(xs[1..], base + 1);
      var rest := Present(xs[1..]);
      var r := Present(xs);
      assert r == if xs[0].Some? then [xs[0].value] + rest else rest;
      forall i | 0 <= i < |r|
        ensures base <= Rank(r[i]) < base + |xs| && xs[Rank(r[i]) - base] == Some(r[i])
      {
        if xs[0].Some? && i == 0 {
        } else {
          var i' := if xs[0].Some? then i - 1 else i;
          assert r[i] == rest[i'];
          assert xs[Rank(r[i]) - base] == xs[1..][Rank(r[i]) - (base + 1)];
        }
      }
    }
  }

  /** `Present` keeps the ranks increasing. */
  lemma {:induction false} PresentIncreasing(xs: seq<Option<TableOption>>, base: nat)
    requires RankedFrom(xs, base)
    ensures forall i, j :: 0 <= i < j < |Present(xs)| ==> Rank(Present(xs)[i]) < Rank(Present(xs)[j])
  {
    if xs != [] {
      RankedTail(xs, base);
      PresentIncreasing(xs[1..], base + 1);
      PresentFrom(xs[1..], base + 1);
      var rest := Present(xs[1..]);
      var r := Present(xs);
      assert r == if xs[0].Some? then [xs[0].value] + rest else rest;
      if xs[0].Some? {
        forall i, j | 0 <= i < j < |r|
          ensures Rank(r[i]) < Rank(r[j])
        {
          assert r[j] == rest[j - 1];
          if i > 0 { assert r[i] == rest[i - 1]; }
        }
      }
    }
  }

  /** `Present` keeps every present value. */
  lemma {:induction false} PresentComplete(xs: seq<Option<TableOption>>)
    ensures forall k :: 0 <= k < |xs| && xs[k].Some? ==> xs[k].value in Present(xs)
  {
    if xs != [] {
      PresentComplete(xs[1..]);
      forall k | 0 <= k < |xs| && xs[k].Some?
        ensures xs[k].value in Present(xs)
      {
        if k > 0 { assert xs[k] == xs[1..][k - 1]; }
      }
    }
  }

  /** The options `table_opts` yields, in the order it yields them. */
  function Options(t: TableSpec): (r: seq<TableOption>)
    ensures |r| <= 5
  {
    Present([Slot(t, 0), Slot(t, 1), Slot(t, 2), Slot(t, 3), Slot(t, 4)])
  }

  /** The options come in the fixed order COMMENT, PARTITIONED BY, CLUSTERED BY,
      STORED AS, TBLPROPERTIES; each is one the table has, and every one it has is there. */
  lemma OptionsInOrder(t: TableSpec)
    ensures forall i, j :: 0 <= i < j < |Options(t)| ==> Rank(Options(t)[i]) < Rank(Options(t)[j])
    ensures forall i :: 0 <= i < |Options(t)| ==> Slot(t, Rank(Options(t)[i])) == Some(Options(t)[i])
    ensures forall k :: 0 <= k < 5 && Slot(t, k).Some? ==> Slot(t, k).value in Options(t)
  {
    var xs := [Slot(t, 0), Slot(t, 1), Slot(t, 2), Slot(t, 3), Slot(t, 4)];
    assert forall k :: 0 <= k < 5 ==> xs[k] == Slot(t, k);
    PresentFrom(xs, 0);
    PresentIncreasing(xs, 0);
    PresentComplete(xs);
  }

  /** The text of one option line. */
  function OptionLine(o: TableOption): string {
    match o
    case Comment(c) => "COMMENT '" + c + "'"
    case PartitionedBy(p) => "PARTITIONED BY " + p
    case ClusteredBy(c) => "CLUSTERED BY " + c
    case StoredAs(f) => "STORED AS " + f
    case Properties(ps) => PropertiesLine(ps)
  }

  function OptionLines(os: seq<TableOption>): (r: seq<string>)
    ensures |r| == |os|
    ensures forall i :: 0 <= i < |os| ==> r[i] == OptionLine(os[i])
  {
    if os == [] then [] else [OptionLine(os[0])] + OptionLines(os[1..])
  }

  /** The text after `CREATE TABLE ... (...)`: a newline, then the option lines separated by newlines. */
  function PostCreateTable(t: TableSpec): (r: string)
    ensures r != [] && r[0] == '\n'
  {
    "\n" + Join(OptionLines(Options(t)), "\n")
  }

  /** No value the option carries holds a newline. */
  predicate OptionSingleLine(o: TableOption) {
    match o
    case Comment(c) => '\n' !in c
    case PartitionedBy(p) => '\n' !in p
    case ClusteredBy(c) => '\n' !in c
    case StoredAs(f) => '\n' !in f
    case Properties(ps) => forall i :: 0 <= i < |ps| ==> '\n' !in ps[i].0 && '\n' !in ps[i].1
  }

  /** With single-line values, splitting the output after its leading newline
      recovers one line per present option, in the emitted order. */
  lemma PostCreateTableLines(t: TableSpec)
    requires forall k :: 0 <= k < 5 && Slot(t, k).Some? ==> OptionSingleLine(Slot(t, k).value)
    requires Options(t) != []
    ensures var out := PostCreateTable(t);
            out[0] == '\n' && Split(out[1..], '\n') == OptionLines(Options(t))
  {
    var os := Options(t);
    var lines := OptionLines(os);
    OptionsInOrder(t);
    forall i | 0 <= i < |lines|
      ensures '\n' !in lines[i]
    {
      OptionLineSingle(os[i]);
    }
    SplitJoin(lines, '\n');
    assert PostCreateTable(t)[1..] == Join(lines, "\n");
  }

  /** A table with no options gets only the newline. */
  lemma PostCreateTableEmpty(t: TableSpec)
    requires !Truthy(t.comment) && t.partitionedBy.None? && t.clusteredBy.None?
    requires t.storedAs.None? && t.properties.None?
    ensures PostCreateTable(t) == "\n"
  {
    assert Options(t) == [];
  }

  lemma OptionLineSingle(o: TableOption)
    requires OptionSingleLine(o)
    ensures '\n' !in OptionLine(o)
  {
    if o.Properties? {
      PropertiesSingleLine(o.pairs);
    }
  }

  lemma PropertiesSingleLine(ps: seq<Property>)
    requires forall i :: 0 <= i < |ps| ==> '\n' !in ps[i].0 && '\n' !in ps[i].1
    ensures '\n' !in PropertiesLine(ps)
  {
    var items := PropertyItems(SortPairs(ps));
    ItemsSingleLine(ps);
    JoinSingleLine(items, ", ");
  }

  lemma ItemsSingleLine(ps: seq<Property>)
    requires forall i :: 0 <= i < |ps| ==> '\n' !in ps[i].0 && '\n' !in ps[i].1
    ensures forall i :: 0 <= i < |PropertyItems(SortPairs(ps))| ==> '\n' !in PropertyItems(SortPairs(ps))[i]
  {
    var sorted := SortPairs(ps);
    forall i | 0 <= i < |sorted|
      ensures '\n' !in PropertyItem(sorted[i])
    {
      assert sorted[i] in multiset(ps);
      var k :| 0 <= k < |ps| && ps[k] == sorted[i];
    }
  }

  lemma {:induction false} JoinSingleLine(parts: seq<string>, sep: string)
    requires '\n' !in sep
    requires forall i :: 0 <= i < |parts| ==> '\n' !in parts[i]
    ensures '\n' !in Join(parts, sep)
  {
    if |parts| > 1 {
      JoinSingleLine(parts[1..], sep);
    }
  }
}
