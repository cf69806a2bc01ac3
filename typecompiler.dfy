/** `HiveTypeCompiler`: the Hive spelling of SQLAlchemy's generic type tags,
    and how that spelling reads back through the type registry. */
module TypeCompiler {
  import opened Wrappers
  import opened Text
  import opened Types

  /** The generic type tags the Hive compiler overrides, and `Generic` for a tag
      the generic compiler renders itself (kept as its rendered text). */
  datatype SqlType =
    | INTEGER | NUMERIC | CHAR | VARCHAR | NCHAR | TEXT | CLOB | BLOB
    | TIME | DATE | DATETIME
    | ARRAY(item: SqlType)
    | Generic(rendered: string)

  /** The Hive type name emitted for a type; arrays recurse on the item type. */
  function Render(t: SqlType): (r: string)
    ensures t.ARRAY? ==> |r| >= 7 && r[..6] == "ARRAY<" && r[|r| - 1] == '>'
  {
    match t
    case INTEGER => "INT"
    case NUMERIC => "DECIMAL"
    case CHAR => "STRING"
    case VARCHAR => "STRING"
    case NCHAR => "STRING"
    case TEXT => "STRING"
    case CLOB => "STRING"
    case BLOB => "BINARY"
    case TIME => "TIMESTAMP"
    case DATE => "DATE"
    case DATETIME => "TIMESTAMP"
    case ARRAY(item) => Enclosed("ARRAY<", Render(item), ">")
    case Generic(r) => r
  }

  /** How many `ARRAY` wrappers surround the innermost type. */
  function Depth(t: SqlType): nat {
    if t.ARRAY? then 1 + Depth(t.item) else 0
  }

  /** The innermost, non-array type. */
  function Base(t: SqlType): (b: SqlType)
    ensures !b.ARRAY?
  {
    if t.ARRAY? then Base(t.item) else t
  }

  function Repeat(s: string, n: nat): string {
    if n == 0 then "" else s + Repeat(s, n - 1)
  }

  /** A nested array renders as `ARRAY<` once per level, the innermost type,
      and as many closing `>`. */
  lemma {:induction false} RenderNested(t: SqlType)
    ensures Render(t) == Repeat("ARRAY<", Depth(t)) + Render(Base(t)) + Repeat(">", Depth(t))
  {
    if t.ARRAY? {
      RenderNested(t.item);
      var n := Depth(t.item);
      RepeatSnoc(">", n);
      Wrap("ARRAY<", Repeat("ARRAY<", n), Render(Base(t.item)), Repeat(">", n), ">");
    } else {
      assert Repeat("ARRAY<", 0) == "" && Repeat(">", 0) == "";
    }
  }

  /** Wrapping a three-piece text, regrouped. */
  lemma Wrap(p: string, a: string, inner: string, b: string, c: string)
    ensures p + (a + inner + b) + c == (p + a) + inner + (b + c)
  {
  }

  lemma {:induction false} RepeatSnoc(s: string, n: nat)
    ensures Repeat(s, n) + s == Repeat(s, n + 1)
  {
    if n > 0 {
      RepeatSnoc(s, n - 1);
    }
  }

  /** The registry class a type is reflected as. */
  function Reflected(t: SqlType): TypeClass
    requires !t.Generic?
  {
    match t
    case INTEGER => Integer
    case NUMERIC => HiveDecimal
    case BLOB => String
    case TIME => HiveTimestamp
    case DATETIME => HiveTimestamp
    case DATE => HiveDate
    case ARRAY(_) => HiveArray
    case _ => String
  }

  /** What the compiler emits reads back: lower-cased as Hive prints it in
      `DESCRIBE` output, the leading word of every overridden type's name is a
      registry key, and it names the class the type stands for (`INT` is
      `int`, `BINARY` is `binary`, an array is `array`). */
  lemma RenderReflects(t: SqlType)
    requires !t.Generic?
    ensures LeadingWord(Lower(Render(t))).Some?
    ensures Lookup(LeadingWord(Lower(Render(t))).value) == Some(Reflected(t))
  {
    if t.ARRAY? {
      ArrayReflects(t);
    } else {
      WordReflects(t);
    }
  }

  lemma ArrayReflects(t: SqlType)
    requires t.ARRAY?
    ensures LeadingWord(Lower(Render(t))) == Some("array") && Lookup("array") == Some(HiveArray)
  {
    assert Render(t) == "ARRAY<" + Render(t.item) + ">";
    ArrayReads(Render(t.item));
    LookupArray();
  }

  lemma WordReflects(t: SqlType)
    requires !t.Generic? && !t.ARRAY?
    ensures LeadingWord(Lower(Render(t))) == Some(HiveName(t))
    ensures Lookup(HiveName(t)) == Some(Reflected(t))
  {
    var w := HiveName(t);
    HiveNameResolves(t);
    WordPrefixOf(w, "");
    assert w + "" == w;
  }

  /** An `ARRAY<...>` rendering lower-cases to text whose leading word is `array`. */
  lemma ArrayReads(x: string)
    ensures LeadingWord(Lower("ARRAY<" + x + ">")) == Some("array")
  {
    LowerArrayText(x);
    WordPrefixOf("array", "<" + Lower(x) + ">");
  }

  lemma LowerArrayText(x: string)
    ensures Lower("ARRAY<" + x + ">") == "array" + ("<" + Lower(x) + ">")
  {
    LowerPieces("ARRAY<", x, ">");
    LowerArray();
    LowerClose();
    ArrayRegroup(Lower(x));
  }

  lemma ArrayRegroup(w: string)
    ensures "array" + ("<" + w + ">") == "array<" + w + ">"
  {
  }

  lemma LowerPieces(a: string, x: string, b: string)
    ensures Lower(a + x + b) == Lower(a) + Lower(x) + Lower(b)
  {
    LowerAppend(a + x, b);
    LowerAppend(a, x);
  }

  lemma LowerClose() ensures Lower(">") == ">" {}

  lemma LookupArray() ensures Lookup("array") == Some(HiveArray) {}

  /** The lower-case name of a non-array type, as `DESCRIBE` prints it. */
  function HiveName(t: SqlType): (w: string)
    requires !t.Generic? && !t.ARRAY?
    ensures w == Lower(Render(t))
  {
    match t
    case INTEGER => LowerInt(t); "int"
    case NUMERIC => LowerDecimal(t); "decimal"
    case BLOB => LowerBinary(t); "binary"
    case TIME => LowerTimestamp(t); "timestamp"
    case DATETIME => LowerTimestamp(t); "timestamp"
    case DATE => LowerDate(t); "date"
    case _ => LowerString(t); "string"
  }

  /** Each such name is a word, not starting with `a`, that the registry maps to the type's class. */
  lemma HiveNameResolves(t: SqlType)
    requires !t.Generic? && !t.ARRAY?
    ensures var w := HiveName(t);
            AllWord(w) && w != [] && w[0] != 'a' && Lookup(w) == Some(Reflected(t))
  {
    LookupNames();
    HiveNamesAreWords();
  }

  lemma HiveNamesAreWords()
    ensures AllWord("int") && AllWord("decimal") && AllWord("binary")
    ensures AllWord("timestamp") && AllWord("date") && AllWord("string")
  {
  }

  /* The upper-case Hive names lower-case letter by letter. */
  lemma LowerInt(t: SqlType) requires t == INTEGER ensures Lower(Render(t)) == "int" {}
  lemma LowerDecimal(t: SqlType) requires t == NUMERIC ensures Lower(Render(t)) == "decimal" {}
  lemma LowerBinary(t: SqlType) requires t == BLOB ensures Lower(Render(t)) == "binary" {}
  lemma LowerTimestamp(t: SqlType) requires t == TIME || t == DATETIME ensures Lower(Render(t)) == "timestamp" {
    assert Render(t) == "TIMESTAMP";
  }
  lemma LowerDate(t: SqlType) requires t == DATE ensures Lower(Render(t)) == "date" {}
  lemma LowerString(t: SqlType) requires t.CHAR? || t.VARCHAR? || t.NCHAR? || t.TEXT? || t.CLOB?
    ensures Lower(Render(t)) == "string" {}
  lemma LowerArray() ensures Lower("ARRAY<") == "array<" {}

  lemma LookupNames()
    ensures Lookup("int") == Some(Integer) && Lookup("decimal") == Some(HiveDecimal)
    ensures Lookup("binary") == Some(String) && Lookup("timestamp") == Some(HiveTimestamp)
    ensures Lookup("date") == Some(HiveDate) && Lookup("string") == Some(String)
  {
  }
}
