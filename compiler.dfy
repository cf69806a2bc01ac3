/** `HiveCompiler`: the rewriting of rendered INSERT statements and of rendered
    column references into the syntax Hive accepts. */
module Compiler {
  import opened Wrappers
  import opened Text

  /** `insert_regex` and `insert_partition_regex`. */
  datatype InsertPattern = Plain | Partitioned

  /** One match of an INSERT pattern: the `[^\s]+` target, the `PARTITION (...)`
      specification of the partitioned pattern, and the `(...)` column list. */
  datatype InsertMatch = InsertMatch(target: string, partition: Option<string>, columns: string)

  const Keyword := "INSERT INTO "

  function PartitionClause(m: InsertMatch): string {
    if m.partition.Some? then " PARTITION (" + m.partition.value + ")" else ""
  }

  function ColumnClause(m: InsertMatch): string {
    " (" + m.columns + ")"
  }

  /** The text a match stands for. */
  function MatchedText(m: InsertMatch): string {
    Keyword + (m.target + (PartitionClause(m) + ColumnClause(m)))
  }

  /** What the pattern's language allows: a non-empty target without whitespace,
      a column list without `)`, and for `Partitioned` a non-empty partition
      specification without `)`. */
  predicate WellFormed(pat: InsertPattern, m: InsertMatch) {
    && m.target != [] && NoSpace(m.target)
    && ')' !in m.columns
    && (pat == Plain <==> m.partition.None?)
    && (m.partition.Some? ==> m.partition.value != [] && ')' !in m.partition.value)
  }

  /** `(INSERT INTO) ([^\s]+)` at the start of `s`: the target and what follows it. */
  function TargetAt(s: string): (r: Option<(string, string)>)
    ensures r.Some? ==> |r.value.1| < |s|
  {
    if !StartsWith(s, Keyword) then None
    else
      var target := NonSpacePrefix(s[|Keyword|..]);
      if target == [] then None else Some((target, s[|Keyword| + |target|..]))
  }

  /** `opener`, then the text up to the first `)`: that text and what follows the `)`. */
  function Parenthesized(s: string, opener: string): (r: Option<(string, string)>)
    ensures r.Some? ==> |r.value.1| < |s|
  {
    if !StartsWith(s, opener) then None
    else
      match IndexOf(s[|opener|..], ')')
      case None => None
      case Some(k) => Some((s[|opener|..|opener| + k], s[|opener| + k + 1..]))
  }

  /** The pattern matched at the start of `s` (`re.match` of the pattern): the
      match and the text after it. The match is deterministic: `[^\s]+` must stop
      at the first whitespace, because the next character of the pattern is a
      space, and `[^\)]*\)` stops at the first `)`. */
  function MatchAt(pat: InsertPattern, s: string): (r: Option<(InsertMatch, string)>)
    ensures r.Some? ==> |r.value.1| < |s|
  {
    match TargetAt(s)
    case None => None
    case Some((target, rest)) =>
      if pat == Plain then
        match Parenthesized(rest, " (")
        case None => None
        case Some((cols, after)) => Some((InsertMatch(target, None, cols), after))
      else
        match Parenthesized(rest, " PARTITION (")
        case None => None
        case Some((spec, rest2)) =>
          if spec == [] then None
          else
            match Parenthesized(rest2, " (")
            case None => None
            case Some((cols, after)) => Some((InsertMatch(target, Some(spec), cols), after))
  }

  lemma TargetAtSound(s: string)
    ensures var r := TargetAt(s);
            r.Some? ==> && r.value.0 != [] && NoSpace(r.value.0)
                        && s == Keyword + (r.value.0 + r.value.1)
  {
    if StartsWith(s, Keyword) {
      var target := NonSpacePrefix(s[|Keyword|..]);
      assert s == s[..|Keyword|] + (s[|Keyword|..][..|target|] + s[|Keyword| + |target|..]);
    }
  }

  lemma ParenthesizedSound(s: string, opener: string)
    ensures var r := Parenthesized(s, opener);
            r.Some? ==> ')' !in r.value.0 && s == opener + r.value.0 + ")" + r.value.1
  {
    if StartsWith(s, opener) && IndexOf(s[|opener|..], ')').Some? {
      var a := |opener|;
      var k := IndexOf(s[|opener|..], ')').value;
      SuffixSlices(s, a, k);
      CutAt(s, a, k);
    }
  }

  /** Slices of a suffix are slices of the whole text. */
  lemma SuffixSlices(s: string, a: nat, k: nat)
    requires a + k < |s|
    ensures s[a..][..k] == s[a..a + k] && s[a..][k] == s[a + k]
  {
  }

  /** A text cut around the character at `a + k`. */
  lemma CutAt(s: string, a: nat, k: nat)
    requires a + k < |s|
    ensures s == s[..a] + s[a..a + k] + [s[a + k]] + s[a + k + 1..]
  {
    assert s == s[..a] + s[a..a + k] + s[a + k..];
    assert s[a + k..] == [s[a + k]] + s[a + k + 1..];
  }

  /** Four pieces appended to a fifth, regrouped. */
  /** A match of the pattern is a well-formed match, and the text is the matched
      text followed by what comes after the match. */
  lemma MatchAtSound(pat: InsertPattern, s: string)
    ensures var r := MatchAt(pat, s);
            r.Some? ==> WellFormed(pat, r.value.0) && s == MatchedText(r.value.0) + r.value.1
  {
    if MatchAt(pat, s).Some? {
      if pat == Plain {
        MatchAtSoundPlain(s);
      } else {
        MatchAtSoundPartitioned(s);
      }
    }
  }

  lemma MatchAtSoundPlain(s: string)
    requires MatchAt(Plain, s).Some?
    ensures WellFormed(Plain, MatchAt(Plain, s).value.0)
    ensures s == MatchedText(MatchAt(Plain, s).value.0) + MatchAt(Plain, s).value.1
  {
    var (target, rest) := TargetAt(s).value;
    var (cols, after) := Parenthesized(rest, " (").value;
    var m := InsertMatch(target, None, cols);
    assert MatchAt(Plain, s).value.0 == m;
    assert MatchAt(Plain, s).value.1 == after;
    TargetAtSound(s);
    ParenthesizedSound(rest, " (");
    assert PartitionClause(m) == [];
    Assemble(s, Keyword, target, rest, [], rest, ColumnClause(m), after);
  }

  lemma MatchAtSoundPartitioned(s: string)
    requires MatchAt(Partitioned, s).Some?
    ensures WellFormed(Partitioned, MatchAt(Partitioned, s).value.0)
    ensures s == MatchedText(MatchAt(Partitioned, s).value.0) + MatchAt(Partitioned, s).value.1
  {
    var (target, rest) := TargetAt(s).value;
    var (spec, rest2) := Parenthesized(rest, " PARTITION (").value;
    var (cols, after) := Parenthesized(rest2, " (").value;
    var m := InsertMatch(target, Some(spec), cols);
    assert MatchAt(Partitioned, s).value.0 == m;
    assert MatchAt(Partitioned, s).value.1 == after;
    TargetAtSound(s);
    ParenthesizedSound(rest, " PARTITION (");
    ParenthesizedSound(rest2, " (");
    Assemble(s, Keyword, target, rest, PartitionClause(m), rest2, ColumnClause(m), after);
  }

  /** The pieces read off one after another put back together. */
  lemma Assemble(s: string, k: string, target: string, rest: string, p: string, rest2: string, c: string, after: string)
    requires s == k + (target + rest) && rest == p + rest2 && rest2 == c + after
    ensures s == k + (target + (p + c)) + after
  {
  }

  lemma {:induction false} NonSpacePrefixOf(t: string, u: string)
    requires NoSpace(t) && u != [] && IsSpace(u[0])
    ensures NonSpacePrefix(t + u) == t
  {
    if t == [] {
      assert t + u == u;
    } else {
      assert (t + u)[1..] == t[1..] + u;
      NonSpacePrefixOf(t[1..], u);
    }
  }

  lemma {:induction false} IndexOfFirst(a: string, b: string, c: char)
    requires c !in a
    ensures IndexOf(a + [c] + b, c) == Some(|a|)
  {
    if a == [] {
      assert (a + [c] + b)[0] == c;
    } else {
      assert (a + [c] + b)[1..] == a[1..] + [c] + b;
      IndexOfFirst(a[1..], b, c);
    }
  }

  /** `TargetAt` reads the target off `INSERT INTO <target>` followed by whitespace. */
  lemma TargetAtOf(target: string, rest: string)
    requires target != [] && NoSpace(target) && rest != [] && IsSpace(rest[0])
    ensures TargetAt(Keyword + (target + rest)) == Some((target, rest))
  {
    var s := Keyword + (target + rest);
    assert s[..|Keyword|] == Keyword;
    assert s[|Keyword|..] == target + rest;
    NonSpacePrefixOf(target, rest);
    assert s[|Keyword| + |target|..] == rest;
  }

  /** `Parenthesized` reads off the text up to the first `)`. */
  lemma ParenthesizedOf(opener: string, inner: string, rest: string)
    requires ')' !in inner
    ensures Parenthesized(opener + inner + ")" + rest, opener) == Some((inner, rest))
  {
    var s := opener + inner + ")" + rest;
    CloseSlices(s, opener, inner, rest);
    ParenthesizedAt(s, opener, |inner|);
    var r := Parenthesized(s, opener);
    assert r.value.0 == inner;
    assert r.value.1 == rest;
  }

  /** Where the opener, the inner text and the `)` lie in `opener + inner + ")" + rest`. */
  lemma CloseSlices(s: string, opener: string, inner: string, rest: string)
    requires ')' !in inner && s == opener + inner + ")" + rest
    ensures StartsWith(s, opener) && IndexOf(s[|opener|..], ')') == Some(|inner|)
    ensures s[|opener|..|opener| + |inner|] == inner && s[|opener| + |inner| + 1..] == rest
  {
    var c := [')'] + rest;
    assert s == opener + (inner + c);
    assert s[..|opener|] == opener && s[|opener|..] == inner + c;
    assert s[|opener|..|opener| + |inner|] == inner && s[|opener| + |inner|..] == c;
    assert s[|opener| + |inner| + 1..] == c[1..];
    IndexOfFirst(inner, rest, ')');
    assert inner + [')'] + rest == inner + c;
  }

  lemma ParenthesizedAt(s: string, opener: string, k: nat)
    requires StartsWith(s, opener) && IndexOf(s[|opener|..], ')') == Some(k)
    ensures Parenthesized(s, opener) == Some((s[|opener|..|opener| + k], s[|opener| + k + 1..]))
  {
  }

  lemma MatchAtCompletePlain(m: InsertMatch, after: string)
    requires WellFormed(Plain, m)
    ensures MatchAt(Plain, MatchedText(m) + after) == Some((m, after))
  {
    var rest := ColumnClause(m) + after;
    assert PartitionClause(m) + ColumnClause(m) == ColumnClause(m);
    assert (Keyword + (m.target + (PartitionClause(m) + ColumnClause(m)))) + after
        == Keyword + (m.target + (PartitionClause(m) + (ColumnClause(m) + after)));
    assert MatchedText(m) + after == Keyword + (m.target + rest);
    TargetAtOf(m.target, rest);
    ParenthesizedOf(" (", m.columns, after);
  }

  lemma MatchAtCompletePartitioned(m: InsertMatch, after: string)
    requires WellFormed(Partitioned, m)
    ensures MatchAt(Partitioned, MatchedText(m) + after) == Some((m, after))
  {
    var rest2 := ColumnClause(m) + after;
    var rest := PartitionClause(m) + rest2;
    assert (Keyword + (m.target + (PartitionClause(m) + ColumnClause(m)))) + after
        == Keyword + (m.target + (PartitionClause(m) + (ColumnClause(m) + after)));
    TargetAtOf(m.target, rest);
    ParenthesizedOf(" PARTITION (", m.partition.value, rest2);
    ParenthesizedOf(" (", m.columns, after);
  }

  /** Every well-formed match is found, whatever follows it. With `MatchAtSound`:
      the pattern matches at the start of a text exactly when the text begins
      with a well-formed match, and that match is unique. */
  lemma MatchAtComplete(pat: InsertPattern, m: InsertMatch, after: string)
    requires WellFormed(pat, m)
    ensures MatchAt(pat, MatchedText(m) + after) == Some((m, after))
  {
    if pat == Plain {
      MatchAtCompletePlain(m, after);
    } else {
      MatchAtCompletePartitioned(m, after);
    }
  }

  /** The replacement `\1 TABLE \2` (and `\1 TABLE \2 \3`): the column list is
      dropped and `TABLE` is inserted after `INSERT INTO`. */
  function Replacement(m: InsertMatch): string {
    "INSERT INTO TABLE " + m.target + PartitionClause(m)
  }

  /** `pattern.sub(replacement, s)`: every match, leftmost first and without
      overlap, is replaced. */
  function SubAll(pat: InsertPattern, s: string): (r: string)
    ensures !Found(pat, s) ==> r == s
    decreases |s|
  {
    match MatchAt(pat, s)
    case Some((m, after)) => Replacement(m) + SubAll(pat, after)
    case None => if s == [] then [] else [s[0]] + SubAll(pat, s[1..])
  }

  /** `pattern.search(s)` succeeds. */
  predicate Found(pat: InsertPattern, s: string)
    decreases |s|
  {
    MatchAt(pat, s).Some? || (s != [] && Found(pat, s[1..]))
  }

  /** `Found` is the search of the pattern at every position of the text. */
  lemma FoundCorrect(pat: InsertPattern, s: string)
    ensures Found(pat, s) <==> exists i :: 0 <= i <= |s| && MatchAt(pat, s[i..]).Some?
  {
    if Found(pat, s) {
      var i := FirstMatch(pat, s);
    }
    if exists i :: 0 <= i <= |s| && MatchAt(pat, s[i..]).Some? {
      var i :| 0 <= i <= |s| && MatchAt(pat, s[i..]).Some?;
      FoundFrom(pat, s, i);
    }
  }

  /** The leftmost position where the pattern matches. */
  ghost function FirstMatch(pat: InsertPattern, s: string): (i: nat)
    requires Found(pat, s)
    ensures i <= |s| && MatchAt(pat, s[i..]).Some?
    ensures forall j :: 0 <= j < i ==> MatchAt(pat, s[j..]).None?
    decreases |s|
  {
    if MatchAt(pat, s).Some? then
      assert s[0..] == s;
      0
    else
      var j := FirstMatch(pat, s[1..]);
      assert s[1..][j..] == s[j + 1..];
      assert s[0..] == s;
      assert forall k :: 1 <= k <= j ==> s[1..][k - 1..] == s[k..];
      j + 1
  }

  lemma {:induction false} FoundFrom(pat: InsertPattern, s: string, i: nat)
    requires i <= |s| && MatchAt(pat, s[i..]).Some?
    ensures Found(pat, s)
    decreases i
  {
    if i == 0 {
      assert s[0..] == s;
    } else {
      assert s[1..][i - 1..] == s[i..];
      FoundFrom(pat, s[1..], i - 1);
    }
  }

  /** Substitution leaves the text before the leftmost match alone. */
  lemma {:induction false} SubAllKeepsPrefix(pat: InsertPattern, s: string)
    requires Found(pat, s)
    ensures FirstMatch(pat, s) <= |SubAll(pat, s)|
    ensures SubAll(pat, s)[..FirstMatch(pat, s)] == s[..FirstMatch(pat, s)]
    decreases |s|
  {
    if MatchAt(pat, s).None? {
      SubAllKeepsPrefix(pat, s[1..]);
      ConsPrefix(s, SubAll(pat, s[1..]), FirstMatch(pat, s[1..]));
    }
  }

  lemma ConsPrefix(s: string, t: string, j: nat)
    requires s != [] && j <= |t| && j <= |s| - 1 && t[..j] == s[1..][..j]
    ensures ([s[0]] + t)[..j + 1] == s[..j + 1]
  {
    assert s[..j + 1] == [s[0]] + s[1..][..j];
  }

  /** A text without the keyword `INSERT INTO ` matches neither pattern. */
  lemma {:induction false} NotFoundWithoutKeyword(pat: InsertPattern, s: string)
    requires forall i :: 0 <= i <= |s| ==> !OccursAt(s, i, Keyword)
    ensures !Found(pat, s)
    decreases |s|
  {
    assert !OccursAt(s, 0, Keyword);
    if s != [] {
      forall i | 0 <= i <= |s[1..]| ensures !OccursAt(s[1..], i, Keyword) {
        assert !OccursAt(s, i + 1, Keyword);
        if i + |Keyword| <= |s[1..]| {
          assert s[1..][i..i + |Keyword|] == s[i + 1..i + 1 + |Keyword|];
        }
      }
      NotFoundWithoutKeyword(pat, s[1..]);
    }
  }

  /** `HiveCompiler.visit_insert` applied to the statement the generic compiler
      rendered: the plain pattern is tried first, then the partitioned one, and
      a statement that matches neither fails the assertion. */
  function VisitInsert(s: string): (r: Result<string>)
    ensures r.Err? <==> !Found(Plain, s) && !Found(Partitioned, s)
    ensures r.Err? ==> r.error == AssertionError("Unexpected visit_insert result: " + s)
  {
    if Found(Plain, s) then Ok(SubAll(Plain, s))
    else if Found(Partitioned, s) then Ok(SubAll(Partitioned, s))
    else Err(AssertionError("Unexpected visit_insert result: " + s))
  }

  /** The statement is refused exactly when neither pattern matches anywhere in it. */
  lemma VisitInsertRefuses(s: string)
    ensures VisitInsert(s).Err? <==> forall i :: 0 <= i <= |s| ==> MatchAt(Plain, s[i..]).None? && MatchAt(Partitioned, s[i..]).None?
    ensures VisitInsert(s).Err? ==> VisitInsert(s).error == AssertionError("Unexpected visit_insert result: " + s)
  {
    FoundCorrect(Plain, s);
    FoundCorrect(Partitioned, s);
  }

  /** A statement that begins with a match, where the rest holds none, becomes
      the replacement followed by the rest. */
  lemma SubAllAtMatch(pat: InsertPattern, m: InsertMatch, rest: string)
    requires WellFormed(pat, m) && !Found(pat, rest)
    ensures Found(pat, MatchedText(m) + rest)
    ensures SubAll(pat, MatchedText(m) + rest) == Replacement(m) + rest
  {
    MatchAtComplete(pat, m, rest);
  }

  /** `INSERT INTO T (cols)rest` becomes `INSERT INTO TABLE T rest`. */
  lemma InsertPlain(target: string, columns: string, rest: string)
    requires target != [] && NoSpace(target) && ')' !in columns
    requires !Found(Plain, rest)
    ensures VisitInsert("INSERT INTO " + target + " (" + columns + ")" + rest) == Ok("INSERT INTO TABLE " + target + rest)
  {
    var m := InsertMatch(target, None, columns);
    PlainText(target, columns);
    SubAllAtMatch(Plain, m, rest);
  }

  lemma PlainText(target: string, columns: string)
    ensures MatchedText(InsertMatch(target, None, columns)) == "INSERT INTO " + target + " (" + columns + ")"
    ensures Replacement(InsertMatch(target, None, columns)) == "INSERT INTO TABLE " + target
  {
    var m := InsertMatch(target, None, columns);
    assert PartitionClause(m) == "";
    assert PartitionClause(m) + ColumnClause(m) == " (" + columns + ")";
  }

  /** `INSERT INTO T PARTITION (spec) (cols)rest` becomes
      `INSERT INTO TABLE T PARTITION (spec)rest`, provided the plain pattern
      matches nowhere in the statement. */
  lemma InsertPartitioned(target: string, spec: string, columns: string, rest: string)
    requires target != [] && NoSpace(target) && spec != [] && ')' !in spec && ')' !in columns
    requires !Found(Plain, "INSERT INTO " + target + " PARTITION (" + spec + ") (" + columns + ")" + rest)
    requires !Found(Partitioned, rest)
    ensures VisitInsert("INSERT INTO " + target + " PARTITION (" + spec + ") (" + columns + ")" + rest)
            == Ok("INSERT INTO TABLE " + target + " PARTITION (" + spec + ")" + rest)
  {
    var m := InsertMatch(target, Some(spec), columns);
    PartitionedText(target, spec, columns);
    SubAllAtMatch(Partitioned, m, rest);
    Regroup3("INSERT INTO TABLE " + target, " PARTITION (", spec, ")");
  }

  /** Kept apart so that the literal pieces of the statement are not regrouped inside the lemma above. */
  lemma Regroup3(a: string, b: string, c: string, d: string)
    ensures a + ((b + c) + d) == ((a + b) + c) + d
  {
  }

  lemma PartitionedText(target: string, spec: string, columns: string)
    ensures MatchedText(InsertMatch(target, Some(spec), columns))
            == "INSERT INTO " + target + " PARTITION (" + spec + ") (" + columns + ")"
  {
    assert " PARTITION (" + spec + ")" + (" (" + columns + ")") == " PARTITION (" + spec + ") (" + columns + ")";
  }

  /** `HiveCompiler.visit_column` applied to a rendered column reference: up to
      one dot it is kept, with two dots the schema part before the first dot is
      cut off, and more dots fail the assertion. */
  function VisitColumn(s: string): (r: Result<string>)
    ensures Count(s, '.') <= 1 ==> r == Ok(s)
    ensures Count(s, '.') == 2 ==> && r.Ok? && Count(r.value, '.') == 1 && |r.value| < |s|
                                   && s == s[..|s| - |r.value| - 1] + "." + r.value
                                   && '.' !in s[..|s| - |r.value| - 1]
    ensures Count(s, '.') > 2 ==> r == Err(AssertionError("Unexpected visit_column result " + s))
  {
    var n := Count(s, '.');
    if n > 2 then Err(AssertionError("Unexpected visit_column result " + s))
    else if n == 2 then
      CountZero(s, '.');
      var i := IndexOf(s, '.').value;
      assert s == s[..i] + "." + s[i + 1..];
      CountAppend(s[..i] + ".", s[i + 1..], '.');
      CountAppend(s[..i], ".", '.');
      CountZero(s[..i], '.');
      Ok(s[i + 1..])
    else Ok(s)
  }

  /** Rewriting a rewritten reference changes nothing more. */
  lemma VisitColumnIdempotent(s: string)
    requires VisitColumn(s).Ok?
    ensures VisitColumn(VisitColumn(s).value) == VisitColumn(s)
  {
  }
}
