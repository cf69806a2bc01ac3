/** The fragment of Python's `re` the dialect's error detection uses: literal
    pieces separated by `.*`, where `.` (no DOTALL flag) matches anything but a
    newline. `Gaps` and `Search` are the backtracking matcher; `GapWitness` is the
    declarative meaning, and the lemmas show the two agree. */
module Patterns {
  import opened Text

  /** No newline in `s[a..b]`: what one `.*` may consume. */
  predicate NoNewlineIn(s: string, a: nat, b: nat)
    requires a <= b <= |s|
  {
    forall t :: a <= t < b ==> s[t] != '\n'
  }

  /** From index `from`, `s` continues with `.*ps[0].*ps[1]...`. */
  predicate Gaps(s: string, from: nat, ps: seq<string>)
    requires from <= |s|
    decreases |ps|, |s| - from
  {
    || ps == []
    || (OccursAt(s, from, ps[0]) && Gaps(s, from + |ps[0]|, ps[1..]))
    || (from < |s| && s[from] != '\n' && Gaps(s, from + 1, ps))
  }

  /** `pos` gives the index of every piece: each piece lies after the previous
      one, and the text between them holds no newline. */
  ghost predicate GapWitness(s: string, from: nat, ps: seq<string>, pos: seq<nat>)
    decreases ps
  {
    && |pos| == |ps|
    && (ps == [] ||
         (&& from <= pos[0]
          && OccursAt(s, pos[0], ps[0])
          && NoNewlineIn(s, from, pos[0])
          && GapWitness(s, pos[0] + |ps[0]|, ps[1..], pos[1..])))
  }

  /** Some placement of the pieces exists. */
  ghost predicate Placed(s: string, from: nat, ps: seq<string>) {
    exists pos :: GapWitness(s, from, ps, pos)
  }

  lemma {:induction false} GapsSound(s: string, from: nat, ps: seq<string>)
    requires from <= |s| && Gaps(s, from, ps)
    ensures exists pos :: GapWitness(s, from, ps, pos)
    decreases |ps|, |s| - from
  {
    if ps == [] {
      assert GapWitness(s, from, ps, []);
    } else if OccursAt(s, from, ps[0]) && Gaps(s, from + |ps[0]|, ps[1..]) {
      GapsSound(s, from + |ps[0]|, ps[1..]);
      var rest :| GapWitness(s, from + |ps[0]|, ps[1..], rest);
      assert ([from] + rest)[1..] == rest;
      assert GapWitness(s, from, ps, [from] + rest);
    } else {
      GapsSound(s, from + 1, ps);
      var pos :| GapWitness(s, from + 1, ps, pos);
      assert GapWitness(s, from, ps, pos);
    }
  }

  lemma {:induction false} GapsComplete(s: string, from: nat, ps: seq<string>, pos: seq<nat>)
    requires from <= |s| && GapWitness(s, from, ps, pos)
    ensures Gaps(s, from, ps)
    decreases |ps|, |s| - from
  {
    if ps != [] {
      if pos[0] == from {
        GapsComplete(s, from + |ps[0]|, ps[1..], pos[1..]);
      } else {
        assert s[from] != '\n';
        GapsComplete(s, from + 1, ps, pos);
      }
    }
  }

  /** The regex `ps[0].*ps[1]...` matches at index `i` of `s`. */
  ghost predicate MatchesAt(s: string, i: nat, ps: seq<string>) {
    |ps| > 0 && OccursAt(s, i, ps[0]) && Placed(s, i + |ps[0]|, ps[1..])
  }

  /** `re.match`: the regex matches at the start of `s`. */
  predicate Match(s: string, ps: seq<string>)
    requires |ps| > 0
  {
    OccursAt(s, 0, ps[0]) && Gaps(s, |ps[0]|, ps[1..])
  }

  lemma MatchCorrect(s: string, ps: seq<string>)
    requires |ps| > 0
    ensures Match(s, ps) <==> MatchesAt(s, 0, ps)
  {
    if Match(s, ps) {
      GapsSound(s, |ps[0]|, ps[1..]);
    }
    if MatchesAt(s, 0, ps) {
      var pos :| GapWitness(s, |ps[0]|, ps[1..], pos);
      GapsComplete(s, |ps[0]|, ps[1..], pos);
    }
  }

  /** `re.search` from index `from`: the leftmost index at which the regex matches, tried in turn. */
  predicate Search(s: string, from: nat, ps: seq<string>)
    requires |ps| > 0 && from <= |s|
    decreases |s| - from
  {
    || (OccursAt(s, from, ps[0]) && Gaps(s, from + |ps[0]|, ps[1..]))
    || (from < |s| && Search(s, from + 1, ps))
  }

  lemma {:induction false} SearchCorrect(s: string, from: nat, ps: seq<string>)
    requires |ps| > 0 && from <= |s|
    ensures Search(s, from, ps) <==> exists i :: from <= i <= |s| && MatchesAt(s, i, ps)
    decreases |s| - from
  {
    if from < |s| {
      SearchCorrect(s, from + 1, ps);
    }
    if OccursAt(s, from, ps[0]) && Gaps(s, from + |ps[0]|, ps[1..]) {
      GapsSound(s, from + |ps[0]|, ps[1..]);
      assert MatchesAt(s, from, ps);
    }
    if MatchesAt(s, from, ps) {
      var pos :| GapWitness(s, from + |ps[0]|, ps[1..], pos);
      GapsComplete(s, from + |ps[0]|, ps[1..], pos);
    }
    if exists i :: from <= i <= |s| && MatchesAt(s, i, ps) {
      var i :| from <= i <= |s| && MatchesAt(s, i, ps);
      if i > from {
        assert from + 1 <= i;
      }
    }
  }
}
