/** Character-level string utilities: splitting on a separator, joining with a
    separator, and substring containment. Strings are `seq<char>`. */
module Text {

  /** The pieces of `s` between occurrences of `sep`: `k` separators give
      `k + 1` pieces, empty pieces included (the empty string is one empty
      piece). */
  function Split(s: string, sep: char): (r: seq<string>)
    ensures |r| >= 1
    ensures |r| == 1 <==> sep !in s
    ensures forall i :: 0 <= i < |r| ==> sep !in r[i]
    decreases |s|
  {
    if |s| == 0 then [""]
    else
      var rest := Split(s[1..], sep);
      if s[0] == sep then [""] + rest
      else [[s[0]] + rest[0]] + rest[1..]
  }

  /** The pieces `vs` glued together with `sep` between consecutive pieces,
      like Ruby's `Array#join(sep)`. */
  function Join(vs: seq<string>, sep: char): (r: string)
    decreases |vs|
  {
    if |vs| == 0 then ""
    else if |vs| == 1 then vs[0]
    else vs[0] + [sep] + Join(vs[1..], sep)
  }

  /** Each piece followed by `sep`: the text of a file whose lines are `vs`. */
  function Terminated(vs: seq<string>, sep: char): (r: string)
    ensures |r| >= |vs|
    ensures |vs| > 0 ==> |r| > |vs[0]| && r[..|vs[0]|] == vs[0] && r[|vs[0]|] == sep
    ensures |vs| > 0 ==> r[|r| - 1] == sep
    decreases |vs|
  {
    if |vs| == 0 then "" else vs[0] + [sep] + Terminated(vs[1..], sep)
  }

  /** `t` occurs in `s` starting at position `i`. */
  predicate OccursAt(s: string, t: string, i: int)
  {
    0 <= i <= |s| - |t| && s[i..i + |t|] == t
  }

  /** `t` occurs in `s` as a contiguous substring. */
  predicate Contains(s: string, t: string)
  {
    exists i | 0 <= i <= |s| - |t| :: OccursAt(s, t, i)
  }

  // ---------------------------------------------------------------------
  // Split and Join are inverse to each other

  /** Joining a non-empty sequence is its head, a separator, and the join of the tail. */
  lemma JoinCons(v: string, vs: seq<string>, sep: char)
    requires |vs| >= 1
    ensures Join([v] + vs, sep) == v + [sep] + Join(vs, sep)
  {
    assert ([v] + vs)[1..] == vs;
  }

  /** Prepending a non-separator character to the first piece. */
  lemma JoinExtendHead(c: char, vs: seq<string>, sep: char)
    requires |vs| >= 1
    ensures Join([[c] + vs[0]] + vs[1..], sep) == [c] + Join(vs, sep)
  {
    if |vs| > 1 {
      JoinCons([c] + vs[0], vs[1..], sep);
      JoinCons(vs[0], vs[1..], sep);
      assert [vs[0]] + vs[1..] == vs;
    }
  }

  /** Splitting and re-joining gives back the original string. */
  lemma {:induction false} JoinSplit(s: string, sep: char)
    ensures Join(Split(s, sep), sep) == s
    decreases |s|
  {
    if |s| > 0 {
      var rest := Split(s[1..], sep);
      JoinSplit(s[1..], sep);
      if s[0] == sep {
        JoinCons("", rest, sep);
        assert s == [sep] + s[1..];
      } else {
        JoinExtendHead(s[0], rest, sep);
        assert s == [s[0]] + s[1..];
      }
    }
  }

  /** A string without the separator splits into itself. */
  lemma {:induction false} SplitNoSep(a: string, sep: char)
    requires sep !in a
    ensures Split(a, sep) == [a]
    decreases |a|
  {
    if |a| > 0 {
      assert sep !in a[1..];
      SplitNoSep(a[1..], sep);
      assert [a[0]] + a[1..] == a;
    }
  }

  /** A separator-free prefix followed by a separator becomes the first piece. */
  lemma {:induction false} SplitPrefix(a: string, b: string, sep: char)
    requires sep !in a
    ensures Split(a + [sep] + b, sep) == [a] + Split(b, sep)
    decreases |a|
  {
    var s := a + [sep] + b;
    if |a| == 0 {
      assert s == [sep] + b;
      assert s[1..] == b;
    } else {
      assert s[0] == a[0];
      assert s[1..] == a[1..] + [sep] + b;
      assert sep !in a[1..];
      SplitPrefix(a[1..], b, sep);
      assert [a[0]] + a[1..] == a;
    }
  }

  /** Joining separator-free pieces and splitting again gives back the pieces. */
  lemma {:induction false} SplitJoin(vs: seq<string>, sep: char)
    requires |vs| >= 1
    requires forall i :: 0 <= i < |vs| ==> sep !in vs[i]
    ensures Split(Join(vs, sep), sep) == vs
    decreases |vs|
  {
    if |vs| == 1 {
      SplitNoSep(vs[0], sep);
    } else {
      SplitJoin(vs[1..], sep);
      SplitPrefix(vs[0], Join(vs[1..], sep), sep);
      assert [vs[0]] + vs[1..] == vs;
    }
  }

  /** A terminated text is the join of its pieces with one empty piece appended. */
  lemma {:induction false} TerminatedIsJoin(vs: seq<string>, sep: char)
    ensures Join(vs + [""], sep) == Terminated(vs, sep)
    decreases |vs|
  {
    if |vs| > 0 {
      TerminatedIsJoin(vs[1..], sep);
      assert vs + [""] == [vs[0]] + (vs[1..] + [""]);
      JoinCons(vs[0], vs[1..] + [""], sep);
    }
  }

  /** A string ending with the separator splits into pieces the last of which is empty. */
  lemma {:induction false} SplitEndsWithSep(s: string, sep: char)
    requires |s| >= 1 && s[|s| - 1] == sep
    ensures var r := Split(s, sep); |r| >= 2 && r[|r| - 1] == ""
    decreases |s|
  {
    if |s| > 1 {
      assert s[1..][|s[1..]| - 1] == sep;
      SplitEndsWithSep(s[1..], sep);
    } else {
      assert s[1..] == "";
    }
  }

  // ---------------------------------------------------------------------
  // Containment

  /** A string contains every string it is built around. */
  lemma ContainsMiddle(a: string, t: string, b: string)
    ensures Contains(a + t + b, t)
  {
    var s := a + t + b;
    assert s[|a|..|a| + |t|] == t;
    assert OccursAt(s, t, |a|);
  }

  /** A separator-free needle that occurs in neither `a` nor `b` does not
      occur in `a + [sep] + b`: no occurrence can straddle the separator. */
  lemma NotContainsAcrossSep(a: string, b: string, sep: char, t: string)
    requires sep !in t
    requires !Contains(a, t) && !Contains(b, t)
    ensures !Contains(a + [sep] + b, t)
  {
    var s := a + [sep] + b;
    forall i | 0 <= i <= |s| - |t|
      ensures !OccursAt(s, t, i)
    {
      if i + |t| <= |a| {
        assert s[i..i + |t|] == a[i..i + |t|];
        assert !OccursAt(a, t, i);
      } else if i > |a| {
        var j := i - |a| - 1;
        assert s[i..i + |t|] == b[j..j + |t|];
        assert !OccursAt(b, t, j);
      } else {
        assert s[i..i + |t|][|a| - i] == sep;
      }
    }
  }

  /** Containment in either half of a concatenation is containment in the whole. */
  lemma ContainsConcat(a: string, b: string, t: string)
    requires Contains(a, t) || Contains(b, t)
    ensures Contains(a + b, t)
  {
    var s := a + b;
    if Contains(a, t) {
      var i :| 0 <= i <= |a| - |t| && OccursAt(a, t, i);
      assert s[i..i + |t|] == a[i..i + |t|];
      assert OccursAt(s, t, i);
    } else {
      var i :| 0 <= i <= |b| - |t| && OccursAt(b, t, i);
      assert s[|a| + i..|a| + i + |t|] == b[i..i + |t|];
      assert OccursAt(s, t, |a| + i);
    }
  }

  /** A string missing the needle's first character does not contain it. */
  lemma NotContainsFirstChar(s: string, t: string)
    requires |t| > 0 && t[0] !in s
    ensures !Contains(s, t)
  {
    forall i | 0 <= i <= |s| - |t|
      ensures !OccursAt(s, t, i)
    {
      assert s[i..i + |t|][0] == s[i];
    }
  }

  /** Every piece of a join occurs in the joined string. */
  lemma {:induction false} JoinContainsPiece(ps: seq<string>, sep: char, k: int)
    requires 0 <= k < |ps|
    ensures Contains(Join(ps, sep), ps[k])
    decreases |ps|
  {
    if |ps| == 1 {
      ContainsMiddle("", ps[0], "");
      assert "" + ps[0] + "" == ps[0];
    } else if k == 0 {
      ContainsMiddle("", ps[0], [sep] + Join(ps[1..], sep));
      assert "" + ps[0] + ([sep] + Join(ps[1..], sep)) == Join(ps, sep);
    } else {
      JoinContainsPiece(ps[1..], sep, k - 1);
      ContainsConcat(ps[0] + [sep], Join(ps[1..], sep), ps[k]);
    }
  }

  /** A separator-free needle that occurs in no piece does not occur in
      the join of the pieces. */
  lemma {:induction false} NotContainsJoin(ps: seq<string>, sep: char, t: string)
    requires |ps| > 0
    requires sep !in t
    requires forall k :: 0 <= k < |ps| ==> !Contains(ps[k], t)
    ensures !Contains(Join(ps, sep), t)
    decreases |ps|
  {
    if |ps| > 1 {
      NotContainsJoin(ps[1..], sep, t);
      NotContainsAcrossSep(ps[0], Join(ps[1..], sep), sep, t);
    }
  }

  /** Containment is transitive. */
  lemma ContainsTransitive(s: string, m: string, t: string)
    requires Contains(s, m) && Contains(m, t)
    ensures Contains(s, t)
  {
    var i :| 0 <= i <= |s| - |m| && OccursAt(s, m, i);
    var j :| 0 <= j <= |m| - |t| && OccursAt(m, t, j);
    assert forall k :: 0 <= k < |t| ==> t[k] == m[j + k] == s[i + j + k];
    assert s[i + j..i + j + |t|] == t;
    assert OccursAt(s, t, i + j);
  }
}
