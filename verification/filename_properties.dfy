/** Properties of the filename sanitizer: what its output excludes, its
    fixed points and idempotence, its behaviour on ASCII input, how it splits
    at an ASCII separator such as '.', and a position-by-position reference
    definition of the run-collapsing pass.
 */
module FilenameProperties {
  import opened Filename

  // ---------------------------------------------------------------------------
  // Each pass leaves text it has nothing to do on unchanged.
  // ---------------------------------------------------------------------------

  /** Pass 2 is the identity on all-ASCII text: no run exists to collapse. */
  lemma {:induction false} CollapseFixesAscii(s: string)
    requires AllAscii(s)
    ensures CollapseNonAscii(s) == s
    decreases |s|
  {
    if |s| > 0 {
      assert IsAscii(s[0]);
      CollapseFixesAscii(s[1..]);
      assert s == [s[0]] + s[1..];
    }
  }

  /** Clean text is a fixed point of every one of the three passes. */
  lemma PassesFixClean(s: string)
    requires Clean(s)
    ensures ReplaceReserved(s) == s
    ensures CollapseNonAscii(s) == s
    ensures ReplaceSpaces(s) == s
  {
    CollapseFixesAscii(s);
  }

  /** The output of the sanitizer is a fixed point of each pass. */
  lemma SanitizedIsFixedPointOfEachPass(s: string)
    ensures ReplaceReserved(Sanitize(s)) == Sanitize(s)
    ensures CollapseNonAscii(Sanitize(s)) == Sanitize(s)
    ensures ReplaceSpaces(Sanitize(s)) == Sanitize(s)
  {
    PassesFixClean(Sanitize(s));
  }

  /** The sanitizer leaves a name unchanged exactly when the name is clean:
      all ASCII, no reserved character and no space. */
  lemma FixedPointsAreClean(s: string)
    ensures Sanitize(s) == s <==> Clean(s)
  {
    if Clean(s) {
      PassesFixClean(s);
    }
  }

  /** Sanitizing twice is sanitizing once. */
  lemma Idempotent(s: string)
    ensures Sanitize(Sanitize(s)) == Sanitize(s)
  {
    FixedPointsAreClean(Sanitize(s));
  }

  // ---------------------------------------------------------------------------
  // ASCII input: the length is kept and only the ten targets move.
  // ---------------------------------------------------------------------------

  /** On all-ASCII input the sanitizer keeps the length and changes exactly the
      reserved characters and spaces into '_'; every other character (for
      instance '!' and '.') stays in its place. */
  lemma AsciiInputKeepsPositions(s: string)
    requires AllAscii(s)
    ensures |Sanitize(s)| == |s|
    ensures forall i :: 0 <= i < |s| ==>
              Sanitize(s)[i] == (if IsReserved(s[i]) || IsSpace(s[i]) then Underscore else s[i])
  {
    var p1 := ReplaceReserved(s);
    assert AllAscii(p1);
    CollapseFixesAscii(p1);
  }

  // ---------------------------------------------------------------------------
  // Splitting at an ASCII separator.
  // ---------------------------------------------------------------------------

  lemma ReplaceReservedAppend(a: string, b: string)
    ensures ReplaceReserved(a + b) == ReplaceReserved(a) + ReplaceReserved(b)
  {
  }

  lemma ReplaceSpacesAppend(a: string, b: string)
    ensures ReplaceSpaces(a + b) == ReplaceSpaces(a) + ReplaceSpaces(b)
  {
  }

  /** A non-ASCII run at the front of a never reaches past an ASCII c. */
  lemma {:induction false} RunStopsAtAscii(a: string, c: char, b: string)
    requires IsAscii(c)
    ensures NonAsciiRunLength(a + [c] + b) == NonAsciiRunLength(a)
    decreases |a|
  {
    if |a| == 0 {
      assert (a + [c] + b)[0] == c;
    } else {
      JoinHeadTail(a, c, b);
      if !IsAscii(a[0]) {
        RunStopsAtAscii(a[1..], c, b);
      }
    }
  }

  /** Pass 2 splits at an ASCII character: no run spans it. */
  lemma {:induction false} CollapseSplitsAtAscii(a: string, c: char, b: string)
    requires IsAscii(c)
    ensures CollapseNonAscii(a + [c] + b) == CollapseNonAscii(a) + [c] + CollapseNonAscii(b)
    decreases |a|
  {
    var x := a + [c] + b;
    if |a| == 0 {
      assert x == [c] + b;
      assert x[1..] == b;
    } else if IsAscii(a[0]) {
      CollapseSplitsAtAscii(a[1..], c, b);
      SplitStepAscii(a, c, b);
    } else {
      RunStopsAtAscii(a, c, b);
      var k := NonAsciiRunLength(a);
      CollapseSplitsAtAscii(a[k..], c, b);
      SplitStepRun(a, c, b);
    }
  }

  lemma SplitStepAscii(a: string, c: char, b: string)
    requires |a| > 0 && IsAscii(a[0])
    requires CollapseNonAscii(a[1..] + [c] + b)
             == CollapseNonAscii(a[1..]) + [c] + CollapseNonAscii(b)
    ensures CollapseNonAscii(a + [c] + b) == CollapseNonAscii(a) + [c] + CollapseNonAscii(b)
  {
    JoinHeadTail(a, c, b);
    ConsJoin(a[0], CollapseNonAscii(a[1..]), c, CollapseNonAscii(b));
  }

  lemma SplitStepRun(a: string, c: char, b: string)
    requires |a| > 0 && !IsAscii(a[0])
    requires NonAsciiRunLength(a + [c] + b) == NonAsciiRunLength(a)
    requires var k := NonAsciiRunLength(a);
             CollapseNonAscii(a[k..] + [c] + b)
             == CollapseNonAscii(a[k..]) + [c] + CollapseNonAscii(b)
    ensures CollapseNonAscii(a + [c] + b) == CollapseNonAscii(a) + [c] + CollapseNonAscii(b)
  {
    var k := NonAsciiRunLength(a);
    JoinHeadTail(a, c, b);
    JoinSuffix(a, c, b, k);
    ConsJoin(Underscore, CollapseNonAscii(a[k..]), c, CollapseNonAscii(b));
  }

  /** Sequence facts kept apart from the sanitizer's definitions, so that the
      solver proves them without the passes' contracts in view. */
  lemma JoinHeadTail(a: string, c: char, b: string)
    requires |a| > 0
    ensures (a + [c] + b)[0] == a[0]
    ensures (a + [c] + b)[1..] == a[1..] + [c] + b
  {
  }

  lemma JoinSuffix(a: string, c: char, b: string, k: nat)
    requires k <= |a|
    ensures (a + [c] + b)[k..] == a[k..] + [c] + b
  {
  }

  lemma ConsJoin(h: char, t: string, c: char, u: string)
    ensures [h] + (t + [c] + u) == ([h] + t) + [c] + u
  {
  }

  /** The sanitizer splits at any ASCII character. */
  lemma SanitizeSplitsAtAscii(a: string, c: char, b: string)
    requires IsAscii(c)
    ensures Sanitize(a + [c] + b) == Sanitize(a) + Sanitize([c]) + Sanitize(b)
  {
    var r1 := ReplaceReserved(a + [c] + b);
    ReplaceReservedAppend(a + [c], b);
    ReplaceReservedAppend(a, [c]);
    var c1 := ReplaceReserved([c])[0];
    assert ReplaceReserved([c]) == [c1];
    assert IsAscii(c1);
    assert r1 == ReplaceReserved(a) + [c1] + ReplaceReserved(b);
    CollapseSplitsAtAscii(ReplaceReserved(a), c1, ReplaceReserved(b));
    CollapseFixesAscii([c1]);
    var ca := CollapseNonAscii(ReplaceReserved(a));
    var cb := CollapseNonAscii(ReplaceReserved(b));
    ReplaceSpacesAppend(ca + [c1], cb);
    ReplaceSpacesAppend(ca, [c1]);
  }

  /** The stored filename "<title>.<ext>" is the sanitized title, a dot and
      the sanitized extension: '.' is ASCII and untouched, so no non-ASCII run
      spans it. */
  lemma DotSplit(title: string, ext: string)
    ensures Sanitize(title + "." + ext) == Sanitize(title) + "." + Sanitize(ext)
  {
    SanitizeSplitsAtAscii(title, '.', ext);
    DotIsKept();
  }

  lemma DotIsKept()
    ensures Sanitize(".") == "."
  {
    AsciiInputKeepsPositions(".");
  }

  // ---------------------------------------------------------------------------
  // A position-by-position reference definition of pass 2.
  // ---------------------------------------------------------------------------

  /** What position i of s contributes to the collapsed text, decided from
      s[i] and its left neighbour alone: an ASCII character itself, the first
      character of a non-ASCII run one '_', any later character of the run
      nothing. */
  function Emit(s: string, i: nat): (e: string)
    requires i < |s|
    ensures |e| <= 1
  {
    if IsAscii(s[i]) then [s[i]]
    else if i > 0 && !IsAscii(s[i - 1]) then []
    else [Underscore]
  }

  /** The contributions of positions i, i+1, ..., |s|-1 in order. */
  function EmitFrom(s: string, i: nat): (r: string)
    requires i <= |s|
    ensures |r| <= |s| - i
    decreases |s| - i
  {
    if i == |s| then [] else Emit(s, i) + EmitFrom(s, i + 1)
  }

  /** Position i is not inside a non-ASCII run (it may start one). */
  predicate AtTokenBoundary(s: string, i: nat)
    requires i <= |s|
  {
    i == 0 || i == |s| || IsAscii(s[i - 1]) || IsAscii(s[i])
  }

  /** Positions k..j-1, which continue a run begun before k, contribute nothing. */
  lemma {:induction false} RunTailEmitsNothing(s: string, k: nat, j: nat)
    requires 0 < k <= j <= |s|
    requires forall m :: k - 1 <= m < j ==> !IsAscii(s[m])
    ensures EmitFrom(s, k) == EmitFrom(s, j)
    decreases j - k
  {
    if k < j {
      assert Emit(s, k) == [];
      RunTailEmitsNothing(s, k + 1, j);
    }
  }

  /** Pass 2 on the suffix from a token boundary i equals the positional
      contributions from i on. The two non-empty cases are proved apart. */
  lemma {:induction false} CollapseMatchesEmitFrom(s: string, i: nat)
    requires i <= |s|
    requires AtTokenBoundary(s, i)
    ensures CollapseNonAscii(s[i..]) == EmitFrom(s, i)
    decreases |s| - i, 1
  {
    if i == |s| {
      assert s[i..] == [];
    } else if IsAscii(s[i]) {
      MatchAtAscii(s, i);
    } else {
      MatchAtRun(s, i);
    }
  }

  lemma {:induction false} MatchAtAscii(s: string, i: nat)
    requires i < |s| && IsAscii(s[i])
    ensures CollapseNonAscii(s[i..]) == EmitFrom(s, i)
    decreases |s| - i, 0
  {
    CollapseMatchesEmitFrom(s, i + 1);
    UnfoldAscii(s, i);
  }

  lemma {:induction false} MatchAtRun(s: string, i: nat)
    requires i < |s| && !IsAscii(s[i])
    requires AtTokenBoundary(s, i)
    ensures CollapseNonAscii(s[i..]) == EmitFrom(s, i)
    decreases |s| - i, 0
  {
    var j := RunEnd(s, i);
    RunTailEmitsNothing(s, i + 1, j);
    CollapseMatchesEmitFrom(s, j);
    UnfoldRun(s, i, j);
    var ej := EmitFrom(s, j);
    assert CollapseNonAscii(s[j..]) == ej;
    assert EmitFrom(s, i + 1) == ej;
  }

  lemma UnfoldAscii(s: string, i: nat)
    requires i < |s| && IsAscii(s[i])
    ensures CollapseNonAscii(s[i..]) == [s[i]] + CollapseNonAscii(s[i + 1..])
    ensures EmitFrom(s, i) == [s[i]] + EmitFrom(s, i + 1)
  {
    SuffixHeadTail(s, i);
  }

  lemma UnfoldRun(s: string, i: nat, j: nat)
    requires i < j <= |s| && !IsAscii(s[i])
    requires j == i + NonAsciiRunLength(s[i..])
    requires AtTokenBoundary(s, i)
    ensures CollapseNonAscii(s[i..]) == [Underscore] + CollapseNonAscii(s[j..])
    ensures EmitFrom(s, i) == [Underscore] + EmitFrom(s, i + 1)
  {
    CollapseAtRun(s, i, j);
    assert Emit(s, i) == [Underscore];
  }

  lemma CollapseAtRun(s: string, i: nat, j: nat)
    requires i < j <= |s| && !IsAscii(s[i])
    requires j == i + NonAsciiRunLength(s[i..])
    ensures CollapseNonAscii(s[i..]) == [Underscore] + CollapseNonAscii(s[j..])
  {
    SuffixHeadTail(s, i);
    SuffixOfSuffix(s, i, j - i);
  }

  /** The end j of the non-ASCII run that starts at i: the run is s[i..j] and
      pass 2 resumes at s[j..]. */
  lemma RunEnd(s: string, i: nat) returns (j: nat)
    requires i < |s| && !IsAscii(s[i])
    ensures i < j <= |s|
    ensures j == i + NonAsciiRunLength(s[i..])
    ensures j == |s| || IsAscii(s[j])
    ensures forall m :: i <= m < j ==> !IsAscii(s[m])
  {
    var t := s[i..];
    SuffixHeadTail(s, i);
    var k := NonAsciiRunLength(t);
    j := i + k;
    forall m | i <= m < j
      ensures !IsAscii(s[m])
    {
      assert s[m] == t[m - i];
    }
    if j < |s| {
      assert s[j] == t[k];
    }
  }

  lemma SuffixHeadTail(s: string, i: nat)
    requires i < |s|
    ensures s[i..][0] == s[i]
    ensures s[i..][1..] == s[i + 1..]
  {
  }

  lemma SuffixOfSuffix(s: string, i: nat, k: nat)
    requires i + k <= |s|
    ensures s[i..][k..] == s[i + k..]
  {
  }

  /** Pass 2 agrees with the position-by-position definition on every input. */
  lemma CollapseIsPositional(s: string)
    ensures CollapseNonAscii(s) == EmitFrom(s, 0)
  {
    CollapseMatchesEmitFrom(s, 0);
    assert s[0..] == s;
  }

  // ---------------------------------------------------------------------------
  // Worked examples.
  // ---------------------------------------------------------------------------

  /** On ASCII input, the sanitized text is determined character by character. */
  lemma AsciiSanitizeIs(s: string, t: string)
    requires AllAscii(s)
    requires |t| == |s|
    requires forall i :: 0 <= i < |s| ==>
               t[i] == (if IsReserved(s[i]) || IsSpace(s[i]) then Underscore else s[i])
    ensures Sanitize(s) == t
  {
    AsciiInputKeepsPositions(s);
  }

  /** Dots survive, so ".." does too: the sanitizer does not reject
      parent-directory names. */
  lemma DotDotSurvives()
    ensures Sanitize("..") == ".."
  {
    AsciiSanitizeIs("..", "..");
  }

  /** Path separators are replaced, so a traversal path becomes one segment
      that still starts with "..". */
  lemma TraversalPathFlattened()
    ensures Sanitize("../etc/passwd") == ".._etc_passwd"
  {
    AsciiSanitizeIs("../etc/passwd", ".._etc_passwd");
  }

  /** A whole run of non-ASCII characters, however long, becomes one '_'. */
  lemma RunBecomesOneUnderscore(s: string)
    requires |s| > 0
    requires forall i :: 0 <= i < |s| ==> !IsAscii(s[i])
    ensures Sanitize(s) == [Underscore]
  {
    assert ReplaceReserved(s) == s;
    assert NonAsciiRunLength(s) == |s|;
    assert s[|s|..] == [];
    assert CollapseNonAscii(s) == [Underscore];
  }

  /** Two non-ASCII words separated by a space (a CJK title, say) become
      three underscores: one per run and one for the space. */
  lemma TwoRunsAndASpace(a: string, b: string)
    requires |a| > 0 && forall i :: 0 <= i < |a| ==> !IsAscii(a[i])
    requires |b| > 0 && forall i :: 0 <= i < |b| ==> !IsAscii(b[i])
    ensures Sanitize(a + " " + b) == "___"
  {
    SanitizeSplitsAtAscii(a, ' ', b);
    RunBecomesOneUnderscore(a);
    RunBecomesOneUnderscore(b);
    AsciiSanitizeIs(" ", "_");
  }
}
