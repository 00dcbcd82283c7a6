/** Properties of the SaypYu transliteration: rule priority, the fallback step,
    dropping and pass-through of characters, the shadowed table entries, an
    output length bound, and stretches of input that no rule touches. */
module SaypyuProperties {
  import opened Saypyu

  // ---------------------------------------------------------------------------
  // Rule priority (any rule table)
  // ---------------------------------------------------------------------------

  /** The rule a scan step takes is exactly the first matching table position:
      both directions. */
  lemma FirstMatchIff(rules: seq<Rule>, s: string, i: nat, j: nat)
    ensures FirstMatch(rules, s) == Some(Match(i, j)) <==>
      (PatternMatches(rules, i, j, s) &&
       forall k: nat, l: nat :: Before(k, l, i, j) ==> !PatternMatches(rules, k, l, s))
  {
    if PatternMatches(rules, i, j, s) &&
       forall k: nat, l: nat :: Before(k, l, i, j) ==> !PatternMatches(rules, k, l, s)
    {
      FirstMatchIsLeast(rules, s, i, j);
    }
  }

  /** When two table positions both match, the later one is never taken, and the
      position taken is at or before the earlier one. This covers a later
      alternative of an earlier rule against any alternative of a later rule. */
  lemma EarlierPatternWins(rules: seq<Rule>, s: string, i: nat, j: nat, k: nat, l: nat)
    requires PatternMatches(rules, i, j, s) && PatternMatches(rules, k, l, s)
    requires Before(i, j, k, l)
    ensures FirstMatch(rules, s).Some?
    ensures FirstMatch(rules, s) != Some(Match(k, l))
    ensures !Before(i, j, FirstMatch(rules, s).value.rule, FirstMatch(rules, s).value.alt)
  {
  }

  /** A pattern that extends a pattern listed earlier is shadowed: it is never
      taken, whatever the input. Table order, not pattern length, decides. */
  lemma ShadowedIsNeverTaken(rules: seq<Rule>, s: string, i: nat, j: nat, k: nat, l: nat)
    requires i < |rules| && j < |rules[i].patterns|
    requires k < |rules| && l < |rules[k].patterns|
    requires Before(i, j, k, l)
    requires rules[i].patterns[j] <= rules[k].patterns[l]
    ensures FirstMatch(rules, s) != Some(Match(k, l))
  {
    var p, q := rules[i].patterns[j], rules[k].patterns[l];
    if q <= s {
      assert s[..|p|] == q[..|p|] == p;
      assert PatternMatches(rules, i, j, s);
    }
  }

  // ---------------------------------------------------------------------------
  // One scan step (any rule table)
  // ---------------------------------------------------------------------------

  /** The rule table is consulted exhaustively first: once any alternative matches
      at the start of s, the output begins with the replacement of the first
      match and the scan resumes past its pattern, never through the fallback. */
  lemma RulesBeforeFallback(rules: seq<Rule>, s: string, i: nat, j: nat)
    requires PatternMatches(rules, i, j, s)
    ensures FirstMatch(rules, s).Some?
    ensures var m := FirstMatch(rules, s).value;
      0 < |PatternOf(rules, m)| <= |s| &&
      Transliterate(rules, s) == ReplacementOf(rules, m) + Transliterate(rules, s[|PatternOf(rules, m)|..])
  {
    var m := FirstMatch(rules, s).value;
    ResumeAfterMatch(rules, s, 0, m);
    assert s[0..] == s;
  }

  /** The stepping property: when no pattern is a prefix of [c] + s, the output is
      the fallback text of c followed by the output for s. */
  lemma FallbackStep(rules: seq<Rule>, c: char, s: string)
    requires NoRuleMatches(rules, [c] + s)
    ensures Transliterate(rules, [c] + s) == FallbackText(c) + Transliterate(rules, s)
  {
    assert ([c] + s)[1..] == s;
  }

  /** A character that starts no pattern and that the fallback does not list adds
      nothing to the output. */
  lemma UnmappedIsDropped(rules: seq<Rule>, c: char, s: string)
    requires StartsNoPattern(rules, c)
    requires Fallback(c).None?
    ensures Transliterate(rules, [c] + s) == Transliterate(rules, s)
  {
    NoRuleByHead(rules, [c] + s);
    FallbackStep(rules, c, s);
    assert FallbackText(c) == "";
  }

  // ---------------------------------------------------------------------------
  // Stretches with no rule match (any rule table)
  // ---------------------------------------------------------------------------

  /** The fallback text of every character of s, in order. */
  function FallbackAll(s: string): string
  {
    if s == [] then [] else FallbackText(s[0]) + FallbackAll(s[1..])
  }

  /** The fallback texts of two pieces, one after the other. */
  lemma {:induction false} FallbackAllAppend(a: string, b: string)
    ensures FallbackAll(a + b) == FallbackAll(a) + FallbackAll(b)
  {
    if a == [] {
      assert a + b == b;
    } else {
      assert (a + b)[0] == a[0] && (a + b)[1..] == a[1..] + b;
      FallbackAllAppend(a[1..], b);
      AppendAssoc(FallbackText(a[0]), FallbackAll(a[1..]), FallbackAll(b));
    }
  }

  /** Along positions lo until hi where no pattern matches, the output is the
      fallback text of those characters, then the output from hi on. */
  lemma {:induction false} FallbackRun(rules: seq<Rule>, s: string, lo: nat, hi: nat)
    requires lo <= hi <= |s|
    requires forall p :: lo <= p < hi ==> NoRuleMatches(rules, s[p..])
    ensures Transliterate(rules, s[lo..]) == FallbackAll(s[lo..hi]) + Transliterate(rules, s[hi..])
    decreases hi - lo
  {
    if lo < hi {
      ResumeAfterFallback(rules, s, lo);
      FallbackRun(rules, s, lo + 1, hi);
      assert s[lo..hi][0] == s[lo] && s[lo..hi][1..] == s[lo + 1..hi];
      assert FallbackAll(s[lo..hi]) == FallbackText(s[lo]) + FallbackAll(s[lo + 1..hi]);
      AppendAssoc(FallbackText(s[lo]), FallbackAll(s[lo + 1..hi]), Transliterate(rules, s[hi..]));
    }
  }

  /** From lo on, where no pattern matches at any position, the output is the
      fallback text of each character. */
  lemma FallbackToEnd(rules: seq<Rule>, s: string, lo: nat)
    requires lo <= |s|
    requires forall p :: lo <= p < |s| ==> NoRuleMatches(rules, s[p..])
    ensures Transliterate(rules, s[lo..]) == FallbackAll(s[lo..])
  {
    FallbackRun(rules, s, lo, |s|);
    assert s[lo..|s|] == s[lo..];
    assert s[|s|..] == [];
    assert FallbackAll(s[lo..]) + [] == FallbackAll(s[lo..]);
  }

  /** An input in which no pattern matches anywhere goes through the fallback
      alone, character by character. */
  lemma AllFallback(rules: seq<Rule>, s: string)
    requires forall p :: 0 <= p < |s| ==> NoRuleMatches(rules, s[p..])
    ensures Transliterate(rules, s) == FallbackAll(s)
  {
    FallbackToEnd(rules, s, 0);
    assert s[0..] == s;
  }

  /** A rule match at k followed by a stretch with no rule match. */
  lemma MatchThenFallback(rules: seq<Rule>, s: string, k: nat, m: Match)
    requires k < |s| && FirstMatch(rules, s[k..]) == Some(m)
    requires forall p :: k + |PatternOf(rules, m)| <= p < |s| ==> NoRuleMatches(rules, s[p..])
    ensures Transliterate(rules, s[k..]) == ReplacementOf(rules, m) + FallbackAll(s[k + |PatternOf(rules, m)|..])
  {
    ResumeAfterMatch(rules, s, k, m);
    FallbackToEnd(rules, s, k + |PatternOf(rules, m)|);
  }

  /** One rule match at k, and no rule match anywhere else outside its pattern:
      fallback text, replacement, fallback text. */
  lemma OneMatchInside(rules: seq<Rule>, s: string, k: nat, m: Match)
    requires k < |s| && FirstMatch(rules, s[k..]) == Some(m)
    requires forall p :: 0 <= p < |s| && (p < k || k + |PatternOf(rules, m)| <= p) ==> NoRuleMatches(rules, s[p..])
    ensures Transliterate(rules, s) ==
      FallbackAll(s[..k]) + ReplacementOf(rules, m) + FallbackAll(s[k + |PatternOf(rules, m)|..])
  {
    FallbackRun(rules, s, 0, k);
    MatchThenFallback(rules, s, k, m);
    assert s[0..] == s && s[0..k] == s[..k];
    AppendAssoc(FallbackAll(s[..k]), ReplacementOf(rules, m), FallbackAll(s[k + |PatternOf(rules, m)|..]));
  }

  // ---------------------------------------------------------------------------
  // Characters that occur in no pattern (any rule table)
  // ---------------------------------------------------------------------------

  /** No pattern of the table contains c, at any position. */
  ghost predicate InNoPattern(rules: seq<Rule>, c: char)
  {
    forall k: nat, l: nat :: k < |rules| && l < |rules[k].patterns| ==> c !in rules[k].patterns[l]
  }

  lemma InNoPatternStartsNoPattern(rules: seq<Rule>, c: char)
    requires InNoPattern(rules, c)
    ensures StartsNoPattern(rules, c)
  {
    forall k: nat, l: nat | k < |rules| && l < |rules[k].patterns|
      ensures rules[k].patterns[l][0] != c
    {
      assert rules[k].patterns[l][0] in rules[k].patterns[l];
    }
  }

  /** A pattern cannot reach across a character that occurs in no pattern: it
      matches a + t exactly when it matches a. */
  lemma MatchStaysLeft(rules: seq<Rule>, a: string, t: string, k: nat, l: nat)
    requires |t| > 0 && InNoPattern(rules, t[0])
    ensures PatternMatches(rules, k, l, a + t) <==> PatternMatches(rules, k, l, a)
  {
    if k < |rules| && l < |rules[k].patterns| {
      var p := rules[k].patterns[l];
      if p <= a + t {
        assert forall i :: 0 <= i < |p| ==> p[i] == (a + t)[i];
        assert forall i :: 0 <= i < |p| ==> p[i] != t[0];
        assert (a + t)[|a|] == t[0];
        assert |p| <= |a|;
        assert a[..|p|] == (a + t)[..|p|];
      }
      if p <= a {
        assert (a + t)[..|p|] == a[..|p|];
      }
    }
  }

  /** The rule taken at the start of a + t is the one taken at the start of a. */
  lemma FirstMatchLeft(rules: seq<Rule>, a: string, t: string)
    requires |t| > 0 && InNoPattern(rules, t[0])
    ensures FirstMatch(rules, a + t) == FirstMatch(rules, a)
  {
    forall k: nat, l: nat
      ensures PatternMatches(rules, k, l, a + t) <==> PatternMatches(rules, k, l, a)
    {
      MatchStaysLeft(rules, a, t, k, l);
    }
    match FirstMatch(rules, a)
    case Some(m) =>
      FirstMatchIsLeast(rules, a + t, m.rule, m.alt);
    case None =>
  }

  /** The output splits at a character that occurs in no pattern: the part before
      it and the part from it on are converted independently. */
  lemma {:induction false} SplitAt(rules: seq<Rule>, a: string, t: string)
    requires |t| > 0 && InNoPattern(rules, t[0])
    ensures Transliterate(rules, a + t) == Transliterate(rules, a) + Transliterate(rules, t)
    decreases |a|
  {
    if a == [] {
      assert a + t == t;
    } else {
      FirstMatchLeft(rules, a, t);
      match FirstMatch(rules, a)
      case Some(m) =>
        var n := |PatternOf(rules, m)|;
        assert (a + t)[n..] == a[n..] + t;
        SplitAt(rules, a[n..], t);
        AppendAssoc(ReplacementOf(rules, m), Transliterate(rules, a[n..]), Transliterate(rules, t));
      case None =>
        assert (a + t)[0] == a[0] && (a + t)[1..] == a[1..] + t;
        SplitAt(rules, a[1..], t);
        AppendAssoc(FallbackText(a[0]), Transliterate(rules, a[1..]), Transliterate(rules, t));
    }
  }

  /** A character in no pattern that the fallback does not list adds nothing,
      wherever it stands; the output on each side of it is converted on its own. */
  lemma DroppedAnywhere(rules: seq<Rule>, a: string, c: char, s: string)
    requires InNoPattern(rules, c) && Fallback(c).None?
    ensures Transliterate(rules, a + [c] + s) == Transliterate(rules, a) + Transliterate(rules, s)
  {
    assert a + [c] + s == a + ([c] + s);
    SplitAt(rules, a, [c] + s);
    InNoPatternStartsNoPattern(rules, c);
    UnmappedIsDropped(rules, c, s);
  }

  /** A character in no pattern that the fallback maps to itself is copied,
      wherever it stands. */
  lemma KeptAnywhere(rules: seq<Rule>, a: string, c: char, s: string)
    requires InNoPattern(rules, c) && Fallback(c) == Some([c])
    ensures Transliterate(rules, a + [c] + s) == Transliterate(rules, a) + [c] + Transliterate(rules, s)
  {
    assert a + [c] + s == a + ([c] + s);
    SplitAt(rules, a, [c] + s);
    KeptAtHead(rules, c, s);
    AppendAssoc(Transliterate(rules, a), [c], Transliterate(rules, s));
  }

  lemma KeptAtHead(rules: seq<Rule>, c: char, s: string)
    requires InNoPattern(rules, c) && Fallback(c) == Some([c])
    ensures Transliterate(rules, [c] + s) == [c] + Transliterate(rules, s)
  {
    InNoPatternStartsNoPattern(rules, c);
    NoRuleByHead(rules, [c] + s);
    FallbackStep(rules, c, s);
  }

  lemma KeptAtEnd(rules: seq<Rule>, s: string, d: char)
    requires InNoPattern(rules, d) && Fallback(d) == Some([d])
    ensures Transliterate(rules, s + [d]) == Transliterate(rules, s) + [d]
  {
    SplitAt(rules, s, [d]);
    KeptAtHead(rules, d, []);
    assert [d] + [] == [d];
    assert Transliterate(rules, []) == [];
    assert [d] + Transliterate(rules, []) == [d];
  }

  /** Two such characters around s are copied, and s between them is converted
      on its own. */
  lemma KeptAround(rules: seq<Rule>, c: char, d: char, s: string)
    requires InNoPattern(rules, c) && Fallback(c) == Some([c])
    requires InNoPattern(rules, d) && Fallback(d) == Some([d])
    ensures Transliterate(rules, [c] + s + [d]) == [c] + Transliterate(rules, s) + [d]
  {
    assert [c] + s + [d] == [c] + (s + [d]);
    KeptAtHead(rules, c, s + [d]);
    KeptAtEnd(rules, s, d);
    AppendAssoc([c], Transliterate(rules, s), [d]);
  }

  // ---------------------------------------------------------------------------
  // Output length (any rule table whose replacements are at most twice as long)
  // ---------------------------------------------------------------------------

  /** No replacement is more than twice as long as any of its patterns. */
  ghost predicate Compact(rules: seq<Rule>)
  {
    forall i: nat, j: nat :: i < |rules| && j < |rules[i].patterns| ==>
      |rules[i].replacement| <= 2 * |rules[i].patterns[j]|
  }

  /** The output has at most two characters per input character, and the empty
      input gives the empty output. */
  lemma {:induction false} LengthBound(rules: seq<Rule>, s: string)
    requires Compact(rules)
    ensures |Transliterate(rules, s)| <= 2 * |s|
    decreases |s|
  {
    if s != [] {
      match FirstMatch(rules, s)
      case Some(m) =>
        LengthBound(rules, s[|PatternOf(rules, m)|..]);
      case None =>
        LengthBound(rules, s[1..]);
    }
  }

  // ---------------------------------------------------------------------------
  // Deciding concrete look-ups by the first two characters
  // ---------------------------------------------------------------------------

  /** A necessary condition for p <= s that only looks at two characters. */
  predicate HeadAgrees(p: Pattern, s: string)
  {
    |s| > 0 && p[0] == s[0] && (|p| == 1 || (|s| > 1 && p[1] == s[1]))
  }

  /** No pattern of the table begins with c. */
  ghost predicate StartsNoPattern(rules: seq<Rule>, c: char)
  {
    forall k: nat, l: nat :: k < |rules| && l < |rules[k].patterns| ==> rules[k].patterns[l][0] != c
  }

  lemma PrefixHeadAgrees(p: Pattern, s: string)
    requires p <= s
    ensures HeadAgrees(p, s)
  {
    assert p[0] == s[0];
    if |p| > 1 {
      assert p[1] == s[1];
    }
  }

  /** No rule can match when no pattern agrees with the first two characters of s. */
  lemma NoRuleByHead(rules: seq<Rule>, s: string)
    requires forall k: nat, l: nat :: k < |rules| && l < |rules[k].patterns| ==>
      !HeadAgrees(rules[k].patterns[l], s)
    ensures NoRuleMatches(rules, s)
  {
    forall k: nat, l: nat | PatternMatches(rules, k, l, s)
      ensures false
    {
      PrefixHeadAgrees(rules[k].patterns[l], s);
    }
  }

  /** Position (i, j) is taken when it matches and no earlier pattern agrees with
      the first two characters of s. */
  lemma FirstByHead(rules: seq<Rule>, s: string, i: nat, j: nat)
    requires PatternMatches(rules, i, j, s)
    requires forall k: nat, l: nat :: Before(k, l, i, j) && k < |rules| && l < |rules[k].patterns| ==>
      !HeadAgrees(rules[k].patterns[l], s)
    ensures FirstMatch(rules, s) == Some(Match(i, j))
  {
    forall k: nat, l: nat | Before(k, l, i, j) && PatternMatches(rules, k, l, s)
      ensures false
    {
      PrefixHeadAgrees(rules[k].patterns[l], s);
    }
    FirstMatchIsLeast(rules, s, i, j);
  }

  /** One rule step decided by the first two characters of s. */
  lemma RuleStep(rules: seq<Rule>, s: string, i: nat, j: nat)
    requires PatternMatches(rules, i, j, s)
    requires forall k: nat, l: nat :: Before(k, l, i, j) && k < |rules| && l < |rules[k].patterns| ==>
      !HeadAgrees(rules[k].patterns[l], s)
    ensures Transliterate(rules, s) == rules[i].replacement + Transliterate(rules, s[|rules[i].patterns[j]|..])
  {
    FirstByHead(rules, s, i, j);
    RulesBeforeFallback(rules, s, i, j);
  }

  /** A pattern p of at least two characters, with no earlier pattern agreeing with
      its first two, is taken at the start of p + s whatever follows it; the output
      is its replacement, then the output for s. */
  lemma RuleStepBefore(rules: seq<Rule>, p: string, s: string, i: nat, j: nat)
    requires i < |rules| && j < |rules[i].patterns| && rules[i].patterns[j] == p && |p| >= 2
    requires forall k: nat, l: nat :: Before(k, l, i, j) && k < |rules| && l < |rules[k].patterns| ==>
      !HeadAgrees(rules[k].patterns[l], p)
    ensures FirstMatch(rules, p + s) == Some(Match(i, j))
    ensures Transliterate(rules, p + s) == rules[i].replacement + Transliterate(rules, s)
  {
    assert (p + s)[..|p|] == p;
    assert (p + s)[0] == p[0] && (p + s)[1] == p[1];
    FirstByHead(rules, p + s, i, j);
    RuleStep(rules, p + s, i, j);
    assert (p + s)[|p|..] == s;
  }

  // ---------------------------------------------------------------------------
  // The SaypYu table
  // ---------------------------------------------------------------------------

  /** Every SaypYu replacement is at most twice as long as each of its patterns. */
  lemma RulesAreCompact()
    ensures Compact(Rules)
  {
  }

  /** The SaypYu output has at most two characters per input character. */
  lemma TranslitLengthBound(s: string)
    ensures |Transliterate(Rules, s)| <= 2 * |s|
  {
    RulesAreCompact();
    LengthBound(Rules, s);
  }

  /** Space and both parentheses start no pattern and map to themselves, so they
      are carried through unchanged. */
  lemma PassThrough(c: char, s: string)
    requires c == ' ' || c == '(' || c == ')'
    ensures Transliterate(Rules, [c] + s) == [c] + Transliterate(Rules, s)
  {
    PassThroughInNoPattern(c);
    KeptAtHead(Rules, c, s);
  }

  /** The stress mark starts no pattern and is not in the fallback: it vanishes. */
  lemma StressMarkIsDropped(s: string)
    ensures Transliterate(Rules, ['ˈ'] + s) == Transliterate(Rules, s)
  {
    StressMarkInNoPattern();
    InNoPatternStartsNoPattern(Rules, 'ˈ');
    UnmappedIsDropped(Rules, 'ˈ', s);
  }

  /** Space and both parentheses occur in no SaypYu pattern. */
  lemma PassThroughInNoPattern(c: char)
    requires c == ' ' || c == '(' || c == ')'
    ensures InNoPattern(Rules, c)
  {
    if c == ' ' {
      SpaceInNoPattern();
    } else if c == '(' {
      OpenParenInNoPattern();
    } else {
      CloseParenInNoPattern();
    }
  }

  lemma SpaceInNoPattern()
    ensures InNoPattern(Rules, ' ')
  {
  }

  lemma OpenParenInNoPattern()
    ensures InNoPattern(Rules, '(')
  {
  }

  lemma CloseParenInNoPattern()
    ensures InNoPattern(Rules, ')')
  {
  }

  /** The stress mark occurs in no SaypYu pattern. */
  lemma StressMarkInNoPattern()
    ensures InNoPattern(Rules, 'ˈ')
  {
  }

  /** Space and both parentheses appear unchanged in the output wherever they
      stand in the input, and no pattern reaches across them. */
  lemma PassThroughAnywhere(a: string, c: char, s: string)
    requires c == ' ' || c == '(' || c == ')'
    ensures Transliterate(Rules, a + [c] + s) == Transliterate(Rules, a) + [c] + Transliterate(Rules, s)
  {
    PassThroughInNoPattern(c);
    KeptAnywhere(Rules, a, c, s);
  }

  /** A stress mark anywhere in the input contributes nothing: the output is that
      of the text before it followed by that of the text after it. */
  lemma StressMarkDroppedAnywhere(a: string, s: string)
    ensures Transliterate(Rules, a + ['ˈ'] + s) == Transliterate(Rules, a) + Transliterate(Rules, s)
  {
    StressMarkInNoPattern();
    DroppedAnywhere(Rules, a, 'ˈ', s);
  }

  /** Parentheses are kept verbatim around the converted text between them. */
  lemma ParenthesesAround(s: string)
    ensures Transliterate(Rules, ['('] + s + [')']) == ['('] + Transliterate(Rules, s) + [')']
  {
    PassThroughInNoPattern('(');
    PassThroughInNoPattern(')');
    KeptAround(Rules, '(', ')', s);
  }

  /** The table positions that an earlier pattern shadows. */
  const Shadowed: set<Match> :=
    {Match(9, 0), Match(12, 0), Match(16, 0), Match(16, 1), Match(17, 0), Match(17, 1)}

  /** Pattern (i, j) is listed before pattern (k, l) and is a prefix of it. */
  ghost predicate ShadowsAt(rules: seq<Rule>, i: nat, j: nat, k: nat, l: nat)
  {
    i < |rules| && j < |rules[i].patterns| && k < |rules| && l < |rules[k].patterns| &&
    Before(i, j, k, l) && rules[i].patterns[j] <= rules[k].patterns[l]
  }

  /** Which earlier pattern shadows each shadowed entry of the SaypYu table. */
  ghost predicate SaypyuShadowing(rules: seq<Rule>)
  {
    ShadowsAt(rules, 8, 1, 9, 0) && ShadowsAt(rules, 8, 0, 12, 0) &&
    ShadowsAt(rules, 4, 0, 16, 0) && ShadowsAt(rules, 4, 1, 16, 1) &&
    ShadowsAt(rules, 4, 0, 17, 0) && ShadowsAt(rules, 7, 0, 17, 1)
  }

  lemma RulesShadowing()
    ensures SaypyuShadowing(Rules)
  {
  }

  lemma ShadowedEntriesFor(rules: seq<Rule>, s: string, m: Match)
    requires SaypyuShadowing(rules)
    requires m in Shadowed
    ensures FirstMatch(rules, s) != Some(m)
  {
    if m == Match(9, 0) {
      ShadowedIsNeverTaken(rules, s, 8, 1, 9, 0);
    } else if m == Match(12, 0) {
      ShadowedIsNeverTaken(rules, s, 8, 0, 12, 0);
    } else if m == Match(16, 0) {
      ShadowedIsNeverTaken(rules, s, 4, 0, 16, 0);
    } else if m == Match(16, 1) {
      ShadowedIsNeverTaken(rules, s, 4, 1, 16, 1);
    } else if m == Match(17, 0) {
      ShadowedIsNeverTaken(rules, s, 4, 0, 17, 0);
    } else {
      ShadowedIsNeverTaken(rules, s, 7, 0, 17, 1);
    }
  }

  /** The shadowed entries of the table are never taken: the second alternative
      "əʊ" of rule 8 shadows rule 9; "oʊ" shadows "oʊr"; "aɪ" and "ʌɪ" shadow
      rule 16 and the first alternative of rule 17; "aʊ" shadows "aʊə". Rules 9,
      16 and 17 therefore never fire. */
  lemma ShadowedEntriesNeverTaken(s: string, m: Match)
    requires m in Shadowed
    ensures FirstMatch(Rules, s) != Some(m)
  {
    RulesShadowing();
    ShadowedEntriesFor(Rules, s, m);
  }
}
