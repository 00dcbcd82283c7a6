/** Worked examples of the SaypYu transliteration, decided by the first two
    characters of each position against the table's pattern heads. */
module SaypyuExamples {
  import opened Saypyu
  import opened SaypyuProperties

  // ---------------------------------------------------------------------------
  // Pattern heads
  // ---------------------------------------------------------------------------

  /** Every one-character pattern of rules is in singles, and every longer
      pattern begins with a pair in pairs. */
  ghost predicate HeadsListed(rules: seq<Rule>, singles: set<char>, pairs: set<(char, char)>)
  {
    forall k: nat, l: nat :: k < |rules| && l < |rules[k].patterns| ==>
      (|rules[k].patterns[l]| == 1 ==> rules[k].patterns[l][0] in singles) &&
      (|rules[k].patterns[l]| > 1 ==> (rules[k].patterns[l][0], rules[k].patterns[l][1]) in pairs)
  }

  /** s does not begin with a listed head. */
  predicate Unlisted(singles: set<char>, pairs: set<(char, char)>, s: string)
  {
    |s| > 0 && s[0] !in singles && (|s| == 1 || (s[0], s[1]) !in pairs)
  }

  /** No rule matches an input that does not begin with a listed head. */
  lemma NoRuleByHeads(rules: seq<Rule>, singles: set<char>, pairs: set<(char, char)>, s: string)
    requires HeadsListed(rules, singles, pairs)
    requires Unlisted(singles, pairs, s)
    ensures NoRuleMatches(rules, s)
  {
    forall k: nat, l: nat | PatternMatches(rules, k, l, s)
      ensures false
    {
      PrefixHeadAgrees(rules[k].patterns[l], s);
    }
  }

  const PatternSingles: set<char> := {'ʤ'}
  const PatternPairs: set<(char, char)> := {('e', ':'), ('e', 'ː'), ('i', ':'), ('i', 'ː'), ('u', ':'), ('u', 'ː'), ('e', 'ɪ'), ('a', 'ɪ'), ('ʌ', 'ɪ'), ('ɔ', 'ɪ'), ('æ', 'ʊ'), ('a', 'ʊ'), ('o', 'ʊ'), ('ə', 'ʊ'), ('u', 'i'), ('ɜ', 'r'), ('ɜ', ':'), ('ɜ', 'ː'), ('ɘ', ':'), ('ɘ', 'ː'), ('ɔ', ':'), ('ɔ', 'ː'), ('ɪ', 'ə'), ('ɛ', 'ə'), ('ε', 'ə'), ('e', 'ə'), ('ʊ', 'ə'), ('t', 'ʃ'), ('d', 'ʒ')}

  lemma RulesHeadsListed()
    ensures HeadsListed(Rules, PatternSingles, PatternPairs)
  {
  }

  /** No rule matches anywhere in an input none of whose positions begins with a
      listed head. */
  lemma NoRuleAnywhere(s: string)
    requires forall p :: 0 <= p < |s| ==> Unlisted(PatternSingles, PatternPairs, s[p..])
    ensures forall p :: 0 <= p < |s| ==> NoRuleMatches(Rules, s[p..])
  {
    RulesHeadsListed();
    forall p | 0 <= p < |s|
      ensures NoRuleMatches(Rules, s[p..])
    {
      NoRuleByHeads(Rules, PatternSingles, PatternPairs, s[p..]);
    }
  }

  // ---------------------------------------------------------------------------
  // "crustacean", the documented example
  // ---------------------------------------------------------------------------

  const Crustacean := "krʌˈsteɪʃən"

  /** Only the diphthong "eɪ" at position 6 starts a pattern: not before it... */
  lemma CrustaceanOnsetNoRule()
    ensures forall p :: 0 <= p < 6 ==> NoRuleMatches(Rules, Crustacean[p..])
  {
    RulesHeadsListed();
    forall p | 0 <= p < 6
      ensures NoRuleMatches(Rules, Crustacean[p..])
    {
      NoRuleByHeads(Rules, PatternSingles, PatternPairs, Crustacean[p..]);
    }
  }

  /** ...and not after it. */
  lemma CrustaceanCodaNoRule()
    ensures forall p :: 8 <= p < |Crustacean| ==> NoRuleMatches(Rules, Crustacean[p..])
  {
    RulesHeadsListed();
    forall p | 8 <= p < |Crustacean|
      ensures NoRuleMatches(Rules, Crustacean[p..])
    {
      NoRuleByHeads(Rules, PatternSingles, PatternPairs, Crustacean[p..]);
    }
  }

  lemma CrustaceanSlices()
    ensures |Crustacean| == 11 && Crustacean[..6] == "krʌˈst" && Crustacean[8..] == "ʃən"
  {
  }

  lemma CrustaceanRule()
    ensures FirstMatch(Rules, Crustacean[6..]) == Some(Match(3, 0))
  {
    FirstByHead(Rules, Crustacean[6..], 3, 0);
  }

  lemma CrustaceanOnsetText()
    ensures FallbackAll("krʌ") == "krɘ"
  {
  }

  lemma CrustaceanStressText()
    ensures FallbackAll("ˈst") == "st"
  {
  }

  lemma CrustaceanHeadText()
    ensures FallbackAll("krʌˈst") == "krɘst"
  {
    assert "krʌˈst" == "krʌ" + "ˈst";
    FallbackAllAppend("krʌ", "ˈst");
    CrustaceanOnsetText();
    CrustaceanStressText();
  }

  lemma CrustaceanTailText()
    ensures FallbackAll("ʃən") == "shɘn"
  {
  }

  lemma CrustaceanFor(rules: seq<Rule>, s: string)
    requires |s| == 11 && s[..6] == "krʌˈst" && s[8..] == "ʃən"
    requires forall p :: 0 <= p < 6 ==> NoRuleMatches(rules, s[p..])
    requires forall p :: 8 <= p < |s| ==> NoRuleMatches(rules, s[p..])
    requires FirstMatch(rules, s[6..]) == Some(Match(3, 0))
    requires rules[3] == Rule(["eɪ"], "ey")
    ensures Transliterate(rules, s) == "krɘsteyshɘn"
  {
    OneMatchInside(rules, s, 6, Match(3, 0));
    CrustaceanHeadText();
    CrustaceanTailText();
  }

  /** The documented example: "krʌˈsteɪʃən" becomes "krɘsteyshɘn". */
  lemma CrustaceanExample()
    ensures Transliterate(Rules, Crustacean) == "krɘsteyshɘn"
  {
    CrustaceanOnsetNoRule();
    CrustaceanCodaNoRule();
    CrustaceanRule();
    CrustaceanSlices();
    CrustaceanFor(Rules, Crustacean);
  }

  // ---------------------------------------------------------------------------
  // Rule priority at work
  // ---------------------------------------------------------------------------

  /** The long r-coloured vowel takes the third alternative of rule 11, before the
      shorter "ɜː" later in the same rule. */
  lemma LongErExample()
    ensures Transliterate(Rules, "ɜːr") == "ur"
  {
    RuleStep(Rules, "ɜːr", 11, 2);
  }

  /** Wherever "ɜːr" begins the remaining input, rule 11 takes all three characters. */
  lemma LongErInside(s: string)
    ensures FirstMatch(Rules, "ɜːr" + s) == Some(Match(11, 2))
    ensures Transliterate(Rules, "ɜːr" + s) == "ur" + Transliterate(Rules, s)
  {
    RuleStepBefore(Rules, "ɜːr", s, 11, 2);
  }

  /** "tʃ" goes through rule 18 as a whole. The fallback would give the same text
      for "t" and "ʃ" one by one, so the first ensures is what shows the rule fires. */
  lemma AffricateExample()
    ensures FirstMatch(Rules, "tʃ") == Some(Match(18, 0))
    ensures Transliterate(Rules, "tʃ") == "tsh"
  {
    AffricateRule();
    WholeInputRule(Rules, "tʃ", Match(18, 0), "tsh");
  }

  lemma AffricateRule()
    ensures FirstMatch(Rules, "tʃ") == Some(Match(18, 0))
    ensures |PatternOf(Rules, Match(18, 0))| == |"tʃ"| && ReplacementOf(Rules, Match(18, 0)) == "tsh"
  {
    FirstByHead(Rules, "tʃ", 18, 0);
  }

  /** A pattern taken at the start that spans the whole input leaves only its
      replacement. */
  /** Wherever "tʃ" begins the remaining input, rule 18 takes it as a whole. */
  lemma AffricateInside(s: string)
    ensures FirstMatch(Rules, "tʃ" + s) == Some(Match(18, 0))
    ensures Transliterate(Rules, "tʃ" + s) == "tsh" + Transliterate(Rules, s)
  {
    RuleStepBefore(Rules, "tʃ", s, 18, 0);
  }

  lemma WholeInputRule(rules: seq<Rule>, s: string, m: Match, out: string)
    requires FirstMatch(rules, s) == Some(m)
    requires |PatternOf(rules, m)| == |s| && ReplacementOf(rules, m) == out
    ensures Transliterate(rules, s) == out
  {
    RulesBeforeFallback(rules, s, m.rule, m.alt);
    assert s[|s|..] == [];
  }

  /** A two-character rule match at the start of s, then one character that
      starts no pattern. */
  lemma PairThenChar(rules: seq<Rule>, s: string, m: Match, out: string)
    requires FirstMatch(rules, s) == Some(m)
    requires |s| == 3 && |PatternOf(rules, m)| == 2 && NoRuleMatches(rules, s[2..])
    requires out == ReplacementOf(rules, m) + FallbackText(s[2])
    ensures Transliterate(rules, s) == out
  {
    assert s[0..] == s;
    MatchThenFallback(rules, s, 0, m);
    assert s[2..] == [s[2]];
  }

  /** No rule matches at the last character of a three-character input whose
      last character begins no listed head. */
  lemma ThirdCharRest(s: string)
    requires |s| == 3 && Unlisted(PatternSingles, PatternPairs, s[2..])
    ensures NoRuleMatches(Rules, s[2..])
  {
    RulesHeadsListed();
    NoRuleByHeads(Rules, PatternSingles, PatternPairs, s[2..]);
  }

  lemma OwrMatch()
    ensures FirstMatch(Rules, "oʊr") == Some(Match(8, 0))
  {
    FirstByHead(Rules, "oʊr", 8, 0);
  }

  lemma OwrText()
    ensures |"oʊr"| == 3 && |PatternOf(Rules, Match(8, 0))| == 2
    ensures "owr" == ReplacementOf(Rules, Match(8, 0)) + FallbackText("oʊr"[2])
  {
  }

  /** Shadowing at work: "oʊr" comes out as "ow" then "r", not as rule 12's "oor". */
  lemma OwrExample()
    ensures Transliterate(Rules, "oʊr") == "owr"
  {
    OwrMatch();
    ThirdCharRest("oʊr");
    OwrText();
    PairThenChar(Rules, "oʊr", Match(8, 0), "owr");
  }

  lemma PriceSchwaMatch()
    ensures FirstMatch(Rules, "ʌɪə") == Some(Match(4, 1))
  {
    FirstByHead(Rules, "ʌɪə", 4, 1);
  }

  lemma PriceSchwaText()
    ensures |"ʌɪə"| == 3 && |PatternOf(Rules, Match(4, 1))| == 2
    ensures "aiɘ" == ReplacementOf(Rules, Match(4, 1)) + FallbackText("ʌɪə"[2])
  {
  }

  /** "ʌɪə" loses the final "r" that rule 16 would add: rule 4 is listed first. */
  lemma PriceSchwaExample()
    ensures Transliterate(Rules, "ʌɪə") == "aiɘ"
  {
    PriceSchwaMatch();
    ThirdCharRest("ʌɪə");
    PriceSchwaText();
    PairThenChar(Rules, "ʌɪə", Match(4, 1), "aiɘ");
  }

  // ---------------------------------------------------------------------------
  // The fallback at work
  // ---------------------------------------------------------------------------

  lemma DroppedStressText()
    ensures FallbackAll("aˈb") == "ab"
  {
  }

  /** A stress mark between two mapped characters leaves nothing between them. */
  lemma DroppedStressExample()
    ensures Transliterate(Rules, "aˈb") == "ab"
  {
    NoRuleAnywhere("aˈb");
    AllFallback(Rules, "aˈb");
    DroppedStressText();
  }

  /** The stress mark also keeps a diphthong from forming: "eɪ" is one rule step... */
  lemma DiphthongExample()
    ensures Transliterate(Rules, "eɪ") == "ey"
  {
    RuleStep(Rules, "eɪ", 3, 0);
  }

  lemma SplitDiphthongText()
    ensures FallbackAll("eˈɪ") == "ei"
  {
  }

  /** ...but with a stress mark inside it, "e" and "ɪ" are converted one by one. */
  lemma SplitDiphthongExample()
    ensures Transliterate(Rules, "eˈɪ") == "ei"
  {
    NoRuleAnywhere("eˈɪ");
    AllFallback(Rules, "eˈɪ");
    SplitDiphthongText();
  }

  // ---------------------------------------------------------------------------
  // Parentheses at work
  // ---------------------------------------------------------------------------

  lemma StressedFirstHalf()
    ensures FallbackAll("stre") == "stre"
  {
  }

  lemma StressedSecondHalf()
    ensures FallbackAll("ssed") == "ssed"
  {
  }

  lemma StressedText()
    ensures FallbackAll("stressed") == "stressed"
  {
    assert "stressed" == "stre" + "ssed";
    FallbackAllAppend("stre", "ssed");
    StressedFirstHalf();
    StressedSecondHalf();
  }

  /** Every letter of "stressed" maps to itself and no two of them form a pattern. */
  lemma StressedWord()
    ensures Transliterate(Rules, "stressed") == "stressed"
  {
    NoRuleAnywhere("stressed");
    AllFallback(Rules, "stressed");
    StressedText();
  }

  const Parenthesized := "(stressed)"

  lemma ParenthesizedSlices()
    ensures Parenthesized == ['('] + "stressed" + [')']
  {
  }

  /** Only a substitution; it keeps the literal away from the table, where Dafny
      would otherwise unfold the conversion of the literal step by step. */
  lemma ParenthesizedFor(rules: seq<Rule>, s: string, w: string)
    requires s == ['('] + w + [')']
    requires Transliterate(rules, ['('] + w + [')']) == ['('] + Transliterate(rules, w) + [')']
    requires Transliterate(rules, w) == w
    ensures Transliterate(rules, s) == s
  {
  }

  /** "(stressed)" keeps its parentheses around the converted word. */
  lemma ParenthesizedExample()
    ensures Transliterate(Rules, Parenthesized) == Parenthesized
  {
    ParenthesizedSlices();
    ParenthesesAround("stressed");
    StressedWord();
    ParenthesizedFor(Rules, Parenthesized, "stressed");
  }
}
