/** Transliteration of IPA, OED and CED pronunciations into SaypYu spelling.

    The input is read as a sequence of Unicode scalar values. At every
    position the ordered rule table is tried first (rule order outer,
    alternative order inner, first match wins); when no rule applies, the
    single character at the position is looked up in the fallback table
    and dropped when the table does not list it.
 */
module Saypyu {

  datatype Option<T> = None | Some(value: T)

  /** A rule pattern is a non-empty literal; the cursor always advances past it. */
  type Pattern = p: string | |p| > 0 witness "a"

  /** One entry of the rule table: alternative patterns, tried in order, and the replacement. */
  datatype Rule = Rule(patterns: seq<Pattern>, replacement: string)

  /** The position of a pattern in the table: rule index and alternative index. */
  datatype Match = Match(rule: nat, alt: nat)

  /** The ordered multi-character rule table. Its order is significant:
      several later patterns are shadowed by earlier ones. */
  const Rules: seq<Rule> := [
    Rule(["e:", "eː"], "ee"),                                  //  0
    Rule(["i:", "iː"], "ii"),                                  //  1
    Rule(["u:", "uː"], "uu"),                                  //  2
    Rule(["eɪ"], "ey"),                                        //  3
    Rule(["aɪ", "ʌɪ"], "ai"),                                  //  4
    Rule(["ɔɪ"], "oy"),                                        //  5
    Rule(["æʊ"], "aw"),                                        //  6
    Rule(["aʊ"], "ou"),                                        //  7
    Rule(["oʊ", "əʊ"], "ow"),                                  //  8
    Rule(["əʊ"], "oh"),                                        //  9
    Rule(["ui"], "uy"),                                        // 10
    Rule(["ɜr", "ɜ:r", "ɜːr", "ɜ:", "ɜː", "ɘ:", "ɘː"], "ur"),   // 11
    Rule(["oʊr", "ɔ:r", "ɔːr"], "oor"),                        // 12
    Rule(["ɪər", "ɪə"], "iir"),                                // 13
    Rule(["ɛər", "εər", "eər", "εə", "ɛə", "eə"], "ayr"),       // 14
    Rule(["ʊə"], "ur"),                                        // 15
    Rule(["aɪər", "ʌɪə"], "aiɘr"),                             // 16
    Rule(["aɪər", "aʊə"], "ouɘr"),                             // 17
    Rule(["tʃ"], "tsh"),                                       // 18
    Rule(["dʒ", "ʤ"], "j")                                     // 19
  ]

  /** The single-character fallback. None means the character is dropped. */
  function Fallback(c: char): (r: Option<string>)
    ensures r.Some? ==> 1 <= |r.value| <= 2
    ensures c in {' ', '(', ')'} ==> r == Some([c])
  {
    match c
    case 'ō' => Some("oh")
    case 'ā' => Some("ay")
    case 'a' | 'æ' => Some("a")
    case 'ɑ' | 'ä' => Some("aa")
    case 'e' | 'ε' | 'ɛ' => Some("e")
    case 'ɪ' => Some("i")
    case 'i' => Some("ii")
    case 'o' | 'ɒ' => Some("o")
    case 'ɔ' => Some("aw")
    case 'ʊ' => Some("u")
    case 'u' => Some("uu")
    case 'y' => Some("uy")
    case 'ə' | 'ʌ' => Some("ɘ")
    case 'ø' | 'œ' => Some("ur")
    case 'j' | 'ʎ' | 'ʝ' => Some("y")
    case 'w' => Some("w")
    case 'ʍ' => Some("hw")
    case 'ɥ' => Some("w")
    case 'b' => Some("b")
    case 'd' => Some("d")
    case 'f' => Some("f")
    case 'g' | 'ɡ' => Some("g")
    case 'h' => Some("h")
    case 'k' => Some("k")
    case 'x' => Some("kh")
    case 'l' => Some("l")
    case 'm' => Some("m")
    case 'n' => Some("n")
    case 'p' => Some("p")
    case 'q' => Some("q")
    case 'r' | 'ɾ' | 'ɹ' => Some("r")
    case 's' => Some("s")
    case 't' => Some("t")
    case 'v' => Some("v")
    case 'z' => Some("z")
    case 'θ' => Some("th")
    case 'ð' => Some("dh")
    case 'ʃ' => Some("sh")
    case 'ʒ' => Some("j")
    case 'ŋ' => Some("ng")
    case '(' => Some("(")
    case ')' => Some(")")
    case ' ' => Some(" ")
    case _ => None
  }

  /** What the fallback appends for c: its mapping, or nothing when c is dropped. */
  function FallbackText(c: char): (r: string)
    ensures |r| <= 2
    ensures r == [] <==> Fallback(c).None?
    ensures r != [] ==> Fallback(c) == Some(r)
  {
    match Fallback(c)
    case Some(t) => t
    case None => ""
  }

  /** Alternative j of rule i exists in the table and s starts with it. */
  predicate PatternMatches(rules: seq<Rule>, i: nat, j: nat, s: string)
  {
    i < |rules| && j < |rules[i].patterns| && rules[i].patterns[j] <= s
  }

  /** (i, j) comes strictly before (k, l) in table order: rule first, then alternative. */
  predicate Before(i: nat, j: nat, k: nat, l: nat)
  {
    i < k || (i == k && j < l)
  }

  /** No alternative of any rule of the table matches at the start of s. */
  ghost predicate NoRuleMatches(rules: seq<Rule>, s: string)
  {
    forall i: nat, j: nat :: !PatternMatches(rules, i, j, s)
  }

  function PatternOf(rules: seq<Rule>, m: Match): Pattern
    requires m.rule < |rules| && m.alt < |rules[m.rule].patterns|
  {
    rules[m.rule].patterns[m.alt]
  }

  function ReplacementOf(rules: seq<Rule>, m: Match): string
    requires m.rule < |rules|
  {
    rules[m.rule].replacement
  }

  /** The first matching pattern at or after position (i, j) of the table. */
  function MatchFrom(rules: seq<Rule>, s: string, i: nat, j: nat): (r: Option<Match>)
    requires i <= |rules|
    requires i < |rules| ==> j <= |rules[i].patterns|
    decreases |rules| - i, if i < |rules| then |rules[i].patterns| - j else 0
    ensures r.Some? ==> PatternMatches(rules, r.value.rule, r.value.alt, s)
    ensures r.Some? ==> !Before(r.value.rule, r.value.alt, i, j)
    ensures r.Some? ==> forall k: nat, l: nat ::
      !Before(k, l, i, j) && Before(k, l, r.value.rule, r.value.alt) ==> !PatternMatches(rules, k, l, s)
    ensures r.None? ==> forall k: nat, l: nat :: !Before(k, l, i, j) ==> !PatternMatches(rules, k, l, s)
  {
    if i == |rules| then None
    else if j == |rules[i].patterns| then MatchFrom(rules, s, i + 1, 0)
    else if rules[i].patterns[j] <= s then Some(Match(i, j))
    else MatchFrom(rules, s, i, j + 1)
  }

  /** The pattern a scan step takes at the start of s: the first in table order that matches. */
  function FirstMatch(rules: seq<Rule>, s: string): (r: Option<Match>)
    ensures r.Some? ==> PatternMatches(rules, r.value.rule, r.value.alt, s)
    ensures r.Some? ==> forall k: nat, l: nat ::
      Before(k, l, r.value.rule, r.value.alt) ==> !PatternMatches(rules, k, l, s)
    ensures r.None? <==> NoRuleMatches(rules, s)
  {
    MatchFrom(rules, s, 0, 0)
  }

  /** The scan over a rule table, as a specification: one step at the start of s, then the rest. */
  function Transliterate(rules: seq<Rule>, s: string): string
    decreases |s|
  {
    if s == [] then []
    else match FirstMatch(rules, s)
      case Some(m) => ReplacementOf(rules, m) + Transliterate(rules, s[|PatternOf(rules, m)|..])
      case None => FallbackText(s[0]) + Transliterate(rules, s[1..])
  }

  /** Where the scan really stands: the loop index, or the end of the last matched pattern. */
  function Cursor(idx: nat, skipUntil: nat): nat
  {
    if idx < skipUntil then skipUntil else idx
  }

  /** A characterisation of FirstMatch: the least matching table position is the one taken. */
  lemma FirstMatchIsLeast(rules: seq<Rule>, s: string, i: nat, j: nat)
    requires PatternMatches(rules, i, j, s)
    requires forall k: nat, l: nat :: Before(k, l, i, j) ==> !PatternMatches(rules, k, l, s)
    ensures FirstMatch(rules, s) == Some(Match(i, j))
  {
  }

  /** After pattern m matches at cursor idx, the output continues with its replacement
      and the scan resumes strictly further on, just past the pattern. */
  lemma ResumeAfterMatch(rules: seq<Rule>, s: string, idx: nat, m: Match)
    requires idx < |s| && FirstMatch(rules, s[idx..]) == Some(m)
    ensures idx < idx + |PatternOf(rules, m)| <= |s|
    ensures Transliterate(rules, s[idx..])
         == ReplacementOf(rules, m) + Transliterate(rules, s[idx + |PatternOf(rules, m)|..])
  {
    assert s[idx..][|PatternOf(rules, m)|..] == s[idx + |PatternOf(rules, m)|..];
  }

  /** When no rule matches at cursor idx, the fallback text of the character there is
      appended and the scan moves on by one character. */
  lemma ResumeAfterFallback(rules: seq<Rule>, s: string, idx: nat)
    requires idx < |s| && NoRuleMatches(rules, s[idx..])
    ensures Transliterate(rules, s[idx..]) == FallbackText(s[idx]) + Transliterate(rules, s[idx + 1..])
  {
    assert s[idx..][1..] == s[idx + 1..];
  }

  lemma AppendAssoc(a: string, b: string, c: string)
    ensures (a + b) + c == a + (b + c)
  {
  }

  /** The rule search of one scan step: rules in table order, alternatives in rule order,
      and the first alternative the remaining input starts with ends the search. */
  method FindRule(rules: seq<Rule>, rest: string) returns (found: Option<Match>)
    ensures found == FirstMatch(rules, rest)
  {
    for r := 0 to |rules|
      invariant forall k: nat, l: nat :: k < r ==> !PatternMatches(rules, k, l, rest)
    {
      var tests := rules[r].patterns;
      for t := 0 to |tests|
        invariant forall l: nat :: l < t ==> !PatternMatches(rules, r, l, rest)
      {
        if tests[t] <= rest {
          FirstMatchIsLeast(rules, rest, r, t);
          return Some(Match(r, t));
        }
      }
    }
    return None;
  }

  /** One scan step at cursor idx: the rule search, and the fallback when no rule
      matches. It returns the text to append, where the cursor goes next and whether
      a rule matched. */
  method Step(rules: seq<Rule>, ipa: string, idx: nat) returns (piece: string, next: nat, matched: bool)
    requires idx < |ipa|
    ensures idx < next <= |ipa|
    ensures matched <==> FirstMatch(rules, ipa[idx..]).Some?
    ensures matched ==> var m := FirstMatch(rules, ipa[idx..]).value;
      piece == ReplacementOf(rules, m) && next == idx + |PatternOf(rules, m)|
    ensures !matched ==> next == idx + 1 && piece == FallbackText(ipa[idx])
    ensures Transliterate(rules, ipa[idx..]) == piece + Transliterate(rules, ipa[next..])
  {
    var rest := ipa[idx..];
    var found := FindRule(rules, rest);
    if found.Some? {
      var m := found.value;
      ResumeAfterMatch(rules, ipa, idx, m);
      piece, next, matched := ReplacementOf(rules, m), idx + |PatternOf(rules, m)|, true;
      assert ipa[next..] == ipa[idx + |PatternOf(rules, m)|..];
      return;
    }
    ResumeAfterFallback(rules, ipa, idx);
    next, matched := idx + 1, false;
    assert ipa[next..] == ipa[idx + 1..];
    var mapped := Fallback(ipa[idx]);
    if mapped.None? {
      piece := "";
      assert piece == FallbackText(ipa[idx]);
      return;
    }
    piece := mapped.value;
    assert piece == FallbackText(ipa[idx]);
  }

  /** The scan loop over a rule table: a cursor over the input and an output buffer. */
  method Scan(rules: seq<Rule>, ipa: string) returns (res: string)
    ensures res == Transliterate(rules, ipa)
  {
    res := "";
    var skipUntil: nat := 0;
    for idx := 0 to |ipa|
      invariant skipUntil <= |ipa|
      invariant res + Transliterate(rules, ipa[Cursor(idx, skipUntil)..]) == Transliterate(rules, ipa)
    {
      if idx < skipUntil {
        assert Cursor(idx + 1, skipUntil) == Cursor(idx, skipUntil);
        continue;
      }
      assert Cursor(idx, skipUntil) == idx;
      var piece, next, matched := Step(rules, ipa, idx);
      AppendAssoc(res, piece, Transliterate(rules, ipa[next..]));
      res := res + piece;
      if matched {
        skipUntil := next;
      }
      assert Cursor(idx + 1, skipUntil) == next;
    }
  }

  /** The library entry point: the scan over the SaypYu rule table. */
  method IpaToSaypyu(ipa: string) returns (res: string)
    ensures res == Transliterate(Rules, ipa)
  {
    res := Scan(Rules, ipa);
  }
}
