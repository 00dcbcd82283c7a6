# SaypYu transliteration in Dafny

This project models `ipa_to_saypyu` from the Rust crate `saypyu`. The function
rewrites a pronunciation written in IPA, or in the OED or CED notation, into SaypYu
spelling. It makes one left-to-right pass over the input. At each position it tries
the ordered multi-character rule table `IPA_TO_SAYPYU_MULT` first: rules in table
order, and within a rule its alternative patterns in order. The first pattern the
rest of the input starts with wins. The scan appends that rule's replacement and
skips past the pattern. When no rule matches, the scan looks the current character
up in a single-character fallback table and appends its mapping. A character that
table does not list is dropped.

Files:

- `saypyu.dfy` (module `Saypyu`) holds the engine:
  - the rule table `Rules` (20 rules, numbered from 0 in table order) and the
    fallback table `Fallback`;
  - `FirstMatch`, the first matching position in table order, and `Transliterate`,
    the recursive specification of the scan. Both take the rule table as a
    parameter;
  - the imperative scan. `IpaToSaypyu` runs `Scan` on `Rules`. `Scan` keeps the
    output buffer and the `skipUntil` cursor of the Rust loop. `Step` is its loop
    body. `FindRule` is the nested search over rules and alternatives.
- `properties.dfy` (module `SaypyuProperties`) proves lemmas about the model:
  - which rule wins, and that the rules come before the fallback;
  - the fallback step, and characters that are dropped or passed through, at
    the head of the input and anywhere inside it;
  - stretches of input no rule touches;
  - an output length bound;
  - the shadowed entries of the table.
- `examples.dfy` (module `SaypyuExamples`) proves concrete conversions:
  - the documented example "krʌˈsteɪʃən";
  - inputs that show rule priority at work;
  - a dropped stress mark and parentheses kept around a word.

## Model

| member | source | states |
|---|---|---|
| Saypyu.Rules | src/lib.rs:6-64 | The ordered rule table, entry for entry and alternative for alternative, in source order. The commented-out entry at src/lib.rs:60-63 is not included. |
| Saypyu.FallbackText | src/lib.rs:149-151 | The text the fallback appends for one character: at most two characters, empty exactly when the character is dropped (`_ => continue`), and otherwise the mapped string. |
| Saypyu.Transliterate | src/lib.rs:81-157 | The recursive specification of the scan. On a rule match, the output is the first match's replacement, then the conversion just past its pattern. Otherwise it is the fallback text of the first character, then the conversion of the rest. The empty input gives the empty output. |
| Saypyu.Fallback | src/lib.rs:104-150 | The single-character table. A listed character maps to one or two characters. Space and both parentheses map to themselves. Any other character gives `None`, so it is dropped. |
| Saypyu.MatchFrom | src/lib.rs:92-100 | Searches the table from position (i, j) onward. A result is a pattern that matches, at or after (i, j), with no matching pattern between (i, j) and it. `None` means nothing from (i, j) onward matches. |
| Saypyu.FirstMatch | src/lib.rs:92-99 | The position taken is a pattern the input starts with, and no earlier position in table order (rule, then alternative) matches. `None` holds exactly when no alternative of any rule matches. |
| Saypyu.FirstMatchIsLeast | src/lib.rs:92-99 | A matching position with no earlier matching position is the one `FirstMatch` returns. |
| Saypyu.ResumeAfterMatch | src/lib.rs:94-97 | After pattern m matches at cursor idx, the cursor moves strictly forward and stays within the input. The output continues with m's replacement, then the conversion of the input just past the pattern. |
| Saypyu.ResumeAfterFallback | src/lib.rs:100-151 | When no rule matches at idx, the output continues with the fallback text of the character at idx, then the conversion from idx + 1. |
| Saypyu.FindRule | src/lib.rs:92-100 | The nested loops over rules and their alternatives return exactly `FirstMatch` of the rest of the input. |
| Saypyu.Step | src/lib.rs:86-151 | One pass of the loop body at cursor idx. It reports a match exactly when some rule matches. On a match, the piece is the replacement and the cursor skips past the pattern. Otherwise the piece is the fallback text and the cursor advances by one character. The conversion from idx is the piece followed by the conversion from the new cursor. |
| Saypyu.Scan | src/lib.rs:81-157 | The loop with its output buffer and skip cursor, over any rule table, produces exactly `Transliterate` of the input. The contract says nothing directly about skipped positions. The loop invariant tracks where the scan stands (`Cursor`), and the body's `idx < skipUntil` test together with `ResumeAfterMatch` keeps the characters of a matched pattern from being looked at again. |
| Saypyu.IpaToSaypyu | src/lib.rs:81-157 | The conversion over the SaypYu table equals `Transliterate(Rules, ipa)`. |
| SaypyuProperties.FirstMatchIff | src/lib.rs:92-99 | Both directions: `FirstMatch` returns (i, j) if and only if (i, j) matches and no earlier position matches. |
| SaypyuProperties.EarlierPatternWins | src/lib.rs:92-99 | When two positions both match, the later one is never taken, and the one taken is no later than the earlier one. This covers a later alternative of an earlier rule against any pattern of a later rule. |
| SaypyuProperties.ShadowedIsNeverTaken | src/lib.rs:4-5 | A pattern that extends a pattern listed before it is never taken on any input. Table order decides, not pattern length. |
| SaypyuProperties.RulesBeforeFallback | src/lib.rs:92-104 | Once any alternative matches at the start of the input, the output begins with the replacement of the first match, never with a fallback text. The scan resumes past that non-empty pattern. |
| SaypyuProperties.FallbackStep | src/lib.rs:100-151 | If no pattern is a prefix of [c] + s, the output is the fallback text of c followed by the output for s. The fallback text is empty when c is unmapped. |
| SaypyuProperties.UnmappedIsDropped | src/lib.rs:149 | A character that starts no pattern and is missing from the fallback table adds nothing to the output. |
| SaypyuProperties.FallbackAllAppend | src/lib.rs:104-151 | The characterwise fallback text of a + b is that of a followed by that of b. |
| SaypyuProperties.FallbackRun | src/lib.rs:85-151 | Along a stretch of positions where no rule matches, the output is the characterwise fallback text of that stretch, then the output from its end. |
| SaypyuProperties.FallbackToEnd | src/lib.rs:85-151 | If no rule matches anywhere from lo on, the output from lo is the characterwise fallback text of that suffix. |
| SaypyuProperties.AllFallback | src/lib.rs:104-151 | An input on which no rule ever matches is converted character by character through the fallback. |
| SaypyuProperties.MatchThenFallback | src/lib.rs:85-151 | If pattern m is taken at position k and no rule matches anywhere after the pattern, the output from k is m's replacement followed by the characterwise fallback text of the rest of the input. |
| SaypyuProperties.OneMatchInside | src/lib.rs:85-151 | An input where exactly one pattern m is taken at k, with only fallback characters around it, converts to fallback text of the prefix, then m's replacement, then fallback text of the suffix. |
| SaypyuProperties.InNoPatternStartsNoPattern | src/lib.rs:6-64 | A character that occurs in no pattern also starts none. |
| SaypyuProperties.MatchStaysLeft | src/lib.rs:94 | If t begins with a character that occurs in no pattern, a pattern matches a + t exactly when it matches a. No pattern can reach across that character. |
| SaypyuProperties.FirstMatchLeft | src/lib.rs:92-99 | Under the same condition, the rule taken at the start of a + t is the one taken at the start of a. |
| SaypyuProperties.SplitAt | src/lib.rs:85-151 | If t begins with a character that occurs in no pattern, the output for a + t is the output for a followed by the output for t. |
| SaypyuProperties.DroppedAnywhere | src/lib.rs:149 | A character that occurs in no pattern and is missing from the fallback table adds nothing wherever it stands: the output for a + [c] + s is the output for a followed by that for s. |
| SaypyuProperties.KeptAnywhere | src/lib.rs:104-151 | A character that occurs in no pattern and maps to itself is copied wherever it stands: the output for a + [c] + s is the output for a, then c, then the output for s. |
| SaypyuProperties.KeptAtHead | src/lib.rs:104-151 | Such a character at the start is copied, and the rest is converted after it. |
| SaypyuProperties.KeptAtEnd | src/lib.rs:104-151 | Such a character at the end is copied after the converted text before it. |
| SaypyuProperties.KeptAround | src/lib.rs:104-151 | Two such characters around s are copied, and s between them is converted on its own. |
| SaypyuProperties.LengthBound | src/lib.rs:81-157 | For a rule table whose replacements are at most twice as long as their patterns, the output has at most two characters per input character. Hence the empty input gives the empty output. |
| SaypyuProperties.RulesAreCompact | src/lib.rs:6-64 | No SaypYu replacement is longer than twice any of its patterns. |
| SaypyuProperties.TranslitLengthBound | src/lib.rs:6-64 | Over the SaypYu table the output has at most twice as many characters as the input. The empty input gives the empty output. |
| SaypyuProperties.PassThrough | src/lib.rs:146-148 | Space, `(` and `)` start no pattern and map to themselves. So `Transliterate([c] + s) == [c] + Transliterate(s)` for each of them. |
| SaypyuProperties.PassThroughInNoPattern | src/lib.rs:6-64 | No SaypYu pattern contains a space or either parenthesis. |
| SaypyuProperties.StressMarkInNoPattern | src/lib.rs:6-64 | No SaypYu pattern contains the stress mark `ˈ`. |
| SaypyuProperties.PassThroughAnywhere | src/lib.rs:146-148 | Space, `(` and `)` appear unchanged in the output wherever they stand in the input: `Transliterate(a + [c] + s) == Transliterate(a) + [c] + Transliterate(s)`. |
| SaypyuProperties.StressMarkDroppedAnywhere | src/lib.rs:149 | A stress mark anywhere in the input contributes nothing: `Transliterate(a + ['ˈ'] + s) == Transliterate(a) + Transliterate(s)`. |
| SaypyuProperties.ParenthesesAround | src/lib.rs:146-148 | Parentheses are kept verbatim around the converted text between them. |
| SaypyuProperties.RuleStepBefore | src/lib.rs:92-97 | A pattern p of two or more characters, with no earlier pattern agreeing with its first two, is taken at the start of p + s for every s, and the output is its replacement followed by the conversion of s. |
| SaypyuProperties.StressMarkIsDropped | src/lib.rs:149 | The stress mark `ˈ` starts no pattern and is not in the fallback table, so it vanishes from the output. |
| SaypyuProperties.NoRuleByHead | src/lib.rs:92-100 | No rule matches when no pattern agrees with the first two characters of the input. |
| SaypyuProperties.FirstByHead | src/lib.rs:92-99 | A matching position is taken when no earlier pattern agrees with the first two characters of the input. |
| SaypyuProperties.RuleStep | src/lib.rs:92-97 | A rule step decided that way appends the rule's replacement and resumes after the pattern. |
| SaypyuProperties.RulesShadowing | src/lib.rs:11-56 | Lists which earlier pattern is a prefix of each shadowed entry of the SaypYu table. |
| SaypyuProperties.ShadowedEntriesFor | src/lib.rs:4-5 | For any table with those prefix relations, none of the shadowed positions is ever taken. |
| SaypyuProperties.ShadowedEntriesNeverTaken | src/lib.rs:11-56 | Six entries are never taken on any input. Rule 8's "əʊ" shadows rule 9, and "oʊ" shadows "oʊr" of rule 12. "aɪ" and "ʌɪ" of rule 4 shadow rule 16 and the first alternative of rule 17. "aʊ" of rule 7 shadows "aʊə". So rules 9, 16 and 17 never fire. |
| SaypyuExamples.RulesHeadsListed | src/lib.rs:6-64 | Every pattern of the SaypYu table begins with `ʤ` or with one of 29 listed two-character prefixes. |
| SaypyuExamples.NoRuleByHeads | src/lib.rs:92-100 | An input that starts with none of the table's listed heads matches no rule. |
| SaypyuExamples.CrustaceanFor | src/lib.rs:77-79 | Any rule table that has the diphthong rule "eɪ" → "ey" as rule 3, takes it in the middle of "krʌˈsteɪʃən", and matches no rule elsewhere converts the word to "krɘsteyshɘn". |
| SaypyuExamples.CrustaceanExample | src/lib.rs:76-79 | The documented example: "krʌˈsteɪʃən" becomes "krɘsteyshɘn". The stress mark is dropped, ʌ and ə become ɘ, and "eɪ" becomes "ey". |
| SaypyuExamples.LongErExample | src/lib.rs:18-27 | "ɜːr" is taken by the third alternative of rule 11 and becomes "ur", not "ur" + "r". |
| SaypyuExamples.LongErInside | src/lib.rs:18-27 | Wherever "ɜːr" begins the remaining input, rule 11's third alternative is taken and the output is "ur" followed by the conversion of what follows. |
| SaypyuExamples.AffricateExample | src/lib.rs:57 | Rule 18 is the one taken on "tʃ", and the output is "tsh". The fallback would give the same text character by character ("t" and "sh", src/lib.rs:138 and 143), so it is the first clause that shows the rule fires. |
| SaypyuExamples.AffricateInside | src/lib.rs:57 | Wherever "tʃ" begins the remaining input, rule 18 is taken and the output is "tsh" followed by the conversion of what follows. |
| SaypyuExamples.WholeInputRule | src/lib.rs:92-97 | A pattern taken at the start that spans the whole input leaves exactly its replacement. |
| SaypyuExamples.DiphthongExample | src/lib.rs:10 | "eɪ" is one rule step and becomes "ey". |
| SaypyuExamples.SplitDiphthongExample | src/lib.rs:104-150 | "eˈɪ" becomes "ei": the stress mark is dropped, and each vowel goes through the fallback on its own because no pattern reaches across the mark. |
| SaypyuExamples.StressedWord | src/lib.rs:104-150 | "stressed" matches no rule anywhere and each letter maps to itself, so it comes out unchanged. |
| SaypyuExamples.ParenthesizedExample | src/lib.rs:146-148 | "(stressed)" becomes "(stressed)": the parentheses are kept around the converted word. |
| SaypyuExamples.PairThenChar | src/lib.rs:85-151 | For a three-character input whose first two characters a pattern takes, the output is that replacement followed by the fallback text of the third character. |
| SaypyuExamples.OwrExample | src/lib.rs:28-34 | "oʊr" becomes "owr": rule 8's "oʊ" wins over rule 12's "oʊr" and leaves the "r" to the fallback. |
| SaypyuExamples.PriceSchwaExample | src/lib.rs:55 | "ʌɪə" becomes "aiɘ": rule 4's "ʌɪ" wins over rule 16's "ʌɪə". |
| SaypyuExamples.DroppedStressExample | src/lib.rs:149 | "aˈb" becomes "ab": the unmapped stress mark is dropped. |

## Left out

- The unit-test harness (src/lib.rs:159-270). It reads a fixture file, parses it and formats a report. That is file I/O and floating point, not the conversion.
- The capacity hint (src/lib.rs:82) and `shrink_to_fit` (src/lib.rs:154). They tune allocation with floating-point arithmetic and do not change the output.
- The commented-out "ju" rule (src/lib.rs:60-63). It is inactive and is not in the table.
- UTF-8 byte offsets. The Rust cursor is a byte index into the UTF-8 string. The model uses positions into a sequence of Unicode scalar values. Every pattern is a whole sequence of characters, and every match starts on a character boundary, so the two cursors pass the same points in the same order. The byte length of a pattern becomes its length in characters.
- The labelled `continue 'main_loop` becomes an early exit from `FindRule` plus the `matched` flag returned by `Step`. The loop body is factored into `Step` and `FindRule`. The `char_indices` loop with its `byte_idx < skip_until` test is kept as a `for` loop over every index with the same skip test.
- The shadowed entries are modelled as written: they stay in the table and are proved never to be taken. The table order follows the code, which does not enforce the doc comment's advice to list longer patterns first.
