# Stanford-NER feature-name decoder, in Dafny

This project models `SNLPFeatures`, the class of searchie-extraction that turns
the raw feature strings of a Stanford NER CRF model (`fox-WORD|C`, `IS_TITLE|C`,
`##ab#|C`, …) into readable `category=value` tags (`w[0]=fox`, `ti=TITLE`,
`ng=#ab`). It proves properties of that model.

- `java_string.dfy` (module `JavaString`) holds the few `java.lang.String`
  operations the decoder uses: `endsWith`, `startsWith`, `contains` and
  `trim`. Strings are sequences of Dafny chars. A Dafny char is a Unicode
  scalar value, while a Java char is a UTF-16 code unit.
- `snlp_features.dfy` (module `SNLPFeatures`) holds the model itself:
  - the thirty `IndexOfParser` rules, in priority order, as the value `Table`;
  - `beforeIfEndsWith`, `parseValue`, `parse` and `extractToFielded`;
  - the first-match scan of `parseStanfordNERFeatures`;
  - the loop of `parseAllFeatures`.

  Java's `null` is the `Null` answer. An exception is the `Thrown` answer, or
  the `Threw` result of a call. The two Java methods that loop are Dafny
  methods with `while` loops. Each one is proved against the functions
  `Decode` (one raw string) and `DecodeAll`/`Diagnostics` (a collection).
- `decoder_properties.dfy` (module `DecoderProperties`) holds the lemmas
  about the model:
  - what each kind of rule yields;
  - when decoding throws;
  - which rule wins when several apply;
  - the sentinel `PSEQ|CpC`;
  - independence of order and duplicates;
  - worked examples on the actual table.

## Model

| member | source | states |
|---|---|---|
| SNLPFeatures.BeforeIfEndsWith | src/main/java/edu/umass/cs/ciir/searchie/SNLPFeatures.java:252-257 | The result is a string exactly when `input` ends with `query`, and then that string followed by `query` is `input`. |
| SNLPFeatures.StripFirst | src/main/java/edu/umass/cs/ciir/searchie/SNLPFeatures.java:65-82 | A chain of `beforeIfEndsWith` calls over several suffixes is null exactly when no suffix ends the input. Otherwise it removes the earliest suffix that does. |
| SNLPFeatures.Parse | src/main/java/edu/umass/cs/ciir/searchie/SNLPFeatures.java:258-262 | `parse` is null or throws exactly when `parseValue` does. Otherwise it is the rule's key, then `=`, then the value. |
| SNLPFeatures.FirstMatchIsFirst | src/main/java/edu/umass/cs/ciir/searchie/SNLPFeatures.java:231-239 | The scan over the rules finds nothing exactly when every rule yields null. Otherwise its answer is that of the earliest rule that is not null. |
| SNLPFeatures.FirstMatchFrom | src/main/java/edu/umass/cs/ciir/searchie/SNLPFeatures.java:232-239 | Rules that yield null can be skipped: the scan gives the same answer from the first rule that does not. |
| SNLPFeatures.ParseStanfordNERFeatures | src/main/java/edu/umass/cs/ciir/searchie/SNLPFeatures.java:228-243 | It trims the string and skips the sentinel. It adds the tag of the first matching rule to the set. An unmatched string leaves the set unchanged and is written to stderr. A rule that throws propagates the exception and writes nothing. |
| SNLPFeatures.ParseAllFeatures | src/main/java/edu/umass/cs/ciir/searchie/SNLPFeatures.java:220-226 | The result is the set of all tags of the collection, or a throw if a string throws. The stderr lines are the unmatched strings, in order, up to the one that throws. |
| SNLPFeatures.ExtractToFielded | src/main/java/edu/umass/cs/ciir/searchie/SNLPFeatures.java:264-268 | A null value leaves the map unchanged, and a throw propagates. Otherwise the value joins the set under the rule's key, which is created empty when absent. No other key changes. |
| SNLPFeatures.DecodeAllAppend | src/main/java/edu/umass/cs/ciir/searchie/SNLPFeatures.java:220-226 | Decoding two collections one after the other throws if either part throws. Otherwise it yields the union of the two parts' tags. |
| SNLPFeatures.DiagnosticsAppend | src/main/java/edu/umass/cs/ciir/searchie/SNLPFeatures.java:240-242 | After strings that do not throw, the later stderr reports follow the earlier ones. |
| SNLPFeatures.DiagnosticsAfterCrash | src/main/java/edu/umass/cs/ciir/searchie/SNLPFeatures.java:220-226 | Nothing after a string that throws is reported. |
| SNLPFeatures.OneString | src/main/java/edu/umass/cs/ciir/searchie/SNLPFeatures.java:222-224 | For one raw string, the collection's throw, tags and reports are those of that string's decoding. |
| SNLPFeatures.ParseAllStep | src/main/java/edu/umass/cs/ciir/searchie/SNLPFeatures.java:222-224 | One more string that does not throw adds at most its tag and at most its report. |
| SNLPFeatures.ParseAllCrash | src/main/java/edu/umass/cs/ciir/searchie/SNLPFeatures.java:222-224 | A string that throws makes the whole call throw. The reports are those made before it. |
| JavaString.ContainsIffOccurs | src/main/java/edu/umass/cs/ciir/searchie/SNLPFeatures.java:121 | `contains` holds exactly when the text occurs at some position. |
| JavaString.PrefixPieceContained | src/main/java/edu/umass/cs/ciir/searchie/SNLPFeatures.java:121-122 | A string starting with `p` contains every piece of `p`. Here that means a string starting with `NO-OCCURRENCE-PATTERN` contains `OCCURRENCE`. |
| JavaString.TrimStartSpec | src/main/java/edu/umass/cs/ciir/searchie/SNLPFeatures.java:229 | The leading part of `trim` removes only chars up to U+0020. What it leaves is a suffix that is empty or starts with another char. |
| JavaString.TrimEndSpec | src/main/java/edu/umass/cs/ciir/searchie/SNLPFeatures.java:229 | The trailing part of `trim` removes only chars up to U+0020. What it leaves is a prefix that is empty or ends with another char. |
| JavaString.TrimSpec | src/main/java/edu/umass/cs/ciir/searchie/SNLPFeatures.java:229 | `trim` is a piece of the string with only chars up to U+0020 around it. It neither starts nor ends with such a char. |
| JavaString.TrimUntrimmable | src/main/java/edu/umass/cs/ciir/searchie/SNLPFeatures.java:229 | A string with nothing to trim at either end is its own trim. |
| JavaString.TrimIdempotent | src/main/java/edu/umass/cs/ciir/searchie/SNLPFeatures.java:229 | Trimming twice is trimming once. |
| DecoderProperties.ClusterRuleExact | src/main/java/edu/umass/cs/ciir/searchie/SNLPFeatures.java:19-26 | The `cl` rule, first in the table, yields a tag exactly on `###\|C`, and that tag is `cl=#`. It is null on every other string. |
| DecoderProperties.TitleRuleExact | src/main/java/edu/umass/cs/ciir/searchie/SNLPFeatures.java:142-147 | The `ti` rule, nineteenth in the table, yields a tag exactly on `IS_TITLE\|C`, and that tag is `ti=TITLE`. It is null on every other string. |
| DecoderProperties.StripRule | src/main/java/edu/umass/cs/ciir/searchie/SNLPFeatures.java:37-217 | A suffix rule is null exactly when no suffix of its list ends the input. Otherwise it yields the input without the earliest suffix that does. It never throws. |
| DecoderProperties.NGramRule | src/main/java/edu/umass/cs/ciir/searchie/SNLPFeatures.java:27-36 | The `ng` rule is null on strings without the ending `#\|C`, and it throws on `#\|C` itself. Otherwise it yields what precedes `#\|C`, minus its first char. |
| DecoderProperties.OccurrenceRule | src/main/java/edu/umass/cs/ciir/searchie/SNLPFeatures.java:119-131 | Without `OCCURRENCE` it is null. With the prefix `NO-OCCURRENCE-PATTERN` it yields that prefix. With one of the four endings it yields the input without its final `\|C`. Every other case is null. |
| DecoderProperties.ParseThrowsOnlyOnBareNGram | src/main/java/edu/umass/cs/ciir/searchie/SNLPFeatures.java:27-36 | A rule's `parse` throws exactly when it is the n-gram rule and the input is `#\|C`. |
| DecoderProperties.SplitAtEquals | src/main/java/edu/umass/cs/ciir/searchie/SNLPFeatures.java:261 | When keys hold no `=`, `key=value` determines the key and the value. |
| DecoderProperties.TagDeterminesKeyAndValue | src/main/java/edu/umass/cs/ciir/searchie/SNLPFeatures.java:258-262 | Two rules whose keys hold no `=` and that produce the same tag have the same key and the same value. |
| DecoderProperties.DecodeSpec | src/main/java/edu/umass/cs/ciir/searchie/SNLPFeatures.java:228-243 | One call has four outcomes, for any rule table. It skips exactly the string that trims to the sentinel. It reports exactly the trimmed strings on which every rule is null. It adds tag `t` exactly when the earliest non-null rule yields `t`. It throws exactly when the earliest non-null rule throws. |
| DecoderProperties.DecodeByRule | src/main/java/edu/umass/cs/ciir/searchie/SNLPFeatures.java:232-238 | A string on which the rules before `i` are null and rule `i` yields a tag decodes to that tag. |
| DecoderProperties.DecodeByNoRule | src/main/java/edu/umass/cs/ciir/searchie/SNLPFeatures.java:240-242 | A string on which every rule is null is reported, trimmed. |
| DecoderProperties.SentinelContributesNothing | src/main/java/edu/umass/cs/ciir/searchie/SNLPFeatures.java:229-230 | A string that trims to `PSEQ\|CpC` adds no tag and no report, and causes no throw. |
| DecoderProperties.UnmatchedOnlyReported | src/main/java/edu/umass/cs/ciir/searchie/SNLPFeatures.java:240-242 | An unmatched string leaves the decoded set unchanged and adds its trimmed form to the reports. |
| DecoderProperties.AddedAddsOneTag | src/main/java/edu/umass/cs/ciir/searchie/SNLPFeatures.java:233-237 | A string that decodes to a tag adds exactly that tag to the set. |
| DecoderProperties.DecodeAllOnlyOnElements | src/main/java/edu/umass/cs/ciir/searchie/SNLPFeatures.java:220-226 | The result of `parseAllFeatures` depends only on which strings occur, not on their order or repetition. |
| DecoderProperties.DecodeAllTwice | src/main/java/edu/umass/cs/ciir/searchie/SNLPFeatures.java:220-226 | Decoding a collection twice over gives what decoding it once gives. |
| DecoderProperties.TableKeysHaveNoEquals | src/main/java/edu/umass/cs/ciir/searchie/SNLPFeatures.java:18-218 | No key of the thirty rules contains `=`. |
| DecoderProperties.TagNamesItsRule | src/main/java/edu/umass/cs/ciir/searchie/SNLPFeatures.java:18-218 | With the actual table, two strings that decode to the same tag were taken by rules with the same key, and those rules yielded the same value. |
| DecoderProperties.CrashesExactlyOnBareNGram | src/main/java/edu/umass/cs/ciir/searchie/SNLPFeatures.java:27-36 | With the actual table, a raw string makes decoding throw exactly when it trims to `#\|C`. |
| DecoderProperties.DecodeAllThrowsExactlyOnBareNGram | src/main/java/edu/umass/cs/ciir/searchie/SNLPFeatures.java:220-226 | `parseAllFeatures` throws exactly when some string of the collection trims to `#\|C`. |
| DecoderProperties.NGramShadowsLaterRules | src/main/java/edu/umass/cs/ciir/searchie/SNLPFeatures.java:19-36 | Every trimmed string ending in `#\|C` decodes as a character n-gram, whatever later rule would also take it. The exceptions are `###\|C` and `#\|C`. |
| DecoderProperties.NGramRuleTakes | src/main/java/edu/umass/cs/ciir/searchie/SNLPFeatures.java:19-36 | On such a string, `cl` is null and `ng` yields the n-gram tag. |
| DecoderProperties.ClusterBeatsNGram | src/main/java/edu/umass/cs/ciir/searchie/SNLPFeatures.java:19-36 | `###\|C` decodes to `cl=#`, although the later `ng` rule would yield `ng=#`. |
| DecoderProperties.DecodeWord | src/main/java/edu/umass/cs/ciir/searchie/SNLPFeatures.java:74-82 | `fox-WORD\|C` decodes to `w[0]=fox`. |
| DecoderProperties.DecodeTitle | src/main/java/edu/umass/cs/ciir/searchie/SNLPFeatures.java:142-147 | `IS_TITLE\|C` decodes to `ti=TITLE`. |
| DecoderProperties.DecodeUnknown | src/main/java/edu/umass/cs/ciir/searchie/SNLPFeatures.java:240-242 | `totally-unknown-pattern` is taken by none of the thirty rules and is reported. |
| DecoderProperties.DecodeOnlySentinel | src/main/java/edu/umass/cs/ciir/searchie/SNLPFeatures.java:229-230 | A collection holding only the sentinel decodes to the empty set with no report. |
| DecoderProperties.DecodeAllOneTag | src/main/java/edu/umass/cs/ciir/searchie/SNLPFeatures.java:220-226 | A one-string collection that decodes to a tag gives exactly that tag. |
| DecoderProperties.DecodeAllOneUnmatched | src/main/java/edu/umass/cs/ciir/searchie/SNLPFeatures.java:240-242 | A one-string collection whose string matches no rule gives the empty set. Its one report is that string, trimmed. |
| DecoderProperties.SentinelFirst | src/main/java/edu/umass/cs/ciir/searchie/SNLPFeatures.java:229-230 | A leading sentinel changes neither the result nor the reports. |
| DecoderProperties.DecodeAllWord | src/main/java/edu/umass/cs/ciir/searchie/SNLPFeatures.java:220-226 | `["fox-WORD\|C"]` decodes to `{w[0]=fox}` with no report. |
| DecoderProperties.DecodeAllTitle | src/main/java/edu/umass/cs/ciir/searchie/SNLPFeatures.java:220-226 | `["IS_TITLE\|C"]` decodes to `{ti=TITLE}` with no report. |
| DecoderProperties.DecodeAllUnknown | src/main/java/edu/umass/cs/ciir/searchie/SNLPFeatures.java:240-242 | `["totally-unknown-pattern"]` decodes to the empty set and is the one report. |
| DecoderProperties.DecodeAllSentinelAndWord | src/main/java/edu/umass/cs/ciir/searchie/SNLPFeatures.java:229-237 | `["PSEQ\|CpC", "fox-WORD\|C"]` decodes to `{w[0]=fox}` with no report. |

## Left out

- `ExtractSearchIEFeatures.java` is not part of this model. It annotates one sentence with CoreNLP and builds each token's CRF datum with `makeDatum`. It then collects the feature names from `asFeatures()` into a `HashSet` and prints the result of `parseAllFeatures` on them through `System.out`.
- `System.err.println` is not performed. The line it would print is returned in the `stderr` sequence, in order.
- The Java `assert` in the `ng` rule (line 31) is modelled as disabled, which is the JVM default. With `-ea`, an n-gram whose stripped part does not start with `#` would throw `AssertionError` instead of yielding a value.
- `HashSet`/`HashMap` iteration order, identity and aliasing are not modelled. The input `Collection` is a sequence in iteration order. Sets and maps are Dafny values.
- `ExtractToFielded`: works on a map value and returns the updated map. It does not model the in-place mutation of the caller's `Map` or of the `Set` inside it.
- `ParseStanfordNERFeatures` and `ParseAllFeatures`: take the rule list as a parameter (`featureParsers`), so their contracts hold for any rule table. The static list of the source is the constant `Table`, and the lemmas about the actual rules use `Table`.
- NGramValue: strings are sequences of Unicode scalar values, not UTF-16 code units. When the part before `#|C` starts with a supplementary character, the model drops that whole character, while Java's `substring(1)` drops only its high surrogate. The source's own `assert` at line 31 says this part starts with `#`. Java strings holding lone surrogates cannot be represented.
- `null` arguments are not modelled. A `null` string or collection would raise `NullPointerException` in Java.
- Exceptions are modelled as one `Threw`/`Thrown` outcome, without the exception type. The only one that arises is `StringIndexOutOfBoundsException`, from `"".substring(1)` in the `ng` rule on `#|C`.
- Out-of-memory conditions and threads are not modelled.
