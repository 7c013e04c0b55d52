/**
 * What the decoder promises: properties of single rules, of the rule table in
 * its source order, and of decoding a collection of raw strings.
 */
module DecoderProperties {
  import opened JavaString
  import opened SNLPFeatures

  // ---------------------------------------------------------------------------
  // Single rules
  // ---------------------------------------------------------------------------

  /** The `cl` rule, first in the table, takes `###|C` alone, as `cl=#`. */
  lemma ClusterRuleExact(input: string)
    ensures Parse(Table[0], input).Str? <==> input == "###|C"
    ensures input == "###|C" ==> Parse(Table[0], input) == Str("cl=#")
    ensures input != "###|C" ==> Parse(Table[0], input) == Null
  {
    assert Table[0] == Rule("cl", Exact("###|C", "#"));
  }

  /** The `ti` rule, nineteenth in the table, takes `IS_TITLE|C` alone, as `ti=TITLE`. */
  lemma TitleRuleExact(input: string)
    ensures Parse(Table[18], input).Str? <==> input == "IS_TITLE|C"
    ensures input == "IS_TITLE|C" ==> Parse(Table[18], input) == Str("ti=TITLE")
    ensures input != "IS_TITLE|C" ==> Parse(Table[18], input) == Null
  {
    assert Table[18] == Rule("ti", Exact("IS_TITLE|C", "TITLE"));
  }

  /**
   * A suffix rule yields null exactly when none of its suffixes ends `input`,
   * and otherwise `input` with its earliest matching suffix removed.
   */
  lemma StripRule(suffixes: seq<string>, input: string)
    ensures ParseValue(Strip(suffixes), input).Null? <==>
              forall j :: 0 <= j < |suffixes| ==> !EndsWith(input, suffixes[j])
    ensures ParseValue(Strip(suffixes), input).Str? ==>
              exists i :: 0 <= i < |suffixes| && ParseValue(Strip(suffixes), input).s + suffixes[i] == input
                          && forall j :: 0 <= j < i ==> !EndsWith(input, suffixes[j])
    ensures !ParseValue(Strip(suffixes), input).Thrown?
  {
  }

  /**
   * The `ng` rule: null unless `input` ends with `#|C`; throws on `#|C`
   * itself; otherwise what precedes `#|C`, less its first char.
   */
  lemma NGramRule(input: string)
    ensures !EndsWith(input, NGramSuffix) ==> NGramValue(input) == Null
    ensures input == NGramSuffix ==> NGramValue(input) == Thrown
    ensures EndsWith(input, NGramSuffix) && input != NGramSuffix ==>
              |input| > 3 && NGramValue(input) == Str(input[1..|input| - 3])
  {
  }

  /**
   * The `ocp` rule applies only to strings containing `OCCURRENCE`: it yields
   * the constant for a string starting with `NO-OCCURRENCE-PATTERN`, the
   * string less its final `|C` for the four accepted endings, null otherwise.
   */
  lemma {:induction false} OccurrenceRule(input: string)
    ensures !Contains(input, OccurrenceMark) ==> OccurrenceValue(input) == Null
    ensures StartsWith(input, NoOccurrence) ==> OccurrenceValue(input) == Str(NoOccurrence)
    ensures Contains(input, OccurrenceMark) && !StartsWith(input, NoOccurrence) && HasOccurrenceEnding(input) ==>
              OccurrenceValue(input).Str? && OccurrenceValue(input).s + "|C" == input
    ensures Contains(input, OccurrenceMark) && !StartsWith(input, NoOccurrence) && !HasOccurrenceEnding(input) ==>
              OccurrenceValue(input) == Null
  {
    if StartsWith(input, NoOccurrence) {
      assert OccursAt(NoOccurrence, OccurrenceMark, 3);
      PrefixPieceContained(input, NoOccurrence, OccurrenceMark, 3);
    }
  }

  /** Only the `ng` rule can throw, and only on `#|C`. */
  lemma ParseThrowsOnlyOnBareNGram(rule: Rule, input: string)
    ensures Parse(rule, input).Thrown? <==> rule.strategy == CharNGram && input == NGramSuffix
  {
  }

  /** A key followed by `=` can be split off again when keys hold no `=`. */
  lemma {:induction false} SplitAtEquals(k1: string, v1: string, k2: string, v2: string)
    requires '=' !in k1 && '=' !in k2
    requires k1 + "=" + v1 == k2 + "=" + v2
    ensures k1 == k2 && v1 == v2
  {
    if k1 != [] && k2 != [] {
      assert k1[0] == (k1 + "=" + v1)[0] == (k2 + "=" + v2)[0] == k2[0];
      assert k1[1..] + "=" + v1 == (k1 + "=" + v1)[1..];
      assert k2[1..] + "=" + v2 == (k2 + "=" + v2)[1..];
      SplitAtEquals(k1[1..], v1, k2[1..], v2);
      assert k1 == [k1[0]] + k1[1..];
      assert k2 == [k2[0]] + k2[1..];
    } else if k1 == [] && k2 == [] {
      assert v1 == (k1 + "=" + v1)[1..];
      assert v2 == (k2 + "=" + v2)[1..];
    } else if k1 == [] {
      HeadOfConcat(k2 + "=", v2);
      assert false;
    } else {
      HeadOfConcat(k1 + "=", v1);
      assert false;
    }
  }

  lemma HeadOfConcat(a: string, b: string)
    requires a != []
    ensures (a + b)[0] == a[0]
  {
  }

  /** A tag names its rule's key and value unambiguously. */
  lemma TagDeterminesKeyAndValue(r1: Rule, x1: string, r2: Rule, x2: string)
    requires '=' !in r1.key && '=' !in r2.key
    requires Parse(r1, x1).Str? && Parse(r1, x1) == Parse(r2, x2)
    ensures r1.key == r2.key && ParseValue(r1.strategy, x1) == ParseValue(r2.strategy, x2)
  {
    var v1 :| ParseValue(r1.strategy, x1) == Str(v1) && Parse(r1, x1).s == r1.key + "=" + v1;
    var v2 :| ParseValue(r2.strategy, x2) == Str(v2) && Parse(r2, x2).s == r2.key + "=" + v2;
    SplitAtEquals(r1.key, v1, r2.key, v2);
  }

  // ---------------------------------------------------------------------------
  // Decoding one raw string, for any rule table
  // ---------------------------------------------------------------------------

  /**
   * Decoding one raw string: the trimmed sentinel is skipped; otherwise the
   * earliest rule that is not null decides (a tag or a throw), and a string
   * that no rule takes is reported unmatched, trimmed.
   */
  lemma {:induction false} DecodeSpec(rules: seq<Rule>, raw: string)
    ensures Decode(rules, raw) == Skipped <==> Trim(raw) == Sentinel
    ensures Decode(rules, raw).Unmatched? <==> Trim(raw) != Sentinel && NullBefore(rules, |rules|, Trim(raw))
    ensures Decode(rules, raw).Unmatched? ==> Decode(rules, raw).raw == Trim(raw)
    ensures forall t :: Decode(rules, raw) == Added(t) <==>
              Trim(raw) != Sentinel &&
              exists i :: 0 <= i < |rules| && NullBefore(rules, i, Trim(raw)) && Parse(rules[i], Trim(raw)) == Str(t)
    ensures Decode(rules, raw) == Crashed <==>
              Trim(raw) != Sentinel &&
              exists i :: 0 <= i < |rules| && NullBefore(rules, i, Trim(raw)) && Parse(rules[i], Trim(raw)) == Thrown
  {
    var f := Trim(raw);
    FirstMatchIsFirst(rules, f);
    forall i | 0 <= i < |rules| && NullBefore(rules, i, f) && !Parse(rules[i], f).Null?
      ensures FirstMatch(rules, f) == Parse(rules[i], f)
    {
      FirstMatchAt(rules, i, f);
    }
  }

  /** Every rule at an index in `[lo, hi)` yields null on `s`. */
  predicate NullBetween(rules: seq<Rule>, lo: nat, hi: nat, s: string) {
    lo <= hi <= |rules| && forall j :: lo <= j < hi ==> Parse(rules[j], s).Null?
  }

  /** Two adjacent null ranges make one. */
  lemma NullBetweenJoin(rules: seq<Rule>, lo: nat, mid: nat, hi: nat, s: string)
    requires NullBetween(rules, lo, mid, s) && NullBetween(rules, mid, hi, s)
    ensures NullBetween(rules, lo, hi, s)
  {
  }

  /** One rule yielding null is a null range of length one. */
  lemma NullBetweenOne(rules: seq<Rule>, i: nat, s: string)
    requires i < |rules| && Parse(rules[i], s).Null?
    ensures NullBetween(rules, i, i + 1, s)
  {
  }

  /** When the rules before `i` yield null and rule `i` yields `tag`, the string decodes to `tag`. */
  lemma DecodeByRule(rules: seq<Rule>, raw: string, i: nat, tag: string)
    requires i < |rules| && Trim(raw) != Sentinel
    requires NullBetween(rules, 0, i, Trim(raw))
    requires Parse(rules[i], Trim(raw)) == Str(tag)
    ensures Decode(rules, raw) == Added(tag)
  {
    FirstMatchAt(rules, i, Trim(raw));
  }

  /** When every rule yields null, the string is reported unmatched. */
  lemma DecodeByNoRule(rules: seq<Rule>, raw: string)
    requires Trim(raw) != Sentinel
    requires NullBetween(rules, 0, |rules|, Trim(raw))
    ensures Decode(rules, raw) == Unmatched(Trim(raw))
  {
    FirstMatchFrom(rules, |rules|, Trim(raw));
  }

  // ---------------------------------------------------------------------------
  // Decoding a collection of raw strings, for any rule table
  // ---------------------------------------------------------------------------

  /** The sentinel contributes nothing: no tag, no report, no throw. */
  lemma SentinelContributesNothing(rules: seq<Rule>, a: seq<string>, raw: string)
    requires Trim(raw) == Sentinel
    ensures Decode(rules, raw) == Skipped
    ensures DecodeAll(rules, a + [raw]) == DecodeAll(rules, a)
    ensures Diagnostics(rules, a + [raw]) == Diagnostics(rules, a)
  {
    DecodeAllAppend(rules, a, [raw]);
    OneString(rules, raw);
    assert Tags(rules, a) + Tags(rules, [raw]) == Tags(rules, a);
    if Crashes(rules, a) {
      DiagnosticsAfterCrash(rules, a, [raw]);
    } else {
      DiagnosticsAppend(rules, a, [raw]);
    }
  }

  /** An unmatched string leaves the decoded set as it was; it is only reported. */
  lemma UnmatchedOnlyReported(rules: seq<Rule>, a: seq<string>, raw: string)
    requires Decode(rules, raw).Unmatched?
    ensures DecodeAll(rules, a + [raw]) == DecodeAll(rules, a)
    ensures !Crashes(rules, a) ==> Diagnostics(rules, a + [raw]) == Diagnostics(rules, a) + [Trim(raw)]
  {
    DecodeAllAppend(rules, a, [raw]);
    OneString(rules, raw);
    assert Tags(rules, a) + Tags(rules, [raw]) == Tags(rules, a);
    DecodeSpec(rules, raw);
    if !Crashes(rules, a) {
      DiagnosticsAppend(rules, a, [raw]);
    }
  }

  /** A decoded string adds exactly its one tag. */
  lemma AddedAddsOneTag(rules: seq<Rule>, a: seq<string>, raw: string)
    requires Decode(rules, raw).Added?
    ensures DecodeAll(rules, a + [raw]) ==
              if Crashes(rules, a) then Threw else Ok(Tags(rules, a) + {Decode(rules, raw).tag})
  {
    DecodeAllAppend(rules, a, [raw]);
    OneString(rules, raw);
  }

  /** The decoded set depends on which strings occur, not on their order or repetition. */
  lemma DecodeAllOnlyOnElements(rules: seq<Rule>, a: seq<string>, b: seq<string>)
    requires forall x :: x in a <==> x in b
    ensures DecodeAll(rules, a) == DecodeAll(rules, b)
  {
    assert Crashes(rules, a) == Crashes(rules, b);
    assert Tags(rules, a) == Tags(rules, b);
  }

  /** Decoding the strings twice over gives what decoding them once gives. */
  lemma DecodeAllTwice(rules: seq<Rule>, a: seq<string>)
    ensures DecodeAll(rules, a + a) == DecodeAll(rules, a)
  {
    DecodeAllOnlyOnElements(rules, a + a, a);
  }

  // ---------------------------------------------------------------------------
  // The rule table
  // ---------------------------------------------------------------------------

  lemma KeysHaveNoEqualsLow(i: nat)
    requires i < 10
    ensures '=' !in Table[i].key
  {
  }

  lemma KeysHaveNoEqualsMid(i: nat)
    requires 10 <= i < 20
    ensures '=' !in Table[i].key
  {
  }

  lemma KeysHaveNoEqualsHigh(i: nat)
    requires 20 <= i < |Table|
    ensures '=' !in Table[i].key
  {
  }

  /** No key in the table contains `=`. */
  lemma TableKeysHaveNoEquals(i: nat)
    requires i < |Table|
    ensures '=' !in Table[i].key
  {
    if i < 10 {
      KeysHaveNoEqualsLow(i);
    } else if i < 20 {
      KeysHaveNoEqualsMid(i);
    } else {
      KeysHaveNoEqualsHigh(i);
    }
  }

  /** A tag names the category of the rule that produced it, and that rule's value. */
  lemma TagNamesItsRule(x: string, y: string, t: string)
    requires Decode(Table, x) == Added(t) && Decode(Table, y) == Added(t)
    ensures exists i, j :: 0 <= i < |Table| && 0 <= j < |Table| && Table[i].key == Table[j].key
              && Parse(Table[i], Trim(x)) == Str(t) && Parse(Table[j], Trim(y)) == Str(t)
              && ParseValue(Table[i].strategy, Trim(x)) == ParseValue(Table[j].strategy, Trim(y))
  {
    DecodeSpec(Table, x);
    DecodeSpec(Table, y);
    var i :| 0 <= i < |Table| && NullBefore(Table, i, Trim(x)) && Parse(Table[i], Trim(x)) == Str(t);
    var j :| 0 <= j < |Table| && NullBefore(Table, j, Trim(y)) && Parse(Table[j], Trim(y)) == Str(t);
    TableKeysHaveNoEquals(i);
    TableKeysHaveNoEquals(j);
    TagDeterminesKeyAndValue(Table[i], Trim(x), Table[j], Trim(y));
  }

  /** Decoding throws exactly on the raw string that trims to `#|C`. */
  lemma CrashesExactlyOnBareNGram(raw: string)
    ensures Decode(Table, raw) == Crashed <==> Trim(raw) == NGramSuffix
  {
    var f := Trim(raw);
    DecodeSpec(Table, raw);
    if f == NGramSuffix {
      assert Parse(Table[0], f).Null?;
      assert Parse(Table[1], f) == Thrown;
      FirstMatchAt(Table, 1, f);
    }
    if Decode(Table, raw) == Crashed {
      var i :| 0 <= i < |Table| && NullBefore(Table, i, f) && Parse(Table[i], f) == Thrown;
      ParseThrowsOnlyOnBareNGram(Table[i], f);
    }
  }

  /** `parseAllFeatures` throws exactly when some raw string trims to `#|C`. */
  lemma DecodeAllThrowsExactlyOnBareNGram(inputs: seq<string>)
    ensures DecodeAll(Table, inputs) == Threw <==> exists x :: x in inputs && Trim(x) == NGramSuffix
  {
    forall x | x in inputs {
      CrashesExactlyOnBareNGram(x);
    }
  }

  /**
   * Every string ending in `#|C`, other than the two the earlier `cl` rule and
   * the throw take, is a character n-gram: `ng` ranks second and shadows all
   * later rules.
   */
  lemma NGramShadowsLaterRules(raw: string)
    requires EndsWith(Trim(raw), NGramSuffix) && Trim(raw) != "###|C" && Trim(raw) != NGramSuffix
    ensures var f := Trim(raw); Decode(Table, raw) == Added("ng=" + f[1..|f| - 3])
  {
    var f := Trim(raw);
    NGramRuleTakes(f);
    NullBetweenOne(Table, 0, f);
    DecodeByRule(Table, raw, 1, "ng=" + f[1..|f| - 3]);
  }

  /** On a string ending in `#|C`, other than `###|C` and `#|C`, the `cl` rule is null and `ng` yields its tag. */
  lemma NGramRuleTakes(f: string)
    requires EndsWith(f, NGramSuffix) && f != "###|C" && f != NGramSuffix
    ensures f != Sentinel && |f| > 3
    ensures Parse(Table[0], f).Null? && Parse(Table[1], f) == Str("ng=" + f[1..|f| - 3])
  {
    assert f != Sentinel by {
      assert f[|f| - 2] == '|' && Sentinel[|Sentinel| - 2] == 'p';
    }
    ClusterRuleExact(f);
    assert Table[1] == Rule("ng", CharNGram);
    NGramRule(f);
  }

  /** `###|C` decodes by the `cl` rule, although the later `ng` rule would also take it. */
  lemma ClusterBeatsNGram()
    ensures Parse(Table[1], "###|C") == Str("ng=#")
    ensures Decode(Table, "###|C") == Added("cl=#")
  {
    TrimUntrimmable("###|C");
    ClusterRuleExact("###|C");
    assert Table[1] == Rule("ng", CharNGram);
    NGramRule("###|C");
    assert NullBetween(Table, 0, 0, "###|C");
    DecodeByRule(Table, "###|C", 0, "cl=#");
  }

  lemma WordMissesEarlierRules()
    ensures forall j :: 0 <= j < 8 ==> Parse(Table[j], "fox-WORD|C").Null?
  {
  }

  lemma WordRuleTakesWord()
    ensures Parse(Table[8], "fox-WORD|C") == Str("w[0]=fox")
  {
    assert Table[8] == Rule("w[0]", Strip(["-WORD|C", "-PSEQW|CpC"]));
    assert "fox-WORD|C"[..3] == "fox";
  }

  /** `fox-WORD|C` decodes to `w[0]=fox`. */
  lemma DecodeWord()
    ensures Decode(Table, "fox-WORD|C") == Added("w[0]=fox")
  {
    TrimUntrimmable("fox-WORD|C");
    WordMissesEarlierRules();
    WordRuleTakesWord();
    assert NullBetween(Table, 0, 8, "fox-WORD|C");
    DecodeByRule(Table, "fox-WORD|C", 8, "w[0]=fox");
  }

  lemma TitleMissesRules0To7()
    ensures forall j :: 0 <= j < 8 ==> Parse(Table[j], "IS_TITLE|C").Null?
  {
  }

  lemma TitleMissesRules8To10()
    ensures forall j :: 8 <= j < 11 ==> Parse(Table[j], "IS_TITLE|C").Null?
  {
  }

  lemma TitleMissesRules11To14()
    ensures forall j :: 11 <= j < 15 ==> Parse(Table[j], "IS_TITLE|C").Null?
  {
  }

  lemma TitleMissesOccurrenceRule()
    ensures Parse(Table[15], "IS_TITLE|C").Null?
  {
  }

  lemma TitleMissesRules16To17()
    ensures forall j :: 16 <= j < 18 ==> Parse(Table[j], "IS_TITLE|C").Null?
  {
  }

  /** `IS_TITLE|C` decodes to `ti=TITLE`. */
  lemma DecodeTitle()
    ensures Decode(Table, "IS_TITLE|C") == Added("ti=TITLE")
  {
    TrimUntrimmable("IS_TITLE|C");
    TitleMissesRules0To7();
    TitleMissesRules8To10();
    TitleMissesRules11To14();
    TitleMissesOccurrenceRule();
    TitleMissesRules16To17();
    TitleRuleExact("IS_TITLE|C");
    var t := "IS_TITLE|C";
    assert NullBetween(Table, 0, 8, t);
    assert NullBetween(Table, 8, 11, t);
    assert NullBetween(Table, 11, 15, t);
    NullBetweenJoin(Table, 8, 11, 15, t);
    NullBetweenOne(Table, 15, t);
    assert NullBetween(Table, 16, 18, t);
    NullBetweenJoin(Table, 0, 8, 15, t);
    NullBetweenJoin(Table, 0, 15, 16, t);
    NullBetweenJoin(Table, 0, 16, 18, t);
    DecodeByRule(Table, "IS_TITLE|C", 18, "ti=TITLE");
  }

  const Unknown: string := "totally-unknown-pattern"

  lemma UnknownMissesRules0To7()
    ensures forall j :: 0 <= j < 8 ==> Parse(Table[j], Unknown).Null?
  {
  }

  lemma UnknownMissesRules8To10()
    ensures forall j :: 8 <= j < 11 ==> Parse(Table[j], Unknown).Null?
  {
  }

  lemma UnknownMissesRules11To14()
    ensures forall j :: 11 <= j < 15 ==> Parse(Table[j], Unknown).Null?
  {
  }

  lemma UnknownMissesOccurrenceRule()
    ensures Parse(Table[15], Unknown).Null?
  {
    assert Unknown[0] != NoOccurrence[0];
  }

  lemma UnknownMissesRules16To22()
    ensures forall j :: 16 <= j < 23 ==> Parse(Table[j], Unknown).Null?
  {
  }

  lemma UnknownMissesRules23To29()
    ensures forall j :: 23 <= j < |Table| ==> Parse(Table[j], Unknown).Null?
  {
  }

  lemma UnknownMissesAllRules()
    ensures NullBetween(Table, 0, |Table|, Unknown)
  {
    UnknownMissesRules0To7();
    UnknownMissesRules8To10();
    UnknownMissesRules11To14();
    UnknownMissesOccurrenceRule();
    UnknownMissesRules16To22();
    UnknownMissesRules23To29();
    assert NullBetween(Table, 0, 8, Unknown);
    assert NullBetween(Table, 8, 11, Unknown);
    assert NullBetween(Table, 11, 15, Unknown);
    NullBetweenJoin(Table, 8, 11, 15, Unknown);
    NullBetweenOne(Table, 15, Unknown);
    assert NullBetween(Table, 16, 23, Unknown);
    assert NullBetween(Table, 23, 30, Unknown);
    NullBetweenJoin(Table, 0, 8, 15, Unknown);
    NullBetweenJoin(Table, 0, 15, 16, Unknown);
    NullBetweenJoin(Table, 0, 16, 23, Unknown);
    NullBetweenJoin(Table, 0, 23, 30, Unknown);
  }

  /** `totally-unknown-pattern` is taken by no rule. */
  lemma DecodeUnknown()
    ensures Decode(Table, Unknown) == Unmatched(Unknown)
  {
    TrimUntrimmable(Unknown);
    UnknownMissesAllRules();
    DecodeByNoRule(Table, Unknown);
  }

  // ---------------------------------------------------------------------------
  // Whole calls
  // ---------------------------------------------------------------------------

  /** Only the sentinel: nothing decoded, nothing reported. */
  lemma DecodeOnlySentinel(rules: seq<Rule>)
    ensures DecodeAll(rules, [Sentinel]) == Ok({})
    ensures Diagnostics(rules, [Sentinel]) == []
  {
    TrimUntrimmable(Sentinel);
    OneString(rules, Sentinel);
  }

  /** A single string that decodes to a tag gives just that tag and no report. */
  lemma DecodeAllOneTag(rules: seq<Rule>, x: string, t: string)
    requires Decode(rules, x) == Added(t)
    ensures DecodeAll(rules, [x]) == Ok({t})
    ensures Diagnostics(rules, [x]) == []
  {
    OneString(rules, x);
  }

  /** A single unmatched string gives no tag and is the one report, trimmed. */
  lemma DecodeAllOneUnmatched(rules: seq<Rule>, x: string)
    requires Decode(rules, x).Unmatched?
    ensures DecodeAll(rules, [x]) == Ok({})
    ensures Diagnostics(rules, [x]) == [Trim(x)]
  {
    OneString(rules, x);
  }

  /** A leading sentinel changes nothing. */
  lemma SentinelFirst(rules: seq<Rule>, x: string)
    ensures DecodeAll(rules, [Sentinel, x]) == DecodeAll(rules, [x])
    ensures Diagnostics(rules, [Sentinel, x]) == Diagnostics(rules, [x])
  {
    DecodeOnlySentinel(rules);
    OneString(rules, Sentinel);
    DecodeAllAppend(rules, [Sentinel], [x]);
    DiagnosticsAppend(rules, [Sentinel], [x]);
    assert [Sentinel] + [x] == [Sentinel, x];
    assert Tags(rules, [Sentinel]) + Tags(rules, [x]) == Tags(rules, [x]);
  }

  lemma DecodeAllWord()
    ensures DecodeAll(Table, ["fox-WORD|C"]) == Ok({"w[0]=fox"})
    ensures Diagnostics(Table, ["fox-WORD|C"]) == []
  {
    DecodeWord();
    DecodeAllOneTag(Table, "fox-WORD|C", "w[0]=fox");
  }

  lemma DecodeAllTitle()
    ensures DecodeAll(Table, ["IS_TITLE|C"]) == Ok({"ti=TITLE"})
    ensures Diagnostics(Table, ["IS_TITLE|C"]) == []
  {
    DecodeTitle();
    DecodeAllOneTag(Table, "IS_TITLE|C", "ti=TITLE");
  }

  lemma DecodeAllUnknown()
    ensures DecodeAll(Table, [Unknown]) == Ok({})
    ensures Diagnostics(Table, [Unknown]) == [Unknown]
  {
    TrimUntrimmable(Unknown);
    DecodeUnknown();
    DecodeAllOneUnmatched(Table, Unknown);
  }

  lemma DecodeAllSentinelAndWord()
    ensures DecodeAll(Table, [Sentinel, "fox-WORD|C"]) == Ok({"w[0]=fox"})
    ensures Diagnostics(Table, [Sentinel, "fox-WORD|C"]) == []
  {
    DecodeAllWord();
    SentinelFirst(Table, "fox-WORD|C");
  }
}
