/**
 * The Stanford-NER feature-name decoder: an ordered table of rules, each
 * pairing a category key with a way of extracting a value from one raw
 * feature string; a raw string decodes to `key=value` for the FIRST rule that
 * yields a value.
 *
 * Java's `null` and its exceptions are explicit here: a rule's value is an
 * `Answer` (null, a string, or a thrown exception), and a decoding call whose
 * Java counterpart can throw returns a `Result`.
 */
module SNLPFeatures {
  import opened JavaString

  datatype Option<T> = None | Some(value: T)

  /** The outcome of a Java call returning a nullable String that may throw. */
  datatype Answer = Null | Str(s: string) | Thrown

  /** The outcome of a Java call that returns a value of type T or throws. */
  datatype Result<T> = Ok(value: T) | Threw

  /** How a rule's `parseValue` extracts a value from a raw feature string. */
  datatype Strategy =
    | Exact(literal: string, constant: string)  // equal to `literal`: yields `constant`
    | Strip(suffixes: seq<string>)              // the first suffix it ends with, removed
    | CharNGram                                  // the `ng` rule
    | Occurrence                                 // the `ocp` rule

  /** One entry of the rule table: a category key and its strategy. */
  datatype Rule = Rule(key: string, strategy: Strategy)

  /** The raw string that is skipped silently. */
  const Sentinel: string := "PSEQ|CpC"

  /** The rule table, in priority order. */
  const Table: seq<Rule> := [
    Rule("cl", Exact("###|C", "#")),
    Rule("ng", CharNGram),
    Rule("w[R]", Strip(["-DISJN|C"])),
    Rule("w[L]", Strip(["-DISJP|C"])),
    Rule("w[-1]", Strip(["-PW|C", "-PSEQpW|CpC"])),
    Rule("p[1]", Strip(["-NTAG|C"])),
    Rule("sh[-1,0,1]", Strip(["-PCNTYPE|C"])),
    Rule("sh[-1,0]", Strip(["-PCTYPE|C", "-TYPES|CpC"])),
    Rule("w[0]", Strip(["-WORD|C", "-PSEQW|CpC"])),
    Rule("c[1]", Strip(["-NDISTSIM|C"])),
    Rule("sh[0]w[-2]", Strip(["-PPW_CTYPE|C"])),
    Rule("w[0]p[-1]", Strip(["-W-PT|C"])),
    Rule("sh[0,1]", Strip(["-CNTYPE|C"])),
    Rule("sh[0]", Strip(["-TYPE|C", "-TPS2|CpC", "-PSEQcS|CpC"])),
    Rule("w[0]p[1]", Strip(["-W-NT|C"])),
    Rule("ocp", Occurrence),
    Rule("w[1]", Strip(["-NW|C"])),
    Rule("sh[0]w[-1]", Strip(["-PW_CTYPE|C"])),
    Rule("ti", Exact("IS_TITLE|C", "TITLE")),
    Rule("sh[0]w[2]", Strip(["-NNW_CTYPE|C"])),
    Rule("c[0]", Strip(["-DISTSIM|C", "-PSEQcDS|CpC"])),
    Rule("c[-1]", Strip(["-PDISTSIM|C", "-PSEQpDS|CpC"])),
    Rule("c[-1,0]", Strip(["-PSEQpcDS|CpC"])),
    Rule("p[0]", Strip(["-TAG|C"])),
    Rule("sh[0]w[1]", Strip(["-NW_CTYPE|C"])),
    Rule("sh[-1]", Strip(["-PTYPE|C", "-PSEQpS|CpC"])),
    Rule("sh[1]", Strip(["-NTYPE|C", "-TNS1|CpC"])),
    Rule("w[-1,0]", Strip(["-PSEQW2|CpC"])),
    Rule("w[0]p[0]", Strip(["-W-T|C"])),
    Rule("p[-1]", Strip(["-PTAG|C"]))
  ]

  // ---------------------------------------------------------------------------
  // Single rules
  // ---------------------------------------------------------------------------

  /** `beforeIfEndsWith`: `input` without the suffix `query`, or null. */
  function BeforeIfEndsWith(input: string, query: string): (r: Option<string>)
    ensures r.Some? <==> EndsWith(input, query)
    ensures r.Some? ==> r.value + query == input
  {
    if EndsWith(input, query) then Some(input[..|input| - |query|]) else None
  }

  /** A null-or-string Java value as an `Answer`. */
  function FromNullable(o: Option<string>): Answer {
    match o
    case None => Null
    case Some(v) => Str(v)
  }

  /**
   * The chain `result = beforeIfEndsWith(input, q); if (result != null) return
   * result; ...` over the suffixes in order.
   */
  function StripFirst(input: string, suffixes: seq<string>): (r: Option<string>)
    ensures r.None? <==> forall j :: 0 <= j < |suffixes| ==> !EndsWith(input, suffixes[j])
    ensures r.Some? ==> exists i :: 0 <= i < |suffixes| && r.value + suffixes[i] == input
                                    && forall j :: 0 <= j < i ==> !EndsWith(input, suffixes[j])
    decreases |suffixes|
  {
    if suffixes == [] then None
    else
      var result := BeforeIfEndsWith(input, suffixes[0]);
      if result.Some? then result else StripFirst(input, suffixes[1..])
  }

  const NGramSuffix: string := "#|C"

  /**
   * The `ng` rule: strip `#|C`, then drop the first char of what is left.
   * When nothing is left (`input` is exactly `#|C`), `substring(1)` throws.
   */
  function NGramValue(input: string): Answer {
    match BeforeIfEndsWith(input, NGramSuffix)
    case None => Null
    case Some(ng) => if |ng| == 0 then Thrown else Str(ng[1..])
  }

  const OccurrenceMark: string := "OCCURRENCE"
  const NoOccurrence: string := "NO-OCCURRENCE-PATTERN"

  /** One of the four endings the `ocp` rule accepts. */
  predicate HasOccurrenceEnding(input: string) {
    EndsWith(input, "-X|C") || EndsWith(input, "-XY|C") || EndsWith(input, "-YX|C") || EndsWith(input, "-Y|C")
  }

  /** The `ocp` rule. */
  function OccurrenceValue(input: string): Answer {
    if Contains(input, OccurrenceMark) then
      if StartsWith(input, NoOccurrence) then Str(NoOccurrence)
      else if HasOccurrenceEnding(input) then FromNullable(BeforeIfEndsWith(input, "|C"))
      else Null
    else Null
  }

  /** `parseValue` of a rule with the given strategy. */
  function ParseValue(strategy: Strategy, input: string): Answer {
    match strategy
    case Exact(literal, constant) => if input == literal then Str(constant) else Null
    case Strip(suffixes) => FromNullable(StripFirst(input, suffixes))
    case CharNGram => NGramValue(input)
    case Occurrence => OccurrenceValue(input)
  }

  /** `parse`: the rule's value prefixed with its key and `=`. */
  function Parse(rule: Rule, input: string): (r: Answer)
    ensures r.Null? <==> ParseValue(rule.strategy, input).Null?
    ensures r.Thrown? <==> ParseValue(rule.strategy, input).Thrown?
    ensures r.Str? <==> exists v :: ParseValue(rule.strategy, input) == Str(v) && r.s == rule.key + "=" + v
  {
    match ParseValue(rule.strategy, input)
    case Null => Null
    case Thrown => Thrown
    case Str(v) => Str(rule.key + "=" + v)
  }

  /**
   * `extractToFielded`: adds the rule's value to the set kept under the rule's
   * key in `output`, creating that set when the key is absent.
   */
  method ExtractToFielded(rule: Rule, input: string, output: map<string, set<string>>)
    returns (r: Result<map<string, set<string>>>)
    ensures ParseValue(rule.strategy, input).Null? ==> r == Ok(output)
    ensures ParseValue(rule.strategy, input).Thrown? ==> r == Threw
    ensures ParseValue(rule.strategy, input).Str? ==>
              r.Ok? && rule.key in r.value
              && r.value[rule.key] == (if rule.key in output then output[rule.key] else {}) + {ParseValue(rule.strategy, input).s}
              && (forall k :: k in output ==> k in r.value)
              && (forall k :: k in r.value && k != rule.key ==> k in output && r.value[k] == output[k])
  {
    var val := ParseValue(rule.strategy, input);
    if val.Thrown? {
      return Threw;
    }
    if val.Null? {
      return Ok(output);
    }
    var fielded := output;
    if rule.key !in fielded {
      fielded := fielded[rule.key := {}];
    }
    fielded := fielded[rule.key := fielded[rule.key] + {val.s}];
    r := Ok(fielded);
  }

  // ---------------------------------------------------------------------------
  // The rule table
  // ---------------------------------------------------------------------------

  /** Every rule before position `i` yields null on `s`. */
  predicate NullBefore(rules: seq<Rule>, i: int, s: string)
    requires 0 <= i <= |rules|
  {
    forall j :: 0 <= j < i ==> Parse(rules[j], s).Null?
  }

  /**
   * Scanning `rules` in order for the first one whose `parse` is not null: its
   * answer, or null when none applies. An exception ends the scan.
   */
  function FirstMatch(rules: seq<Rule>, s: string): Answer
    decreases |rules|
  {
    if rules == [] then Null
    else
      var a := Parse(rules[0], s);
      if a.Null? then FirstMatch(rules[1..], s) else a
  }

  /**
   * First match wins: the scan yields null exactly when every rule does, and
   * otherwise the answer of the earliest rule that is not null.
   */
  lemma {:induction false} FirstMatchIsFirst(rules: seq<Rule>, s: string)
    ensures FirstMatch(rules, s).Null? <==> NullBefore(rules, |rules|, s)
    ensures !FirstMatch(rules, s).Null? ==>
              exists i :: 0 <= i < |rules| && NullBefore(rules, i, s) && FirstMatch(rules, s) == Parse(rules[i], s)
    decreases |rules|
  {
    if rules != [] && Parse(rules[0], s).Null? {
      FirstMatchIsFirst(rules[1..], s);
      assert forall j :: 1 <= j < |rules| ==> rules[j] == rules[1..][j - 1];
      if !FirstMatch(rules, s).Null? {
        var i :| 0 <= i < |rules[1..]| && NullBefore(rules[1..], i, s) && FirstMatch(rules[1..], s) == Parse(rules[1..][i], s);
        assert NullBefore(rules, i + 1, s);
      }
    }
  }

  /** When the first `i` rules yield null, scanning may start at `i`. */
  lemma {:induction false} FirstMatchFrom(rules: seq<Rule>, i: nat, s: string)
    requires i <= |rules| && NullBefore(rules, i, s)
    ensures FirstMatch(rules, s) == FirstMatch(rules[i..], s)
    decreases i
  {
    if i > 0 {
      assert rules[1..][i - 1..] == rules[i..];
      FirstMatchFrom(rules[1..], i - 1, s);
    }
  }

  /** The scan stops at a non-null rule. */
  lemma {:induction false} FirstMatchAt(rules: seq<Rule>, i: nat, s: string)
    requires i < |rules| && NullBefore(rules, i, s) && !Parse(rules[i], s).Null?
    ensures FirstMatch(rules, s) == Parse(rules[i], s)
  {
    FirstMatchFrom(rules, i, s);
    assert rules[i..][0] == rules[i];
  }

  /** What decoding one raw string does. */
  datatype Step = Skipped | Added(tag: string) | Unmatched(raw: string) | Crashed

  /** The meaning of `parseStanfordNERFeatures` on one raw string, with the rules `rules`. */
  function Decode(rules: seq<Rule>, raw: string): Step {
    var f := Trim(raw);
    if f == Sentinel then Skipped
    else
      match FirstMatch(rules, f)
      case Null => Unmatched(f)
      case Str(t) => Added(t)
      case Thrown => Crashed
  }

  /** `parseStanfordNERFeatures`: decodes `fstr` into `parsedFeatures`. */
  method ParseStanfordNERFeatures(featureParsers: seq<Rule>, fstr: string, parsedFeatures: set<string>)
    returns (r: Result<set<string>>, stderr: seq<string>)
    ensures Decode(featureParsers, fstr).Skipped? ==> r == Ok(parsedFeatures) && stderr == []
    ensures Decode(featureParsers, fstr).Added? ==> r == Ok(parsedFeatures + {Decode(featureParsers, fstr).tag}) && stderr == []
    ensures Decode(featureParsers, fstr).Unmatched? ==> r == Ok(parsedFeatures) && stderr == [Decode(featureParsers, fstr).raw]
    ensures Decode(featureParsers, fstr).Crashed? ==> r == Threw && stderr == []
  {
    var f := Trim(fstr);
    stderr := [];
    if f == Sentinel {
      return Ok(parsedFeatures), stderr;
    }
    var found := false;
    var parsed := parsedFeatures;
    var i := 0;
    while i < |featureParsers|
      invariant 0 <= i <= |featureParsers|
      invariant !found && parsed == parsedFeatures && NullBefore(featureParsers, i, f)
    {
      var fvalue := Parse(featureParsers[i], f);
      if fvalue.Thrown? {
        FirstMatchAt(featureParsers, i, f);
        return Threw, stderr;
      }
      if fvalue.Str? {
        FirstMatchAt(featureParsers, i, f);
        parsed := parsed + {fvalue.s};
        found := true;
        break;
      }
      i := i + 1;
    }
    if !found {
      FirstMatchFrom(featureParsers, |featureParsers|, f);
      stderr := [f];
    }
    r := Ok(parsed);
  }

  // ---------------------------------------------------------------------------
  // Decoding a collection of raw strings
  // ---------------------------------------------------------------------------

  /** Some raw string among `inputs` makes its rule throw. */
  predicate Crashes(rules: seq<Rule>, inputs: seq<string>) {
    exists x :: x in inputs && Decode(rules, x).Crashed?
  }

  /** The tags decoded from `inputs`. */
  function Tags(rules: seq<Rule>, inputs: seq<string>): set<string> {
    set x | x in inputs && Decode(rules, x).Added? :: Decode(rules, x).tag
  }

  /** The meaning of `parseAllFeatures`: the union of every string's tag, unless one throws. */
  function DecodeAll(rules: seq<Rule>, inputs: seq<string>): Result<set<string>> {
    if Crashes(rules, inputs) then Threw else Ok(Tags(rules, inputs))
  }

  /** The unmatched strings reported on stderr, in order, up to an exception. */
  function Diagnostics(rules: seq<Rule>, inputs: seq<string>): seq<string> {
    if inputs == [] then []
    else
      match Decode(rules, inputs[0])
      case Crashed => []
      case Unmatched(raw) => [raw] + Diagnostics(rules, inputs[1..])
      case _ => Diagnostics(rules, inputs[1..])
  }

  /** After strings that do not throw, the later reports follow the earlier ones. */
  lemma {:induction false} DiagnosticsAppend(rules: seq<Rule>, a: seq<string>, b: seq<string>)
    requires !Crashes(rules, a)
    ensures Diagnostics(rules, a + b) == Diagnostics(rules, a) + Diagnostics(rules, b)
  {
    if a != [] {
      assert (a + b)[0] == a[0] && (a + b)[1..] == a[1..] + b;
      assert !Decode(rules, a[0]).Crashed?;
      DiagnosticsAppend(rules, a[1..], b);
    } else {
      assert a + b == b;
    }
  }

  /** Nothing after a string that throws is reported. */
  lemma {:induction false} DiagnosticsAfterCrash(rules: seq<Rule>, a: seq<string>, b: seq<string>)
    requires Crashes(rules, a)
    ensures Diagnostics(rules, a + b) == Diagnostics(rules, a)
  {
    assert (a + b)[0] == a[0] && (a + b)[1..] == a[1..] + b;
    if !Decode(rules, a[0]).Crashed? {
      var x :| x in a && Decode(rules, x).Crashed?;
      assert x in a[1..];
      DiagnosticsAfterCrash(rules, a[1..], b);
    }
  }

  /** Decoding a concatenation: a throw in either part, or the union of both parts' tags. */
  lemma DecodeAllAppend(rules: seq<Rule>, a: seq<string>, b: seq<string>)
    ensures Crashes(rules, a + b) <==> Crashes(rules, a) || Crashes(rules, b)
    ensures Tags(rules, a + b) == Tags(rules, a) + Tags(rules, b)
    ensures DecodeAll(rules, a + b) == if Crashes(rules, a) || Crashes(rules, b) then Threw
                                       else Ok(Tags(rules, a) + Tags(rules, b))
  {
    assert forall x :: x in a + b <==> x in a || x in b;
  }

  lemma TakeOneMore<T>(s: seq<T>, i: nat)
    requires i < |s|
    ensures s[..i + 1] == s[..i] + [s[i]]
  {
  }

  /** Decoding a single raw string. */
  lemma OneString(rules: seq<Rule>, x: string)
    ensures Crashes(rules, [x]) <==> Decode(rules, x).Crashed?
    ensures Tags(rules, [x]) == if Decode(rules, x).Added? then {Decode(rules, x).tag} else {}
    ensures Diagnostics(rules, [x]) == if Decode(rules, x).Unmatched? then [Decode(rules, x).raw] else []
  {
    assert forall y :: y in [x] <==> y == x;
    assert [x][1..] == [];
  }

  /** One more string that does not throw extends the loop's tags and reports. */
  lemma ParseAllStep(rules: seq<Rule>, inputs: seq<string>, i: nat)
    requires i < |inputs| && !Crashes(rules, inputs[..i]) && !Decode(rules, inputs[i]).Crashed?
    ensures !Crashes(rules, inputs[..i + 1])
    ensures Tags(rules, inputs[..i + 1]) ==
              Tags(rules, inputs[..i]) + (if Decode(rules, inputs[i]).Added? then {Decode(rules, inputs[i]).tag} else {})
    ensures Diagnostics(rules, inputs[..i + 1]) ==
              Diagnostics(rules, inputs[..i]) + (if Decode(rules, inputs[i]).Unmatched? then [Decode(rules, inputs[i]).raw] else [])
  {
    TakeOneMore(inputs, i);
    DecodeAllAppend(rules, inputs[..i], [inputs[i]]);
    DiagnosticsAppend(rules, inputs[..i], [inputs[i]]);
    OneString(rules, inputs[i]);
  }

  /** A string that throws ends decoding: the reports are those made before it. */
  lemma ParseAllCrash(rules: seq<Rule>, inputs: seq<string>, i: nat)
    requires i < |inputs| && !Crashes(rules, inputs[..i]) && Decode(rules, inputs[i]).Crashed?
    ensures DecodeAll(rules, inputs) == Threw
    ensures Diagnostics(rules, inputs) == Diagnostics(rules, inputs[..i])
  {
    assert inputs[i] in inputs;
    DiagnosticsAppend(rules, inputs[..i], inputs[i..]);
    assert inputs[..i] + inputs[i..] == inputs;
  }

  /** `parseAllFeatures`: decodes every string of `inputFeatures` into a fresh set. */
  method ParseAllFeatures(featureParsers: seq<Rule>, inputFeatures: seq<string>) returns (r: Result<set<string>>, stderr: seq<string>)
    ensures r == DecodeAll(featureParsers, inputFeatures)
    ensures stderr == Diagnostics(featureParsers, inputFeatures)
  {
    var ft: set<string> := {};
    stderr := [];
    var i := 0;
    while i < |inputFeatures|
      invariant 0 <= i <= |inputFeatures|
      invariant !Crashes(featureParsers, inputFeatures[..i])
      invariant ft == Tags(featureParsers, inputFeatures[..i])
      invariant stderr == Diagnostics(featureParsers, inputFeatures[..i])
    {
      var step, err := ParseStanfordNERFeatures(featureParsers, inputFeatures[i], ft);
      if step.Threw? {
        ParseAllCrash(featureParsers, inputFeatures, i);
        return Threw, stderr;
      }
      ParseAllStep(featureParsers, inputFeatures, i);
      stderr := stderr + err;
      ft := step.value;
      i := i + 1;
    }
    assert inputFeatures[..i] == inputFeatures;
    r := Ok(ft);
  }
}
