/** The severity of a notification: explicit value, execution facts, rules, default; and the
    chain of rules built from a receiver's own rules and its presets. */
module Severity {
  import opened Basics

  datatype Severity = Debug | Info | Warning | Error | Critical

  datatype Source = Explicit | ExitCode | Duration | Rule | PresetRule | ReceiverDefault

  function Order(s: Severity): int {
    match s
    case Debug => 10
    case Info => 20
    case Warning => 30
    case Error => 40
    case Critical => 50
  }

  function Name(s: Severity): string {
    match s
    case Debug => "debug"
    case Info => "info"
    case Warning => "warning"
    case Error => "error"
    case Critical => "critical"
  }

  // ----- explicit severity -----

  function LowerChar(c: char): char {
    if 'A' <= c <= 'Z' then (c as int + 32) as char else c
  }

  /** Python's `lower` as far as these names go: no other character lowers to one of their
      letters alone. */
  function Lower(s: string): string {
    seq(|s|, i requires 0 <= i < |s| => LowerChar(s[i]))
  }

  /** The severity of that name in any casing; anything else, and no value, is ignored. */
  function ParseExplicit(value: Option<string>): (r: Option<Severity>)
    ensures forall s :: r == Some(s) <==> value.Some? && Lower(value.value) == Name(s)
  {
    if value == None then None
    else
      var name := Lower(value.value);
      if name == "debug" then Some(Debug)
      else if name == "info" then Some(Info)
      else if name == "warning" then Some(Warning)
      else if name == "error" then Some(Error)
      else if name == "critical" then Some(Critical)
      else
        assert forall s :: name != Name(s);
        None
  }

  // ----- rules and their order -----

  datatype EvaluableRule = EvaluableRule(pattern: string, severity: Severity, priority: int, caseInsensitive: bool,
                                         enabled: bool, id: string, presetId: Option<string>,
                                         presetName: Option<string>)

  /** What RE2 says of a pattern on the content at hand. */
  datatype Found = Hit | Miss | BadPattern

  type Matcher = (string, bool) -> Found

  /** Strings in the order of their code points. */
  predicate LexLe(a: string, b: string) {
    a == [] || (b != [] && (a[0] < b[0] || (a[0] == b[0] && LexLe(a[1..], b[1..]))))
  }

  lemma {:induction false} LexTotal(a: string, b: string)
    ensures LexLe(a, b) || LexLe(b, a)
  {
    if a == [] || b == [] || a[0] != b[0] {
    } else {
      LexTotal(a[1..], b[1..]);
    }
  }

  lemma {:induction false} LexTransitive(a: string, b: string, c: string)
    requires LexLe(a, b) && LexLe(b, c)
    ensures LexLe(a, c)
  {
    if a == [] || b == [] || c == [] || !(a[0] == b[0] == c[0]) {
    } else {
      LexTransitive(a[1..], b[1..], c[1..]);
    }
  }

  predicate FirstDiffer(a: string, b: string, k: int) {
    0 <= k < |a| && k < |b| && a[..k] == b[..k] && a[k] < b[k]
  }

  /** One is the beginning of the other, or smaller where they first differ. */
  lemma {:induction false} LexIsFirstDifference(a: string, b: string)
    ensures LexLe(a, b) <==> a <= b || exists k :: FirstDiffer(a, b, k)
  {
    if a == [] || b == [] {
    } else if a[0] != b[0] {
      assert FirstDiffer(a, b, 0) <==> a[0] < b[0];
      forall k | 0 < k < |a| && k < |b| ensures !FirstDiffer(a, b, k) { assert a[..k][0] != b[..k][0]; }
    } else {
      hide FirstDiffer;
      LexIsFirstDifference(a[1..], b[1..]);
      assert a == [a[0]] + a[1..] && b == [b[0]] + b[1..];
      forall k ensures FirstDiffer(a, b, k) <==> FirstDiffer(a[1..], b[1..], k - 1) { DifferLater(a, b, k); }
      if j :| FirstDiffer(a[1..], b[1..], j) { assert FirstDiffer(a, b, j + 1) by { DifferLater(a, b, j + 1); } }
    }
  }

  lemma DifferLater(a: string, b: string, k: int)
    requires a != [] && b != [] && a[0] == b[0]
    ensures FirstDiffer(a, b, k) <==> FirstDiffer(a[1..], b[1..], k - 1)
  {
    if 0 < k < |a| && k < |b| {
      assert a[..k] == [a[0]] + a[1..][..k - 1] && b[..k] == [b[0]] + b[1..][..k - 1];
      assert a[1..][..k - 1] == a[..k][1..] && b[1..][..k - 1] == b[..k][1..];
      assert a[1..][k - 1] == a[k] && b[1..][k - 1] == b[k];
    }
  }

  lemma {:induction false} LexAntisymmetric(a: string, b: string)
    requires LexLe(a, b) && LexLe(b, a)
    ensures a == b
  {
    if a == [] || b == [] {
    } else {
      LexAntisymmetric(a[1..], b[1..]);
      assert a == [a[0]] + a[1..] && b == [b[0]] + b[1..];
    }
  }

  /** The sort key: priority, then id. */
  predicate RuleLe(a: EvaluableRule, b: EvaluableRule) {
    a.priority < b.priority || (a.priority == b.priority && LexLe(a.id, b.id))
  }

  lemma RuleOrder(a: EvaluableRule, b: EvaluableRule, c: EvaluableRule)
    ensures RuleLe(a, b) || RuleLe(b, a)
    ensures RuleLe(a, b) && RuleLe(b, c) ==> RuleLe(a, c)
    ensures RuleLe(a, b) && RuleLe(b, a) ==> a.priority == b.priority && a.id == b.id
  {
    LexTotal(a.id, b.id);
    if LexLe(a.id, b.id) && LexLe(b.id, c.id) { LexTransitive(a.id, b.id, c.id); }
    if LexLe(a.id, b.id) && LexLe(b.id, a.id) { LexAntisymmetric(a.id, b.id); }
  }

  predicate InOrder(s: seq<EvaluableRule>) {
    forall i :: 0 < i < |s| ==> RuleLe(s[i - 1], s[i])
  }

  function Insert(r: EvaluableRule, s: seq<EvaluableRule>): seq<EvaluableRule> {
    if s == [] || RuleLe(r, s[0]) then [r] + s else [s[0]] + Insert(r, s[1..])
  }

  /** Python's `sorted`, which is stable. */
  function Sort(rules: seq<EvaluableRule>): seq<EvaluableRule> {
    if rules == [] then [] else Insert(rules[0], Sort(rules[1..]))
  }

  lemma {:induction false} InsertKeepsOrder(r: EvaluableRule, s: seq<EvaluableRule>)
    requires InOrder(s)
    ensures InOrder(Insert(r, s))
    ensures Insert(r, s)[0] == if s == [] || RuleLe(r, s[0]) then r else s[0]
  {
    if s == [] || RuleLe(r, s[0]) {
    } else {
      InsertKeepsOrder(r, s[1..]);
      RuleOrder(r, s[0], s[0]);
      if |s| > 1 { assert RuleLe(s[0], s[1]); }
    }
  }

  lemma {:induction false} SortIsInOrder(rules: seq<EvaluableRule>)
    ensures InOrder(Sort(rules))
  {
    if rules == [] {
    } else {
      SortIsInOrder(rules[1..]);
      InsertKeepsOrder(rules[0], Sort(rules[1..]));
    }
  }

  // ----- the rule that decides -----

  /** An enabled rule that does not simply pass: it matches, or its pattern is refused. */
  predicate Speaks(rule: EvaluableRule, search: Matcher) {
    rule.enabled && search(rule.pattern, rule.caseInsensitive) != Miss
  }

  function FirstSpeaking(s: seq<EvaluableRule>, search: Matcher): Option<EvaluableRule> {
    if s == [] then None else if Speaks(s[0], search) then Some(s[0]) else FirstSpeaking(s[1..], search)
  }

  /** No speaking rule has a smaller key, nor the same key earlier in the list. */
  ghost predicate Decides(rules: seq<EvaluableRule>, search: Matcher, i: int) {
    && 0 <= i < |rules| && Speaks(rules[i], search)
    && forall j :: 0 <= j < |rules| && Speaks(rules[j], search) ==>
         RuleLe(rules[i], rules[j]) && (RuleLe(rules[j], rules[i]) ==> i <= j)
  }

  lemma {:induction false} FirstOfInsert(r: EvaluableRule, s: seq<EvaluableRule>, search: Matcher)
    requires InOrder(s)
    ensures var m := FirstSpeaking(s, search);
            FirstSpeaking(Insert(r, s), search)
            == if Speaks(r, search) && (m == None || RuleLe(r, m.value)) then Some(r) else m
  {
    if s == [] {
    } else if RuleLe(r, s[0]) {
      assert ([r] + s)[1..] == s;
      FirstIsAbove(s, search);
      if FirstSpeaking(s, search).Some? { RuleOrder(r, s[0], FirstSpeaking(s, search).value); }
    } else {
      FirstOfInsert(r, s[1..], search);
      assert ([s[0]] + Insert(r, s[1..]))[1..] == Insert(r, s[1..]);
    }
  }

  lemma {:induction false} FirstIsAbove(s: seq<EvaluableRule>, search: Matcher)
    requires InOrder(s) && s != []
    ensures FirstSpeaking(s, search).Some? ==> RuleLe(s[0], FirstSpeaking(s, search).value)
  {
    RuleOrder(s[0], s[0], s[0]);
    if Speaks(s[0], search) || |s| == 1 {
    } else {
      FirstIsAbove(s[1..], search);
      if FirstSpeaking(s, search).Some? {
        assert RuleLe(s[0], s[1]);
        RuleOrder(s[0], s[1], FirstSpeaking(s, search).value);
      }
    }
  }

  /** The first speaking rule of the sorted list is the deciding one of the list as given. */
  lemma {:induction false} SortedFirstDecides(rules: seq<EvaluableRule>, search: Matcher)
    ensures var m := FirstSpeaking(Sort(rules), search);
            if m == None then forall j :: 0 <= j < |rules| ==> !Speaks(rules[j], search)
            else exists i :: Decides(rules, search, i) && rules[i] == m.value
  {
    if rules != [] {
      var r, rest := rules[0], rules[1..];
      SortedFirstDecides(rest, search);
      SortIsInOrder(rest);
      FirstOfInsert(r, Sort(rest), search);
      var m := FirstSpeaking(Sort(rest), search);
      if m == None {
        if Speaks(r, search) { DecidesAlone(rules, search); }
      } else {
        var i :| Decides(rest, search, i) && rest[i] == m.value;
        if Speaks(r, search) && RuleLe(r, m.value) {
          HeadDecides(rules, search, i);
        } else {
          TailDecides(rules, search, i);
        }
      }
    }
  }

  lemma DecidesAlone(rules: seq<EvaluableRule>, search: Matcher)
    requires rules != [] && Speaks(rules[0], search)
    requires forall j :: 0 <= j < |rules| - 1 ==> !Speaks(rules[1..][j], search)
    ensures Decides(rules, search, 0)
  {
    RuleOrder(rules[0], rules[0], rules[0]);
    forall j | 0 < j < |rules| ensures !Speaks(rules[j], search) { assert rules[j] == rules[1..][j - 1]; }
  }

  lemma HeadDecides(rules: seq<EvaluableRule>, search: Matcher, i: int)
    requires rules != [] && Decides(rules[1..], search, i)
    requires Speaks(rules[0], search) && RuleLe(rules[0], rules[1..][i])
    ensures Decides(rules, search, 0)
  {
    forall j | 0 <= j < |rules| && Speaks(rules[j], search) ensures RuleLe(rules[0], rules[j]) {
      RuleOrder(rules[0], rules[0], rules[0]);
      if j > 0 {
        assert rules[j] == rules[1..][j - 1];
        RuleOrder(rules[0], rules[1..][i], rules[j]);
      }
    }
  }

  lemma TailDecides(rules: seq<EvaluableRule>, search: Matcher, i: int)
    requires rules != [] && Decides(rules[1..], search, i)
    requires Speaks(rules[0], search) ==> !RuleLe(rules[0], rules[1..][i])
    ensures Decides(rules, search, i + 1)
  {
    forall j | 0 <= j < |rules| && Speaks(rules[j], search)
      ensures RuleLe(rules[i + 1], rules[j]) && (RuleLe(rules[j], rules[i + 1]) ==> i + 1 <= j)
    {
      if j > 0 {
        assert rules[j] == rules[1..][j - 1];
      } else {
        RuleOrder(rules[0], rules[i + 1], rules[0]);
      }
    }
  }

  // ----- resolve_severity -----

  datatype Facts = Facts(header: Option<string>, query: Option<string>, default': Severity,
                         exitCode: Option<int>, exitCodeSeverity: Option<Severity>,
                         durationMs: Option<int>, thresholdSeconds: Option<int>, durationSeverity: Option<Severity>)

  datatype Resolution =
    | Resolved(severity: Severity, source: Source, rule: Option<EvaluableRule>, durationExceeded: bool)
    | InvalidPattern(pattern: string)

  /** Strictly more than the threshold, and only with all three values. */
  function DurationExceedsThreshold(durationMs: Option<int>, thresholdSeconds: Option<int>,
                                    severity: Option<Severity>): bool
  {
    durationMs.Some? && thresholdSeconds.Some? && severity.Some? && durationMs.value > thresholdSeconds.value * 1000
  }

  predicate Slow(f: Facts) {
    DurationExceedsThreshold(f.durationMs, f.thresholdSeconds, f.durationSeverity)
  }

  predicate Failed(f: Facts) {
    f.exitCode.Some? && f.exitCode.value != 0 && f.exitCodeSeverity.Some?
  }

  /** The header counts before the query parameter. */
  function ExplicitOf(f: Facts): Option<Severity> {
    if ParseExplicit(f.header).Some? then ParseExplicit(f.header) else ParseExplicit(f.query)
  }

  function Verdict(rule: EvaluableRule, search: Matcher, slow: bool): Resolution {
    if search(rule.pattern, rule.caseInsensitive) == BadPattern then InvalidPattern(rule.pattern)
    else Resolved(rule.severity, if rule.presetId.Some? then PresetRule else Rule, Some(rule), slow)
  }

  /** The graver of the two facts; at equal gravity the exit code. */
  ghost predicate IsGravest(f: Facts, severity: Severity, source: Source) {
    && (source == ExitCode || source == Duration)
    && (source == ExitCode ==> Failed(f) && severity == f.exitCodeSeverity.value)
    && (source == Duration ==> Slow(f) && severity == f.durationSeverity.value)
    && (Failed(f) ==> Order(f.exitCodeSeverity.value) <= Order(severity))
    && (Slow(f) ==> Order(f.durationSeverity.value) <= Order(severity))
    && (Failed(f) && Order(f.exitCodeSeverity.value) == Order(severity) ==> source == ExitCode)
  }

  ghost predicate IsResolution(f: Facts, rules: seq<EvaluableRule>, search: Matcher, r: Resolution) {
    if ExplicitOf(f).Some? then r == Resolved(ExplicitOf(f).value, Explicit, None, Slow(f))
    else if Failed(f) || Slow(f) then
      r.Resolved? && IsGravest(f, r.severity, r.source) && r.rule == None && r.durationExceeded == Slow(f)
    else if exists j :: 0 <= j < |rules| && Speaks(rules[j], search) then
      exists i :: Decides(rules, search, i) && r == Verdict(rules[i], search, Slow(f))
    else r == Resolved(f.default', ReceiverDefault, None, Slow(f))
  }

  predicate IsFirstGravest(outcome: seq<(Severity, Source)>, i: int) {
    && 0 <= i < |outcome|
    && (forall j :: 0 <= j < |outcome| ==> Order(outcome[j].0) <= Order(outcome[i].0))
    && forall j :: 0 <= j < i ==> Order(outcome[j].0) < Order(outcome[i].0)
  }

  /** Python's `max` by gravity: the first of the gravest. */
  method Gravest(outcome: seq<(Severity, Source)>) returns (best: (Severity, Source))
    requires outcome != []
    ensures exists i :: IsFirstGravest(outcome, i) && best == outcome[i]
  {
    best := outcome[0];
    ghost var at := 0;
    for k := 1 to |outcome|
      invariant 0 <= at < k <= |outcome| && outcome[at] == best
      invariant forall j :: 0 <= j < k ==> Order(outcome[j].0) <= Order(best.0)
      invariant forall j :: 0 <= j < at ==> Order(outcome[j].0) < Order(best.0)
    {
      if Order(outcome[k].0) > Order(best.0) { best, at := outcome[k], k; }
    }
    assert IsFirstGravest(outcome, at);
  }

  /** The list `resolve_severity` builds, exit code before duration. */
  predicate IsOutcome(f: Facts, outcome: seq<(Severity, Source)>) {
    outcome == (if Failed(f) then [(f.exitCodeSeverity.value, ExitCode)] else []) +
               (if Slow(f) then [(f.durationSeverity.value, Duration)] else [])
  }

  lemma GravestOfFacts(f: Facts, outcome: seq<(Severity, Source)>, best: (Severity, Source))
    requires IsOutcome(f, outcome) && exists i :: IsFirstGravest(outcome, i) && best == outcome[i]
    ensures IsGravest(f, best.0, best.1)
  {
    if Failed(f) { assert outcome[0] == (f.exitCodeSeverity.value, ExitCode); }
    if Slow(f) { assert outcome[|outcome| - 1] == (f.durationSeverity.value, Duration); }
  }

  method ResolveSeverity(f: Facts, rules: seq<EvaluableRule>, search: Matcher) returns (r: Resolution)
    ensures IsResolution(f, rules, search, r)
    ensures r.Resolved? ==> r.durationExceeded == Slow(f)
  {
    hide Decides, Sort, LexLe, Name, Lower;
    var slow := DurationExceedsThreshold(f.durationMs, f.thresholdSeconds, f.durationSeverity);
    var explicit := ParseExplicit(f.header);
    if explicit == None { explicit := ParseExplicit(f.query); }
    if explicit.Some? { return Resolved(explicit.value, Explicit, None, slow); }
    var outcome: seq<(Severity, Source)> := [];
    if f.exitCode.Some? && f.exitCode.value != 0 && f.exitCodeSeverity.Some? {
      outcome := outcome + [(f.exitCodeSeverity.value, ExitCode)];
    }
    if slow { outcome := outcome + [(f.durationSeverity.value, Duration)]; }
    if outcome != [] {
      var best := Gravest(outcome);
      GravestOfFacts(f, outcome, best);
      return Resolved(best.0, best.1, None, slow);
    }
    var sorted := Sort(rules);
    SortedFirstDecides(rules, search);
    for i := 0 to |sorted|
      invariant FirstSpeaking(sorted[i..], search) == FirstSpeaking(sorted, search)
    {
      var rule := sorted[i];
      assert sorted[i..][1..] == sorted[i + 1..];
      if !rule.enabled { continue; }
      var found := search(rule.pattern, rule.caseInsensitive);
      if found == BadPattern { SpeakerDecides(rules, search, rule); return InvalidPattern(rule.pattern); }
      if found == Hit {
        SpeakerDecides(rules, search, rule);
        return Resolved(rule.severity, if rule.presetId.Some? then PresetRule else Rule, Some(rule), slow);
      }
    }
    return Resolved(f.default', ReceiverDefault, None, slow);
  }

  lemma SpeakerDecides(rules: seq<EvaluableRule>, search: Matcher, rule: EvaluableRule)
    requires FirstSpeaking(Sort(rules), search) == Some(rule)
    ensures exists i :: Decides(rules, search, i) && rules[i] == rule
    ensures exists j :: 0 <= j < |rules| && Speaks(rules[j], search)
  {
    SortedFirstDecides(rules, search);
    var i :| Decides(rules, search, i) && rules[i] == rule;
  }

  // ----- what the facts call for -----

  /** Debug, info, warning, error, critical. */
  predicate Milder(a: Severity, b: Severity) {
    match a
    case Debug => b != Debug
    case Info => b == Warning || b == Error || b == Critical
    case Warning => b == Error || b == Critical
    case Error => b == Critical
    case Critical => false
  }

  lemma GravityIsOrdered(a: Severity, b: Severity)
    ensures Order(a) < Order(b) <==> Milder(a, b)
  {}

  /** The five names, in any casing, and nothing else. */
  lemma NamesAreRead()
    ensures ParseExplicit(Some("debug")) == Some(Debug) && ParseExplicit(Some("INFO")) == Some(Info)
    ensures ParseExplicit(Some("Warning")) == Some(Warning) && ParseExplicit(Some("eRRor")) == Some(Error)
    ensures ParseExplicit(Some("critical")) == Some(Critical)
    ensures ParseExplicit(Some("banana")) == None == ParseExplicit(Some("")) == ParseExplicit(None)
  {
    assert Lower("INFO") == "info" && Lower("Warning") == "warning" && Lower("eRRor") == "error";
    assert Lower("debug") == "debug" && Lower("critical") == "critical" && Lower("banana") == "banana";
  }

  predicate NamesSeverity(value: Option<string>, s: Severity) {
    value.Some? && Lower(value.value) == Name(s)
  }

  /** A job counts as too long from the first millisecond past the threshold on, and only with a
      duration, a threshold and a severity. */
  lemma ThresholdIsStrict(f: Facts, rules: seq<EvaluableRule>, search: Matcher, r: Resolution)
    requires IsResolution(f, rules, search, r) && r.Resolved?
    ensures f.durationMs == None || f.thresholdSeconds == None || f.durationSeverity == None ==> !r.durationExceeded
    ensures f.durationMs.Some? && f.thresholdSeconds.Some? && f.durationSeverity.Some? ==>
      (r.durationExceeded <==> f.durationMs.value >= 1000 * f.thresholdSeconds.value + 1)
  {
    hide ParseExplicit, LexLe;
  }

  /** Longer jobs stay too long, whatever decides the severity. */
  lemma ThresholdIsMonotone(f: Facts, longer: int, rules: seq<EvaluableRule>, search: Matcher,
                            r: Resolution, r': Resolution)
    requires f.durationMs.Some? && f.durationMs.value <= longer
    requires IsResolution(f, rules, search, r) && IsResolution(f.(durationMs := Some(longer)), rules, search, r')
    requires r.Resolved? && r.durationExceeded
    ensures r'.Resolved? && r'.durationExceeded
  {
    hide ParseExplicit, LexLe;
  }

  /** What decides, from the facts as they come in: a severity named by the header, else by the query;
      else the exit code or the duration, the graver policy of the two and at equal gravity the exit
      code; else a rule or the receiver's own severity. */
  lemma FactsDecide(f: Facts, rules: seq<EvaluableRule>, search: Matcher, r: Resolution)
    requires IsResolution(f, rules, search, r)
    ensures forall s :: NamesSeverity(f.header, s) ==> r.Resolved? && r.source == Explicit && r.severity == s
    ensures forall s :: NamesSeverity(f.query, s) && (forall h :: !NamesSeverity(f.header, h)) ==>
              r.Resolved? && r.source == Explicit && r.severity == s
    ensures var explicit := exists s :: NamesSeverity(f.header, s) || NamesSeverity(f.query, s);
            var failed := f.exitCode.Some? && f.exitCode.value != 0 && f.exitCodeSeverity.Some?;
            var long := f.durationMs.Some? && f.thresholdSeconds.Some? && f.durationSeverity.Some?
                        && f.durationMs.value > 1000 * f.thresholdSeconds.value;
            && (r.Resolved? && r.source == Explicit <==> explicit)
            && (r.Resolved? && r.source == ExitCode
                <==> !explicit && failed && !(long && Milder(f.exitCodeSeverity.value, f.durationSeverity.value)))
            && (r.Resolved? && r.source == Duration
                <==> !explicit && long && (failed ==> Milder(f.exitCodeSeverity.value, f.durationSeverity.value)))
    ensures r.Resolved? && r.source == ExitCode ==> f.exitCodeSeverity == Some(r.severity)
    ensures r.Resolved? && r.source == Duration ==> f.durationSeverity == Some(r.severity)
    ensures r.Resolved? && r.source == ReceiverDefault ==> r.severity == f.default'
  {
    hide LexLe, Lower, Name, Decides;
    ExplicitMeans(f);
    if f.exitCodeSeverity.Some? && f.durationSeverity.Some? {
      GravityIsOrdered(f.exitCodeSeverity.value, f.durationSeverity.value);
    }
  }

  predicate HasDecided(rule: EvaluableRule, search: Matcher, r: Resolution) {
    match search(rule.pattern, rule.caseInsensitive)
    case BadPattern => r == InvalidPattern(rule.pattern)
    case Hit => r.Resolved? && r.severity == rule.severity && r.rule == Some(rule)
                && r.source == (if rule.presetId == None then Rule else PresetRule)
    case Miss => false
  }

  /** A lower priority number, or the same and a smaller id. */
  predicate RuleBefore(a: EvaluableRule, b: EvaluableRule) {
    a.priority < b.priority || (a.priority == b.priority && a.id != b.id && LexLe(a.id, b.id))
  }

  /** When a rule decides, it is enabled and matches, and no other enabled rule with a lower priority number,
      or with the same and a smaller id, does or is refused; when none decides, all enabled rules miss. */
  lemma RuleDecides(f: Facts, rules: seq<EvaluableRule>, search: Matcher, r: Resolution)
    requires IsResolution(f, rules, search, r)
    ensures r.InvalidPattern? || r.source == Rule || r.source == PresetRule ==>
      exists i :: 0 <= i < |rules| && rules[i].enabled && HasDecided(rules[i], search, r)
                  && forall j :: 0 <= j < |rules| && rules[j].enabled && RuleBefore(rules[j], rules[i]) ==>
                       search(rules[j].pattern, rules[j].caseInsensitive) == Miss
    ensures r.Resolved? && r.source == ReceiverDefault ==>
      forall j :: 0 <= j < |rules| && rules[j].enabled ==> search(rules[j].pattern, rules[j].caseInsensitive) == Miss
  {
    hide ParseExplicit, ExplicitOf, LexLe;
    if r.InvalidPattern? || r.source == Rule || r.source == PresetRule {
      var i :| Decides(rules, search, i) && r == Verdict(rules[i], search, Slow(f));
      forall j | 0 <= j < |rules| && rules[j].enabled && RuleBefore(rules[j], rules[i])
        ensures search(rules[j].pattern, rules[j].caseInsensitive) == Miss
      {
        if Speaks(rules[j], search) { RuleOrder(rules[i], rules[j], rules[i]); }
      }
    }
  }

  lemma ExplicitMeans(f: Facts)
    ensures forall s :: NamesSeverity(f.header, s) ==> ExplicitOf(f) == Some(s)
    ensures forall s :: NamesSeverity(f.query, s) && (forall h :: !NamesSeverity(f.header, h)) ==>
              ExplicitOf(f) == Some(s)
    ensures ExplicitOf(f).Some? <==> exists s :: NamesSeverity(f.header, s) || NamesSeverity(f.query, s)
  {
    hide Lower, Name;
    forall s ensures NamesSeverity(f.header, s) <==> ParseExplicit(f.header) == Some(s) {}
    forall s ensures NamesSeverity(f.query, s) <==> ParseExplicit(f.query) == Some(s) {}
    if ParseExplicit(f.header).Some? { assert NamesSeverity(f.header, ParseExplicit(f.header).value); }
    if ParseExplicit(f.query).Some? { assert NamesSeverity(f.query, ParseExplicit(f.query).value); }
  }

  // ----- what follows -----

  lemma DeciderBeats(rules: seq<EvaluableRule>, search: Matcher, i: int, j: int)
    requires Decides(rules, search, i) && 0 <= j < |rules| && !RuleLe(rules[i], rules[j])
    ensures !Speaks(rules[j], search)
  {}

  lemma DeciderIsBelow(rules: seq<EvaluableRule>, search: Matcher, i: int, j: int)
    requires Decides(rules, search, i) && 0 <= j < |rules| && Speaks(rules[j], search)
    ensures RuleLe(rules[i], rules[j])
  {}

  lemma DecidesUnique(rules: seq<EvaluableRule>, search: Matcher, i: int, j: int)
    requires Decides(rules, search, i) && Decides(rules, search, j)
    ensures i == j
  {}

  /** Facts, rules and matcher determine the resolution, even when keys are shared. */
  lemma ResolutionIsUnique(f: Facts, rules: seq<EvaluableRule>, search: Matcher, r: Resolution, r': Resolution)
    requires IsResolution(f, rules, search, r) && IsResolution(f, rules, search, r')
    ensures r == r'
  {
    hide ParseExplicit, Verdict, LexLe;
    if ExplicitOf(f) == None && !Failed(f) && !Slow(f) && exists j :: 0 <= j < |rules| && Speaks(rules[j], search) {
      var i :| Decides(rules, search, i) && r == Verdict(rules[i], search, Slow(f));
      var k :| Decides(rules, search, k) && r' == Verdict(rules[k], search, Slow(f));
      DecidesUnique(rules, search, i, k);
    }
  }

  ghost predicate DistinctKeys(rules: seq<EvaluableRule>) {
    forall i, j :: 0 <= i < j < |rules| ==> rules[i].priority != rules[j].priority || rules[i].id != rules[j].id
  }

  /** The order in which distinct-keyed rules are listed does not matter. */
  lemma ListingOrderIrrelevant(f: Facts, rules: seq<EvaluableRule>, other: seq<EvaluableRule>, search: Matcher,
                               r: Resolution, r': Resolution)
    requires DistinctKeys(rules) && forall x :: x in rules <==> x in other
    requires IsResolution(f, rules, search, r) && IsResolution(f, other, search, r')
    ensures r == r'
  {
    hide ParseExplicit, LexLe;
    if ExplicitOf(f) == None && !Failed(f) && !Slow(f) {
      if j :| 0 <= j < |rules| && Speaks(rules[j], search) {
        assert rules[j] in other;
        var i :| Decides(rules, search, i) && r == Verdict(rules[i], search, Slow(f));
        var k :| Decides(other, search, k) && r' == Verdict(other[k], search, Slow(f));
        SameDecider(rules, other, search, i, k);
      } else {
        forall k | 0 <= k < |other| ensures !Speaks(other[k], search) { assert other[k] in rules; }
      }
    }
  }

  lemma SameDecider(rules: seq<EvaluableRule>, other: seq<EvaluableRule>, search: Matcher, i: int, k: int)
    requires DistinctKeys(rules) && (forall x :: x in rules <==> x in other)
    requires Decides(rules, search, i) && Decides(other, search, k)
    ensures rules[i] == other[k]
  {
    assert rules[i] in other && other[k] in rules;
    var i' :| 0 <= i' < |rules| && rules[i'] == other[k];
    var k' :| 0 <= k' < |other| && other[k'] == rules[i];
    assert RuleLe(rules[i], rules[i']) && RuleLe(other[k], other[k']);
    RuleOrder(rules[i], rules[i'], rules[i]);
  }

  // ----- the chain -----

  datatype RuleRow = RuleRow(pattern: string, severity: Severity, priority: int, caseInsensitive: bool, enabled: bool,
                             id: string)

  /** A preset's rule as the join returns it. */
  datatype PresetRow = PresetRow(rule: RuleRow, presetId: string, presetName: string, position: int)

  predicate OwnLe(a: RuleRow, b: RuleRow) {
    a.priority < b.priority || (a.priority == b.priority && LexLe(a.id, b.id))
  }

  predicate PresetLe(a: PresetRow, b: PresetRow) {
    a.position < b.position || (a.position == b.position && OwnLe(a.rule, b.rule))
  }

  /** The two SELECTs: the enabled rows, in the order asked for. */
  ghost predicate IsOwnQuery(table: set<RuleRow>, result: seq<RuleRow>) {
    && (forall x :: x in result <==> x in table && x.enabled)
    && forall i, j :: 0 <= i < j < |result| ==> OwnLe(result[i], result[j])
  }

  ghost predicate IsPresetQuery(table: set<PresetRow>, result: seq<PresetRow>) {
    && (forall x :: x in result <==> x in table && x.rule.enabled)
    && forall i, j :: 0 <= i < j < |result| ==> PresetLe(result[i], result[j])
  }

  function OwnRule(row: RuleRow, position: int): EvaluableRule {
    EvaluableRule(row.pattern, row.severity, position, row.caseInsensitive, true, row.id, None, None)
  }

  function FromPreset(row: PresetRow, position: int): EvaluableRule {
    EvaluableRule(row.rule.pattern, row.rule.severity, position, row.rule.caseInsensitive, true, row.rule.id,
                  Some(row.presetId), Some(row.presetName))
  }

  predicate IsChain(own: seq<RuleRow>, presets: seq<PresetRow>, chain: seq<EvaluableRule>) {
    && |chain| == |own| + |presets|
    && (forall k :: 0 <= k < |own| ==> chain[k] == OwnRule(own[k], k))
    && forall k :: 0 <= k < |presets| ==> chain[|own| + k] == FromPreset(presets[k], |own| + k)
  }

  lemma PositionsAreDistinct(own: seq<RuleRow>, presets: seq<PresetRow>, chain: seq<EvaluableRule>)
    requires IsChain(own, presets, chain)
    ensures DistinctKeys(chain)
  {
    forall k | 0 <= k < |chain| ensures chain[k].priority == k {
      if k >= |own| {
        var n := k - |own|;
        assert chain[|own| + n] == FromPreset(presets[n], |own| + n);
      }
    }
  }

  method LoadEvaluationChain(own: seq<RuleRow>, presets: seq<PresetRow>) returns (chain: seq<EvaluableRule>)
    ensures IsChain(own, presets, chain) && DistinctKeys(chain)
  {
    chain := [];
    for i := 0 to |own|
      invariant |chain| == i && forall k :: 0 <= k < i ==> chain[k] == OwnRule(own[k], k)
    {
      var row := own[i];
      chain := chain + [EvaluableRule(row.pattern, row.severity, |chain|, row.caseInsensitive, true, row.id,
                                      None, None)];
    }
    for i := 0 to |presets|
      invariant |chain| == |own| + i && forall k :: 0 <= k < |own| ==> chain[k] == OwnRule(own[k], k)
      invariant forall k :: 0 <= k < i ==> chain[|own| + k] == FromPreset(presets[k], |own| + k)
    {
      var row := presets[i];
      chain := chain + [EvaluableRule(row.rule.pattern, row.rule.severity, |chain|, row.rule.caseInsensitive, true,
                                      row.rule.id, Some(row.presetId), Some(row.presetName))];
    }
    PositionsAreDistinct(own, presets, chain);
  }

  /** The answer of a row that decides, with the columns of the row itself. */
  predicate AnswersWith(r: Resolution, row: RuleRow, preset: Option<(string, string)>, search: Matcher) {
    if search(row.pattern, row.caseInsensitive) == BadPattern then r == InvalidPattern(row.pattern)
    else
      && r.Resolved? && r.severity == row.severity && !r.durationExceeded && r.rule.Some?
      && r.rule.value.id == row.id && r.rule.value.pattern == row.pattern
      && match preset
         case None => r.source == Rule && r.rule.value.presetId == None
         case Some((id, name)) =>
           r.source == PresetRule && r.rule.value.presetId == Some(id) && r.rule.value.presetName == Some(name)
  }

  predicate RowSpeaks(row: RuleRow, search: Matcher) {
    row.enabled && search(row.pattern, row.caseInsensitive) != Miss
  }

  /** The lower priority number, then the id that is shorter or smaller where they differ. */
  ghost predicate Precedes(row: RuleRow, other: RuleRow) {
    || row.priority < other.priority
    || (row.priority == other.priority
        && (row.id <= other.id || exists k :: FirstDiffer(row.id, other.id, k)))
  }

  lemma OwnLePrecedes(row: RuleRow, other: RuleRow)
    ensures OwnLe(row, other) <==> Precedes(row, other)
  {
    LexIsFirstDifference(row.id, other.id);
  }

  ghost predicate IsLeastOwn(table: set<RuleRow>, search: Matcher, row: RuleRow) {
    row in table && RowSpeaks(row, search) && forall x :: x in table && RowSpeaks(x, search) ==> Precedes(row, x)
  }

  ghost predicate IsLeastPreset(table: set<PresetRow>, search: Matcher, row: PresetRow) {
    && row in table && RowSpeaks(row.rule, search)
    && forall x :: x in table && RowSpeaks(x.rule, search) ==>
         row.position < x.position || (row.position == x.position && Precedes(row.rule, x.rule))
  }

  /** What the tables call for: the receiver's own rules by (priority, id), and only when
      none of them speaks those of the presets by (position, priority, id). */
  ghost predicate IsTableResolution(f: Facts, own: set<RuleRow>, presets: set<PresetRow>, search: Matcher,
                                    r: Resolution)
  {
    if exists x :: x in own && RowSpeaks(x, search) then
      exists row :: IsLeastOwn(own, search, row) && AnswersWith(r, row, None, search)
    else if exists x :: x in presets && RowSpeaks(x.rule, search) then
      exists row ::
        IsLeastPreset(presets, search, row) && AnswersWith(r, row.rule, Some((row.presetId, row.presetName)), search)
    else r == Resolved(f.default', ReceiverDefault, None, false)
  }

  /** Loading the chain and resolving over it gives what the tables call for: any speaking
      rule of the receiver beats every preset. */
  lemma OwnRulesComeFirst(f: Facts, ownTable: set<RuleRow>, presetTable: set<PresetRow>, own: seq<RuleRow>,
                          presets: seq<PresetRow>, chain: seq<EvaluableRule>, search: Matcher, r: Resolution)
    requires IsOwnQuery(ownTable, own) && IsPresetQuery(presetTable, presets) && IsChain(own, presets, chain)
    requires IsResolution(f, chain, search, r) && ExplicitOf(f) == None && !Failed(f) && !Slow(f)
    ensures IsTableResolution(f, ownTable, presetTable, search, r)
  {
    hide ParseExplicit, ExplicitOf, LexLe, Verdict, AnswersWith, OwnRule, FromPreset, IsOwnQuery, IsPresetQuery, OwnLe;
    hide PresetLe, RowSpeaks, IsChain;
    if j :| 0 <= j < |chain| && Speaks(chain[j], search) {
      var i :| Decides(chain, search, i) && r == Verdict(chain[i], search, Slow(f));
      ChainLength(own, presets, chain);
      if i < |own| {
        LeastOwn(ownTable, own, presets, chain, search, i);
        OwnAnswers(own[i], i, search, r);
      } else {
        NoOwnSpeaks(ownTable, own, presets, chain, search, i);
        LeastPreset(ownTable, presetTable, own, presets, chain, search, i);
        PresetAnswers(presets[i - |own|], i, search, r);
      }
    } else {
      NoRowSpeaks(ownTable, presetTable, own, presets, chain, search);
    }
  }

  lemma ChainLength(own: seq<RuleRow>, presets: seq<PresetRow>, chain: seq<EvaluableRule>)
    requires IsChain(own, presets, chain)
    ensures |chain| == |own| + |presets|
  {}

  lemma OwnAnswers(row: RuleRow, k: int, search: Matcher, r: Resolution)
    requires r == Verdict(OwnRule(row, k), search, false)
    ensures AnswersWith(r, row, None, search)
  {}

  lemma PresetAnswers(row: PresetRow, k: int, search: Matcher, r: Resolution)
    requires r == Verdict(FromPreset(row, k), search, false)
    ensures AnswersWith(r, row.rule, Some((row.presetId, row.presetName)), search)
  {}

  lemma NoRowSpeaks(ownTable: set<RuleRow>, presetTable: set<PresetRow>, own: seq<RuleRow>, presets: seq<PresetRow>,
                    chain: seq<EvaluableRule>, search: Matcher)
    requires IsOwnQuery(ownTable, own) && IsPresetQuery(presetTable, presets) && IsChain(own, presets, chain)
    requires forall j :: 0 <= j < |chain| ==> !Speaks(chain[j], search)
    ensures forall x :: x in ownTable ==> !RowSpeaks(x, search)
    ensures forall x :: x in presetTable ==> !RowSpeaks(x.rule, search)
  {
    hide LexLe;
    forall x | x in ownTable ensures !RowSpeaks(x, search) {
      if x.enabled { var k :| 0 <= k < |own| && own[k] == x; assert !Speaks(chain[k], search); }
    }
    forall x | x in presetTable ensures !RowSpeaks(x.rule, search) {
      if x.rule.enabled { var k :| 0 <= k < |presets| && presets[k] == x; assert !Speaks(chain[|own| + k], search); }
    }
  }

  lemma LeastOwn(table: set<RuleRow>, own: seq<RuleRow>, presets: seq<PresetRow>, chain: seq<EvaluableRule>,
                 search: Matcher, i: int)
    requires IsOwnQuery(table, own) && IsChain(own, presets, chain) && Decides(chain, search, i) && i < |own|
    ensures chain[i] == OwnRule(own[i], i) && IsLeastOwn(table, search, own[i])
  {
    assert own[i] in own;
    hide Precedes;
    forall x | x in table && RowSpeaks(x, search) ensures Precedes(own[i], x) {
      OwnLePrecedes(own[i], x);
      var k :| 0 <= k < |own| && own[k] == x;
      assert Speaks(chain[k], search) && RuleLe(chain[i], chain[k]);
      LexTotal(x.id, x.id);
    }
  }

  lemma LeastPreset(ownTable: set<RuleRow>, table: set<PresetRow>, own: seq<RuleRow>, presets: seq<PresetRow>,
                    chain: seq<EvaluableRule>, search: Matcher, i: int)
    requires IsOwnQuery(ownTable, own) && IsPresetQuery(table, presets) && IsChain(own, presets, chain)
    requires Decides(chain, search, i) && |own| <= i
    ensures chain[i] == FromPreset(presets[i - |own|], i) && IsLeastPreset(table, search, presets[i - |own|])
  {
    hide LexLe, Precedes;
    var n := i - |own|;
    assert chain[|own| + n] == FromPreset(presets[n], i) && presets[n] in presets;
    forall x | x in table && RowSpeaks(x.rule, search)
      ensures presets[n].position < x.position
              || (presets[n].position == x.position && Precedes(presets[n].rule, x.rule))
    {
      OwnLePrecedes(presets[n].rule, x.rule);
      var k :| 0 <= k < |presets| && presets[k] == x;
      DeciderIsBelow(chain, search, i, |own| + k);
      LexTotal(x.rule.id, x.rule.id);
    }
  }

  lemma NoOwnSpeaks(table: set<RuleRow>, own: seq<RuleRow>, presets: seq<PresetRow>, chain: seq<EvaluableRule>,
                    search: Matcher, i: int)
    requires IsOwnQuery(table, own) && IsChain(own, presets, chain) && Decides(chain, search, i) && |own| <= i
    ensures forall x :: x in table ==> !RowSpeaks(x, search)
  {
    hide LexLe;
    var n := i - |own|;
    assert chain[|own| + n] == FromPreset(presets[n], i);
    forall x | x in table ensures !RowSpeaks(x, search) {
      if x.enabled {
        var k :| 0 <= k < |own| && own[k] == x;
        DeciderBeats(chain, search, i, k);
      }
    }
  }
}
