/**
  `parse_timeline`: for each phase, the start time (first matching line in
  collector order), the end time (last matching line, or for a tagged
  pattern list the last line matching the earliest pattern that matches at
  all, with that pattern's tag), and a fallback "suspicious line" text.
  Times are integer milliseconds; a line whose phrases match but that has
  no leading timestamp is passed over.
 */
module TimelineEngine {
  import opened Wrappers
  import opened Text
  import opened LogTime
  import opened Search
  import opened TimelineRules

  /** Every line is one whose leading timestamp, if any, `strptime` accepts. */
  predicate WellDated(lines: seq<string>) {
    forall j {:trigger CalendarOk(lines[j])} :: 0 <= j < |lines| ==> CalendarOk(lines[j])
  }

  /** The line contains both phrases and carries a timestamp. */
  predicate Hit(line: string, pat: Pattern) {
    Contains(line, pat.first) && Contains(line, pat.second) && LineInstant(line).Some?
  }

  /** `Hit` as a test on lines, the one the scans apply. */
  function Hits(pat: Pattern): string -> bool {
    l => Hit(l, pat)
  }

  /** Some line of `lines` hits the pattern: the reverse search finds one. */
  predicate Matched(lines: seq<string>, pat: Pattern) {
    LastWhere(lines, Hits(pat)).Some?
  }

  /** A pattern is matched exactly when some line hits it. */
  lemma MatchedIff(lines: seq<string>, pat: Pattern)
    ensures Matched(lines, pat) <==> exists j :: 0 <= j < |lines| && Hit(lines[j], pat)
  {
    var r := LastWhere(lines, Hits(pat));
    if r.Some? {
      assert Hits(pat)(lines[r.value]);
    }
  }

  /** A start rule: the time of the first hitting line. */
  function StartTime(lines: seq<string>, pat: Pattern): (r: Option<int>)
    ensures r.None? <==> !Matched(lines, pat)
  {
    match FirstWhere(lines, Hits(pat))
    case None => None
    case Some(i) => LineInstant(lines[i])
  }

  /** A start time is the timestamp of a hitting line with no hitting line before it. */
  lemma StartTimeIsFirst(lines: seq<string>, pat: Pattern)
    ensures var r := StartTime(lines, pat);
            r.Some? ==> exists i :: 0 <= i < |lines| && Hit(lines[i], pat) && r == LineInstant(lines[i])
                                    && forall j :: 0 <= j < i ==> !Hit(lines[j], pat)
  {
    match FirstWhere(lines, Hits(pat)) {
      case None =>
      case Some(i) =>
        assert Hit(lines[i], pat) && StartTime(lines, pat) == LineInstant(lines[i]);
    }
  }

  /** The first hitting line gives the start time. */
  lemma StartTimeAt(lines: seq<string>, pat: Pattern, i: nat)
    requires i < |lines| && Hit(lines[i], pat) && forall j :: 0 <= j < i ==> !Hit(lines[j], pat)
    ensures StartTime(lines, pat) == LineInstant(lines[i])
  {
    FirstWhereIs(lines, Hits(pat), i);
  }

  /** An end rule: the time of the last hitting line (the first one met scanning in reverse). */
  function EndTime(lines: seq<string>, pat: Pattern): (r: Option<int>)
    ensures r.None? <==> !Matched(lines, pat)
  {
    match LastWhere(lines, Hits(pat))
    case None => None
    case Some(i) => LineInstant(lines[i])
  }

  /** An end time is the timestamp of a hitting line with no hitting line after it. */
  lemma EndTimeIsLast(lines: seq<string>, pat: Pattern)
    ensures var r := EndTime(lines, pat);
            r.Some? ==> exists i :: 0 <= i < |lines| && Hit(lines[i], pat) && r == LineInstant(lines[i])
                                    && forall j :: i < j < |lines| ==> !Hit(lines[j], pat)
  {
    match LastWhere(lines, Hits(pat)) {
      case None =>
      case Some(i) =>
        assert Hit(lines[i], pat) && EndTime(lines, pat) == LineInstant(lines[i]);
    }
  }

  /** The last hitting line gives the end time. */
  lemma EndTimeAt(lines: seq<string>, pat: Pattern, i: nat)
    requires i < |lines| && Hit(lines[i], pat) && forall j :: i < j < |lines| ==> !Hit(lines[j], pat)
    ensures EndTime(lines, pat) == LineInstant(lines[i])
  {
    LastWhereIs(lines, Hits(pat), i);
  }

  /** `Matched` as a test on tagged patterns, the one the outer loop applies. */
  function MatchedIn(lines: seq<string>): TaggedPattern -> bool {
    (tp: TaggedPattern) => Matched(lines, tp.pattern)
  }

  /** The index of the tagged pattern that decides a priority end rule: the earliest that matches. */
  function Winner(lines: seq<string>, pats: seq<TaggedPattern>): (r: Option<nat>)
    ensures r.None? <==> forall k :: 0 <= k < |pats| ==> !Matched(lines, pats[k].pattern)
    ensures r.Some? ==> r.value < |pats| && Matched(lines, pats[r.value].pattern)
                        && forall k :: 0 <= k < r.value ==> !Matched(lines, pats[k].pattern)
  {
    FirstWhere(pats, MatchedIn(lines))
  }

  /** A priority end rule: the end time and tag of the winning pattern. */
  function PriorityEndTime(lines: seq<string>, pats: seq<TaggedPattern>): (r: Option<(int, Tag)>)
    ensures r.None? <==> Winner(lines, pats).None?
    ensures r.Some? ==> var k := Winner(lines, pats).value;
                        r.value.1 == pats[k].tag && Some(r.value.0) == EndTime(lines, pats[k].pattern)
  {
    match Winner(lines, pats)
    case None => None
    case Some(k) => Some((EndTime(lines, pats[k].pattern).value, pats[k].tag))
  }

  /** The first pattern that matches decides a priority end rule. */
  lemma PriorityAt(lines: seq<string>, pats: seq<TaggedPattern>, k: nat)
    requires k < |pats| && Matched(lines, pats[k].pattern)
    requires forall k' :: 0 <= k' < k ==> !Matched(lines, pats[k'].pattern)
    ensures PriorityEndTime(lines, pats) == Some((EndTime(lines, pats[k].pattern).value, pats[k].tag))
  {
    var w := Winner(lines, pats);
    assert w.Some? && w.value == k;
  }

  /** What `result` holds for one phase: `<phase>_start`, `<phase>_end` and `<phase>_end_status`. */
  datatype PhaseWindow = PhaseWindow(start: Option<int>, end: Option<int>, tag: Option<Tag>)

  /** The window one phase rule gives. */
  function Window(rule: PhaseRule, lines: seq<string>): (w: PhaseWindow)
    ensures w.start == StartTime(lines, rule.start)
    ensures rule.end.PairEnd? ==> w.end == EndTime(lines, rule.end.pair) && w.tag.None?
    ensures rule.end.PriorityEnd? ==> (w.end.Some? <==> w.tag.Some?)
  {
    var start := StartTime(lines, rule.start);
    match rule.end
    case PairEnd(p) => PhaseWindow(start, EndTime(lines, p), None)
    case PriorityEnd(pats) =>
      match PriorityEndTime(lines, pats)
      case None => PhaseWindow(start, None, None)
      case Some(et) => PhaseWindow(start, Some(et.0), Some(et.1))
  }

  // ---------------------------------------------------------------------------
  // The fallback "suspicious line"

  const SuspiciousWords: seq<string> := ["fail", "error", "warn", "skip", "missing", "retry"]

  /** The lowered line names the phase and one of the suspicious words. */
  predicate Suspicious(line: string, p: Phase) {
    var low := Lower(line);
    Contains(low, PhaseName(p)) && exists k :: 0 <= k < |SuspiciousWords| && Contains(low, SuspiciousWords[k])
  }

  /** Line `i` is suspicious for `p` and no later line is. */
  predicate LastSuspicious(lines: seq<string>, p: Phase, i: nat) {
    i < |lines| && Suspicious(lines[i], p) && forall j :: i < j < |lines| ==> !Suspicious(lines[j], p)
  }

  /** The last 120 characters of the stripped last suspicious line, or "INCOMPLETE". */
  function FallbackText(lines: seq<string>, p: Phase): (r: string)
    ensures (forall j :: 0 <= j < |lines| ==> !Suspicious(lines[j], p)) ==> r == "INCOMPLETE"
    ensures (exists j :: 0 <= j < |lines| && Suspicious(lines[j], p)) ==>
      exists i: nat :: LastSuspicious(lines, p, i) && EndsWith(Strip(lines[i]), r) &&
        |r| == (if |Strip(lines[i])| <= 120 then |Strip(lines[i])| else 120)
  {
    match LastWhere(lines, l => Suspicious(l, p))
    case None => "INCOMPLETE"
    case Some(i) =>
      var r := LastN(Strip(lines[i]), 120);
      assert LastSuspicious(lines, p, i);
      r
  }

  // ---------------------------------------------------------------------------
  // The loops of parse_timeline

  /** One line of a scan: both phrases present, then the leading timestamp read. */
  method TryLine(line: string, pat: Pattern) returns (t: Option<int>)
    requires CalendarOk(line)
    ensures t.Some? <==> Hit(line, pat)
    ensures t.Some? ==> t == LineInstant(line)
  {
    LineInstantOf(line);
    t := None;
    if Contains(line, pat.first) && Contains(line, pat.second) {
      var x := ExtractTime(line);
      if x.Some? {
        t := Some(ToMillis(x.value));
      }
    }
  }

  /** The forward scan of a start rule. */
  method ScanForward(lines: seq<string>, pat: Pattern) returns (t: Option<int>)
    requires WellDated(lines)
    ensures t == StartTime(lines, pat)
  {
    var i := 0;
    while i < |lines|
      invariant 0 <= i <= |lines|
      invariant forall j :: 0 <= j < i ==> !Hit(lines[j], pat)
    {
      var x := TryLine(lines[i], pat);
      if x.Some? {
        t := x;
        StartTimeAt(lines, pat, i);
        return;
      }
      NoHitUpTo(lines, pat, i);
      i := i + 1;
    }
    MatchedIff(lines, pat);
    t := None;
  }

  /** A line that misses extends a run of missing lines at the start up to it. */
  lemma NoHitUpTo(lines: seq<string>, pat: Pattern, i: nat)
    requires i < |lines| && !Hit(lines[i], pat)
    requires forall j :: 0 <= j < i ==> !Hit(lines[j], pat)
    ensures forall j :: 0 <= j < i + 1 ==> !Hit(lines[j], pat)
  {
  }

  /** The reverse scan of an end rule. */
  method ScanBackward(lines: seq<string>, pat: Pattern) returns (t: Option<int>)
    requires WellDated(lines)
    ensures t == EndTime(lines, pat)
  {
    var i := |lines|;
    while i > 0
      invariant 0 <= i <= |lines|
      invariant forall j :: i <= j < |lines| ==> !Hit(lines[j], pat)
    {
      i := i - 1;
      var x := TryLine(lines[i], pat);
      if x.Some? {
        t := x;
        EndTimeAt(lines, pat, i);
        return;
      }
      NoHitFrom(lines, pat, i);
    }
    MatchedIff(lines, pat);
    t := None;
  }

  /** A line that misses extends a run of missing lines at the end down to it. */
  lemma NoHitFrom(lines: seq<string>, pat: Pattern, i: nat)
    requires i < |lines| && !Hit(lines[i], pat)
    requires forall j :: i + 1 <= j < |lines| ==> !Hit(lines[j], pat)
    ensures forall j :: i <= j < |lines| ==> !Hit(lines[j], pat)
  {
  }

  /** The outer loop over the ordered patterns, the inner reverse scan stopping at the first hit. */
  method ScanPriority(lines: seq<string>, pats: seq<TaggedPattern>) returns (found: Option<(int, Tag)>)
    requires WellDated(lines)
    ensures found == PriorityEndTime(lines, pats)
  {
    var k := 0;
    while k < |pats|
      invariant 0 <= k <= |pats|
      invariant forall k' :: 0 <= k' < k ==> !Matched(lines, pats[k'].pattern)
    {
      var t := ScanBackward(lines, pats[k].pattern);
      if t.Some? {
        PriorityAt(lines, pats, k);
        found := Some((t.value, pats[k].tag));
        return;
      }
      assert !Matched(lines, pats[k].pattern);
      k := k + 1;
    }
    assert Winner(lines, pats).None?;
    found := None;
  }

  /** The reverse search for the last suspicious line of a phase. */
  method FindFallback(lines: seq<string>, p: Phase) returns (text: string)
    ensures text == FallbackText(lines, p)
  {
    var i := |lines|;
    while i > 0
      invariant 0 <= i <= |lines|
      invariant forall j :: i <= j < |lines| ==> !Suspicious(lines[j], p)
    {
      i := i - 1;
      if Suspicious(lines[i], p) {
        text := LastN(Strip(lines[i]), 120);
        LastWhereIs(lines, l => Suspicious(l, p), i);
        return;
      }
    }
    text := "INCOMPLETE";
  }

  /** The scans of one phase's start and end rules. */
  method ScanPhase(rule: PhaseRule, lines: seq<string>) returns (w: PhaseWindow)
    requires WellDated(lines)
    ensures w == Window(rule, lines)
  {
    var start := ScanForward(lines, rule.start);
    match rule.end {
      case PairEnd(pat) =>
        var end := ScanBackward(lines, pat);
        w := PhaseWindow(start, end, None);
      case PriorityEnd(pats) =>
        var r := ScanPriority(lines, pats);
        if r.Some? {
          w := PhaseWindow(start, Some(r.value.0), Some(r.value.1));
        } else {
          w := PhaseWindow(start, None, None);
        }
    }
  }

  /** The position of a phase in the reporting order. */
  function PhaseIndex(p: Phase): (j: nat)
    ensures j < |Phases| && Phases[j] == p
  {
    match p
    case Indexer => 0
    case Persist => 1
    case Analysis => 2
    case Ca => 3
    case Exposure => 4
  }

  /** The first `k` phases of the reporting order are keys of `m`. */
  predicate HoldsFirst<V>(m: map<Phase, V>, k: nat)
    requires k <= |Phases|
  {
    forall j :: 0 <= j < k ==> Phases[j] in m
  }

  lemma HoldsFirstStep<V>(m: map<Phase, V>, k: nat, v: V)
    requires k < |Phases| && HoldsFirst(m, k)
    ensures HoldsFirst(m[Phases[k] := v], k + 1)
  {
    forall j | 0 <= j < k + 1 ensures Phases[j] in m[Phases[k] := v] {
      if j < k { assert Phases[j] in m; }
    }
  }

  /** A map holding every listed phase holds every phase. */
  lemma EveryPhaseKey<V>(m: map<Phase, V>)
    requires HoldsFirst(m, |Phases|)
    ensures forall p :: p in m
  {
    forall p ensures p in m {
      var j := PhaseIndex(p);
      assert Phases[j] in m;
    }
  }

  /** Every window in the map is the window its phase's rule gives. */
  predicate WindowsAgree(windows: map<Phase, PhaseWindow>, table: RuleTable, lines: seq<string>) {
    forall p :: p in windows ==> windows[p] == Window(table(p), lines)
  }

  lemma WindowsAgreeStep(windows: map<Phase, PhaseWindow>, table: RuleTable, lines: seq<string>, p: Phase)
    requires WindowsAgree(windows, table, lines)
    ensures WindowsAgree(windows[p := Window(table(p), lines)], table, lines)
  {
  }

  /** The loop over the phases of the rule table. */
  method ScanAllPhases(table: RuleTable, lines: seq<string>) returns (windows: map<Phase, PhaseWindow>)
    requires WellDated(lines)
    ensures forall p :: p in windows && windows[p] == Window(table(p), lines)
  {
    windows := map[];
    var k := 0;
    while k < |Phases|
      invariant 0 <= k <= |Phases|
      invariant HoldsFirst(windows, k)
      invariant WindowsAgree(windows, table, lines)
    {
      var p := Phases[k];
      var w := ScanPhase(table(p), lines);
      HoldsFirstStep(windows, k, w);
      WindowsAgreeStep(windows, table, lines, p);
      windows := windows[p := w];
      k := k + 1;
    }
    EveryPhaseKey(windows);
  }

  /** Every text in the map is the fallback text of its phase. */
  predicate FallbackAgrees(fallback: map<Phase, string>, lines: seq<string>) {
    forall p :: p in fallback ==> fallback[p] == FallbackText(lines, p)
  }

  lemma FallbackAgreesStep(fallback: map<Phase, string>, lines: seq<string>, p: Phase)
    requires FallbackAgrees(fallback, lines)
    ensures FallbackAgrees(fallback[p := FallbackText(lines, p)], lines)
  {
  }

  /** The loop collecting `debug_status`. */
  method FallbackAll(lines: seq<string>) returns (fallback: map<Phase, string>)
    ensures forall p :: p in fallback && fallback[p] == FallbackText(lines, p)
  {
    fallback := map[];
    var k := 0;
    while k < |Phases|
      invariant 0 <= k <= |Phases|
      invariant HoldsFirst(fallback, k)
      invariant FallbackAgrees(fallback, lines)
    {
      var p := Phases[k];
      var text := FindFallback(lines, p);
      HoldsFirstStep(fallback, k, text);
      FallbackAgreesStep(fallback, lines, p);
      fallback := fallback[p := text];
      k := k + 1;
    }
    EveryPhaseKey(fallback);
  }

  /**
    `parse_timeline`: the window of every phase under the given rule table
    (`result`) and the fallback text of every phase (`debug_status`).
   */
  method ParseTimeline(table: RuleTable, lines: seq<string>)
    returns (windows: map<Phase, PhaseWindow>, fallback: map<Phase, string>)
    requires WellDated(lines)
    ensures forall p :: p in windows && windows[p] == Window(table(p), lines)
    ensures forall p :: p in fallback && fallback[p] == FallbackText(lines, p)
  {
    windows := ScanAllPhases(table, lines);
    fallback := FallbackAll(lines);
  }

  // ---------------------------------------------------------------------------
  // Properties of the rules

  /**
    A tagged pattern that matches anywhere beats every later pattern, even
    one whose matching line comes further down the log.
   */
  lemma EarliestPatternWins(lines: seq<string>, pats: seq<TaggedPattern>, k: nat, k2: nat, i: nat, i2: nat)
    requires k < k2 < |pats| && i < i2 < |lines|
    requires Hit(lines[i], pats[k].pattern) && Hit(lines[i2], pats[k2].pattern)
    ensures Winner(lines, pats).Some? && Winner(lines, pats).value <= k
    ensures PriorityEndTime(lines, pats).Some?
    ensures PriorityEndTime(lines, pats).value.1 == pats[Winner(lines, pats).value].tag
  {
    assert Matched(lines, pats[k].pattern);
  }

  /**
    In either table, a "Package type Pypi is not supported" line makes the
    contextual-analysis end SKIP exactly when no line matches the DONE or
    FAILED contextual_analysis patterns, wherever those lines sit.
   */
  lemma PypiNotSupportedIsSkip(v: Variant, lines: seq<string>)
    requires Matched(lines, CaEndPatterns[3].pattern)
    ensures var w := Window(Rule(v, Ca), lines);
            && w.end.Some?
            && (w.tag == Some(Skip) <==> !Matched(lines, CaEndPatterns[0].pattern) && !Matched(lines, CaEndPatterns[1].pattern))
  {
    LastResortSkip(lines, CaEndPatterns);
    PriorityWindow(Rule(v, Ca), lines);
  }

  /** Under a priority end rule, the window's end and tag are those of the winning pattern. */
  lemma PriorityWindow(rule: PhaseRule, lines: seq<string>)
    requires rule.end.PriorityEnd?
    ensures var r := PriorityEndTime(lines, rule.end.patterns);
            var w := Window(rule, lines);
            && (r.None? ==> w.end.None? && w.tag.None?)
            && (r.Some? ==> w.end == Some(r.value.0) && w.tag == Some(r.value.1))
  {
  }

  /**
    A priority rule whose first four patterns are tagged DONE, FAILED, SKIP,
    SKIP and whose fourth pattern matches ends SKIP exactly when neither of
    the first two matches.
   */
  lemma LastResortSkip(lines: seq<string>, pats: seq<TaggedPattern>)
    requires |pats| >= 4 && Matched(lines, pats[3].pattern)
    requires pats[0].tag == Done && pats[1].tag == Failed && pats[2].tag == Skip && pats[3].tag == Skip
    ensures var r := PriorityEndTime(lines, pats);
            && r.Some?
            && (r.value.1 == Skip <==> !Matched(lines, pats[0].pattern) && !Matched(lines, pats[1].pattern))
  {
    var win := Winner(lines, pats);
    assert win.Some?;
    var r := PriorityEndTime(lines, pats);
    assert r.Some? && r.value.1 == pats[win.value].tag;
    if Matched(lines, pats[0].pattern) {
      assert win.value == 0;
      assert r.value.1 == Done;
    } else if Matched(lines, pats[1].pattern) {
      assert win.value == 1;
      assert r.value.1 == Failed;
    } else {
      assert win.value == 2 || win.value == 3;
      assert r.value.1 == Skip;
    }
  }

  /** A line without a timestamp, inserted anywhere, changes no start time. */
  lemma UntimedLineIgnoredByStart(a: seq<string>, l: string, b: seq<string>, pat: Pattern)
    requires LineInstant(l).None?
    ensures StartTime(a + [l] + b, pat) == StartTime(a + b, pat)
  {
    var s, t := a + [l] + b, a + b;
    FirstWhereSkip(a, l, b, Hits(pat));
    match FirstWhere(t, Hits(pat)) {
      case None =>
      case Some(i) =>
        InsertedShift(a, l, b, i);
    }
  }

  /** A line without a timestamp, inserted anywhere, changes no end time. */
  lemma UntimedLineIgnoredByEnd(a: seq<string>, l: string, b: seq<string>, pat: Pattern)
    requires LineInstant(l).None?
    ensures EndTime(a + [l] + b, pat) == EndTime(a + b, pat)
  {
    var s, t := a + [l] + b, a + b;
    LastWhereSkip(a, l, b, Hits(pat));
    match LastWhere(t, Hits(pat)) {
      case None =>
      case Some(i) =>
        InsertedShift(a, l, b, i);
    }
  }
}
