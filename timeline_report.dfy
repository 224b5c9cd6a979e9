/**
  `generate_json_output` and the per-token flow of the scripts' `__main__`:
  the overall span, the status blocks of the JSON document, the skip of
  tokens with no timed phase, and the single-object-or-array output.
 */
module TimelineReport {
  import opened Wrappers
  import opened Text
  import opened Json
  import opened LogTime
  import opened TimelineRules
  import opened TimelineEngine
  import opened TimelineStatus
  import opened TraceDiscovery

  /** `result.get(...)` for a phase: a missing phase has nothing. */
  function WindowOf(windows: map<Phase, PhaseWindow>, p: Phase): PhaseWindow {
    if p in windows then windows[p] else PhaseWindow(None, None, None)
  }

  /** `debug_status.get(phase)`. */
  function FallbackOf(fallback: map<Phase, string>, p: Phase): Option<string> {
    if p in fallback then Some(fallback[p]) else None
  }

  // ---------------------------------------------------------------------------
  // The overall span

  /** The running minimum of the present values. */
  function MinPresent(xs: seq<Option<int>>): (r: Option<int>)
    ensures r.None? <==> forall i :: 0 <= i < |xs| ==> xs[i].None?
    ensures r.Some? ==> (exists i :: 0 <= i < |xs| && xs[i] == r)
                        && forall i :: 0 <= i < |xs| && xs[i].Some? ==> r.value <= xs[i].value
  {
    if |xs| == 0 then None
    else
      var m := MinPresent(xs[..|xs| - 1]);
      var x := xs[|xs| - 1];
      if x.Some? && (m.None? || x.value < m.value) then x else m
  }

  /** The running maximum of the present values. */
  function MaxPresent(xs: seq<Option<int>>): (r: Option<int>)
    ensures r.None? <==> forall i :: 0 <= i < |xs| ==> xs[i].None?
    ensures r.Some? ==> (exists i :: 0 <= i < |xs| && xs[i] == r)
                        && forall i :: 0 <= i < |xs| && xs[i].Some? ==> xs[i].value <= r.value
  {
    if |xs| == 0 then None
    else
      var m := MaxPresent(xs[..|xs| - 1]);
      var x := xs[|xs| - 1];
      if x.Some? && (m.None? || x.value > m.value) then x else m
  }

  /** One more element for the running minimum. */
  lemma MinPresentStep(xs: seq<Option<int>>, k: nat)
    requires k < |xs|
    ensures MinPresent(xs[..k + 1]) ==
              var m := MinPresent(xs[..k]);
              if xs[k].Some? && (m.None? || xs[k].value < m.value) then xs[k] else m
  {
    assert xs[..k + 1][..k] == xs[..k];
  }

  /** One more element for the running maximum. */
  lemma MaxPresentStep(xs: seq<Option<int>>, k: nat)
    requires k < |xs|
    ensures MaxPresent(xs[..k + 1]) ==
              var m := MaxPresent(xs[..k]);
              if xs[k].Some? && (m.None? || xs[k].value > m.value) then xs[k] else m
  {
    assert xs[..k + 1][..k] == xs[..k];
  }

  function Starts(windows: map<Phase, PhaseWindow>): seq<Option<int>> {
    seq(|Phases|, i requires 0 <= i < |Phases| => WindowOf(windows, Phases[i]).start)
  }

  function Ends(windows: map<Phase, PhaseWindow>): seq<Option<int>> {
    seq(|Phases|, i requires 0 <= i < |Phases| => WindowOf(windows, Phases[i]).end)
  }

  /**
    The overall start is the earliest phase start and the overall end the
    latest phase end; each is missing only when no phase has one.
   */
  lemma OverallSpan(windows: map<Phase, PhaseWindow>)
    ensures var s := MinPresent(Starts(windows));
            && (s.None? <==> forall p :: WindowOf(windows, p).start.None?)
            && (s.Some? ==> (exists p :: WindowOf(windows, p).start == s)
                            && forall p :: WindowOf(windows, p).start.Some? ==> s.value <= WindowOf(windows, p).start.value)
    ensures var e := MaxPresent(Ends(windows));
            && (e.None? <==> forall p :: WindowOf(windows, p).end.None?)
            && (e.Some? ==> (exists p :: WindowOf(windows, p).end == e)
                            && forall p :: WindowOf(windows, p).end.Some? ==> WindowOf(windows, p).end.value <= e.value)
  {
    var ss, es := Starts(windows), Ends(windows);
    forall p ensures ss[PhaseIndex(p)] == WindowOf(windows, p).start && es[PhaseIndex(p)] == WindowOf(windows, p).end {
    }
  }

  // ---------------------------------------------------------------------------
  // The JSON document

  /** A `{"status", "duration", "time"}` block; `time` is the end instant (its ISO rendering is left out). */
  datatype Block = Block(status: Status, duration: string, time: Option<int>)

  /** The document `generate_json_output` builds for one trace token. */
  datatype Report = Report(
    repositoryPath: string,
    sha256: Option<string>,
    traceId: string,
    overall: Block,
    sca: Block,
    contextualAnalysis: Block,
    exposures: Block,
    iac: Block,
    secrets: Block,
    services: Block,
    applications: Block,
    violations: Block)

  predicate HexRunAt(s: string, i: int) {
    0 <= i && i + 64 <= |s| && forall k :: i <= k < i + 64 ==> IsLowerHex(s[k])
  }

  /** The leftmost start of 64 lowercase hex characters at or after `from`. */
  function FirstHexRun(s: string, from: nat): (r: Option<nat>)
    ensures r.Some? ==> from <= r.value && HexRunAt(s, r.value) && forall i :: from <= i < r.value ==> !HexRunAt(s, i)
    ensures r.None? ==> forall i :: from <= i ==> !HexRunAt(s, i)
    decreases |s| - from
  {
    if from + 64 > |s| then None
    else if HexRunAt(s, from) then Some(from)
    else FirstHexRun(s, from + 1)
  }

  /** `re.search(r'([a-f0-9]{64})', artifact)`: the first 64-hex run, or null. */
  function Sha256Of(artifact: string): (r: Option<string>)
    ensures r.Some? ==> |r.value| == 64 && forall k :: 0 <= k < 64 ==> IsLowerHex(r.value[k])
    ensures r.Some? ==> exists i :: HexRunAt(artifact, i) && r.value == artifact[i..i + 64]
                                    && forall j :: 0 <= j < i ==> !HexRunAt(artifact, j)
    ensures r.None? <==> forall i :: !HexRunAt(artifact, i)
  {
    match FirstHexRun(artifact, 0)
    case None => None
    case Some(i) => Some(artifact[i..i + 64])
  }

  /** The block of one phase: its status, duration and end. */
  function PhaseBlock(windows: map<Phase, PhaseWindow>, fallback: map<Phase, string>, p: Phase): Block {
    var w := WindowOf(windows, p);
    Block(DetermineStatus(w.start, w.end, w.tag, FallbackOf(fallback, p)), FormatDuration(w.start, w.end), w.end)
  }

  /** The block of the overall run, over a span. */
  function OverallBlock(start: Option<int>, end: Option<int>): Block {
    Block(DetermineStatus(start, end, None, None), FormatDuration(start, end), end)
  }

  /** The document for one token. */
  function ReportOf(windows: map<Phase, PhaseWindow>, fallback: map<Phase, string>, artifact: string, traceId: string): Report {
    var overall := OverallBlock(MinPresent(Starts(windows)), MaxPresent(Ends(windows)));
    var exposures := PhaseBlock(windows, fallback, Exposure);
    var fixed := Block(NOT_SUPPORTED, "0", exposures.time);
    Report(artifact, Sha256Of(artifact), traceId, overall,
           PhaseBlock(windows, fallback, Indexer), PhaseBlock(windows, fallback, Ca),
           exposures, fixed, exposures, fixed, exposures, overall)
  }

  /**
    The shape of every document: sca, contextual_analysis and exposures
    follow the indexer, ca and exposure phases; iac and services are fixed
    NOT_SUPPORTED with duration "0"; secrets and applications repeat the
    exposures block; violations repeat the overall block, whose status is
    never FAILED, WARNING, ABORTED or NOT_SUPPORTED.
   */
  lemma ReportShape(windows: map<Phase, PhaseWindow>, fallback: map<Phase, string>, artifact: string, traceId: string)
    ensures var r := ReportOf(windows, fallback, artifact, traceId);
            && r.sca.status == DetermineStatus(WindowOf(windows, Indexer).start, WindowOf(windows, Indexer).end,
                                               WindowOf(windows, Indexer).tag, FallbackOf(fallback, Indexer))
            && r.contextualAnalysis.time == WindowOf(windows, Ca).end
            && r.iac.status == NOT_SUPPORTED && r.iac.duration == "0"
            && r.services == r.iac
            && r.secrets == r.exposures && r.applications == r.exposures
            && r.violations == r.overall
            && r.overall.status in {NOT_STARTED, INCOMPLETE, DONE}
            && (r.overall.status == DONE <==> (exists p :: WindowOf(windows, p).start.Some?) && (exists p :: WindowOf(windows, p).end.Some?))
  {
    OverallSpan(windows);
    OverallStatusRange(MinPresent(Starts(windows)), MaxPresent(Ends(windows)));
  }

  /**
    `generate_json_output`: one pass over the phases that keeps the running
    overall start and end and fills in the phase blocks.
   */
  method GenerateJsonOutput(windows: map<Phase, PhaseWindow>, fallback: map<Phase, string>, artifact: string, traceId: string)
    returns (report: Report)
    ensures report == ReportOf(windows, fallback, artifact, traceId)
  {
    var overallStart: Option<int> := None;
    var overallEnd: Option<int> := None;
    var empty := Block(NOT_STARTED, "", None);
    var sca, ca, exposures := empty, empty, empty;
    var starts, ends := Starts(windows), Ends(windows);
    var k := 0;
    while k < |Phases|
      invariant 0 <= k <= |Phases|
      invariant overallStart == MinPresent(starts[..k])
      invariant overallEnd == MaxPresent(ends[..k])
      invariant k > 0 ==> sca == PhaseBlock(windows, fallback, Indexer)
      invariant k > 3 ==> ca == PhaseBlock(windows, fallback, Ca)
      invariant k > 4 ==> exposures == PhaseBlock(windows, fallback, Exposure)
    {
      var p := Phases[k];
      var w := WindowOf(windows, p);
      MinPresentStep(starts, k);
      MaxPresentStep(ends, k);
      if w.start.Some? && (overallStart.None? || w.start.value < overallStart.value) {
        overallStart := w.start;
      }
      if w.end.Some? && (overallEnd.None? || w.end.value > overallEnd.value) {
        overallEnd := w.end;
      }
      var status := DetermineStatus(w.start, w.end, w.tag, FallbackOf(fallback, p));
      var duration := FormatDuration(w.start, w.end);
      if p == Indexer {
        sca := Block(status, duration, w.end);
      } else if p == Ca {
        ca := Block(status, duration, w.end);
      } else if p == Exposure {
        exposures := Block(status, duration, w.end);
      }
      k := k + 1;
    }
    assert starts[..k] == starts;
    assert ends[..k] == ends;
    var overall := OverallBlock(overallStart, overallEnd);
    var fixed := Block(NOT_SUPPORTED, "0", exposures.time);
    report := Report(artifact, Sha256Of(artifact), traceId, overall, sca, ca,
                     exposures, fixed, exposures, fixed, exposures, overall);
  }

  /**
    The order in which a block's three members are written: the phase
    blocks and `overall` put the status first, the exposure categories put
    it last, and `violations` puts it between duration and time.
   */
  datatype Layout = StatusFirst | StatusLast | StatusMiddle

  /** The `time` member: the end instant, or null. */
  function TimeJson(t: Option<int>): Json {
    if t.Some? then JNum(t.value) else JNull
  }

  /** The names of a block's members in the layout's order. */
  function LayoutKeys(layout: Layout): seq<string> {
    match layout
    case StatusFirst => ["status", "duration", "time"]
    case StatusLast => ["duration", "time", "status"]
    case StatusMiddle => ["duration", "status", "time"]
  }

  /** The block as a JSON object with its members in the layout's order. */
  function BlockJson(b: Block, layout: Layout): (j: Json)
    ensures j.JObj? && |j.members| == 3
  {
    var status, duration, time := ("status", JStr(StatusName(b.status))), ("duration", JStr(b.duration)), ("time", TimeJson(b.time));
    match layout
    case StatusFirst => JObj([status, duration, time])
    case StatusLast => JObj([duration, time, status])
    case StatusMiddle => JObj([duration, status, time])
  }

  /** A block's members are named in the layout's order. */
  lemma BlockKeys(b: Block, layout: Layout)
    ensures Keys(BlockJson(b, layout)) == LayoutKeys(layout)
  {
  }

  /** Whatever the layout, a block carries the same three values under the same three names. */
  lemma BlockJsonValues(b: Block, layout: Layout)
    ensures Get(BlockJson(b, layout), "status") == Some(JStr(StatusName(b.status)))
    ensures Get(BlockJson(b, layout), "duration") == Some(JStr(b.duration))
    ensures Get(BlockJson(b, layout), "time") == Some(TimeJson(b.time))
  {
    var j := BlockJson(b, layout);
    BlockKeys(b, layout);
    GetDistinct(j, 0);
    GetDistinct(j, 1);
    GetDistinct(j, 2);
  }

  /** The document of one token, laid out as `generate_json_output` nests it. */
  function ReportJson(r: Report): (j: Json)
    ensures j.JObj? && Keys(j) == ["repositoryPath", "SHA-256", "traceId", "overall", "details"]
  {
    var categories := JObj([
      ("iac", BlockJson(r.iac, StatusLast)), ("secrets", BlockJson(r.secrets, StatusLast)),
      ("services", BlockJson(r.services, StatusLast)), ("applications", BlockJson(r.applications, StatusLast))]);
    var exposures := JObj(BlockJson(r.exposures, StatusFirst).members + [("categories", categories)]);
    JObj([
      ("repositoryPath", JStr(r.repositoryPath)),
      ("SHA-256", if r.sha256.Some? then JStr(r.sha256.value) else JNull),
      ("traceId", JStr(r.traceId)),
      ("overall", BlockJson(r.overall, StatusFirst)),
      ("details", JObj([
        ("sca", BlockJson(r.sca, StatusFirst)),
        ("contextual_analysis", BlockJson(r.contextualAnalysis, StatusFirst)),
        ("exposures", exposures),
        ("violations", BlockJson(r.violations, StatusMiddle))]))])
  }

  /**
    The nesting of the document: the four detail sections in order, the
    exposure block's own members before its categories, and each block
    with its members in the order the source writes them.
   */
  lemma DetailsLayout(r: Report)
    ensures var d := ReportJson(r).members[4].1;
            && d.JObj? && Keys(d) == ["sca", "contextual_analysis", "exposures", "violations"]
            && Keys(d.members[0].1) == LayoutKeys(StatusFirst)
            && Keys(d.members[1].1) == LayoutKeys(StatusFirst)
            && d.members[2].1.JObj? && Keys(d.members[2].1) == LayoutKeys(StatusFirst) + ["categories"]
            && Keys(d.members[3].1) == LayoutKeys(StatusMiddle)
  {
    var d := ReportJson(r).members[4].1;
    assert d.members[0].1 == BlockJson(r.sca, StatusFirst);
    assert d.members[1].1 == BlockJson(r.contextualAnalysis, StatusFirst);
    assert d.members[3].1 == BlockJson(r.violations, StatusMiddle);
    BlockKeys(r.sca, StatusFirst);
    BlockKeys(r.contextualAnalysis, StatusFirst);
    BlockKeys(r.violations, StatusMiddle);
    BlockKeys(r.exposures, StatusFirst);
  }

  /** The four exposure categories, in order, each with its status written last. */
  lemma CategoriesLayout(r: Report)
    ensures var c := ReportJson(r).members[4].1.members[2].1.members[3].1;
            && c.JObj? && Keys(c) == ["iac", "secrets", "services", "applications"]
            && forall k :: 0 <= k < 4 ==> c.members[k].1.JObj? && Keys(c.members[k].1) == LayoutKeys(StatusLast)
  {
    BlockKeys(r.iac, StatusLast);
    BlockKeys(r.secrets, StatusLast);
    BlockKeys(r.services, StatusLast);
    BlockKeys(r.applications, StatusLast);
  }

  /** The printed JSON: one surviving token gives a bare object, any other count an array. */
  function Document(reports: seq<Report>): (j: Json)
    ensures |reports| == 1 ==> j == ReportJson(reports[0])
    ensures |reports| != 1 ==> j.JArr? && |j.items| == |reports|
                               && forall i :: 0 <= i < |reports| ==> j.items[i] == ReportJson(reports[i])
  {
    if |reports| == 1 then ReportJson(reports[0])
    else JArr(seq(|reports|, i requires 0 <= i < |reports| => ReportJson(reports[i])))
  }

  // ---------------------------------------------------------------------------
  // __main__

  /** Some phase has a start or an end: otherwise the token is skipped. */
  predicate HasEvidence(windows: map<Phase, PhaseWindow>) {
    exists p :: WindowOf(windows, p).start.Some? || WindowOf(windows, p).end.Some?
  }

  const PhaseSet: set<Phase> := set j | 0 <= j < |Phases| :: Phases[j]

  lemma PhaseSetComplete()
    ensures forall p :: p in PhaseSet
  {
    forall p ensures p in PhaseSet {
      var j := PhaseIndex(p);
    }
  }

  /** The windows `parse_timeline` gives under a table, as a map over all phases. */
  function Timeline(table: RuleTable, lines: seq<string>): (m: map<Phase, PhaseWindow>)
    ensures forall p :: p in m && m[p] == Window(table(p), lines)
  {
    PhaseSetComplete();
    map p | p in PhaseSet :: Window(table(p), lines)
  }

  /** The fallback texts as a map over all phases. */
  function Fallbacks(lines: seq<string>): (m: map<Phase, string>)
    ensures forall p :: p in m && m[p] == FallbackText(lines, p)
  {
    PhaseSetComplete();
    map p | p in PhaseSet :: FallbackText(lines, p)
  }

  lemma IsTimeline(m: map<Phase, PhaseWindow>, table: RuleTable, lines: seq<string>)
    requires forall p :: p in m && m[p] == Window(table(p), lines)
    ensures m == Timeline(table, lines)
  {
  }

  lemma IsFallbacks(m: map<Phase, string>, lines: seq<string>)
    requires forall p :: p in m && m[p] == FallbackText(lines, p)
    ensures m == Fallbacks(lines)
  {
  }

  /** Every log line, once stripped, is one whose leading timestamp `strptime` accepts. */
  predicate CorpusWellDated(files: seq<LogFile>) {
    forall f, j :: 0 <= f < |files| && 0 <= j < |files[f].lines| ==> CalendarOk(Strip(files[f].lines[j]))
  }

  lemma {:induction false} KeptLinesWellDated(lines: seq<string>, token: string)
    requires forall j :: 0 <= j < |lines| ==> CalendarOk(Strip(lines[j]))
    ensures WellDated(KeptLines(lines, token))
  {
    if |lines| > 0 {
      var init := lines[..|lines| - 1];
      assert forall j :: 0 <= j < |init| ==> init[j] == lines[j];
      KeptLinesWellDated(init, token);
    }
  }

  /** The collector only passes on stripped corpus lines, so a well-dated corpus gives well-dated lines. */
  lemma {:induction false} CollectedWellDated(files: seq<LogFile>, token: string)
    requires CorpusWellDated(files)
    ensures WellDated(Collected(files, token))
  {
    if |files| > 0 {
      var init := files[..|files| - 1];
      assert forall f :: 0 <= f < |init| ==> init[f] == files[f];
      CollectedWellDated(init, token);
      var last := files[|files| - 1];
      KeptLinesWellDated(last.lines, token);
    }
  }

  /** The report of one token, when it survives the skip. */
  function TokenReport(table: RuleTable, files: seq<LogFile>, artifact: string, id: string): Option<Report> {
    var lines := Collected(files, id);
    var windows := Timeline(table, lines);
    if HasEvidence(windows) then Some(ReportOf(windows, Fallbacks(lines), artifact, id)) else None
  }

  /** The reports of the surviving tokens, in token order. */
  function SurvivingReports(table: RuleTable, files: seq<LogFile>, artifact: string, ids: seq<string>): seq<Report> {
    if |ids| == 0 then []
    else
      var rest := SurvivingReports(table, files, artifact, ids[..|ids| - 1]);
      match TokenReport(table, files, artifact, ids[|ids| - 1])
      case None => rest
      case Some(r) => rest + [r]
  }

  lemma SurvivingReportsStep(table: RuleTable, files: seq<LogFile>, artifact: string, ids: seq<string>, k: nat)
    requires k < |ids|
    ensures SurvivingReports(table, files, artifact, ids[..k + 1]) ==
              SurvivingReports(table, files, artifact, ids[..k])
              + (var r := TokenReport(table, files, artifact, ids[k]); if r.Some? then [r.value] else [])
  {
    assert ids[..k + 1][..k] == ids[..k];
  }

  /** The per-token step of JSON mode: collect, parse, skip or report. */
  method ReportToken(table: RuleTable, files: seq<LogFile>, artifact: string, id: string) returns (r: Option<Report>)
    requires CorpusWellDated(files)
    ensures r == TokenReport(table, files, artifact, id)
  {
    var lines := CollectTraceLines(files, id);
    CollectedWellDated(files, id);
    var windows, fallback := ParseTimeline(table, lines);
    IsTimeline(windows, table, lines);
    IsFallbacks(fallback, lines);
    if HasEvidence(windows) {
      var report := GenerateJsonOutput(windows, fallback, artifact, id);
      r := Some(report);
    } else {
      r := None;
    }
  }

  /** The loop of JSON mode over the tokens: each surviving token's report, in token order. */
  method CollectReports(table: RuleTable, files: seq<LogFile>, artifact: string, ids: seq<string>)
    returns (reports: seq<Report>)
    requires CorpusWellDated(files)
    ensures reports == SurvivingReports(table, files, artifact, ids)
  {
    reports := [];
    var k := 0;
    while k < |ids|
      invariant 0 <= k <= |ids|
      invariant reports == SurvivingReports(table, files, artifact, ids[..k])
    {
      reports := CollectReport(table, files, artifact, ids, k, reports);
      k := k + 1;
    }
    assert ids[..k] == ids;
  }

  /** One turn of that loop: token `k`'s report, when it survives, joins the reports so far. */
  method CollectReport(table: RuleTable, files: seq<LogFile>, artifact: string, ids: seq<string>, k: nat,
                       reports: seq<Report>) returns (reports': seq<Report>)
    requires CorpusWellDated(files) && k < |ids|
    requires reports == SurvivingReports(table, files, artifact, ids[..k])
    ensures reports' == SurvivingReports(table, files, artifact, ids[..k + 1])
  {
    var r := ReportToken(table, files, artifact, ids[k]);
    SurvivingReportsStep(table, files, artifact, ids, k);
    reports' := if r.Some? then reports + [r.value] else reports;
  }

  /** What `__main__` ends with: exit status 1 when no token was found, else the printed output. */
  datatype Outcome<T> = NoTraceIds | Printed(output: T)

  /**
    `__main__` in JSON mode: no token at all exits with status 1; each token
    whose timeline has no start and no end is skipped; the rest are printed
    as one document.
   */
  method RunJson(files: seq<LogFile>, artifact: string) returns (ids: seq<string>, outcome: Outcome<Json>)
    requires CorpusWellDated(files)
    ensures forall t :: t in ids <==> t in TraceIds(files, artifact)
    ensures outcome.NoTraceIds? <==> TraceIds(files, artifact) == {}
    ensures outcome.Printed? ==> outcome.output == Document(SurvivingReports(Table(StatusDuration), files, artifact, ids))
  {
    var table := Table(StatusDuration);
    ids := FindTraceIds(files, artifact);
    if |ids| == 0 {
      assert forall t :: t !in TraceIds(files, artifact);
      return ids, NoTraceIds;
    }
    assert ids[0] in TraceIds(files, artifact);
    var reports := CollectReports(table, files, artifact, ids);
    outcome := Printed(Document(reports));
  }

  /** The rows `show` prints for one token. */
  function Rows(windows: map<Phase, PhaseWindow>, fallback: map<Phase, string>): (rows: seq<Row>)
    ensures |rows| == |Phases|
    ensures forall i :: 0 <= i < |Phases| ==>
      rows[i] == ShowRow(WindowOf(windows, Phases[i]), if Phases[i] in fallback then fallback[Phases[i]] else "")
  {
    seq(|Phases|, i requires 0 <= i < |Phases| =>
      ShowRow(WindowOf(windows, Phases[i]), if Phases[i] in fallback then fallback[Phases[i]] else ""))
  }

  /** The table of one token, when it survives the skip. */
  function TokenTable(table: RuleTable, files: seq<LogFile>, id: string): Option<seq<Row>> {
    var lines := Collected(files, id);
    var windows := Timeline(table, lines);
    if HasEvidence(windows) then Some(Rows(windows, Fallbacks(lines))) else None
  }

  /** The per-token step of table mode. */
  method TableToken(table: RuleTable, files: seq<LogFile>, id: string) returns (r: Option<seq<Row>>)
    requires CorpusWellDated(files)
    ensures r == TokenTable(table, files, id)
  {
    var lines := CollectTraceLines(files, id);
    CollectedWellDated(files, id);
    var windows, fallback := ParseTimeline(table, lines);
    IsTimeline(windows, table, lines);
    IsFallbacks(fallback, lines);
    if HasEvidence(windows) {
      r := Some(Rows(windows, fallback));
    } else {
      r := None;
    }
  }

  function SurvivingTables(table: RuleTable, files: seq<LogFile>, ids: seq<string>): seq<(string, seq<Row>)> {
    if |ids| == 0 then []
    else
      var rest := SurvivingTables(table, files, ids[..|ids| - 1]);
      match TokenTable(table, files, ids[|ids| - 1])
      case None => rest
      case Some(rows) => rest + [(ids[|ids| - 1], rows)]
  }

  /** The loop of table mode over the tokens: each surviving token's rows, in token order. */
  method CollectTables(table: RuleTable, files: seq<LogFile>, ids: seq<string>)
    returns (tables: seq<(string, seq<Row>)>)
    requires CorpusWellDated(files)
    ensures tables == SurvivingTables(table, files, ids)
  {
    tables := [];
    var k := 0;
    while k < |ids|
      invariant 0 <= k <= |ids|
      invariant tables == SurvivingTables(table, files, ids[..k])
    {
      var r := TableToken(table, files, ids[k]);
      if r.Some? {
        tables := tables + [(ids[k], r.value)];
      }
      assert ids[..k + 1][..k] == ids[..k];
      k := k + 1;
    }
    assert ids[..k] == ids;
  }

  /**
    `__main__` in table mode, for either copy of the script: the same exit
    and skip rules, then one table of phase rows per surviving token.
   */
  method RunTable(v: Variant, files: seq<LogFile>, artifact: string)
    returns (ids: seq<string>, outcome: Outcome<seq<(string, seq<Row>)>>)
    requires CorpusWellDated(files)
    ensures forall t :: t in ids <==> t in TraceIds(files, artifact)
    ensures outcome.NoTraceIds? <==> TraceIds(files, artifact) == {}
    ensures outcome.Printed? ==> outcome.output == SurvivingTables(Table(v), files, ids)
  {
    var table := Table(v);
    ids := FindTraceIds(files, artifact);
    if |ids| == 0 {
      assert forall t :: t !in TraceIds(files, artifact);
      return ids, NoTraceIds;
    }
    assert ids[0] in TraceIds(files, artifact);
    var tables := CollectTables(table, files, ids);
    outcome := Printed(tables);
  }
}
