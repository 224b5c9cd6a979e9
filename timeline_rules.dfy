/**
  The phase rule tables of the two scan-timeline scripts. Each of the five
  scan phases has a start rule (two phrases a line must both contain) and an
  end rule: either one phrase pair, or an ordered list of phrase pairs each
  tagged with the outcome it reports.
 */
module TimelineRules {

  /** The scan phases, in the order the scripts report them. */
  datatype Phase = Indexer | Persist | Analysis | Ca | Exposure

  const Phases: seq<Phase> := [Indexer, Persist, Analysis, Ca, Exposure]

  /** The phase's name as it appears in result keys and in lowered log text. */
  function PhaseName(p: Phase): string {
    match p
    case Indexer => "indexer"
    case Persist => "persist"
    case Analysis => "analysis"
    case Ca => "ca"
    case Exposure => "exposure"
  }

  /** The outcome a tagged end pattern reports (`<phase>_end_status`). */
  datatype Tag = Done | Failed | Skip | Aborted

  /** A line matches when it contains both phrases. */
  datatype Pattern = Pattern(first: string, second: string)

  datatype TaggedPattern = TaggedPattern(pattern: Pattern, tag: Tag)

  datatype EndRule =
    | PairEnd(pair: Pattern)
    | PriorityEnd(patterns: seq<TaggedPattern>)

  datatype PhaseRule = PhaseRule(start: Pattern, end: EndRule)

  /** A rule table: one rule per phase. */
  type RuleTable = Phase -> PhaseRule

  /** The two copies of the script, whose tables differ in two start phrases. */
  datatype Variant =
    | StatusDuration   // logs-xray-status-duration
    | StatusTimeline   // scan-status-timeline

  /** The contextual-analysis end patterns, in priority order. */
  const CaEndPatterns: seq<TaggedPattern> := [
    TaggedPattern(Pattern("contextual_analysis", "from status: SCANNING to status: DONE"), Done),
    TaggedPattern(Pattern("contextual_analysis", "from status: SCANNING to status: FAILED"), Failed),
    TaggedPattern(Pattern("scan_build_or_rb", "Build not scanned for CA. All artifacts were skipped"), Skip),
    TaggedPattern(Pattern("cve_applicability_service", "Package type Pypi is not supported"), Skip),
    TaggedPattern(Pattern("cve_applicability_service", "No vulnerable components found for applicability scan"), Skip)
  ]

  /** The exposures end patterns, in priority order. */
  const ExposureEndPatterns: seq<TaggedPattern> := [
    TaggedPattern(Pattern("exposures", "from status: SCANNING to status: DONE"), Done),
    TaggedPattern(Pattern("exposures_execution_worker", "Job failed"), Failed),
    TaggedPattern(Pattern("scan_status_service", "from status: SCANNING to status: FAILED"), Failed),
    TaggedPattern(Pattern("exposures_service", "Handling job failure"), Failed),
    TaggedPattern(Pattern("exposures_service", "Exposures scan is enabled but no categories were selected for scan. Scan aborted"), Aborted)
  ]

  /** The rule for a phase in one copy of the script. */
  function Rule(v: Variant, p: Phase): (r: PhaseRule)
    ensures p == Ca ==> r.end == PriorityEnd(CaEndPatterns)
    ensures p == Exposure ==> r.end == PriorityEnd(ExposureEndPatterns)
    ensures p !in {Ca, Exposure} ==> r.end.PairEnd?
  {
    match p
    case Indexer =>
      PhaseRule(
        if v == StatusDuration then Pattern("index_worker", "processing m")
        else Pattern("index_worker", "Start processing msg"),
        PairEnd(Pattern("index_worker", "has completed to process message")))
    case Persist =>
      PhaseRule(Pattern("persist_worker", "is processing message from persist"),
                PairEnd(Pattern("persist_worker", "has completed to process message")))
    case Analysis =>
      PhaseRule(
        if v == StatusDuration then Pattern("analysis_worker", "processing msg")
        else Pattern("analysis_worker", "processing msg for artifact"),
        PairEnd(Pattern("analysis_worker", "has completed to analyze the component")))
    case Ca =>
      PhaseRule(Pattern("cve_applicability_service", "Starting CheckApplicability for url"),
                PriorityEnd(CaEndPatterns))
    case Exposure =>
      PhaseRule(Pattern("exposures_service", "Exposures scan started after SCA scan"),
                PriorityEnd(ExposureEndPatterns))
  }

  /** The rule table of one copy of the script. */
  function Table(v: Variant): RuleTable {
    p => Rule(v, p)
  }

  /** The copies agree on every rule except the indexer and analysis start phrases. */
  lemma VariantsDiffer(p: Phase)
    ensures Rule(StatusDuration, p).end == Rule(StatusTimeline, p).end
    ensures Rule(StatusDuration, p).start == Rule(StatusTimeline, p).start <==> p !in {Indexer, Analysis}
    ensures p == Indexer ==> Rule(StatusTimeline, p).start.second == "Start processing msg"
    ensures p == Analysis ==> Rule(StatusTimeline, p).start.second == "processing msg for artifact"
  {
  }
}
