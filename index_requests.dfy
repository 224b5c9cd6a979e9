/**
  The Xray indexer-request tracer: which service logs it reads, which lines
  count as index requests, how each request is classified, how requests are
  counted, ordered newest first and grouped by kind.
 */
module IndexRequests {
  import opened Wrappers
  import opened Text
  import opened Search
  import opened LogTime
  import opened Sorting
  import TraceDiscovery

  // ---------------------------------------------------------------------------
  // File selection

  const ExcludedWords: seq<string> := ["metrics", "error", "stack", "request", "traefik"]

  /** The main service log, or a rolled service log that is not a metrics/error/stack/request/traefik log. */
  predicate IsTargetFile(name: string) {
    && EndsWith(name, ".log")
    && (|| name == "xray-server-service.log"
        || (StartsWith(name, "xray-server-service-") && forall k :: 0 <= k < |ExcludedWords| ==> !Contains(name, ExcludedWords[k])))
  }

  /** The names of the selected files, in walk order. */
  function TargetNames(names: seq<string>): (r: seq<string>)
    ensures forall x :: x in r <==> x in names && IsTargetFile(x)
  {
    if |names| == 0 then []
    else TargetNames(names[..|names| - 1]) + (if IsTargetFile(names[|names| - 1]) then [names[|names| - 1]] else [])
  }

  /** The first loop of `find_index_requests`: the walk keeps the target files in order. */
  method SelectTargetFiles(names: seq<string>) returns (targets: seq<string>)
    ensures targets == TargetNames(names)
  {
    targets := [];
    var k := 0;
    while k < |names|
      invariant 0 <= k <= |names|
      invariant targets == TargetNames(names[..k])
    {
      if IsTargetFile(names[k]) {
        targets := targets + [names[k]];
      }
      assert names[..k + 1][..k] == names[..k];
      k := k + 1;
    }
    assert names[..k] == names;
  }

  /** Selection distributes over concatenation: the kept names stay in walk order. */
  lemma {:induction false} TargetNamesAppend(a: seq<string>, b: seq<string>)
    ensures TargetNames(a + b) == TargetNames(a) + TargetNames(b)
    decreases |b|
  {
    if |b| > 0 {
      var b' := b[..|b| - 1];
      assert (a + b)[..|a + b| - 1] == a + b';
      TargetNamesAppend(a, b');
    } else {
      assert a + b == a;
    }
  }

  // ---------------------------------------------------------------------------
  // Line selection and classification

  const CreatedPhrase := "Got indexing message: created"
  const BuildPhrase := "Got indexing message: build"
  const ReleaseBundlePhrase := "Got indexing message: release-bundle"
  const EventPrefix := "Got indexing message:"
  const ForceReindexWord := "forceReindex"
  const ScanUpdatedPhrase := "Scan status record updated for"

  /** `forceReindex.*Scan status record updated for` matches from `i`, with the phrase at `j`. */
  predicate ForceReindexAt(line: string, i: int, j: int) {
    && OccursAt(line, ForceReindexWord, i)
    && OccursAt(line, ScanUpdatedPhrase, j)
    && i + |ForceReindexWord| <= j
    && forall k :: i + |ForceReindexWord| <= k < j ==> line[k] != '\n'
  }

  /** One of the three indexing-message phrases, or a forceReindex scan-status update. */
  predicate IsRequestLine(line: string) {
    || Contains(line, CreatedPhrase) || Contains(line, BuildPhrase) || Contains(line, ReleaseBundlePhrase)
    || exists i, j :: 0 <= i < j <= |line| && ForceReindexAt(line, i, j)
  }

  /** `classify_line`'s categories. */
  datatype Kind = ForceReindex | ReleaseBundle | Build | Created | Other

  /** `classify_line`: the first test that matches, in priority order. */
  function Classify(line: string): Kind {
    if Contains(line, ForceReindexWord) then ForceReindex
    else if Contains(line, ReleaseBundlePhrase) then ReleaseBundle
    else if Contains(line, BuildPhrase) then Build
    else if Contains(line, EventPrefix) then Created
    else Other
  }

  lemma EventPrefixIn(line: string, phrase: string)
    requires phrase in {CreatedPhrase, BuildPhrase, ReleaseBundlePhrase}
    requires Contains(line, phrase)
    ensures Contains(line, EventPrefix)
  {
    var i :| 0 <= i <= |line| - |phrase| && OccursAt(line, phrase, i);
    assert line[i..i + |phrase|] == phrase;
    assert line[i..i + |EventPrefix|] == phrase[..|EventPrefix|] == EventPrefix;
    assert OccursAt(line, EventPrefix, i);
  }

  /**
    The priority of `classify_line`: a forceReindex line is forceReindex
    whatever else it says; a release-bundle message beats a build message;
    any other indexing message is `created`; and a request line, once
    stripped, never falls through to `other`.
   */
  lemma ClassifyPriority(line: string)
    ensures Contains(line, ForceReindexWord) ==> Classify(line) == ForceReindex
    ensures !Contains(line, ForceReindexWord) && Contains(line, ReleaseBundlePhrase) ==> Classify(line) == ReleaseBundle
    ensures !Contains(line, ForceReindexWord) && !Contains(line, ReleaseBundlePhrase) && Contains(line, BuildPhrase)
            ==> Classify(line) == Build
    ensures && !Contains(line, ForceReindexWord) && !Contains(line, ReleaseBundlePhrase) && !Contains(line, BuildPhrase)
            && Contains(line, CreatedPhrase)
            ==> Classify(line) == Created
    ensures IsRequestLine(line) ==> Classify(Strip(line)) != Other
  {
    if Contains(line, CreatedPhrase) {
      EventPrefixIn(line, CreatedPhrase);
    }
    if IsRequestLine(line) {
      RequestLineClassified(line);
    }
  }

  lemma RequestLineClassified(line: string)
    requires IsRequestLine(line)
    ensures Classify(Strip(line)) != Other
  {
    if Contains(line, CreatedPhrase) {
      StripKeeps(line, CreatedPhrase);
      EventPrefixIn(Strip(line), CreatedPhrase);
    } else if Contains(line, BuildPhrase) {
      StripKeeps(line, BuildPhrase);
      EventPrefixIn(Strip(line), BuildPhrase);
    } else if Contains(line, ReleaseBundlePhrase) {
      StripKeeps(line, ReleaseBundlePhrase);
    } else {
      var i, j :| 0 <= i < j <= |line| && ForceReindexAt(line, i, j);
      assert Contains(line, ForceReindexWord);
      StripKeeps(line, ForceReindexWord);
    }
  }

  // ---------------------------------------------------------------------------
  // find_index_requests

  /** The stripped request lines of the target files: a set, so repeats collapse. */
  function Requests(files: seq<TraceDiscovery.LogFile>): set<string> {
    if |files| == 0 then {}
    else
      var f := files[|files| - 1];
      Requests(files[..|files| - 1]) + (if IsTargetFile(f.name) then RequestsIn(f.lines) else {})
  }

  function RequestsIn(lines: seq<string>): set<string> {
    if |lines| == 0 then {}
    else RequestsIn(lines[..|lines| - 1]) + (if IsRequestLine(lines[|lines| - 1]) then {Strip(lines[|lines| - 1])} else {})
  }

  /** A stripped line is a request of the corpus exactly when some target file holds it as a request line. */
  lemma {:induction false} RequestsSpec(files: seq<TraceDiscovery.LogFile>, s: string)
    ensures s in Requests(files) <==>
      exists f, j :: 0 <= f < |files| && IsTargetFile(files[f].name) && 0 <= j < |files[f].lines|
                     && IsRequestLine(files[f].lines[j]) && s == Strip(files[f].lines[j])
  {
    if |files| > 0 {
      var init := files[..|files| - 1];
      var last := files[|files| - 1];
      RequestsSpec(init, s);
      RequestsInSpec(last.lines, s);
      if exists f, j :: 0 <= f < |files| && IsTargetFile(files[f].name) && 0 <= j < |files[f].lines|
                        && IsRequestLine(files[f].lines[j]) && s == Strip(files[f].lines[j]) {
        var f, j :| 0 <= f < |files| && IsTargetFile(files[f].name) && 0 <= j < |files[f].lines|
                    && IsRequestLine(files[f].lines[j]) && s == Strip(files[f].lines[j]);
        if f < |files| - 1 {
          assert init[f] == files[f];
        }
      }
      if exists f, j :: 0 <= f < |init| && IsTargetFile(init[f].name) && 0 <= j < |init[f].lines|
                        && IsRequestLine(init[f].lines[j]) && s == Strip(init[f].lines[j]) {
        var f, j :| 0 <= f < |init| && IsTargetFile(init[f].name) && 0 <= j < |init[f].lines|
                    && IsRequestLine(init[f].lines[j]) && s == Strip(init[f].lines[j]);
        assert files[f] == init[f];
      }
    }
  }

  lemma {:induction false} RequestsInSpec(lines: seq<string>, s: string)
    ensures s in RequestsIn(lines) <==> exists j :: 0 <= j < |lines| && IsRequestLine(lines[j]) && s == Strip(lines[j])
  {
    if |lines| > 0 {
      var init := lines[..|lines| - 1];
      RequestsInSpec(init, s);
      if exists j :: 0 <= j < |lines| && IsRequestLine(lines[j]) && s == Strip(lines[j]) {
        var j :| 0 <= j < |lines| && IsRequestLine(lines[j]) && s == Strip(lines[j]);
        if j < |lines| - 1 {
          assert init[j] == lines[j];
        }
      }
      if exists j :: 0 <= j < |init| && IsRequestLine(init[j]) && s == Strip(init[j]) {
        var j :| 0 <= j < |init| && IsRequestLine(init[j]) && s == Strip(init[j]);
        assert lines[j] == init[j];
      }
    }
  }

  /** Every request of the corpus is classified as one of the four request kinds. */
  lemma RequestsClassified(files: seq<TraceDiscovery.LogFile>, s: string)
    requires s in Requests(files)
    ensures Classify(s) != Other
  {
    RequestsSpec(files, s);
    var f, j :| 0 <= f < |files| && IsTargetFile(files[f].name) && 0 <= j < |files[f].lines|
                && IsRequestLine(files[f].lines[j]) && s == Strip(files[f].lines[j]);
    RequestLineClassified(files[f].lines[j]);
  }

  /** `find_index_requests`: every stripped request line of the target files, once each. */
  method FindIndexRequests(files: seq<TraceDiscovery.LogFile>) returns (lines: seq<string>)
    ensures forall s :: s in lines <==> s in Requests(files)
    ensures forall a, b :: 0 <= a < b < |lines| ==> lines[a] != lines[b]
  {
    var results: set<string> := {};
    var fi := 0;
    while fi < |files|
      invariant 0 <= fi <= |files|
      invariant results == Requests(files[..fi])
    {
      var f := files[fi];
      if IsTargetFile(f.name) {
        var li := 0;
        while li < |f.lines|
          invariant 0 <= li <= |f.lines|
          invariant results == Requests(files[..fi]) + RequestsIn(f.lines[..li])
        {
          if IsRequestLine(f.lines[li]) {
            results := results + {Strip(f.lines[li])};
          }
          assert f.lines[..li + 1][..li] == f.lines[..li];
          li := li + 1;
        }
        assert f.lines[..li] == f.lines;
      }
      assert files[..fi + 1][..fi] == files[..fi];
      fi := fi + 1;
    }
    assert files[..fi] == files;
    lines := ListOf(results);
  }

  // ---------------------------------------------------------------------------
  // extract_timestamp

  /** `datetime.strptime(..., "%Y-%m-%dT%H:%M:%S.%f")` accepts the matched text: at most six fraction digits and a real date. */
  predicate StampParses(line: string) {
    && HasTimePrefix(line)
    && |ReadStamp(line).fraction| <= 6
    && ValidCalendar(ReadStamp(line))
  }

  /** `%f`: the fraction right-padded with zeros to six digits, as microseconds. */
  function Micros(frac: string): (us: nat)
    requires AllDigits(frac) && |frac| <= 6
    ensures us < 1000000
    ensures us / 1000 == Millis(frac)
    ensures us % 1000 == 100 * FracDigit(frac, 3) + 10 * FracDigit(frac, 4) + FracDigit(frac, 5)
  {
    var p := PadRight(frac, 6);
    MicrosSplit(frac, p);
    MicrosLow(frac, p);
    DigitsValue(p)
  }

  lemma MicrosSplit(frac: string, p: string)
    requires AllDigits(frac) && |frac| <= 6 && p == PadRight(frac, 6)
    ensures AllDigits(p)
    ensures DigitsValue(p) < 1000000
    ensures DigitsValue(p) / 1000 == Millis(frac)
  {
    var hi, lo := p[..3], p[3..];
    assert p == hi + lo;
    assert AllDigits(hi) && AllDigits(lo);
    DigitsValueAppend(hi, lo);
    DigitsValueBound(lo);
    DigitsValueBound(hi);
    assert Pow10(3) == 1000;
    ThreeDigitsValue(hi);
    assert forall i :: 0 <= i < 3 ==> hi[i] == p[i];
    assert forall i :: 0 <= i < 3 ==> DigitValue(hi[i]) == FracDigit(frac, i);
    assert DigitsValue(hi) == Millis(frac);
  }

  lemma MicrosLow(frac: string, p: string)
    requires AllDigits(frac) && |frac| <= 6 && p == PadRight(frac, 6)
    ensures AllDigits(p)
    ensures DigitsValue(p) % 1000 == 100 * FracDigit(frac, 3) + 10 * FracDigit(frac, 4) + FracDigit(frac, 5)
  {
    var hi, lo := p[..3], p[3..];
    assert p == hi + lo;
    assert AllDigits(hi) && AllDigits(lo);
    DigitsValueAppend(hi, lo);
    DigitsValueBound(lo);
    assert Pow10(3) == 1000;
    LowThousands(DigitsValue(hi), DigitsValue(lo));
    ThreeDigitsValue(lo);
    assert forall i :: 3 <= i < 6 ==> DigitValue(lo[i - 3]) == FracDigit(frac, i);
  }

  lemma LowThousands(a: nat, b: nat)
    requires b < 1000
    ensures (a * 1000 + b) % 1000 == b
  {
  }

  /**
    `extract_timestamp`: the parsed time, or `datetime.min` when the line has
    no leading timestamp or `strptime` rejects it.
   */
  function ExtractTimestamp(line: string): (t: DateTime)
    ensures ValidDateTime(t)
    ensures !StampParses(line) ==> t == MinDateTime
    ensures StampParses(line) ==> var s := ReadStamp(line);
              t == DateTime(s.year, s.month, s.day, s.hour, s.minute, s.second, Micros(s.fraction))
  {
    if StampParses(line) then
      var s := ReadStamp(line);
      DateTime(s.year, s.month, s.day, s.hour, s.minute, s.second, Micros(s.fraction))
    else MinDateTime
  }

  /**
    Where both scripts read a timestamp they read the same instant: the
    timeline's millisecond time is this one truncated to milliseconds.
   */
  lemma ExtractTimestampAgrees(line: string)
    requires StampParses(line)
    ensures ExtractTime(line).Some?
    ensures var t, u := ExtractTime(line).value, ExtractTimestamp(line);
            && (t.year, t.month, t.day, t.hour, t.minute, t.second) == (u.year, u.month, u.day, u.hour, u.minute, u.second)
            && t.microsecond == u.microsecond / 1000 * 1000
  {
  }

  /** The sort key: microseconds since `datetime.min`. */
  function StampKey(line: string): (k: int)
    ensures k >= 0
    ensures k == 0 <==> ExtractTimestamp(line) == MinDateTime
  {
    var t := ExtractTimestamp(line);
    MicrosFromMin(t);
    ToMicros(t)
  }

  /** `key=lambda x: extract_timestamp(x[1])`, as the "not after" relation of the sort. */
  function ByTimestamp(): ((Kind, string), (Kind, string)) -> bool {
    (a: (Kind, string), b: (Kind, string)) => StampKey(a.1) <= StampKey(b.1)
  }

  lemma ByTimestampTotal()
    ensures TotalPreorder(ByTimestamp())
  {
  }

  /** `classified_lines.sort(key=..., reverse=True)`: Python's stable sort, newest first. */
  function NewestFirst(classified: seq<(Kind, string)>): (r: seq<(Kind, string)>)
    ensures |r| == |classified|
  {
    SortDesc(classified, ByTimestamp())
  }

  /**
    The ordering `__main__` produces: a permutation of the classified lines,
    newest first by time, lines without a usable timestamp after every line
    with one, and lines with equal times in their original order.
   */
  lemma NewestFirstSpec(classified: seq<(Kind, string)>, k: (Kind, string))
    ensures multiset(NewestFirst(classified)) == multiset(classified)
    ensures var s := NewestFirst(classified);
            forall i, j :: 0 <= i < j < |s| ==>
              && !Before(ExtractTimestamp(s[i].1), ExtractTimestamp(s[j].1))
              && (ExtractTimestamp(s[i].1) == MinDateTime ==> ExtractTimestamp(s[j].1) == MinDateTime)
    ensures Ties(NewestFirst(classified), ByTimestamp(), k) == Ties(classified, ByTimestamp(), k)
  {
    ByTimestampTotal();
    SortDescCorrect(classified, ByTimestamp());
    SortDescStable(classified, ByTimestamp(), k);
    NewestFirstOrder(NewestFirst(classified));
  }

  lemma NewestFirstOrder(s: seq<(Kind, string)>)
    requires Descending(s, ByTimestamp())
    ensures forall i, j :: 0 <= i < j < |s| ==>
              && !Before(ExtractTimestamp(s[i].1), ExtractTimestamp(s[j].1))
              && (ExtractTimestamp(s[i].1) == MinDateTime ==> ExtractTimestamp(s[j].1) == MinDateTime)
  {
    forall i, j | 0 <= i < j < |s|
      ensures !Before(ExtractTimestamp(s[i].1), ExtractTimestamp(s[j].1))
      ensures ExtractTimestamp(s[i].1) == MinDateTime ==> ExtractTimestamp(s[j].1) == MinDateTime
    {
      var ti, tj := ExtractTimestamp(s[i].1), ExtractTimestamp(s[j].1);
      assert StampKey(s[j].1) <= StampKey(s[i].1);
      MicrosOrder(ti, tj);
    }
  }

  // ---------------------------------------------------------------------------
  // Counting and grouping

  /** The type counter of `__main__`; `other` lines are not counted. */
  datatype Counts = Counts(created: nat, build: nat, releaseBundle: nat, forceReindex: nat)

  /** The number of classified lines of kind `k`. */
  function CountKind(s: seq<(Kind, string)>, k: Kind): nat {
    if |s| == 0 then 0
    else CountKind(s[..|s| - 1], k) + (if s[|s| - 1].0 == k then 1 else 0)
  }

  /** The "EVENT" total of the summary. */
  function EventTotal(c: Counts): nat {
    c.created + c.build + c.releaseBundle
  }

  /** The counting loop of `__main__`: each line is classified once and bumps at most one counter. */
  method Tally(lines: seq<string>) returns (counts: Counts, classified: seq<(Kind, string)>)
    ensures |classified| == |lines|
    ensures forall i :: 0 <= i < |lines| ==> classified[i] == (Classify(lines[i]), lines[i])
    ensures counts == Counts(CountKind(classified, Created), CountKind(classified, Build),
                             CountKind(classified, ReleaseBundle), CountKind(classified, ForceReindex))
  {
    counts := Counts(0, 0, 0, 0);
    classified := [];
    var k := 0;
    while k < |lines|
      invariant 0 <= k <= |lines|
      invariant |classified| == k
      invariant forall i :: 0 <= i < k ==> classified[i] == (Classify(lines[i]), lines[i])
      invariant counts == Counts(CountKind(classified, Created), CountKind(classified, Build),
                                 CountKind(classified, ReleaseBundle), CountKind(classified, ForceReindex))
    {
      var t := Classify(lines[k]);
      match t {
        case Created => counts := counts.(created := counts.created + 1);
        case Build => counts := counts.(build := counts.build + 1);
        case ReleaseBundle => counts := counts.(releaseBundle := counts.releaseBundle + 1);
        case ForceReindex => counts := counts.(forceReindex := counts.forceReindex + 1);
        case Other =>
      }
      var prev := classified;
      classified := classified + [(t, lines[k])];
      assert classified[..k] == prev;
      k := k + 1;
    }
  }

  /** The four counters and the uncounted `other` lines add up to the number of lines. */
  lemma {:induction false} CountsPartition(s: seq<(Kind, string)>)
    ensures CountKind(s, Created) + CountKind(s, Build) + CountKind(s, ReleaseBundle)
            + CountKind(s, ForceReindex) + CountKind(s, Other) == |s|
  {
    if |s| > 0 {
      CountsPartition(s[..|s| - 1]);
    }
  }

  lemma {:induction false} CountKindAppend(a: seq<(Kind, string)>, b: seq<(Kind, string)>, k: Kind)
    ensures CountKind(a + b, k) == CountKind(a, k) + CountKind(b, k)
    decreases |b|
  {
    if |b| == 0 {
      assert a + b == a;
    } else {
      assert (a + b)[..|a + b| - 1] == a + b[..|b| - 1];
      CountKindAppend(a, b[..|b| - 1], k);
    }
  }

  lemma {:induction false} CountKindInsert(s: seq<(Kind, string)>, x: (Kind, string), le: ((Kind, string), (Kind, string)) -> bool, k: Kind)
    ensures CountKind(InsertDesc(s, x, le), k) == CountKind(s, k) + CountKind([x], k)
    decreases |s|
  {
    if |s| == 0 {
      assert InsertDesc(s, x, le) == [x];
    } else if le(s[0], x) && !le(x, s[0]) {
      assert InsertDesc(s, x, le) == [x] + s;
      CountKindAppend([x], s, k);
    } else {
      var t := s[1..];
      assert s == [s[0]] + t;
      assert InsertDesc(s, x, le) == [s[0]] + InsertDesc(t, x, le);
      CountKindInsert(t, x, le, k);
      CountKindAppend([s[0]], t, k);
      CountKindAppend([s[0]], InsertDesc(t, x, le), k);
    }
  }

  /** Sorting does not change the counts. */
  lemma {:induction false} CountKindSorted(xs: seq<(Kind, string)>, le: ((Kind, string), (Kind, string)) -> bool, k: Kind)
    ensures CountKind(SortDesc(xs, le), k) == CountKind(xs, k)
  {
    if |xs| > 0 {
      var init := xs[..|xs| - 1];
      CountKindSorted(init, le, k);
      CountKindInsert(SortDesc(init, le), xs[|xs| - 1], le, k);
      assert xs == init + [xs[|xs| - 1]];
      CountKindAppend(init, [xs[|xs| - 1]], k);
    }
  }

  /** The lines of kind `k`, in order: `grouped_lines[k]`. */
  function LinesOfKind(s: seq<(Kind, string)>, k: Kind): (r: seq<string>)
    ensures |r| == CountKind(s, k)
    ensures forall x :: x in r ==> (k, x) in s
  {
    if |s| == 0 then []
    else LinesOfKind(s[..|s| - 1], k) + (if s[|s| - 1].0 == k then [s[|s| - 1].1] else [])
  }

  /** The grouping loop of `__main__`: a `defaultdict(list)` holds only the kinds that occur. */
  method GroupLines(sorted: seq<(Kind, string)>) returns (groups: map<Kind, seq<string>>)
    ensures forall k :: k in groups <==> CountKind(sorted, k) > 0
    ensures forall k :: k in groups ==> groups[k] == LinesOfKind(sorted, k)
  {
    groups := map[];
    var i := 0;
    while i < |sorted|
      invariant 0 <= i <= |sorted|
      invariant forall k :: k in groups <==> CountKind(sorted[..i], k) > 0
      invariant forall k :: k in groups ==> groups[k] == LinesOfKind(sorted[..i], k)
    {
      var (t, line) := sorted[i];
      if t in groups {
        groups := groups[t := groups[t] + [line]];
      } else {
        groups := groups[t := [line]];
      }
      assert sorted[..i + 1][..i] == sorted[..i];
      i := i + 1;
    }
    assert sorted[..i] == sorted;
  }

  /** What the tracer reports: the requests, the counters and the newest-first groups. */
  datatype Summary = Summary(requests: seq<string>, counts: Counts, groups: map<Kind, seq<string>>)

  /**
    `__main__`: find the requests, count them, sort them newest first and
    group them. Each counter is the number of requests of its kind, a group
    exists exactly for each kind that occurs and holds that kind's requests
    newest first, and the total is the EVENT total plus the forceReindex
    count.
   */
  method TraceIndexRequests(files: seq<TraceDiscovery.LogFile>) returns (summary: Summary)
    ensures forall s :: s in summary.requests <==> s in Requests(files)
    ensures |summary.requests| == EventTotal(summary.counts) + summary.counts.forceReindex
    ensures Other !in summary.groups
    ensures forall k :: k in summary.groups ==>
              && |summary.groups[k]| > 0
              && |summary.groups[k]| == CountKind(NewestFirst(ClassifiedAs(summary.requests)), k)
              && (forall x :: x in summary.groups[k] ==> x in summary.requests && Classify(x) == k)
    ensures summary.counts.created == CountKind(ClassifiedAs(summary.requests), Created)
    ensures summary.counts.build == CountKind(ClassifiedAs(summary.requests), Build)
    ensures summary.counts.releaseBundle == CountKind(ClassifiedAs(summary.requests), ReleaseBundle)
    ensures summary.counts.forceReindex == CountKind(ClassifiedAs(summary.requests), ForceReindex)
    ensures forall k :: k in summary.groups <==> k != Other && CountKind(ClassifiedAs(summary.requests), k) > 0
    ensures forall k :: k in summary.groups ==> summary.groups[k] == LinesOfKind(NewestFirst(ClassifiedAs(summary.requests)), k)
  {
    var lines := FindIndexRequests(files);
    var counts, classified := Tally(lines);
    assert classified == ClassifiedAs(lines);
    var sorted := NewestFirst(classified);
    var groups := GroupLines(sorted);
    ByTimestampTotal();
    SortDescCorrect(classified, ByTimestamp());
    CountsPartition(classified);
    assert CountKind(classified, Other) == 0 by {
      NoOtherKind(lines, files);
    }
    forall k {
      CountKindSorted(classified, ByTimestamp(), k);
    }
    assert Other !in groups;
    forall k | k in groups
      ensures forall x :: x in groups[k] ==> x in lines && Classify(x) == k
    {
      forall x | x in groups[k] ensures x in lines && Classify(x) == k {
        assert (k, x) in sorted;
        assert (k, x) in multiset(classified);
        var i :| 0 <= i < |classified| && classified[i] == (k, x);
      }
    }
    summary := Summary(lines, counts, groups);
  }

  /** The classified form of a list of lines. */
  function ClassifiedAs(lines: seq<string>): (r: seq<(Kind, string)>)
    ensures |r| == |lines|
    ensures forall i :: 0 <= i < |lines| ==> r[i] == (Classify(lines[i]), lines[i])
  {
    seq(|lines|, i requires 0 <= i < |lines| => (Classify(lines[i]), lines[i]))
  }

  lemma {:induction false} NoOtherKind(lines: seq<string>, files: seq<TraceDiscovery.LogFile>)
    requires forall s :: s in lines ==> s in Requests(files)
    ensures CountKind(ClassifiedAs(lines), Other) == 0
  {
    if |lines| > 0 {
      var init := lines[..|lines| - 1];
      NoOtherKind(init, files);
      assert ClassifiedAs(lines)[..|lines| - 1] == ClassifiedAs(init);
      RequestsClassified(files, lines[|lines| - 1]);
    }
  }
}
