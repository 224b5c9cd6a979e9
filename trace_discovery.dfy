/**
  `find_trace_ids` and `find_all_lines_by_trace_id` of the scan-timeline
  scripts, over an in-memory corpus: the `.log` files found under the log
  directory, each with its lines in file order.
 */
module TraceDiscovery {
  import opened Text
  import opened Search

  /** A file of the log directory: its name and its lines. */
  datatype LogFile = LogFile(name: string, lines: seq<string>)

  /** Only names ending ".log" are read. */
  predicate IsLogName(name: string) {
    EndsWith(name, ".log")
  }

  predicate IsLowerHex(c: char) {
    ('0' <= c <= '9') || ('a' <= c <= 'f')
  }

  /** `\[([a-f0-9]{16})\]` matches at index `i` of the line. */
  predicate TokenAt(line: string, i: int) {
    && 0 <= i && i + 18 <= |line|
    && line[i] == '[' && line[i + 17] == ']'
    && forall k :: i + 1 <= k <= i + 16 ==> IsLowerHex(line[k])
  }

  /** Every bracketed 16-hex token of a line. */
  function TokensIn(line: string): set<string> {
    set i | 0 <= i <= |line| - 18 && TokenAt(line, i) :: line[i + 1..i + 17]
  }

  /** Two matches never overlap: no character inside a match is a '['. */
  lemma TokenMatchesApart(line: string, i: int, j: int)
    requires TokenAt(line, i) && TokenAt(line, j) && i < j
    ensures j >= i + 18
  {
  }

  /** `re.findall` from position `from`: after a match the scan resumes past it. */
  function FindAll(line: string, from: nat): (r: seq<string>)
    ensures forall k :: 0 <= k < |r| ==> |r[k]| == 16
    decreases |line| - from
  {
    if from + 18 > |line| then []
    else if TokenAt(line, from) then [line[from + 1..from + 17]] + FindAll(line, from + 18)
    else FindAll(line, from + 1)
  }

  /** Because matches never overlap, `findall` returns every match of the line. */
  lemma {:induction false} FindAllComplete(line: string, from: nat)
    ensures forall t :: t in FindAll(line, from) <==>
              exists i :: from <= i <= |line| - 18 && TokenAt(line, i) && t == line[i + 1..i + 17]
    decreases |line| - from
  {
    if from + 18 > |line| {
    } else if TokenAt(line, from) {
      FindAllComplete(line, from + 18);
      forall i | from < i < from + 18 && i <= |line| - 18
        ensures !TokenAt(line, i)
      {
        if TokenAt(line, i) { TokenMatchesApart(line, from, i); }
      }
    } else {
      FindAllComplete(line, from + 1);
    }
  }

  lemma FindAllIsTokensIn(line: string)
    ensures forall t :: t in FindAll(line, 0) <==> t in TokensIn(line)
  {
    FindAllComplete(line, 0);
  }

  // ---------------------------------------------------------------------------
  // find_trace_ids

  /** The tokens contributed by lines that contain the artifact. */
  function TokensFromLines(lines: seq<string>, artifact: string): set<string> {
    if |lines| == 0 then {}
    else
      TokensFromLines(lines[..|lines| - 1], artifact)
      + (if Contains(lines[|lines| - 1], artifact) then TokensIn(lines[|lines| - 1]) else {})
  }

  /** The tokens of the whole corpus, file by file. */
  function TraceIds(files: seq<LogFile>, artifact: string): set<string> {
    if |files| == 0 then {}
    else
      var f := files[|files| - 1];
      TraceIds(files[..|files| - 1], artifact)
      + (if IsLogName(f.name) then TokensFromLines(f.lines, artifact) else {})
  }

  /** A token is found in some line of the given lines that contains the artifact. */
  predicate SeenWith(lines: seq<string>, artifact: string, t: string) {
    exists j :: 0 <= j < |lines| && Contains(lines[j], artifact) && t in TokensIn(lines[j])
  }

  lemma {:induction false} TokensFromLinesSpec(lines: seq<string>, artifact: string, t: string)
    ensures t in TokensFromLines(lines, artifact) <==> SeenWith(lines, artifact, t)
  {
    if |lines| > 0 {
      var init := lines[..|lines| - 1];
      TokensFromLinesSpec(init, artifact, t);
      if SeenWith(lines, artifact, t) {
        var j :| 0 <= j < |lines| && Contains(lines[j], artifact) && t in TokensIn(lines[j]);
        if j < |lines| - 1 {
          assert init[j] == lines[j];
        }
      }
      if SeenWith(init, artifact, t) {
        var j :| 0 <= j < |init| && Contains(init[j], artifact) && t in TokensIn(init[j]);
        assert lines[j] == init[j];
      }
    }
  }

  /**
    The trace ids are exactly the tokens on lines of `.log` files that
    contain the artifact; a token seen only on other lines is never returned.
   */
  lemma {:induction false} TraceIdsSpec(files: seq<LogFile>, artifact: string, t: string)
    ensures t in TraceIds(files, artifact) <==>
      exists f :: 0 <= f < |files| && IsLogName(files[f].name) && SeenWith(files[f].lines, artifact, t)
  {
    if |files| > 0 {
      var init := files[..|files| - 1];
      var last := files[|files| - 1];
      TraceIdsSpec(init, artifact, t);
      TokensFromLinesSpec(last.lines, artifact, t);
      if exists f :: 0 <= f < |files| && IsLogName(files[f].name) && SeenWith(files[f].lines, artifact, t) {
        var f :| 0 <= f < |files| && IsLogName(files[f].name) && SeenWith(files[f].lines, artifact, t);
        if f < |files| - 1 {
          assert init[f] == files[f];
        }
      }
      if exists f :: 0 <= f < |init| && IsLogName(init[f].name) && SeenWith(init[f].lines, artifact, t) {
        var f :| 0 <= f < |init| && IsLogName(init[f].name) && SeenWith(init[f].lines, artifact, t);
        assert files[f] == init[f];
      }
    }
  }

  /** The innermost loop: every `findall` match of a line goes into the set. */
  method LineTokens(line: string) returns (added: set<string>)
    ensures added == TokensIn(line)
  {
    var ms := FindAll(line, 0);
    FindAllIsTokensIn(line);
    var k := 0;
    added := {};
    while k < |ms|
      invariant 0 <= k <= |ms|
      invariant added == set x | x in ms[..k]
    {
      added := added + {ms[k]};
      assert ms[..k + 1] == ms[..k] + [ms[k]];
      k := k + 1;
    }
    assert ms[..k] == ms;
  }

  /**
    `find_trace_ids`: the nested loops add every token of every matching
    line to a set, which is then listed in some order without repetition.
   */
  method FindTraceIds(files: seq<LogFile>, artifact: string) returns (ids: seq<string>)
    ensures forall t :: t in ids <==> t in TraceIds(files, artifact)
    ensures forall a, b :: 0 <= a < b < |ids| ==> ids[a] != ids[b]
  {
    var found: set<string> := {};
    var fi := 0;
    while fi < |files|
      invariant 0 <= fi <= |files|
      invariant found == TraceIds(files[..fi], artifact)
    {
      var f := files[fi];
      if IsLogName(f.name) {
        var li := 0;
        while li < |f.lines|
          invariant 0 <= li <= |f.lines|
          invariant found == TraceIds(files[..fi], artifact) + TokensFromLines(f.lines[..li], artifact)
        {
          var line := f.lines[li];
          if Contains(line, artifact) {
            var added := LineTokens(line);
            found := found + added;
          }
          assert f.lines[..li + 1][..li] == f.lines[..li];
          li := li + 1;
        }
        assert f.lines[..li] == f.lines;
      }
      assert files[..fi + 1][..fi] == files[..fi];
      fi := fi + 1;
    }
    assert files[..fi] == files;
    ids := ListOf(found);
  }

  // ---------------------------------------------------------------------------
  // find_all_lines_by_trace_id

  const KeepKeywords: seq<string> :=
    ["index", "persist", "analysis", "ca", "exposure", "scan", "worker", "cve_applicability", "exposures_service"]

  /** A line is kept when it names the bracketed token and one of the business keywords. */
  predicate Keep(line: string, token: string) {
    Contains(line, "[" + token + "]") && exists k :: 0 <= k < |KeepKeywords| && Contains(line, KeepKeywords[k])
  }

  function KeepFor(token: string): string -> bool {
    line => Keep(line, token)
  }

  /** The stripped kept lines of one file, in file order. */
  function KeptLines(lines: seq<string>, token: string): (r: seq<string>)
    ensures |r| <= |lines|
  {
    MapFilter(lines, KeepFor(token), Strip)
  }

  /** The collected lines of the corpus, file after file. */
  function Collected(files: seq<LogFile>, token: string): seq<string> {
    if |files| == 0 then []
    else
      var f := files[|files| - 1];
      Collected(files[..|files| - 1], token) + (if IsLogName(f.name) then KeptLines(f.lines, token) else [])
  }

  /** Keeping distributes over concatenation: the collector preserves line order. */
  lemma KeptLinesAppend(a: seq<string>, b: seq<string>, token: string)
    ensures KeptLines(a + b, token) == KeptLines(a, token) + KeptLines(b, token)
  {
    MapFilterAppend(a, b, KeepFor(token), Strip);
  }

  /** A line is collected, stripped, exactly when it is kept. */
  lemma KeptLinesSpec(lines: seq<string>, token: string, s: string)
    ensures s in KeptLines(lines, token) <==>
              exists j :: 0 <= j < |lines| && Keep(lines[j], token) && s == Strip(lines[j])
  {
    MapFilterSpec(lines, KeepFor(token), Strip, s);
  }

  /** `find_all_lines_by_trace_id`: the nested loops append each kept line, stripped. */
  method CollectTraceLines(files: seq<LogFile>, token: string) returns (lines: seq<string>)
    ensures lines == Collected(files, token)
  {
    lines := [];
    var fi := 0;
    while fi < |files|
      invariant 0 <= fi <= |files|
      invariant lines == Collected(files[..fi], token)
    {
      var f := files[fi];
      if IsLogName(f.name) {
        var li := 0;
        while li < |f.lines|
          invariant 0 <= li <= |f.lines|
          invariant lines == Collected(files[..fi], token) + KeptLines(f.lines[..li], token)
        {
          if Keep(f.lines[li], token) {
            lines := lines + [Strip(f.lines[li])];
          }
          assert f.lines[..li + 1][..li] == f.lines[..li];
          li := li + 1;
        }
        assert f.lines[..li] == f.lines;
      }
      assert files[..fi + 1][..fi] == files[..fi];
      fi := fi + 1;
    }
    assert files[..fi] == files;
  }
}
