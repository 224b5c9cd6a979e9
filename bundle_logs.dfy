/**
  The support-bundle log extractor: a JFrog support bundle is a zip holding
  one inner zip per node; the node of each inner zip is looked up in the
  bundle's service manifest, and every `.log` / `.log.gz` entry of a known
  node's zip is written once into that node's directory under the output
  directory chosen by the bundle type, keeping the entry's time stamp and
  permission bits when they are usable.
 */
module BundleLogs {
  import opened Wrappers
  import opened Bytes
  import opened Text
  import opened Search
  import opened Json

  // ---------------------------------------------------------------------------
  // Output directory and node lookup

  /** `get_output_directory`: Xray and Artifactory bundles have their own directory, the rest share one. */
  function OutputDirectory(bundleType: Json): (dir: string)
    ensures dir == "./xray" <==> bundleType == JStr("jfxr")
    ensures dir == "./artifactory" <==> bundleType == JStr("jfrt")
    ensures dir in {"./xray", "./artifactory", "./unknown"}
  {
    if bundleType == JStr("jfxr") then "./xray"
    else if bundleType == JStr("jfrt") then "./artifactory"
    else "./unknown"
  }

  const Unknown := "unknown"

  /** The node names of one service: the keys of its value when that value is an object. */
  function NodesOf(services: Json, name: string): seq<string> {
    match Get(services, name)
    case Some(JObj(nodes)) => seq(|nodes|, k requires 0 <= k < |nodes| => nodes[k].0)
    case _ => []
  }

  /** Every node name of the manifest, service after service, in document order. */
  function Candidates(services: Json, names: seq<string>): seq<string> {
    if |names| == 0 then [] else NodesOf(services, names[0]) + Candidates(services, names[1..])
  }

  /** The first of `nodes` that occurs in `filename`: the inner loop over `nodes.keys()`. */
  function FirstIn(nodes: seq<string>, filename: string): (r: Option<string>)
    ensures r.Some? ==> r.value in nodes && Contains(filename, r.value)
  {
    if |nodes| == 0 then None
    else if Contains(filename, nodes[0]) then Some(nodes[0])
    else FirstIn(nodes[1..], filename)
  }

  /**
    The outer loop over `microservices.items()`: services whose value is not
    an object are passed over; the first node found wins.
   */
  function FindNode(services: Json, names: seq<string>, filename: string): (r: Option<string>)
    ensures r.Some? ==> Contains(filename, r.value)
  {
    if |names| == 0 then None
    else match FirstIn(NodesOf(services, names[0]), filename)
      case Some(n) => Some(n)
      case None => FindNode(services, names[1..], filename)
  }

  /**
    `extract_node_from_zipname`: "unknown" without a manifest object or
    without its `microservices` object, otherwise the first node name found
    in the zip's base name, or "unknown".
   */
  function NodeOf(zipName: string, manifest: Option<Json>): (node: string)
    ensures node != Unknown ==> Contains(Basename(zipName), node)
    ensures (|| manifest.None?
             || Get(manifest.value, "microservices").None?
             || !Get(manifest.value, "microservices").value.JObj?) ==> node == Unknown
    ensures manifest.Some? && Get(manifest.value, "microservices").Some?
            && Get(manifest.value, "microservices").value.JObj? ==>
              var services := Get(manifest.value, "microservices").value;
              node == match FirstIn(Candidates(services, Keys(services)), Basename(zipName))
                      case Some(n) => n
                      case None => Unknown
  {
    match manifest
    case None => Unknown
    case Some(m) =>
      match Get(m, "microservices")
      case Some(services) =>
        if services.JObj? then
          FindNodeFirstCandidate(services, Keys(services), Basename(zipName));
          match FindNode(services, Keys(services), Basename(zipName))
          case Some(n) => n
          case None => Unknown
        else Unknown
      case None => Unknown
  }

  /** The two nested loops are one search over the flattened node list. */
  lemma {:induction false} FirstInAppend(a: seq<string>, b: seq<string>, filename: string)
    ensures FirstIn(a + b, filename) == if FirstIn(a, filename).Some? then FirstIn(a, filename) else FirstIn(b, filename)
    decreases |a|
  {
    if |a| == 0 {
      assert a + b == b;
    } else {
      assert (a + b)[1..] == a[1..] + b;
      FirstInAppend(a[1..], b, filename);
    }
  }

  /** The nested search finds the first candidate node, over all services, that occurs in the name. */
  lemma {:induction false} FindNodeFirstCandidate(services: Json, names: seq<string>, filename: string)
    ensures FindNode(services, names, filename) == FirstIn(Candidates(services, names), filename)
    decreases |names|
  {
    if |names| > 0 {
      FindNodeFirstCandidate(services, names[1..], filename);
      FirstInAppend(NodesOf(services, names[0]), Candidates(services, names[1..]), filename);
    }
  }

  /** `FirstIn` returns the earliest node name occurring in the text, and none when none occurs. */
  lemma {:induction false} FirstInSpec(nodes: seq<string>, filename: string)
    ensures FirstIn(nodes, filename).None? <==> forall k :: 0 <= k < |nodes| ==> !Contains(filename, nodes[k])
    ensures FirstIn(nodes, filename).Some? ==>
              exists k :: 0 <= k < |nodes| && nodes[k] == FirstIn(nodes, filename).value
                          && forall j :: 0 <= j < k ==> !Contains(filename, nodes[j])
  {
    if |nodes| > 0 && !Contains(filename, nodes[0]) {
      FirstInSpec(nodes[1..], filename);
      if FirstIn(nodes, filename).Some? {
        var k :| 0 <= k < |nodes[1..]| && nodes[1..][k] == FirstIn(nodes, filename).value
                 && forall j :: 0 <= j < k ==> !Contains(filename, nodes[1..][j]);
        assert forall j :: 0 < j < k + 1 ==> nodes[j] == nodes[1..][j - 1];
      }
      assert forall k :: 0 < k < |nodes| ==> nodes[k] == nodes[1..][k - 1];
    } else if |nodes| > 0 {
      assert nodes[0] == FirstIn(nodes, filename).value;
    }
  }

  // ---------------------------------------------------------------------------
  // Time stamp and permission bits of an extracted file

  /** A zip entry's `date_time`: year, month, day, hour, minute, second. */
  datatype Stamp = Stamp(year: int, month: int, day: int, hour: int, minute: int, second: int)

  /** The range check the extractor makes before setting the time. */
  predicate InRange(s: Stamp) {
    1 <= s.month <= 12 && 1 <= s.day <= 31 && 0 <= s.hour <= 23 && 0 <= s.minute <= 59 && 0 <= s.second <= 59
  }

  predicate IsLeap(y: int) {
    y % 4 == 0 && (y % 100 != 0 || y % 400 == 0)
  }

  function DaysInMonth(y: int, m: int): int
    requires 1 <= m <= 12
  {
    if m == 2 then (if IsLeap(y) then 29 else 28)
    else if m == 4 || m == 6 || m == 9 || m == 11 then 30
    else 31
  }

  /** What `datetime(...)` accepts: a real calendar date in years 1 to 9999. */
  predicate IsDate(s: Stamp)
    requires InRange(s)
  {
    1 <= s.year <= 9999 && s.day <= DaysInMonth(s.year, s.month)
  }

  /** The attributes an extracted file ends up with: a modification time and permission bits, when set. */
  datatype Attributes = Attributes(mtime: Option<Stamp>, mode: Option<nat>)

  /** `(external_attr >> 16) & 0o777`, applied only when the attribute and those bits are nonzero. */
  function ModeOf(externalAttr: nat): (m: Option<nat>)
    ensures m.Some? ==> 0 < m.value < 512
    ensures m.Some? <==> (externalAttr / 65536) % 512 != 0
  {
    var mode := (externalAttr / 65536) % 512;
    if externalAttr != 0 && mode != 0 then Some(mode) else None
  }

  /**
    The time and mode rules of `create_file_with_timestamp`: the time is set
    only when every field is in range; a day in range that the month does not
    have makes `datetime` raise before the mode is set.
   */
  function AttributesOf(s: Stamp, externalAttr: nat): (r: Result<Attributes, string>)
    ensures r.Ok? ==> (r.value.mtime.Some? <==> InRange(s)) && r.value.mode == ModeOf(externalAttr)
    ensures r.Err? <==> InRange(s) && !IsDate(s)
  {
    if InRange(s) then
      if IsDate(s) then Ok(Attributes(Some(s), ModeOf(externalAttr)))
      else Err("day is out of range for month")
    else Ok(Attributes(None, ModeOf(externalAttr)))
  }

  /** `preserve_file_attributes`: the same rules, with a failure reported and nothing set. */
  function PreservedAttributes(s: Stamp, externalAttr: nat): (a: Attributes)
    ensures a.mtime.Some? ==> a.mtime.value == s && InRange(s)
    ensures a.mode.Some? ==> a.mode == ModeOf(externalAttr)
  {
    match AttributesOf(s, externalAttr)
    case Ok(a) => a
    case Err(_) => Attributes(None, None)
  }

  /** Every permission pattern is kept exactly: the mode set is the low nine bits of the high half. */
  lemma ModeRoundTrip(mode: nat, low: nat)
    requires 0 < mode < 512 && low < 65536
    ensures ModeOf(mode * 65536 + low) == Some(mode)
  {
    assert (mode * 65536 + low) / 65536 == mode;
  }

  // ---------------------------------------------------------------------------
  // Entries and target paths

  /** One entry of an inner zip. */
  datatype Entry = Entry(filename: string, data: seq<byte>, stamp: Stamp, externalAttr: nat)

  /** One member of the bundle: its name and, when it is a readable zip, its entries. */
  datatype Member = Member(name: string, inner: Option<seq<Entry>>)

  predicate IsGzLog(name: string) {
    EndsWith(name, ".log.gz")
  }

  /** Only log files, plain or gzip-compressed, are extracted. */
  predicate IsLogName(name: string) {
    EndsWith(name, ".log") || IsGzLog(name)
  }

  /** `os.path.join(a, b)`: an absolute `b` replaces `a`; otherwise one '/' separates them. */
  function PathJoin(a: string, b: string): string {
    if StartsWith(b, "/") then b
    else if a == [] || EndsWith(a, "/") then a + b
    else a + "/" + b
  }

  /** A suffix without '/' is kept by `basename`. */
  lemma {:induction false} BasenameKeepsSuffix(p: string, s: string)
    requires EndsWith(p, s) && '/' !in s
    ensures EndsWith(Basename(p), s)
    decreases |p|
  {
    if |s| > 0 {
      assert p[|p| - 1] == s[|s| - 1];
      var p', s' := p[..|p| - 1], s[..|s| - 1];
      assert p'[|p'| - |s'|..] == s';
      BasenameKeepsSuffix(p', s');
      assert Basename(p) == Basename(p') + [p[|p| - 1]];
    }
  }

  /**
    Where an entry is written: the node directory joined with the entry's
    base name, with the last three characters (".gz") cut for compressed logs.
   */
  function EntryPath(nodeDir: string, filename: string): (path: string)
    ensures IsGzLog(filename) ==> EndsWith(path, ".log")
  {
    var dst := PathJoin(nodeDir, Basename(filename));
    if IsGzLog(filename) then
      BasenameKeepsSuffix(filename, ".log.gz");
      JoinKeepsSuffix(nodeDir, Basename(filename), ".log.gz");
      CutGz(dst);
      dst[..|dst| - 3]
    else dst
  }

  /** A joined path ends as its second part does. */
  lemma JoinKeepsSuffix(a: string, b: string, s: string)
    requires EndsWith(b, s)
    ensures EndsWith(PathJoin(a, b), s)
  {
    if StartsWith(b, "/") {
    } else if a == [] || EndsWith(a, "/") {
      PrefixKeepsSuffix(a, b, s);
    } else {
      PrefixKeepsSuffix(a + "/", b, s);
    }
  }

  lemma PrefixKeepsSuffix(x: string, b: string, s: string)
    requires EndsWith(b, s)
    ensures EndsWith(x + b, s)
  {
    assert (x + b)[|x + b| - |s|..] == b[|b| - |s|..];
  }

  /** Cutting ".gz" off a name ending in ".log.gz" leaves one ending in ".log". */
  lemma CutGz(dst: string)
    requires EndsWith(dst, ".log.gz")
    ensures 3 <= |dst| && EndsWith(dst[..|dst| - 3], ".log")
  {
    assert dst[..|dst| - 3][|dst| - 7..] == dst[|dst| - 7..|dst| - 3];
  }

  /** The base name of a compressed log still ends in ".log.gz" and does not start with '/'. */
  lemma GzBasename(filename: string)
    requires IsGzLog(filename)
    ensures var b := Basename(filename); EndsWith(b, ".log.gz") && 3 < |b| && b[0] != '/'
  {
    var b := Basename(filename);
    BasenameKeepsSuffix(filename, ".log.gz");
    assert b[0] in b;
  }

  /** Cutting three characters off a joined path cuts them off its relative part. */
  lemma JoinCutTail(a: string, b: string, dst: string, path: string)
    requires 3 < |b| && b[0] != '/'
    requires dst == PathJoin(a, b) && 3 <= |dst| && path == dst[..|dst| - 3]
    ensures path == PathJoin(a, b[..|b| - 3])
  {
    var c := b[..|b| - 3];
    assert c[0] == b[0];
    if a == [] || EndsWith(a, "/") {
      assert dst == a + b;
      assert dst[..|dst| - 3] == a + c;
    } else {
      assert dst == a + "/" + b;
      assert dst[..|dst| - 3] == a + "/" + c;
    }
  }

  /** For a compressed log, the entry path is the joined path less its last three characters. */
  lemma GzEntryPathCut(nodeDir: string, filename: string)
    requires IsGzLog(filename)
    ensures var dst := PathJoin(nodeDir, Basename(filename));
            3 <= |dst| && EntryPath(nodeDir, filename) == dst[..|dst| - 3]
  {
    BasenameKeepsSuffix(filename, ".log.gz");
  }

  // ---------------------------------------------------------------------------
  // What ends up in an extracted file (the finding)

  /**
    The content of the file for an entry, as written: a compressed log is
    first written decompressed, but `create_file_with_timestamp` then copies
    the raw entry over the same path, so the file holds the gzip bytes.
   */
  function ContentAsWritten(e: Entry, decompressed: seq<byte>): seq<byte> {
    e.data
  }

  /** The intended content: the decompressed text for a compressed log, the raw bytes otherwise. */
  function Content(e: Entry, decompressed: seq<byte>): (c: seq<byte>)
    ensures IsGzLog(e.filename) ==> c == decompressed
    ensures !IsGzLog(e.filename) ==> c == e.data
  {
    if IsGzLog(e.filename) then decompressed else e.data
  }

  /** For any compressed log whose text differs from its gzip bytes, the file as written holds the wrong bytes. */
  lemma GzContentAsWritten(e: Entry, decompressed: seq<byte>)
    requires IsGzLog(e.filename) && decompressed != e.data
    ensures ContentAsWritten(e, decompressed) != decompressed
    ensures Content(e, decompressed) == decompressed
  {
  }

  // ---------------------------------------------------------------------------
  // Extraction of one bundle

  /** A file the extractor wrote: where, from which entry, what it holds and whether it was counted. */
  datatype Written = Written(node: string, source: string, path: string, content: seq<byte>,
                             attributes: Attributes, counted: bool)

  /** The extractor's running state: the entry names seen, the files written and the count. */
  datatype Progress = Progress(processed: set<string>, written: seq<Written>, count: nat)

  /**
    Writing one new log entry: a compressed log is decompressed first, and
    a failed decompression raises before anything is written; then the file
    is written and its attributes set, where a calendar-invalid time raises
    after the write, so the file stays but is not counted. The second
    component tells whether the entry raised.
   */
  function Emit(targetDir: string, node: string, e: Entry, gunzip: seq<byte> -> Option<seq<byte>>): (r: (Option<Written>, bool))
    ensures r.0.Some? ==> && r.0.value.source == e.filename && r.0.value.node == node
                          && r.0.value.path == EntryPath(PathJoin(targetDir, node), e.filename)
                          && (r.0.value.counted <==> !r.1)
  {
    var path := EntryPath(PathJoin(targetDir, node), e.filename);
    var unpacked := if IsGzLog(e.filename) then gunzip(e.data) else Some(e.data);
    match unpacked
    case None => (None, true)
    case Some(text) =>
      match AttributesOf(e.stamp, e.externalAttr)
      case Ok(a) => (Some(Written(node, e.filename, path, Content(e, text), a, true)), false)
      case Err(_) => (Some(Written(node, e.filename, path, Content(e, text), Attributes(None, None), false)), true)
  }

  /** The written file as a sequence of zero or one files. */
  function Files(w: Option<Written>): seq<Written> {
    if w.Some? then [w.value] else []
  }

  /**
    One entry of a known node's zip: a log entry not seen before in this
    bundle is marked seen and written; the second component is true when it
    raised, which ends that inner zip.
   */
  function Step(p: Progress, targetDir: string, node: string, e: Entry,
                gunzip: seq<byte> -> Option<seq<byte>>): (r: (Progress, bool))
  {
    if !IsLogName(e.filename) || e.filename in p.processed then (p, false)
    else
      var (w, raised) := Emit(targetDir, node, e, gunzip);
      (Progress(p.processed + {e.filename}, p.written + Files(w),
                p.count + (if w.Some? && w.value.counted then 1 else 0)), raised)
  }

  /** The entries of one inner zip, in order, up to the first one that raises. */
  function Entries(p: Progress, targetDir: string, node: string, es: seq<Entry>,
                   gunzip: seq<byte> -> Option<seq<byte>>): Progress
    decreases |es|
  {
    if |es| == 0 then p
    else
      var (q, stop) := Step(p, targetDir, node, es[0], gunzip);
      if stop then q else Entries(q, targetDir, node, es[1..], gunzip)
  }

  /** Whether an inner zip is extracted at all: a zip, of a known node, that can be read. */
  predicate Extracted(m: Member, manifest: Option<Json>) {
    EndsWith(m.name, ".zip") && NodeOf(m.name, manifest) != Unknown && m.inner.Some?
  }

  /** The inner zips of the bundle, in order; unknown nodes and unreadable zips give nothing. */
  function Members(p: Progress, targetDir: string, manifest: Option<Json>, ms: seq<Member>,
                   gunzip: seq<byte> -> Option<seq<byte>>): Progress
    decreases |ms|
  {
    if |ms| == 0 then p
    else
      var m := ms[0];
      var q := if Extracted(m, manifest) then Entries(p, targetDir, NodeOf(m.name, manifest), m.inner.value, gunzip)
               else p;
      Members(q, targetDir, manifest, ms[1..], gunzip)
  }

  /**
    One pass of the loop body over an inner zip's `infolist()`: a log entry
    not seen before is marked seen, decompressed when it is a `.log.gz`, and
    written with its attributes; `raised` is true when the entry raised.
   */
  method ExtractEntry(processed: set<string>, written: seq<Written>, count: nat,
                      targetDir: string, node: string, e: Entry, gunzip: seq<byte> -> Option<seq<byte>>)
    returns (processed': set<string>, written': seq<Written>, count': nat, raised: bool)
    ensures (Progress(processed', written', count'), raised) == Step(Progress(processed, written, count), targetDir, node, e, gunzip)
  {
    processed', written', count', raised := processed, written, count, false;
    if !IsLogName(e.filename) || e.filename in processed {
      return;
    }
    processed' := processed + {e.filename};
    var path := EntryPath(PathJoin(targetDir, node), e.filename);
    var unpacked := if IsGzLog(e.filename) then gunzip(e.data) else Some(e.data);
    if unpacked.None? {
      assert written + Files(None) == written;
      return processed', written, count, true;
    }
    var attributes := AttributesOf(e.stamp, e.externalAttr);
    if attributes.Err? {
      var w := Written(node, e.filename, path, Content(e, unpacked.value), Attributes(None, None), false);
      assert Emit(targetDir, node, e, gunzip) == (Some(w), true);
      return processed', written + [w], count, true;
    }
    var w := Written(node, e.filename, path, Content(e, unpacked.value), attributes.value, true);
    assert Emit(targetDir, node, e, gunzip) == (Some(w), false);
    written', count' := written + [w], count + 1;
  }

  /**
    The loop over one inner zip's entries: the set of seen names, the files
    written and the count are updated entry by entry, and an exception
    leaves the zip.
   */
  method ExtractInnerZip(processed: set<string>, written: seq<Written>, count: nat,
                         targetDir: string, node: string, es: seq<Entry>, gunzip: seq<byte> -> Option<seq<byte>>)
    returns (processed': set<string>, written': seq<Written>, count': nat)
    ensures Progress(processed', written', count') == Entries(Progress(processed, written, count), targetDir, node, es, gunzip)
  {
    processed', written', count' := processed, written, count;
    var j := 0;
    while j < |es|
      invariant 0 <= j <= |es|
      invariant Entries(Progress(processed', written', count'), targetDir, node, es[j..], gunzip)
                == Entries(Progress(processed, written, count), targetDir, node, es, gunzip)
    {
      assert es[j..][1..] == es[j + 1..];
      var raised;
      processed', written', count', raised := ExtractEntry(processed', written', count', targetDir, node, es[j], gunzip);
      if raised {
        return;
      }
      j := j + 1;
    }
  }

  /**
    `extract_logs_from_zip`: for each inner zip of a known node, each log
    entry not yet seen in this bundle is written into the node's directory;
    the count is of files written without error. An unreadable bundle gives 0.
   */
  method ExtractLogsFromZip(bundle: Option<seq<Member>>, targetDir: string, manifest: Option<Json>,
                            gunzip: seq<byte> -> Option<seq<byte>>)
    returns (count: nat, written: seq<Written>)
    ensures bundle.None? ==> count == 0 && written == []
    ensures bundle.Some? ==>
              var p := Members(Progress({}, [], 0), targetDir, manifest, bundle.value, gunzip);
              count == p.count && written == p.written
  {
    if bundle.None? {
      return 0, [];
    }
    var ms := bundle.value;
    var processed: set<string> := {};
    written := [];
    count := 0;
    var i := 0;
    while i < |ms|
      invariant 0 <= i <= |ms|
      invariant Members(Progress(processed, written, count), targetDir, manifest, ms[i..], gunzip)
                == Members(Progress({}, [], 0), targetDir, manifest, ms, gunzip)
    {
      var m := ms[i];
      assert ms[i..][1..] == ms[i + 1..];
      var node := NodeOf(m.name, manifest);
      if EndsWith(m.name, ".zip") && node != Unknown && m.inner.Some? {
        processed, written, count := ExtractInnerZip(processed, written, count, targetDir, node, m.inner.value, gunzip);
      }
      i := i + 1;
    }
  }

  // ---------------------------------------------------------------------------
  // What an extraction guarantees

  /** How many of the written files were counted. */
  function Counted(ws: seq<Written>): nat {
    if |ws| == 0 then 0 else Counted(ws[..|ws| - 1]) + (if ws[|ws| - 1].counted then 1 else 0)
  }

  /**
    The guarantees of an extraction state: every file comes from a log entry
    of a known node, lies where `EntryPath` puts it, holds the entry's
    intended content shape, comes from an entry marked seen, no entry is
    written twice, and the count is the number of counted files.
   */
  ghost predicate Sound(p: Progress, targetDir: string) {
    && (forall k :: 0 <= k < |p.written| ==> FileSound(p.written[k], targetDir, p.processed))
    && (forall a, b :: 0 <= a < b < |p.written| ==> p.written[a].source != p.written[b].source)
    && p.count == Counted(p.written)
  }

  /** One written file: a log entry of a known node, at its entry path, marked seen. */
  ghost predicate FileSound(w: Written, targetDir: string, processed: set<string>) {
    && IsLogName(w.source) && w.node != Unknown
    && w.path == EntryPath(PathJoin(targetDir, w.node), w.source)
    && w.source in processed
  }

  lemma CountedAppend(ws: seq<Written>, w: Option<Written>)
    ensures Counted(ws + Files(w)) == Counted(ws) + (if w.Some? && w.value.counted then 1 else 0)
  {
    if w.Some? {
      assert (ws + [w.value])[..|ws|] == ws;
    } else {
      assert ws + [] == ws;
    }
  }

  lemma StepSound(p: Progress, targetDir: string, node: string, e: Entry, gunzip: seq<byte> -> Option<seq<byte>>)
    requires Sound(p, targetDir) && node != Unknown
    ensures Sound(Step(p, targetDir, node, e, gunzip).0, targetDir)
    ensures p.processed <= Step(p, targetDir, node, e, gunzip).0.processed
    ensures p.written <= Step(p, targetDir, node, e, gunzip).0.written
  {
    if IsLogName(e.filename) && e.filename !in p.processed {
      var w := Emit(targetDir, node, e, gunzip).0;
      var processed := p.processed + {e.filename};
      assert Step(p, targetDir, node, e, gunzip).0
          == Progress(processed, p.written + Files(w), p.count + (if w.Some? && w.value.counted then 1 else 0));
      if w.Some? {
        assert FileSound(w.value, targetDir, processed);
      }
      AppendSound(p, targetDir, e.filename, w);
    }
  }

  /** Marking a new source seen and appending at most one sound file from it keeps an extraction state sound. */
  lemma AppendSound(p: Progress, targetDir: string, source: string, w: Option<Written>)
    requires Sound(p, targetDir) && source !in p.processed
    requires w.Some? ==> w.value.source == source && FileSound(w.value, targetDir, p.processed + {source})
    ensures Sound(Progress(p.processed + {source}, p.written + Files(w),
                           p.count + (if w.Some? && w.value.counted then 1 else 0)), targetDir)
  {
    CountedAppend(p.written, w);
    AppendFilesSound(p.written, targetDir, p.processed, source, w);
    AppendSourcesDistinct(p.written, targetDir, p.processed, source, w);
  }

  lemma AppendFilesSound(ws: seq<Written>, targetDir: string, processed: set<string>, source: string, w: Option<Written>)
    requires forall k :: 0 <= k < |ws| ==> FileSound(ws[k], targetDir, processed)
    requires w.Some? ==> FileSound(w.value, targetDir, processed + {source})
    ensures forall k :: 0 <= k < |ws + Files(w)| ==> FileSound((ws + Files(w))[k], targetDir, processed + {source})
  {
    var written := ws + Files(w);
    forall k | 0 <= k < |written|
      ensures FileSound(written[k], targetDir, processed + {source})
    {
      if k < |ws| {
        assert written[k] == ws[k];
        assert FileSound(ws[k], targetDir, processed);
      }
    }
  }

  lemma AppendSourcesDistinct(ws: seq<Written>, targetDir: string, processed: set<string>, source: string, w: Option<Written>)
    requires forall k :: 0 <= k < |ws| ==> FileSound(ws[k], targetDir, processed)
    requires forall a, b :: 0 <= a < b < |ws| ==> ws[a].source != ws[b].source
    requires source !in processed && (w.Some? ==> w.value.source == source)
    ensures forall a, b :: 0 <= a < b < |ws + Files(w)| ==> (ws + Files(w))[a].source != (ws + Files(w))[b].source
  {
    var written := ws + Files(w);
    forall a, b | 0 <= a < b < |written|
      ensures written[a].source != written[b].source
    {
      assert written[a] == ws[a];
      if b < |ws| {
        assert written[b] == ws[b];
      } else {
        assert FileSound(ws[a], targetDir, processed);
      }
    }
  }

  lemma {:induction false} EntriesSound(p: Progress, targetDir: string, node: string, es: seq<Entry>,
                                        gunzip: seq<byte> -> Option<seq<byte>>)
    requires Sound(p, targetDir) && node != Unknown
    ensures Sound(Entries(p, targetDir, node, es, gunzip), targetDir)
    ensures p.written <= Entries(p, targetDir, node, es, gunzip).written
    decreases |es|
  {
    if |es| > 0 {
      var (q, stop) := Step(p, targetDir, node, es[0], gunzip);
      StepSound(p, targetDir, node, es[0], gunzip);
      if !stop {
        EntriesSound(q, targetDir, node, es[1..], gunzip);
      }
    }
  }

  lemma {:induction false} MembersSound(p: Progress, targetDir: string, manifest: Option<Json>, ms: seq<Member>,
                                        gunzip: seq<byte> -> Option<seq<byte>>)
    requires Sound(p, targetDir)
    ensures Sound(Members(p, targetDir, manifest, ms, gunzip), targetDir)
    ensures p.written <= Members(p, targetDir, manifest, ms, gunzip).written
    decreases |ms|
  {
    if |ms| > 0 {
      var m := ms[0];
      var q := if Extracted(m, manifest) then Entries(p, targetDir, NodeOf(m.name, manifest), m.inner.value, gunzip)
               else p;
      if Extracted(m, manifest) {
        EntriesSound(p, targetDir, NodeOf(m.name, manifest), m.inner.value, gunzip);
      }
      MembersSound(q, targetDir, manifest, ms[1..], gunzip);
    }
  }

  /**
    An extraction from scratch writes only log entries, each at most once per
    bundle, each into the directory of a known node under its `EntryPath`,
    and counts exactly the files written without error.
   */
  lemma ExtractionSound(targetDir: string, manifest: Option<Json>, ms: seq<Member>,
                        gunzip: seq<byte> -> Option<seq<byte>>)
    ensures var p := Members(Progress({}, [], 0), targetDir, manifest, ms, gunzip);
            && (forall k :: 0 <= k < |p.written| ==>
                  && IsLogName(p.written[k].source) && p.written[k].node != Unknown
                  && p.written[k].path == EntryPath(PathJoin(targetDir, p.written[k].node), p.written[k].source))
            && (forall a, b :: 0 <= a < b < |p.written| ==> p.written[a].source != p.written[b].source)
            && p.count == Counted(p.written)
  {
    MembersSound(Progress({}, [], 0), targetDir, manifest, ms, gunzip);
  }

  /** An inner zip whose node is unknown contributes nothing: the bundle reads as if it were absent. */
  lemma UnknownNodeSkipped(p: Progress, targetDir: string, manifest: Option<Json>, m: Member, ms: seq<Member>,
                           gunzip: seq<byte> -> Option<seq<byte>>)
    requires NodeOf(m.name, manifest) == Unknown
    ensures Members(p, targetDir, manifest, [m] + ms, gunzip) == Members(p, targetDir, manifest, ms, gunzip)
  {
    assert ([m] + ms)[1..] == ms;
  }

  /** A bundle without a manifest writes nothing. */
  lemma {:induction false} NoManifestNothing(p: Progress, targetDir: string, ms: seq<Member>,
                                             gunzip: seq<byte> -> Option<seq<byte>>)
    ensures Members(p, targetDir, None, ms, gunzip) == p
    decreases |ms|
  {
    if |ms| > 0 {
      NoManifestNothing(p, targetDir, ms[1..], gunzip);
    }
  }
}
