/**
  The repository index checker: the file listing of an Artifactory
  repository is cut down to the files that carry a package of the
  repository's type, each file is marked as supported or not by the
  extensions Xray can scan, the scan status of every supported file is
  asked of Xray (after a forced re-index, on request), and the statuses are
  merged back into the listing.
 */
module RepoIndex {
  import opened Wrappers
  import opened Text
  import opened Search
  import opened Json

  /** One file of the storage listing, with the two fields the checker adds. */
  datatype FileEntry = FileEntry(uri: string, sha2: Option<string>, support: Option<bool>, status: Option<Json>)

  // ---------------------------------------------------------------------------
  // The package-type filter

  /** The package types that have a filter rule. */
  predicate HasRule(packageType: string) {
    packageType in {"cargo", "composer", "conan", "conda", "debian", "docker", "go", "gradle", "maven",
                    "npm", "nuget", "pypi", "rpm", "terraformbackend", "huggingfaceml"}
  }

  /** The rule of a known package type: which uris hold a package of that type. */
  predicate Keep(packageType: string, u: string)
    requires HasRule(packageType)
  {
    match packageType
    case "cargo" => !StartsWith(u, "/.cargo/") && (EndsWith(u, ".crate") || EndsWith(u, ".tgz") || EndsWith(u, ".tar.gz"))
    case "composer" => !StartsWith(u, "/.composer/")
    case "conan" => !StartsWith(u, "/.conan/") && EndsWith(u, "conanmanifest.txt")
    case "conda" => EndsWith(u, ".conda") || EndsWith(u, ".tar.bz2")
    case "debian" => !StartsWith(u, "/dists/") && EndsWith(u, ".deb")
    case "docker" => !StartsWith(u, "/.jfrog/repository.catalog") && !EndsWith(u, "list.manifest.json") && EndsWith(u, "manifest.json")
    case "go" => EndsWith(u, ".zip")
    case "gradle" => !EndsWith(u, ".module") && !EndsWith(u, ".pom") && !EndsWith(u, ".xml")
    case "maven" => !EndsWith(u, ".pom") && !EndsWith(u, ".xml")
    case "npm" => !StartsWith(u, "/.npm/")
    case "nuget" => !StartsWith(u, "/.nuGetV3/") && !StartsWith(u, "/.nuget/") && (EndsWith(u, ".nupkg") || EndsWith(u, ".dll") || EndsWith(u, ".exe"))
    case "pypi" => !StartsWith(u, "/.pypi/")
    case "rpm" => EndsWith(u, ".rpm")
    case "terraformbackend" => EndsWith(u, "state.latest.json")
    case "huggingfaceml" => EndsWith(u, ".jfrog_huggingface_model_info.json")
  }

  function Same(f: FileEntry): FileEntry { f }

  /**
    `filter_files_by_package_type`: without a rule for the type every file
    is kept; otherwise the files whose uri the rule accepts, in order.
   */
  function FilterFilesByPackageType(files: seq<FileEntry>, packageType: string): (r: seq<FileEntry>)
    ensures !HasRule(packageType) ==> r == files
    ensures HasRule(packageType) ==> forall k :: 0 <= k < |r| ==> r[k] in files && Keep(packageType, r[k].uri)
  {
    if !HasRule(packageType) then files
    else
      var r := MapFilter(files, (f: FileEntry) => Keep(packageType, f.uri), Same);
      forall k | 0 <= k < |r| ensures r[k] in files && Keep(packageType, r[k].uri) {
        MapFilterSpec(files, (f: FileEntry) => Keep(packageType, f.uri), Same, r[k]);
      }
      r
  }

  /**
    A known type keeps exactly the files its rule accepts, and keeps them in
    listing order: filtering two halves of a listing filters the whole.
   */
  lemma FilterSpec(a: seq<FileEntry>, b: seq<FileEntry>, packageType: string, f: FileEntry)
    requires HasRule(packageType)
    ensures f in FilterFilesByPackageType(a, packageType) <==> f in a && Keep(packageType, f.uri)
    ensures FilterFilesByPackageType(a + b, packageType)
              == FilterFilesByPackageType(a, packageType) + FilterFilesByPackageType(b, packageType)
  {
    var P := (f: FileEntry) => Keep(packageType, f.uri);
    MapFilterSpec(a, P, Same, f);
    MapFilterAppend(a, b, P, Same);
  }

  /**
    Gradle repositories also hold Maven metadata: the Gradle rule drops what
    the Maven rule drops, and differs from it only on ".module" files.
   */
  lemma GradleNarrowsMaven(u: string)
    ensures Keep("gradle", u) <==> Keep("maven", u) && !EndsWith(u, ".module")
  {
  }

  /** A Docker manifest list is never taken for an image manifest, and no catalog entry is kept. */
  lemma DockerManifests(dir: string, u: string)
    ensures !Keep("docker", dir + "list.manifest.json")
    ensures StartsWith(u, "/.jfrog/repository.catalog") ==> !Keep("docker", u)
  {
    var s := dir + "list.manifest.json";
    assert s[|s| - |"list.manifest.json"|..] == "list.manifest.json";
  }

  // ---------------------------------------------------------------------------
  // Support annotation

  /** The extensions named by the support rules: each rule's `extensions`, rule after rule. */
  function AllExtensions(rules: seq<seq<string>>): seq<string> {
    if |rules| == 0 then [] else rules[0] + AllExtensions(rules[1..])
  }

  /** A file is supported when its uri ends with one of the configured extensions. */
  predicate Supported(exts: set<string>, u: string) {
    exists e :: e in exts && EndsWith(u, e)
  }

  /** The distinct elements of a list. */
  function Elements(s: seq<string>): set<string> {
    set e | e in s
  }

  /** The dictionary `extensions_map`, built by the two nested loops over the rules. */
  method ExtensionsMap(rules: seq<seq<string>>) returns (exts: set<string>)
    ensures exts == Elements(AllExtensions(rules))
  {
    exts := {};
    var i := 0;
    while i < |rules|
      invariant 0 <= i <= |rules|
      invariant exts + Elements(AllExtensions(rules[i..])) == Elements(AllExtensions(rules))
    {
      assert AllExtensions(rules[i..]) == rules[i] + AllExtensions(rules[i + 1..]) by {
        assert rules[i..][1..] == rules[i + 1..];
      }
      var j := 0;
      while j < |rules[i]|
        invariant 0 <= j <= |rules[i]|
        invariant exts + Elements(rules[i][j..]) + Elements(AllExtensions(rules[i + 1..]))
                  == Elements(AllExtensions(rules))
      {
        assert rules[i][j..] == [rules[i][j]] + rules[i][j + 1..];
        exts := exts + {rules[i][j]};
        j := j + 1;
      }
      i := i + 1;
    }
  }

  /**
    `annotate_support`: every file of the listing gets `support` set, in
    place, to whether its uri ends with a configured extension; nothing else
    about any file changes.
   */
  method AnnotateSupport(files: array<FileEntry>, rules: seq<seq<string>>)
    modifies files
    ensures forall k :: 0 <= k < files.Length ==>
              files[k] == old(files[k]).(support := Some(Supported(Elements(AllExtensions(rules)), old(files[k]).uri)))
  {
    var exts := ExtensionsMap(rules);
    var k := 0;
    while k < files.Length
      invariant 0 <= k <= files.Length
      invariant forall j :: 0 <= j < k ==> files[j] == old(files[j]).(support := Some(Supported(exts, old(files[j]).uri)))
      invariant forall j :: k <= j < files.Length ==> files[j] == old(files[j])
    {
      files[k] := files[k].(support := Some(exists e :: e in exts && EndsWith(files[k].uri, e)));
      k := k + 1;
    }
  }

  // ---------------------------------------------------------------------------
  // Talking to Xray

  /** `repo_name + '-cache' if rclass == 'remote' else repo_name`: remote repositories are indexed through their cache. */
  function EffectiveRepo(repo: string, rclass: Json): (r: string)
    ensures r == repo + "-cache" <==> rclass == JStr("remote")
    ensures rclass != JStr("remote") ==> r == repo
  {
    if rclass == JStr("remote") then repo + "-cache" else repo
  }

  /** How one HTTP call ended: a network error, or a status code and, when the body is JSON, its value. */
  datatype Reply = NetworkError | Reply(code: int, body: Option<Json>)

  /** `sys.exit(1)` from `handle_http_error`: an unauthorized call ends the whole run. */
  datatype Exit = Unauthorized

  /** `raise_for_status()` raises for client and server errors. */
  predicate IsHttpError(code: int) {
    400 <= code < 600
  }

  /** What `get_scan_status` makes of one reply: the status Xray gave, "N/A" without one, "ERROR" on failure. */
  function StatusOf(reply: Reply): (r: Result<Json, Exit>)
    ensures r.Err? <==> reply.Reply? && reply.code == 401
    ensures r == Ok(JStr("ERROR")) <== reply.NetworkError? || (reply.Reply? && reply.code != 401 && (IsHttpError(reply.code) || reply.body.None?))
    ensures reply.Reply? && reply.code != 401 && !IsHttpError(reply.code) && reply.body.Some? ==>
              r == Ok(if Get(reply.body.value, "status").Some? then Get(reply.body.value, "status").value else JStr("N/A"))
  {
    match reply
    case NetworkError => Ok(JStr("ERROR"))
    case Reply(code, body) =>
      if code == 401 then Err(Unauthorized)
      else if IsHttpError(code) || body.None? then Ok(JStr("ERROR"))
      else match Get(body.value, "status")
        case Some(s) => Ok(s)
        case None => Ok(JStr("N/A"))
  }

  /** The request `get_scan_status` posts for a file: the package type, the path in the effective repository, the checksum. */
  datatype ScanRequest = ScanRequest(packageType: string, path: string, sha256: Option<string>)

  function ScanRequestFor(repo: string, rclass: Json, packageType: string, f: FileEntry): ScanRequest {
    ScanRequest(packageType, EffectiveRepo(repo, rclass) + f.uri, f.sha2)
  }

  /**
    `get_scan_status`: the retry loop of up to `maxRetries` attempts. Every
    branch of its body returns, so at most one request is ever made; with
    no attempt allowed the status is "ERROR".
   */
  method GetScanStatus(f: FileEntry, maxRetries: nat, post: nat -> Reply) returns (r: Result<(string, Json), Exit>, attempts: nat)
    ensures attempts == if maxRetries > 0 then 1 else 0
    ensures maxRetries == 0 ==> r == Ok((f.uri, JStr("ERROR")))
    ensures maxRetries > 0 ==> r == (match StatusOf(post(0)) case Ok(s) => Ok((f.uri, s)) case Err(e) => Err(e))
  {
    attempts := 0;
    // The source's `while attempt < max_retries` never advances `attempt`:
    // its body returns on every path, so it runs at most once.
    if attempts < maxRetries {
      var reply := post(attempts);
      attempts := attempts + 1;
      var s := StatusOf(reply);
      if s.Err? {
        return Err(s.error), attempts;
      }
      return Ok((f.uri, s.value)), attempts;
    }
    return Ok((f.uri, JStr("ERROR"))), attempts;
  }

  /** `force_reindex`: true when the reply is not an error; an unauthorized reply ends the run. */
  function ForceReindex(reply: Reply): (r: Result<bool, Exit>)
    ensures r.Err? <==> reply.Reply? && reply.code == 401
    ensures r == Ok(true) <==> reply.Reply? && reply.code != 401 && !IsHttpError(reply.code)
  {
    match reply
    case NetworkError => Ok(false)
    case Reply(code, _) =>
      if code == 401 then Err(Unauthorized) else Ok(!IsHttpError(code))
  }

  // ---------------------------------------------------------------------------
  // Merging the statuses back

  /** `status_map`: every result's status under its uri; a later result for the same uri replaces an earlier one. */
  method StatusMap(results: seq<(string, Json)>) returns (m: map<string, Json>)
    ensures forall u :: u in m <==> exists k :: 0 <= k < |results| && results[k].0 == u
    ensures forall u :: u in m ==>
              exists k :: 0 <= k < |results| && results[k] == (u, m[u]) && forall j :: k < j < |results| ==> results[j].0 != u
  {
    m := map[];
    var i := 0;
    while i < |results|
      invariant 0 <= i <= |results|
      invariant forall u :: u in m <==> exists k :: 0 <= k < i && results[k].0 == u
      invariant forall u :: u in m ==>
                  exists k :: 0 <= k < i && results[k] == (u, m[u]) && forall j :: k < j < i ==> results[j].0 != u
    {
      m := m[results[i].0 := results[i].1];
      i := i + 1;
    }
  }

  /** The status a file ends up with: its scan status when supported ("N/A" when none came back), else "not scanned". */
  function MergedStatus(f: FileEntry, m: map<string, Json>): Json {
    if f.support == Some(true) then (if f.uri in m then m[f.uri] else JStr("N/A"))
    else JStr("not scanned")
  }

  /**
    The end of `process_files`: every file of the listing gets its status
    set in place and is appended to the results, which are therefore the
    same files in the same order.
   */
  method MergeStatuses(files: array<FileEntry>, m: map<string, Json>) returns (results: seq<FileEntry>)
    modifies files
    ensures results == files[..]
    ensures forall k :: 0 <= k < files.Length ==> files[k] == old(files[k]).(status := Some(MergedStatus(old(files[k]), m)))
  {
    results := [];
    var k := 0;
    while k < files.Length
      invariant 0 <= k <= files.Length
      invariant results == files[..k]
      invariant forall j :: 0 <= j < k ==> files[j] == old(files[j]).(status := Some(MergedStatus(old(files[j]), m)))
      invariant forall j :: k <= j < files.Length ==> files[j] == old(files[j])
    {
      var f := files[k];
      if f.support == Some(true) {
        var s := if f.uri in m then m[f.uri] else JStr("N/A");
        files[k] := f.(status := Some(s));
      } else {
        files[k] := f.(status := Some(JStr("not scanned")));
      }
      results := results + [files[k]];
      k := k + 1;
    }
  }

  /** The merged statuses, as a function of the listing: unsupported files are never reported as scanned. */
  lemma MergedStatusSpec(f: FileEntry, m: map<string, Json>)
    ensures f.support != Some(true) ==> MergedStatus(f, m) == JStr("not scanned")
    ensures f.support == Some(true) && f.uri in m ==> MergedStatus(f, m) == m[f.uri]
    ensures f.support == Some(true) && f.uri !in m ==> MergedStatus(f, m) == JStr("N/A")
  {
  }
}
