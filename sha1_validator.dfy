/**
  The filestore SHA-1 validator: Artifactory stores every binary under the
  SHA-1 of its content, so a file is sound when its name is a 40-digit hex
  string equal (ignoring case) to the SHA-1 of what it holds. The validator
  selects such files, re-hashes each, counts the outcomes and derives the
  process exit status from the counters.
 */
module Sha1Validator {
  import opened Wrappers
  import opened Bytes
  import opened Text
  import opened Search

  // ---------------------------------------------------------------------------
  // File names

  const HexDigits := "0123456789abcdefABCDEF"

  /** The characters a SHA-1 file name may use, by their ranges. */
  predicate IsHexChar(c: char) {
    '0' <= c <= '9' || 'a' <= c <= 'f' || 'A' <= c <= 'F'
  }

  /** `all(c in '0123456789abcdefABCDEF' for c in s)`, left to right. */
  function AllInHexDigits(s: string): (r: bool)
    ensures r <==> forall i :: 0 <= i < |s| ==> IsHexChar(s[i])
  {
    if |s| == 0 then true
    else
      var c := s[0];
      assert c in HexDigits <==> IsHexChar(c) by {
        if IsHexChar(c) {
          assert c == HexDigits[if c <= '9' then c as int - '0' as int
                                else if c <= 'F' then c as int - 'A' as int + 16
                                else c as int - 'a' as int + 10];
        }
      }
      (c in HexDigits) && AllInHexDigits(s[1..])
  }

  /** `is_sha1_filename`: forty characters, each a hex digit of either case. */
  function IsSha1Filename(name: string): (r: bool)
    ensures r <==> |name| == 40 && forall i :: 0 <= i < |name| ==> IsHexChar(name[i])
  {
    |name| == 40 && AllInHexDigits(name)
  }

  // ---------------------------------------------------------------------------
  // Hashing

  /** The number of bytes `calculate_sha1` reads at a time. */
  const ReadSize := 4096

  /** What `calculate_sha1` returns: the digest of the content, or "" when the file cannot be read. */
  function Sha1Of(content: Option<seq<byte>>, sha1: seq<byte> -> Sha1Hex): (r: string)
    ensures r == "" <==> content.None?
  {
    match content
    case None => ""
    case Some(data) => sha1(data)
  }

  /**
    `calculate_sha1`: the file is fed to the hash object 4096 bytes at a time.
    The hash object is modelled by the bytes fed to it so far, and `sha1`
    is the digest of everything fed; a read failure gives "".
   */
  method CalculateSha1(content: Option<seq<byte>>, sha1: seq<byte> -> Sha1Hex) returns (digest: string)
    ensures digest == Sha1Of(content, sha1)
  {
    if content.None? {
      return "";
    }
    var data := content.value;
    var fed: seq<byte> := [];
    var i := 0;
    while i < |data|
      invariant 0 <= i <= |data|
      invariant fed == data[..i]
    {
      var n := if |data| - i < ReadSize then |data| - i else ReadSize;
      fed := fed + data[i..i + n];
      i := i + n;
    }
    assert fed == data;
    digest := sha1(fed);
  }

  // ---------------------------------------------------------------------------
  // Validation of one file

  /** The outcome of `validate_file`; only `Matched` is reported as valid. */
  datatype Verdict = Matched | NotSha1Name(name: string) | Unhashable(name: string) | Mismatch(expected: string, actual: string)

  /** `validate_file` on a file with this name and content. */
  function Validation(name: string, content: Option<seq<byte>>, sha1: seq<byte> -> Sha1Hex): (r: Verdict)
    ensures r.Matched? ==> IsSha1Filename(name) && content.Some? && Lower(sha1(content.value)) == Lower(name)
  {
    if !IsSha1Filename(name) then NotSha1Name(name)
    else
      var digest := Sha1Of(content, sha1);
      if digest == "" then Unhashable(name)
      else if Lower(digest) == Lower(name) then Matched
      else Mismatch(name, digest)
  }

  /**
    A name that is not a SHA-1 is rejected before the file is read: the
    verdict is the same whatever the content and whatever the hash.
   */
  lemma NameCheckedFirst(name: string, c1: Option<seq<byte>>, h1: seq<byte> -> Sha1Hex,
                         c2: Option<seq<byte>>, h2: seq<byte> -> Sha1Hex)
    requires !IsSha1Filename(name)
    ensures Validation(name, c1, h1) == Validation(name, c2, h2) == NotSha1Name(name)
  {
  }

  /**
    The three ways a SHA-1 name can fare: unreadable content is rejected,
    and otherwise the file is valid exactly when its digest equals its name
    up to case.
   */
  lemma ValidationCases(name: string, content: Option<seq<byte>>, sha1: seq<byte> -> Sha1Hex)
    requires IsSha1Filename(name)
    ensures content.None? ==> Validation(name, content, sha1) == Unhashable(name)
    ensures content.Some? ==>
              (Validation(name, content, sha1).Matched? <==> Lower(sha1(content.value)) == Lower(name))
  {
  }

  /** Case does not matter: a name and its lower-case form get the same verdict kind. */
  lemma {:induction false} ValidationIgnoresCase(name: string, content: Option<seq<byte>>, sha1: seq<byte> -> Sha1Hex)
    ensures Validation(name, content, sha1).Matched? <==> Validation(Lower(name), content, sha1).Matched?
  {
    var low := Lower(name);
    assert Lower(low) == Lower(name);
    assert IsSha1Filename(low) <==> IsSha1Filename(name) by {
      forall i | 0 <= i < |name| ensures IsHexChar(low[i]) <==> IsHexChar(name[i]) {
      }
    }
  }

  /** `validate_file` as the worker runs it: hash only names that pass the check. */
  method ValidateFile(name: string, content: Option<seq<byte>>, sha1: seq<byte> -> Sha1Hex) returns (valid: bool, verdict: Verdict)
    ensures verdict == Validation(name, content, sha1)
    ensures valid <==> verdict.Matched?
  {
    if !IsSha1Filename(name) {
      return false, NotSha1Name(name);
    }
    var digest := CalculateSha1(content, sha1);
    if digest == "" {
      return false, Unhashable(name);
    }
    if Lower(digest) == Lower(name) {
      return true, Matched;
    }
    return false, Mismatch(name, digest);
  }

  // ---------------------------------------------------------------------------
  // Selecting the files

  /** An entry of the recursive walk: its file name, whether it is a regular file, and its mtime. */
  datatype Entry = Entry(path: string, name: string, isFile: bool, mtime: int)

  /** Whether the time window applies: both bounds given and non-empty (Python truthiness). */
  predicate Windowed(startTime: Option<string>, endTime: Option<string>) {
    startTime.Some? && startTime.value != "" && endTime.Some? && endTime.value != ""
  }

  /** A regular file with a SHA-1 name. */
  predicate IsArtifact(e: Entry) {
    e.isFile && IsSha1Filename(e.name)
  }

  /** The bounds of the window, inclusive at both ends. */
  datatype Window = Unbounded | Between(lo: int, hi: int)

  predicate Admits(w: Window, t: int) {
    w.Unbounded? || w.lo <= t <= w.hi
  }

  /**
    The window in force, or `None` when a bound given does not parse:
    `parse` is `strptime` with '%Y-%m-%d %H:%M' in the same time scale as the mtimes.
   */
  function WindowOf(startTime: Option<string>, endTime: Option<string>, parse: string -> Option<int>): Option<Window> {
    if !Windowed(startTime, endTime) then Some(Unbounded)
    else match (parse(startTime.value), parse(endTime.value))
      case (Some(lo), Some(hi)) => Some(Between(lo, hi))
      case _ => None
  }

  function Selects(w: Window): Entry -> bool {
    e => IsArtifact(e) && Admits(w, e.mtime)
  }

  function Itself(e: Entry): Entry { e }

  /**
    What `find_artifact_files` returns: the artifacts within the window, in
    walk order. A bound that does not parse raises at the first artifact; the
    handler returns the list collected so far, which is still empty.
   */
  function Found(entries: seq<Entry>, startTime: Option<string>, endTime: Option<string>, parse: string -> Option<int>): seq<Entry> {
    match WindowOf(startTime, endTime, parse)
    case None => []
    case Some(w) => MapFilter(entries, Selects(w), Itself)
  }

  /**
    One entry of the walk: an artifact is kept when it lies in the window; a
    bound that does not parse raises (`stop`) at the first artifact.
   */
  method Consider(files: seq<Entry>, e: Entry, startTime: Option<string>, endTime: Option<string>, parse: string -> Option<int>)
    returns (files': seq<Entry>, stop: bool)
    ensures var window := WindowOf(startTime, endTime, parse);
            && (window.Some? ==> !stop && files' == files + (if Selects(window.value)(e) then [e] else []))
            && (window.None? ==> files' == files && (stop <==> IsArtifact(e)))
  {
    files', stop := files, false;
    if e.isFile && IsSha1Filename(e.name) {
      if Windowed(startTime, endTime) {
        var lo := parse(startTime.value);
        var hi := parse(endTime.value);
        if lo.None? || hi.None? {
          return files, true;
        }
        if lo.value <= e.mtime <= hi.value {
          files' := files + [e];
        }
      } else {
        files' := files + [e];
      }
    }
  }

  /** The loop of `find_artifact_files` over the walk. */
  method FindArtifactFiles(entries: seq<Entry>, startTime: Option<string>, endTime: Option<string>, parse: string -> Option<int>)
    returns (files: seq<Entry>)
    ensures files == Found(entries, startTime, endTime, parse)
  {
    var window := WindowOf(startTime, endTime, parse);
    files := [];
    var i := 0;
    while i < |entries|
      invariant 0 <= i <= |entries|
      invariant window.Some? ==> files == MapFilter(entries[..i], Selects(window.value), Itself)
      invariant window.None? ==> files == []
    {
      assert entries[..i + 1][..i] == entries[..i];
      var stop;
      files, stop := Consider(files, entries[i], startTime, endTime, parse);
      if stop {
        return files;
      }
      i := i + 1;
    }
    assert entries[..i] == entries;
  }

  /** A file is found exactly when it is an artifact of the walk inside the window, both ends included. */
  lemma FoundSpec(entries: seq<Entry>, startTime: Option<string>, endTime: Option<string>, parse: string -> Option<int>, e: Entry)
    ensures !Windowed(startTime, endTime) ==>
              (e in Found(entries, startTime, endTime, parse) <==> e in entries && IsArtifact(e))
    ensures Windowed(startTime, endTime) && parse(startTime.value).Some? && parse(endTime.value).Some? ==>
              (e in Found(entries, startTime, endTime, parse) <==>
                 e in entries && IsArtifact(e) && parse(startTime.value).value <= e.mtime <= parse(endTime.value).value)
    ensures Windowed(startTime, endTime) && (parse(startTime.value).None? || parse(endTime.value).None?) ==>
              Found(entries, startTime, endTime, parse) == []
  {
    match WindowOf(startTime, endTime, parse) {
      case None =>
      case Some(w) =>
        MapFilterSpec(entries, Selects(w), Itself, e);
        if e in entries && Selects(w)(e) {
          var j :| 0 <= j < |entries| && entries[j] == e;
        }
    }
  }

  // ---------------------------------------------------------------------------
  // Counting the outcomes

  /** A finished task: the result `validate_file` returned, or the exception `future.result()` raised. */
  datatype Outcome = Completed(path: string, valid: bool, verdict: Verdict) | Raised(path: string)

  /** The four counters and the list of invalid files. */
  datatype Tally = Tally(valid: nat, invalid: nat, errors: nat, total: nat, errorFiles: seq<(string, Verdict)>)

  /** The counters after recording `outcomes` from zero, in completion order. */
  function TallyOf(outcomes: seq<Outcome>): Tally {
    if |outcomes| == 0 then Tally(0, 0, 0, 0, [])
    else
      var t := TallyOf(outcomes[..|outcomes| - 1]);
      match outcomes[|outcomes| - 1]
      case Raised(_) => t.(errors := t.errors + 1)
      case Completed(path, valid, verdict) =>
        if valid then t.(total := t.total + 1, valid := t.valid + 1)
        else t.(total := t.total + 1, invalid := t.invalid + 1, errorFiles := t.errorFiles + [(path, verdict)])
  }

  /**
    Each completed task bumps `total` and exactly one of `valid`/`invalid`,
    each invalid one adds one entry to the error list, and an exception bumps
    only `errors`.
   */
  lemma {:induction false} TallyBalanced(outcomes: seq<Outcome>)
    ensures var t := TallyOf(outcomes);
            && t.total == t.valid + t.invalid
            && |t.errorFiles| == t.invalid
            && t.total + t.errors == |outcomes|
  {
    if |outcomes| > 0 {
      TallyBalanced(outcomes[..|outcomes| - 1]);
    }
  }

  /** The validator's counters (`results`) and its list of invalid files (`error_files`). */
  class Validator {
    var valid: nat
    var invalid: nat
    var errors: nat
    var total: nat
    var errorFiles: seq<(string, Verdict)>

    constructor ()
      ensures valid == 0 && invalid == 0 && errors == 0 && total == 0 && errorFiles == []
    {
      valid, invalid, errors, total := 0, 0, 0, 0;
      errorFiles := [];
    }

    /** The bookkeeping of `validate_files_parallel`, over the outcomes in the order they complete. */
    method RecordOutcomes(outcomes: seq<Outcome>)
      modifies this
      ensures var t := TallyOf(outcomes);
              && valid == old(valid) + t.valid && invalid == old(invalid) + t.invalid
              && errors == old(errors) + t.errors && total == old(total) + t.total
              && errorFiles == old(errorFiles) + t.errorFiles
    {
      var i := 0;
      while i < |outcomes|
        invariant 0 <= i <= |outcomes|
        invariant var t := TallyOf(outcomes[..i]);
                  && valid == old(valid) + t.valid && invalid == old(invalid) + t.invalid
                  && errors == old(errors) + t.errors && total == old(total) + t.total
                  && errorFiles == old(errorFiles) + t.errorFiles
      {
        assert outcomes[..i + 1][..i] == outcomes[..i];
        match outcomes[i] {
          case Raised(_) =>
            errors := errors + 1;
          case Completed(path, ok, verdict) =>
            total := total + 1;
            if ok {
              valid := valid + 1;
            } else {
              invalid := invalid + 1;
              errorFiles := errorFiles + [(path, verdict)];
            }
        }
        i := i + 1;
      }
      assert outcomes[..i] == outcomes;
    }
  }

  // ---------------------------------------------------------------------------
  // Exit status

  /** The status `main` exits with: 0 when nothing was found, else 1 iff something was invalid or raised. */
  function ExitStatus(found: nat, t: Tally): (code: int)
    ensures code == 0 || code == 1
  {
    if found == 0 then 0
    else if t.invalid > 0 || t.errors > 0 then 1
    else 0
  }

  /** The run succeeds exactly when every task completed with a valid file. */
  lemma {:induction false} ExitStatusSpec(found: nat, outcomes: seq<Outcome>)
    requires found > 0
    ensures ExitStatus(found, TallyOf(outcomes)) == 0 <==>
              forall i :: 0 <= i < |outcomes| ==> outcomes[i].Completed? && outcomes[i].valid
  {
    if |outcomes| > 0 {
      var init := outcomes[..|outcomes| - 1];
      ExitStatusSpec(found, init);
      TallyBalanced(init);
      assert forall i :: 0 <= i < |init| ==> init[i] == outcomes[i];
    }
  }
}
