/**
  The remote-cache checker for a Hugging Face proxy repository: a checklist
  names models and datasets, every file of each is probed with an HTTP HEAD
  request, the answer becomes a cache state written on one coloured output
  line, and the lines of one model are counted into three buckets.
 */
module RemoteCache {
  import opened Wrappers
  import opened Text
  import opened Search

  // ---------------------------------------------------------------------------
  // The checklist

  /** One checklist entry: the repository type, its id and the revision to check. */
  datatype Task = Task(repoType: string, repoId: string, revision: string)

  /** The repository types the checker knows; any other type is read as a model. */
  predicate IsRepoType(t: string) {
    t == "model" || t == "dataset"
  }

  /** Text with no whitespace at either end, as `strip()` leaves it. */
  predicate Stripped(s: string) {
    s == [] || (!IsSpace(s[0]) && !IsSpace(s[|s| - 1]))
  }

  /** The comma-separated fields of a line, each stripped. */
  function Fields(t: string): (r: seq<string>)
    ensures |r| == |Split(t, ',')|
    ensures forall k :: 0 <= k < |r| ==> r[k] == Strip(Split(t, ',')[k])
  {
    var parts := Split(t, ',');
    seq(|parts|, k requires 0 <= k < |parts| => Strip(parts[k]))
  }

  /**
    One line of `parse_checklist_file`: blank lines and comments give
    nothing; three fields give (type, id, revision) with an unknown type read
    as "model"; two fields give a model; any other count gives nothing.
   */
  function ParseLine(raw: string): (r: Option<Task>)
    ensures Strip(raw) == [] || StartsWith(Strip(raw), "#") ==> r.None?
    ensures r.Some? ==> IsRepoType(r.value.repoType)
    ensures r.Some? ==> Stripped(r.value.repoId) && Stripped(r.value.revision)
  {
    var t := Strip(raw);
    if t == [] || StartsWith(t, "#") then None
    else
      var parts := Fields(t);
      if |parts| == 3 then
        Some(Task(if IsRepoType(parts[0]) then parts[0] else "model", parts[1], parts[2]))
      else if |parts| == 2 then
        Some(Task("model", parts[0], parts[1]))
      else None
  }

  /** Splitting at a separator splits each side on its own. */
  lemma {:induction false} SplitJoin(a: string, b: string, sep: char)
    ensures Split(a + [sep] + b, sep) == Split(a, sep) + Split(b, sep)
    decreases |a|
  {
    var s := a + [sep] + b;
    if |a| == 0 {
      assert s == [sep] + b;
      assert s[1..] == b;
    } else {
      assert s[1..] == a[1..] + [sep] + b;
      SplitJoin(a[1..], b, sep);
    }
  }

  /** Text without the separator is one field. */
  lemma {:induction false} SplitNone(a: string, sep: char)
    requires sep !in a
    ensures Split(a, sep) == [a]
    decreases |a|
  {
    if |a| > 0 {
      SplitNone(a[1..], sep);
      assert a == [a[0]] + a[1..];
    }
  }

  /** Text that starts and ends with non-whitespace is its own strip. */
  lemma StrippedStrip(s: string)
    requires |s| > 0 && !IsSpace(s[0]) && !IsSpace(s[|s| - 1])
    ensures Strip(s) == s
  {
    StripFront(s, []);
    assert s + [] == s;
  }

  /**
    A line written as `type,id,revision` reads back as that entry, fields
    stripped and an unknown type replaced by "model".
   */
  lemma ParseThreeFields(ty: string, id: string, rev: string)
    requires ',' !in ty && ',' !in id && ',' !in rev
    requires |ty| > 0 && !IsSpace(ty[0]) && ty[0] != '#'
    requires |rev| > 0 && !IsSpace(rev[|rev| - 1])
    ensures ParseLine(ty + "," + id + "," + rev) ==
              Some(Task(if IsRepoType(Strip(ty)) then Strip(ty) else "model", Strip(id), Strip(rev)))
  {
    var line := ty + "," + id + "," + rev;
    assert line[0] == ty[0] && line[|line| - 1] == rev[|rev| - 1];
    StrippedStrip(line);
    SplitThree(ty, id, rev);
    FieldsThree(line, ty, id, rev);
    ParseThree(line, Strip(ty), Strip(id), Strip(rev));
  }

  /** The fields of a line that splits into three pieces are the stripped pieces. */
  lemma FieldsThree(line: string, ty: string, id: string, rev: string)
    requires Split(line, ',') == [ty, id, rev]
    ensures Fields(line) == [Strip(ty), Strip(id), Strip(rev)]
  {
    var f := Fields(line);
    assert |f| == 3;
    assert f[0] == Strip(ty) && f[1] == Strip(id) && f[2] == Strip(rev);
  }

  /** A stripped, non-comment line with three fields reads as a task of those fields. */
  lemma ParseThree(line: string, ty: string, id: string, rev: string)
    requires Strip(line) == line && |line| > 0 && line[0] != '#'
    requires Fields(line) == [ty, id, rev]
    ensures ParseLine(line) == Some(Task(if IsRepoType(ty) then ty else "model", id, rev))
  {
    assert !StartsWith(line, "#");
  }

  /** Three comma-free fields joined by commas split back into those fields. */
  lemma SplitThree(ty: string, id: string, rev: string)
    requires ',' !in ty && ',' !in id && ',' !in rev
    ensures Split(ty + "," + id + "," + rev, ',') == [ty, id, rev]
  {
    assert ty + "," + id + "," + rev == ty + [','] + (id + [','] + rev);
    SplitJoin(ty, id + [','] + rev, ',');
    SplitJoin(id, rev, ',');
    SplitNone(ty, ',');
    SplitNone(id, ',');
    SplitNone(rev, ',');
  }

  /** A line written as `id,revision` (the older format) reads back as a model. */
  lemma ParseTwoFields(id: string, rev: string)
    requires ',' !in id && ',' !in rev
    requires |id| > 0 && !IsSpace(id[0]) && id[0] != '#'
    requires |rev| > 0 && !IsSpace(rev[|rev| - 1])
    ensures ParseLine(id + "," + rev) == Some(Task("model", Strip(id), Strip(rev)))
  {
    var line := id + "," + rev;
    assert line[0] == id[0] && line[|line| - 1] == rev[|rev| - 1];
    StrippedStrip(line);
    assert line == id + [','] + rev;
    SplitJoin(id, rev, ',');
    SplitNone(id, ',');
    SplitNone(rev, ',');
    assert Split(line, ',') == [id, rev];
    assert !StartsWith(line, "#") by { assert line[0] != '#'; }
  }

  /** A line with one field, or with four or more, is dropped. */
  lemma ParseWrongCount(raw: string)
    requires var n := |Split(Strip(raw), ',')|; n != 2 && n != 3
    ensures ParseLine(raw).None?
  {
  }

  /** Whether a line gives an entry. */
  predicate Parses(line: string) {
    ParseLine(line).Some?
  }

  /** The entry a line gives (a placeholder for lines that give none). */
  function TaskOf(line: string): Task {
    match ParseLine(line)
    case Some(t) => t
    case None => Task("", "", "")
  }

  /** The entries of the checklist's lines, in file order. */
  function Tasks(lines: seq<string>): seq<Task> {
    MapFilter(lines, Parses, TaskOf)
  }

  /** The entries of two runs of lines are those of the first, then those of the second. */
  lemma TasksAppend(a: seq<string>, b: seq<string>)
    ensures Tasks(a + b) == Tasks(a) + Tasks(b)
  {
    MapFilterAppend(a, b, Parses, TaskOf);
  }

  /** An entry comes out of the checklist exactly when some line parses to it. */
  lemma TasksMember(lines: seq<string>, t: Task)
    ensures t in Tasks(lines) <==> exists i :: 0 <= i < |lines| && ParseLine(lines[i]) == Some(t)
  {
    MapFilterSpec(lines, Parses, TaskOf, t);
    assert forall i :: 0 <= i < |lines| ==> (Parses(lines[i]) && t == TaskOf(lines[i]) <==> ParseLine(lines[i]) == Some(t));
  }

  /** `parse_checklist_file` over the lines of the file: append each entry a line gives. */
  method ParseChecklistFile(lines: seq<string>) returns (tasks: seq<Task>)
    ensures tasks == Tasks(lines)
  {
    tasks := [];
    var i := 0;
    while i < |lines|
      invariant 0 <= i <= |lines|
      invariant tasks == Tasks(lines[..i])
    {
      assert lines[..i + 1][..i] == lines[..i];
      var entry := ParseLine(lines[i]);
      if entry.Some? {
        tasks := tasks + [entry.value];
      }
      i := i + 1;
    }
    assert lines[..i] == lines;
  }

  // ---------------------------------------------------------------------------
  // One HEAD probe

  /** How a HEAD request ended: with a status code, a timeout, or another exception. */
  datatype Probe = Response(code: nat) | Timeout | Failure(message: string)

  /** The cache state written for a probe: 200 is cached, 404 or a timeout is not, anything else is an error. */
  function CacheStatus(p: Probe): (s: string)
    ensures s == "CACHED" <==> p == Response(200)
    ensures s == "NOT CACHED" <==> p == Response(404) || p == Timeout
    ensures s != "CACHED" && s != "NOT CACHED" ==> StartsWith(s, "ERROR ")
  {
    match p
    case Response(code) =>
      if code == 200 then "CACHED"
      else if code == 404 then "NOT CACHED"
      else ErrorStatus(NatToString(code))
    case Timeout => "NOT CACHED"
    case Failure(message) => ErrorStatus(message)
  }

  /** The error state `f"ERROR {detail}"`. */
  function ErrorStatus(detail: string): (s: string)
    ensures StartsWith(s, "ERROR ") && s != "CACHED" && s != "NOT CACHED"
  {
    var s := "ERROR " + detail;
    assert s[0] == 'E';
    s
  }

  /** The escape character that starts a terminal colour sequence. */
  const Esc: char := '\U{1B}'

  const Reset: string := [Esc] + "[0m"
  const CachedMark: string := [Esc] + "[32mCACHED" + Reset
  const NotCachedMark: string := [Esc] + "[35mNOT CACHED" + Reset
  const ErrorMark: string := [Esc] + "[31mERROR"

  /** The status in its colour: green when cached, magenta when not, red otherwise. */
  function Colored(status: string): string {
    if status == "NOT CACHED" then NotCachedMark
    else if status == "CACHED" then CachedMark
    else [Esc] + "[31m" + status + Reset
  }

  /** `f"{s:<w}"`: spaces added on the right up to width `w`. */
  function PadRight(s: string, w: nat): (r: string)
    ensures |r| == if |s| >= w then |s| else w
    ensures StartsWith(r, s) && forall k :: |s| <= k < |r| ==> r[k] == ' '
  {
    if |s| >= w then s else s + seq(w - |s|, _ => ' ')
  }

  /** `f"{s:>w}"`: spaces added on the left up to width `w`. */
  function PadLeft(s: string, w: nat): (r: string)
    ensures |r| == if |s| >= w then |s| else w
    ensures EndsWith(r, s) && forall k :: 0 <= k < |r| - |s| ==> r[k] == ' '
  {
    if |s| >= w then s else seq(w - |s|, _ => ' ') + s
  }

  /** The line `file_head_check_and_queue` queues for one file. */
  function OutputLine(filename: string, p: Probe): string {
    PadRight(filename, 40) + " | " + PadLeft(Colored(CacheStatus(p)), 10) + "\n"
  }

  // ---------------------------------------------------------------------------
  // Counting one model's lines

  /** The three buckets of `print_model_result`. */
  datatype Bucket = Cached | NotCached | Error | Uncounted

  /** The bucket of a line: the markers are checked in the order cached, not cached, error. */
  function BucketOf(line: string): Bucket {
    if Contains(line, CachedMark) then Cached
    else if Contains(line, NotCachedMark) then NotCached
    else if Contains(line, ErrorMark) then Error
    else Uncounted
  }

  /** The bucket a cache state is meant to land in. */
  function StatusBucket(status: string): Bucket {
    if status == "CACHED" then Cached
    else if status == "NOT CACHED" then NotCached
    else Error
  }

  /** A marker that starts with the escape character occurs only where an escape character is. */
  lemma MarkerAfter(x: string, y: string, m: string)
    requires |m| > 0 && m[0] == Esc && Esc !in x
    ensures Contains(x + y, m) <==> Contains(y, m)
  {
    if Contains(x + y, m) {
      var i :| 0 <= i <= |x + y| - |m| && OccursAt(x + y, m, i);
      assert (x + y)[i] == m[0];
      assert i >= |x|;
      assert y[i - |x|..i - |x| + |m|] == (x + y)[i..i + |m|];
      ContainsWitness(y, m, i - |x|);
    }
    if Contains(y, m) {
      ContainsInfix(x, y, [], m);
      assert x + y + [] == x + y;
    }
  }

  /**
    A coloured status followed by the newline: a marker of length above
    five occurs in it only at its front, where the colour code is.
   */
  lemma MarkerInColored(code: string, body: string, m: string)
    requires |code| == 5 && code[0] == Esc && Esc !in code[1..] && Esc !in body
    requires |m| > 5 && m[0] == Esc
    ensures Contains(code + body + Reset + "\n", m) <==> StartsWith(code + body + Reset + "\n", m)
  {
    var y := code + body + Reset + "\n";
    if Contains(y, m) {
      var i :| 0 <= i <= |y| - |m| && OccursAt(y, m, i);
      assert y[i] == Esc;
      assert i == 0;
      assert y[..|m|] == m;
    }
    if StartsWith(y, m) {
      assert OccursAt(y, m, 0);
    }
  }

  /** A not-cached line is counted as not cached. */
  lemma BucketNotCached(x: string)
    requires Esc !in x
    ensures BucketOf(x + (Colored("NOT CACHED") + "\n")) == NotCached
  {
    var y := Colored("NOT CACHED") + "\n";
    MarkerAfter(x, y, CachedMark);
    MarkerAfter(x, y, NotCachedMark);
    assert y == [Esc] + "[35m" + "NOT CACHED" + Reset + "\n";
    MarkerInColored([Esc] + "[35m", "NOT CACHED", CachedMark);
    assert CachedMark[3] != y[3];
    assert OccursAt(y, NotCachedMark, 0);
  }

  /** A cached line is counted as cached. */
  lemma BucketCached(x: string)
    requires Esc !in x
    ensures BucketOf(x + (Colored("CACHED") + "\n")) == Cached
  {
    var y := Colored("CACHED") + "\n";
    MarkerAfter(x, y, CachedMark);
    assert OccursAt(y, CachedMark, 0);
  }

  /** An error line is counted as an error. */
  lemma BucketError(x: string, status: string)
    requires Esc !in x && Esc !in status
    requires StartsWith(status, "ERROR ") && status != "CACHED" && status != "NOT CACHED"
    ensures BucketOf(x + (Colored(status) + "\n")) == Error
  {
    var code := [Esc] + "[31m";
    var y := Colored(status) + "\n";
    assert y == code + status + Reset + "\n";
    MarkerAfter(x, y, CachedMark);
    MarkerAfter(x, y, NotCachedMark);
    MarkerAfter(x, y, ErrorMark);
    MarkerInColored(code, status, CachedMark);
    MarkerInColored(code, status, NotCachedMark);
    assert CachedMark[3] != y[3];
    assert NotCachedMark[3] != y[3];
    assert status[..5] == "ERROR";
    assert y[..|ErrorMark|] == code + status[..5];
    assert OccursAt(y, ErrorMark, 0);
  }

  /**
    Every line the checker writes for a file lands in the bucket of its own
    cache state, as long as neither the file name nor an exception's message
    holds an escape character.
   */
  lemma BucketOfOutput(filename: string, p: Probe)
    requires Esc !in filename
    requires p.Failure? ==> Esc !in p.message
    ensures BucketOf(OutputLine(filename, p)) == StatusBucket(CacheStatus(p))
  {
    var status := CacheStatus(p);
    var x := PadRight(filename, 40) + " | ";
    assert Esc !in x;
    var colored := Colored(status);
    assert PadLeft(colored, 10) == colored;
    assert OutputLine(filename, p) == x + (colored + "\n");
    if status == "NOT CACHED" {
      BucketNotCached(x);
    } else if status == "CACHED" {
      BucketCached(x);
    } else {
      assert Esc !in status by {
        match p
        case Response(code) => assert AllDigits(NatToString(code));
        case Timeout =>
        case Failure(message) =>
      }
      BucketError(x, status);
    }
  }

  /** The line lands in bucket `b`. */
  function InBucket(b: Bucket): string -> bool {
    line => BucketOf(line) == b
  }

  /** How many of the lines land in bucket `b`. */
  function CountBucket(lines: seq<string>, b: Bucket): nat {
    Count(lines, InBucket(b))
  }

  /** The counters of `print_model_result`. */
  datatype Counts = Counts(cached: nat, notCached: nat, error: nat)

  /** `print_model_result`'s loop: each line bumps at most one counter. */
  method CountModelLines(lines: seq<string>) returns (c: Counts)
    ensures c == Counts(CountBucket(lines, Cached), CountBucket(lines, NotCached), CountBucket(lines, Error))
  {
    c := Counts(0, 0, 0);
    var i := 0;
    while i < |lines|
      invariant 0 <= i <= |lines|
      invariant c == Counts(CountBucket(lines[..i], Cached), CountBucket(lines[..i], NotCached), CountBucket(lines[..i], Error))
    {
      assert lines[..i + 1][..i] == lines[..i];
      var line := lines[i];
      if Contains(line, CachedMark) {
        c := c.(cached := c.cached + 1);
      } else if Contains(line, NotCachedMark) {
        c := c.(notCached := c.notCached + 1);
      } else if Contains(line, ErrorMark) {
        c := c.(error := c.error + 1);
      }
      i := i + 1;
    }
    assert lines[..i] == lines;
  }

  /** No line is counted twice: the three counters never add up to more than the lines. */
  lemma {:induction false} CountsBounded(lines: seq<string>)
    ensures CountBucket(lines, Cached) + CountBucket(lines, NotCached) + CountBucket(lines, Error)
              + CountBucket(lines, Uncounted) == |lines|
  {
    if |lines| > 0 {
      CountsBounded(lines[..|lines| - 1]);
    }
  }

  /** How many probes end in a state of bucket `b`. */
  function CountStatus(probes: seq<Probe>, b: Bucket): nat {
    Count(probes, EndsIn(b))
  }

  /** The probe ends in a state of bucket `b`. */
  function EndsIn(b: Bucket): Probe -> bool {
    p => StatusBucket(CacheStatus(p)) == b
  }

  /** The lines written for a model's files, one per file, in order. */
  function Outputs(files: seq<string>, probes: seq<Probe>): (lines: seq<string>)
    requires |files| == |probes|
  {
    seq(|files|, k requires 0 <= k < |files| => OutputLine(files[k], probes[k]))
  }

  /**
    For the lines written for a model's files, each counter is the number of
    files whose probe ended in that state.
   */
  lemma CountsOfOutputs(files: seq<string>, probes: seq<Probe>, b: Bucket)
    requires |files| == |probes|
    requires forall k :: 0 <= k < |files| ==> Esc !in files[k]
    requires forall k :: 0 <= k < |probes| ==> probes[k].Failure? ==> Esc !in probes[k].message
    ensures CountBucket(Outputs(files, probes), b) == CountStatus(probes, b)
  {
    var lines := Outputs(files, probes);
    forall k | 0 <= k < |lines|
      ensures InBucket(b)(lines[k]) == EndsIn(b)(probes[k])
    {
      BucketOfOutput(files[k], probes[k]);
    }
    CountAgree(lines, probes, InBucket(b), EndsIn(b));
  }
}
