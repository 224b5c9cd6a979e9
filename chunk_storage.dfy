/**
  The chunk-based deduplication estimate: every file is cut into fixed-size
  chunks, each chunk is hashed with SHA-1, and the share of chunks whose hash
  was already seen is reported. The chunk size comes from a size string such
  as "64KB".
 */
module ChunkStorage {
  import opened Wrappers
  import opened Bytes
  import opened Text

  // ---------------------------------------------------------------------------
  // The chunk-size argument

  /** Why `parse_chunk_size` rejects its argument. */
  datatype SizeError = InvalidFormat | BelowOneByte

  /** The maximal run of decimal digits at the front of `s`: what `(\d+)` takes. */
  function LeadingDigits(s: string): (r: string)
    ensures AllDigits(r) && r <= s
    ensures |r| < |s| ==> !IsDigit(s[|r|])
  {
    if |s| > 0 && IsDigit(s[0]) then [s[0]] + LeadingDigits(s[1..]) else []
  }

  /** A digit prefix followed by a non-digit (or nothing) is the one `(\d+)` takes. */
  lemma LeadingDigitsIs(s: string, d: string)
    requires AllDigits(d) && d <= s && (|d| < |s| ==> !IsDigit(s[|d|]))
    ensures LeadingDigits(s) == d
  {
  }

  /**
    The multiplier of the optional unit group `(B|KB|MB|GB)?` matched at the
    front of `rest`, alternatives tried in that order; no unit counts as bytes.
   */
  function Multiplier(rest: string): (m: nat)
    ensures m >= 1
  {
    if StartsWith(rest, "B") then 1
    else if StartsWith(rest, "KB") then 1024
    else if StartsWith(rest, "MB") then 1024 * 1024
    else if StartsWith(rest, "GB") then 1024 * 1024 * 1024
    else 1
  }

  /** The units the size may carry, or none. */
  predicate IsUnit(u: string) {
    u == "" || u == "B" || u == "KB" || u == "MB" || u == "GB"
  }

  /** The letters a unit can start with. */
  predicate IsUnitLetter(c: char) {
    c == 'B' || c == 'K' || c == 'M' || c == 'G'
  }

  /** The table of units: no unit and "B" are bytes, then binary kilo, mega and giga. */
  function UnitSize(u: string): nat {
    if u == "KB" then 1024
    else if u == "MB" then 1024 * 1024
    else if u == "GB" then 1024 * 1024 * 1024
    else 1
  }

  /**
    The number and unit read from the front of already normalised text:
    the leading digits times the unit right after them; the rest is ignored.
   */
  function ParseNormal(t: string): (r: Result<nat, SizeError>)
    ensures r.Ok? ==> r.value >= 1
  {
    var digits := LeadingDigits(t);
    if |digits| == 0 then Err(InvalidFormat)
    else
      var size := DigitsValue(digits) * Multiplier(t[|digits|..]);
      if size < 1 then Err(BelowOneByte) else Ok(size)
  }

  /** `parse_chunk_size`: strip and upper-case the text, then read the size at its front. */
  function ParseChunkSize(s: string): (r: Result<nat, SizeError>)
    ensures r.Ok? ==> r.value >= 1
  {
    ParseNormal(Upper(Strip(s)))
  }

  /** Upper-casing distributes over concatenation. */
  lemma UpperAppend(a: string, b: string)
    ensures Upper(a + b) == Upper(a) + Upper(b)
  {
  }

  /** Text without lower-case letters is unchanged by upper-casing. */
  lemma UpperKeeps(s: string)
    requires forall i :: 0 <= i < |s| ==> !('a' <= s[i] <= 'z')
    ensures Upper(s) == s
  {
  }

  /** The unit names are already upper case. */
  lemma UpperUnit(u: string)
    requires IsUnit(u)
    ensures Upper(u) == u
  {
    forall i | 0 <= i < |u| ensures 'B' <= u[i] <= 'M' {
    }
    UpperKeeps(u);
  }

  /** Stripping and upper-casing a size written as digits and a unit leaves them as they are. */
  lemma NormalisedSize(d: string, u: string, tail: string)
    requires |d| > 0 && AllDigits(d)
    requires IsUnit(u)
    ensures Upper(Strip(d + u + tail)) == d + (u + Upper(TrimEnd(tail)))
  {
    var p := d + u;
    assert !IsSpace(p[|p| - 1]) by {
      if u == "" { assert p[|p| - 1] == d[|d| - 1]; } else { assert p[|p| - 1] == u[|u| - 1]; }
    }
    assert !IsSpace(p[0]) by { assert p[0] == d[0]; }
    StripFront(p, tail);
    UpperAppend(p, TrimEnd(tail));
    UpperAppend(d, u);
    UpperKeeps(d);
    UpperUnit(u);
    ConcatAssoc(d, u, Upper(TrimEnd(tail)));
  }

  lemma ConcatAssoc(a: string, b: string, c: string)
    ensures a + b + c == a + (b + c)
  {
  }

  /** The unit read after the digits is the one written, when nothing unit-like follows a missing unit. */
  lemma MultiplierOf(u: string, x: string)
    requires IsUnit(u)
    requires u == "" && |x| > 0 ==> !IsUnitLetter(x[0])
    ensures Multiplier(u + x) == UnitSize(u)
  {
    var y := u + x;
    if u == "" {
      assert y == x;
    } else {
      assert y[..|u|] == u;
      assert y[0] == u[0];
    }
  }

  /** The parse of text that reads as digits, a unit (or none) and a rest. */
  lemma ParseNormalOf(d: string, u: string, rest: string)
    requires |d| > 0 && AllDigits(d)
    requires IsUnit(u)
    requires u == "" && |rest| > 0 ==> !IsDigit(rest[0]) && !IsUnitLetter(rest[0])
    ensures ParseNormal(d + (u + rest)) ==
              if DigitsValue(d) == 0 then Err(BelowOneByte) else Ok(DigitsValue(d) * UnitSize(u))
  {
    var t := d + (u + rest);
    assert |d| < |t| ==> t[|d|] == (u + rest)[0];
    LeadingDigitsIs(t, d);
    assert t[|d|..] == u + rest;
    MultiplierOf(u, rest);
    ProductBelowOne(DigitsValue(d), UnitSize(u));
  }

  /** A count times a positive multiplier is below one only when the count is zero. */
  lemma ProductBelowOne(v: nat, m: nat)
    requires m >= 1
    ensures v * m < 1 <==> v == 0
  {
    if v >= 1 {
      assert v * m >= m;
    }
  }

  /**
    A size written as digits, one of the units (or none) and any trailing
    text reads back as the number times the unit's size, or is rejected as
    below one byte when the number is zero; so "1.5MB" is one byte and "0KB"
    is an error. Without a unit the trailing text must not start with a
    digit or a unit letter, or it would be read as part of the size.
   */
  lemma ParseChunkSizeOf(d: string, u: string, tail: string)
    requires |d| > 0 && AllDigits(d)
    requires IsUnit(u)
    requires u == "" && |tail| > 0 ==> !IsDigit(tail[0]) && !IsUnitLetter(UpperChar(tail[0]))
    ensures ParseChunkSize(d + u + tail) ==
              if DigitsValue(d) == 0 then Err(BelowOneByte) else Ok(DigitsValue(d) * UnitSize(u))
  {
    var rest := Upper(TrimEnd(tail));
    NormalisedSize(d, u, tail);
    if |TrimEnd(tail)| > 0 {
      assert TrimEnd(tail)[0] == tail[0];
      assert rest[0] == UpperChar(tail[0]);
      assert !IsDigit(tail[0]) ==> !IsDigit(rest[0]);
    }
    ParseNormalOf(d, u, rest);
  }

  // ---------------------------------------------------------------------------
  // Chunking

  /** The consecutive `size`-byte slices of `data`; only the last may be shorter. */
  function Chunks(data: seq<byte>, size: nat): (r: seq<seq<byte>>)
    requires size >= 1
    ensures forall i :: 0 <= i < |r| ==> 0 < |r[i]| <= size
    decreases |data|
  {
    if |data| == 0 then []
    else if |data| <= size then [data]
    else [data[..size]] + Chunks(data[size..], size)
  }

  /** The chunks laid end to end. */
  function Join(chunks: seq<seq<byte>>): seq<byte> {
    if |chunks| == 0 then [] else chunks[0] + Join(chunks[1..])
  }

  /** The chunks laid end to end give back the file. */
  lemma {:induction false} ChunksJoin(data: seq<byte>, size: nat)
    requires size >= 1
    ensures Join(Chunks(data, size)) == data
    decreases |data|
  {
    var r := Chunks(data, size);
    if |data| > size {
      ChunksJoin(data[size..], size);
      assert r[1..] == Chunks(data[size..], size);
      assert data == data[..size] + data[size..];
    } else if |data| > 0 {
      assert r[1..] == [];
      assert data + [] == data;
    }
  }

  /** Every chunk but the last is full. */
  lemma {:induction false} ChunksFull(data: seq<byte>, size: nat)
    requires size >= 1
    ensures forall i :: 0 <= i < |Chunks(data, size)| - 1 ==> |Chunks(data, size)[i]| == size
    decreases |data|
  {
    if |data| > size {
      ChunksFull(data[size..], size);
      var r, rest := Chunks(data, size), Chunks(data[size..], size);
      assert r == [data[..size]] + rest;
      forall i | 0 <= i < |r| - 1
        ensures |r[i]| == size
      {
        if i > 0 {
          assert r[i] == rest[i - 1];
        }
      }
    }
  }

  /** There are ceil(|data| / size) chunks: none for an empty file. */
  lemma {:induction false} ChunksCount(data: seq<byte>, size: nat)
    requires size >= 1
    ensures var r := Chunks(data, size);
            && (|r| == 0 <==> |data| == 0)
            && (|r| > 0 ==> (|r| - 1) * size < |data| <= |r| * size)
    decreases |data|
  {
    if |data| > size {
      var n := |Chunks(data[size..], size)|;
      ChunksCount(data[size..], size);
      assert |Chunks(data, size)| == n + 1;
      assert (n + 1 - 1) * size == (n - 1) * size + size;
      assert (n + 1) * size == n * size + size;
    }
  }

  /**
    The chunks rebuild the file, all but the last are full, and there are
    ceil(|data| / size) of them: none for an empty file.
   */
  lemma ChunksSpec(data: seq<byte>, size: nat)
    requires size >= 1
    ensures var r := Chunks(data, size);
            && Join(r) == data
            && (forall i :: 0 <= i < |r| - 1 ==> |r[i]| == size)
            && (|r| == 0 <==> |data| == 0)
            && (|r| > 0 ==> (|r| - 1) * size < |data| <= |r| * size)
  {
    ChunksJoin(data, size);
    ChunksFull(data, size);
    ChunksCount(data, size);
  }

  /** The hex digest of every chunk, in order. */
  function HashAll(chunks: seq<seq<byte>>, sha1: seq<byte> -> Sha1Hex): (r: seq<Sha1Hex>)
    ensures |r| == |chunks| && forall i :: 0 <= i < |r| ==> r[i] == sha1(chunks[i])
  {
    seq(|chunks|, i requires 0 <= i < |chunks| => sha1(chunks[i]))
  }

  /** A read of `n` bytes, the smaller of `size` and what is left, takes off the first chunk. */
  lemma ChunksStep(d: seq<byte>, size: nat, n: nat)
    requires size >= 1 && |d| > 0 && n == (if |d| < size then |d| else size)
    ensures Chunks(d, size) == [d[..n]] + Chunks(d[n..], size)
  {
    if |d| <= size {
      assert d[..n] == d && d[n..] == [];
    }
  }

  /**
    `split_and_hash`: read `size` bytes at a time until a read comes back
    empty, appending the digest of each piece read.
   */
  method SplitAndHash(data: seq<byte>, size: nat, sha1: seq<byte> -> Sha1Hex) returns (hashes: seq<Sha1Hex>)
    requires size >= 1
    ensures hashes == HashAll(Chunks(data, size), sha1)
  {
    hashes := [];
    var pos := 0;
    while true
      invariant 0 <= pos <= |data|
      invariant hashes + HashAll(Chunks(data[pos..], size), sha1) == HashAll(Chunks(data, size), sha1)
      decreases |data| - pos
    {
      var n := if |data| - pos < size then |data| - pos else size;
      var chunk := data[pos..pos + n];
      if |chunk| == 0 {
        break;
      }
      ChunksStep(data[pos..], size, n);
      assert data[pos..][..n] == chunk && data[pos..][n..] == data[pos + n..];
      hashes := hashes + [sha1(chunk)];
      pos := pos + n;
    }
  }

  // ---------------------------------------------------------------------------
  // The whole scan

  /** A row of the per-file table: the file and how many chunks it has. */
  datatype FileChunks = FileChunks(file: string, chunks: nat)

  /** `all_hashes`: every file's chunk digests, file after file. */
  function AllHashes(files: seq<(string, seq<byte>)>, size: nat, sha1: seq<byte> -> Sha1Hex): seq<Sha1Hex>
    requires size >= 1
  {
    if |files| == 0 then []
    else AllHashes(files[..|files| - 1], size, sha1) + HashAll(Chunks(files[|files| - 1].1, size), sha1)
  }

  /** The deduplication figures: total and distinct chunks and their difference. */
  datatype Summary = Summary(total: nat, unique: nat, duplicates: int, ratio: real)

  function Distinct(hashes: seq<Sha1Hex>): set<Sha1Hex> {
    set h | h in hashes
  }

  /** The summary of the digests; the percentage is 0 when there are no chunks. */
  function Summarize(hashes: seq<Sha1Hex>): Summary {
    var total := |hashes|;
    var unique := |Distinct(hashes)|;
    var duplicates := total - unique;
    Summary(total, unique, duplicates,
            if total > 0 then duplicates as real / total as real * 100.0 else 0.0)
  }

  /** Distinct digests are never more than the digests, and as many exactly when none repeats. */
  lemma {:induction false} DistinctCount(hashes: seq<Sha1Hex>)
    ensures |Distinct(hashes)| <= |hashes|
    ensures |Distinct(hashes)| == |hashes| <==> forall i, j :: 0 <= i < j < |hashes| ==> hashes[i] != hashes[j]
  {
    if |hashes| > 0 {
      var init, last := hashes[..|hashes| - 1], hashes[|hashes| - 1];
      DistinctCount(init);
      assert hashes == init + [last];
      assert Distinct(hashes) == Distinct(init) + {last};
      if last in init {
        assert Distinct(hashes) == Distinct(init);
        var k :| 0 <= k < |init| && init[k] == last;
        assert hashes[k] == hashes[|hashes| - 1];
      } else {
        assert |Distinct(hashes)| == |Distinct(init)| + 1;
        NoRepeatsFresh(init, last);
      }
    }
  }

  /** Appending a digest not seen before keeps a sequence free of repeats, and only then. */
  lemma NoRepeatsFresh(init: seq<Sha1Hex>, last: Sha1Hex)
    requires last !in init
    ensures (forall i, j :: 0 <= i < j < |init + [last]| ==> (init + [last])[i] != (init + [last])[j])
        <==> (forall i, j :: 0 <= i < j < |init| ==> init[i] != init[j])
  {
    var hashes := init + [last];
    assert forall i :: 0 <= i < |init| ==> hashes[i] == init[i] && hashes[i] != last;
  }

  /**
    The duplicate count is never negative and is zero exactly when no digest
    repeats; with at least one chunk the percentage is below 100.
   */
  lemma SummaryBounds(hashes: seq<Sha1Hex>)
    ensures var s := Summarize(hashes);
            && 0 <= s.duplicates < s.total + (if s.total == 0 then 1 else 0)
            && (s.duplicates == 0 <==> forall i, j :: 0 <= i < j < |hashes| ==> hashes[i] != hashes[j])
            && 0.0 <= s.ratio < 100.0
  {
    DistinctCount(hashes);
    if |hashes| > 0 {
      assert hashes[0] in Distinct(hashes);
      var s := Summarize(hashes);
      RatioBelowHundred(s.duplicates, s.total);
    }
  }

  /** A share `d / t` of a positive `t` with `0 <= d < t`, in percent, lies in [0, 100). */
  lemma RatioBelowHundred(d: int, t: int)
    requires 0 <= d < t
    ensures 0.0 <= d as real / t as real * 100.0 < 100.0
  {
    var q := d as real / t as real;
    assert q * t as real == d as real;
    assert 0.0 <= q < 1.0;
  }

  /** The result of the script: no files at all, or the per-file table and the summary. */
  datatype Report = NoFiles | Report(perFile: seq<FileChunks>, summary: Summary)

  /**
    The scan over the regular files (in sorted path order): chunk and hash
    each file, extend `all_hashes`, record its chunk count, then summarise.
   */
  method Scan(files: seq<(string, seq<byte>)>, size: nat, sha1: seq<byte> -> Sha1Hex) returns (report: Report)
    requires size >= 1
    ensures |files| == 0 ==> report == NoFiles
    ensures |files| > 0 ==> report.Report? && report.summary == Summarize(AllHashes(files, size, sha1))
    ensures |files| > 0 ==>
              && |report.perFile| == |files|
              && forall i :: 0 <= i < |files| ==> report.perFile[i] == FileChunks(files[i].0, |Chunks(files[i].1, size)|)
  {
    if |files| == 0 {
      return NoFiles;
    }
    var allHashes: seq<Sha1Hex> := [];
    var info: seq<FileChunks> := [];
    var i := 0;
    while i < |files|
      invariant 0 <= i <= |files|
      invariant allHashes == AllHashes(files[..i], size, sha1)
      invariant |info| == i && forall k :: 0 <= k < i ==> info[k] == FileChunks(files[k].0, |Chunks(files[k].1, size)|)
    {
      var hashes := SplitAndHash(files[i].1, size, sha1);
      assert files[..i + 1][..i] == files[..i];
      allHashes := allHashes + hashes;
      info := info + [FileChunks(files[i].0, |hashes|)];
      i := i + 1;
    }
    assert files[..i] == files;
    report := Report(info, Summarize(allHashes));
  }
}
