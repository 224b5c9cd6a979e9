/**
  The SHA-1 prefix generator: for a two-digit hex prefix it finds the
  content `prefix ++ decimal(n)`, with the smallest such `n`, whose SHA-1
  hex digest starts with the same prefix, and writes it to
  "file_with_<prefix>.txt". Such content lands in the filestore directory
  named by that prefix.
 */
module PrefixGenerator {
  import opened Wrappers
  import opened Bytes
  import opened Text

  /** Why the generator stops without a file. */
  datatype GenError =
    | InvalidPrefix
      /** No suffix below the search bound worked (the source would keep searching). */
    | NotFound

  /** What the generator produces: the file's name and content and the content's digest. */
  datatype Generated = Generated(fileName: string, content: seq<byte>, digest: Sha1Hex)

  /** Exactly two characters from "0123456789abcdef". */
  predicate ValidPrefix(p: string) {
    |p| == 2 && forall i :: 0 <= i < |p| ==> IsLowerHex(p[i])
  }

  /** A hex digit of either case. */
  predicate IsHexDigit(c: char) {
    '0' <= c <= '9' || 'a' <= c <= 'f' || 'A' <= c <= 'F'
  }

  /** The prefix is lower-cased before the check, so upper-case hex digits are accepted too. */
  lemma ValidLoweredPrefix(p: string)
    ensures ValidPrefix(Lower(p)) <==> |p| == 2 && forall i :: 0 <= i < |p| ==> IsHexDigit(p[i])
  {
    if |p| == 2 {
      forall i | 0 <= i < 2
        ensures IsLowerHex(Lower(p)[i]) <==> IsHexDigit(p[i])
      {
        assert Lower(p)[i] == LowerChar(p[i]);
      }
    }
  }

  /** The content tried for suffix `n`: the prefix followed by the decimal digits of `n`. */
  function Candidate(p: string, n: nat): (c: seq<byte>)
    requires ValidPrefix(p)
    ensures |c| >= 3 && c[..2] == Ascii(p)
  {
    var text := p + NatToString(n);
    assert forall i :: 0 <= i < |text| ==> text[i] as int < 128 by {
      forall i | 0 <= i < |text| ensures text[i] as int < 128 {
        if i >= 2 {
          assert IsDigit(NatToString(n)[i - 2]);
        }
      }
    }
    var c := Ascii(text);
    assert c[..2] == Ascii(p);
    c
  }

  /** The digest of suffix `n`'s content starts with the prefix. */
  predicate Hits(p: string, n: nat, sha1: seq<byte> -> Sha1Hex)
    requires ValidPrefix(p)
  {
    StartsWith(sha1(Candidate(p, n)), p)
  }

  /**
    `generate_file_with_checksum`: lower-case and check the prefix, then try
    suffixes 0, 1, 2, ... until the digest starts with the prefix. The
    search is cut off after `bound` suffixes.
   */
  method GenerateFileWithChecksum(prefix: string, sha1: seq<byte> -> Sha1Hex, bound: nat)
    returns (r: Result<Generated, GenError>, suffix: nat)
    ensures r == Err(InvalidPrefix) <==> !ValidPrefix(Lower(prefix))
    ensures r.Ok? ==> var p := Lower(prefix);
              && ValidPrefix(p)
              && r.value.fileName == "file_with_" + p + ".txt"
              && r.value.content == Candidate(p, suffix)
              && r.value.digest == sha1(r.value.content)
              && StartsWith(r.value.digest, p)
              && forall n :: 0 <= n < suffix ==> !Hits(p, n, sha1)
    ensures r == Err(NotFound) ==> forall n :: 0 <= n < bound ==> !Hits(Lower(prefix), n, sha1)
  {
    var p := Lower(prefix);
    suffix := 0;
    if !(|p| == 2 && forall i :: 0 <= i < |p| ==> IsLowerHex(p[i])) {
      return Err(InvalidPrefix), suffix;
    }
    while suffix < bound
      invariant forall n :: 0 <= n < suffix ==> !Hits(p, n, sha1)
    {
      var candidate := Candidate(p, suffix);
      var digest := sha1(candidate);
      if StartsWith(digest, p) {
        return Ok(Generated("file_with_" + p + ".txt", candidate, digest)), suffix;
      }
      suffix := suffix + 1;
    }
    return Err(NotFound), suffix;
  }

  /** Distinct suffixes give distinct contents, so the search never tries the same content twice. */
  lemma {:induction false} CandidatesDistinct(p: string, m: nat, n: nat)
    requires ValidPrefix(p) && m != n
    ensures Candidate(p, m) != Candidate(p, n)
  {
    var a, b := NatToString(m), NatToString(n);
    NatToStringValue(m);
    NatToStringValue(n);
    assert a != b;
    var cm, cn := Candidate(p, m), Candidate(p, n);
    if |a| == |b| {
      var i :| 0 <= i < |a| && a[i] != b[i];
      assert cm[i + 2] == a[i] as int && cn[i + 2] == b[i] as int;
    } else {
      assert |cm| != |cn|;
    }
  }
}
