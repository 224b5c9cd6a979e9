/**
  String and sequence helpers with Python's meaning: `in` on strings is a
  substring test, `startswith`/`endswith`, `strip()`, `lower()`/`upper()`,
  `split(sep)`, `os.path.basename`, slicing from the end, and `str(n)` /
  `f"{n:0wd}"` for integers.
 */
module Text {
  import opened Wrappers
  import opened Search

  /** `p` is a prefix of `s` (`s.startswith(p)`). */
  predicate StartsWith<T(==)>(s: seq<T>, p: seq<T>) {
    p <= s
  }

  /** `s.endswith(p)`; every sequence ends with the empty one. */
  predicate EndsWith<T(==)>(s: seq<T>, p: seq<T>) {
    |p| <= |s| && s[|s| - |p|..] == p
  }

  /** `p` occurs in `s` starting at index `i`. */
  predicate OccursAt<T(==)>(s: seq<T>, p: seq<T>, i: int) {
    0 <= i && i + |p| <= |s| && s[i..i + |p|] == p
  }

  /** Python's `p in s` for strings: `p` is a contiguous piece of `s`. */
  predicate Contains<T(==)>(s: seq<T>, p: seq<T>) {
    exists i :: 0 <= i <= |s| - |p| && OccursAt(s, p, i)
  }

  lemma ContainsWitness<T>(s: seq<T>, p: seq<T>, i: int)
    requires OccursAt(s, p, i)
    ensures Contains(s, p)
  {
  }

  /** An occurrence in a piece is an occurrence in the whole. */
  lemma ContainsInfix<T>(a: seq<T>, b: seq<T>, c: seq<T>, p: seq<T>)
    requires Contains(b, p)
    ensures Contains(a + b + c, p)
  {
    var i :| 0 <= i <= |b| - |p| && OccursAt(b, p, i);
    assert (a + b + c)[|a| + i..|a| + i + |p|] == b[i..i + |p|];
    ContainsWitness(a + b + c, p, |a| + i);
  }

  /** Every sequence contains itself and the empty sequence. */
  lemma ContainsSelf<T>(s: seq<T>)
    ensures Contains(s, s) && Contains(s, [])
  {
    assert OccursAt(s, s, 0);
    assert OccursAt(s, [], 0);
  }

  /** The first index at which `p` occurs in `s`, when it occurs. */
  function FirstOccurrence<T(==)>(s: seq<T>, p: seq<T>): (r: int)
    requires Contains(s, p)
    ensures 0 <= r <= |s| - |p| && OccursAt(s, p, r)
    ensures forall j :: 0 <= j < r ==> !OccursAt(s, p, j)
    decreases |s|
  {
    if OccursAt(s, p, 0) then 0
    else
      assert Contains(s[1..], p) by {
        var i :| 0 <= i <= |s| - |p| && OccursAt(s, p, i);
        assert i != 0;
        assert s[1..][i - 1..i - 1 + |p|] == s[i..i + |p|];
        assert OccursAt(s[1..], p, i - 1);
      }
      var k := FirstOccurrence(s[1..], p);
      forall j | 1 <= j <= k + 1
        ensures OccursAt(s, p, j) <==> OccursAt(s[1..], p, j - 1)
      {
        OccursAtShift(s, p, j);
      }
      k + 1
  }

  lemma OccursAtShift<T>(s: seq<T>, p: seq<T>, j: int)
    requires 1 <= j && |s| >= 1
    ensures OccursAt(s, p, j) <==> OccursAt(s[1..], p, j - 1)
  {
    if j + |p| <= |s| {
      assert s[1..][j - 1..j - 1 + |p|] == s[j..j + |p|];
    }
  }

  /** An occurrence is at the front or in the tail. */
  lemma ContainsFrontOrTail<T>(s: seq<T>, p: seq<T>)
    requires |s| > 0
    ensures Contains(s, p) <==> OccursAt(s, p, 0) || Contains(s[1..], p)
  {
    if Contains(s, p) && !OccursAt(s, p, 0) {
      var i :| 0 <= i <= |s| - |p| && OccursAt(s, p, i);
      OccursAtShift(s, p, i);
    }
    if Contains(s[1..], p) {
      var i :| 0 <= i <= |s[1..]| - |p| && OccursAt(s[1..], p, i);
      OccursAtShift(s, p, i + 1);
    }
  }

  /** `re.sub(re.escape(p), '', s)`: occurrences of `p` removed left to right, without overlap. */
  function RemoveAll<T(==)>(s: seq<T>, p: seq<T>): (r: seq<T>)
    requires |p| > 0
    ensures |r| <= |s|
    decreases |s|
  {
    if |s| == 0 then []
    else if p <= s then RemoveAll(s[|p|..], p)
    else [s[0]] + RemoveAll(s[1..], p)
  }

  /** Removal changes the sequence exactly when the pattern occurs in it. */
  lemma {:induction false} RemoveAllIdentity<T>(s: seq<T>, p: seq<T>)
    requires |p| > 0
    ensures RemoveAll(s, p) == s <==> !Contains(s, p)
    decreases |s|
  {
    if |s| > 0 {
      ContainsFrontOrTail(s, p);
      if p <= s {
        assert s[..|p|] == p;
        assert OccursAt(s, p, 0);
      } else {
        RemoveAllIdentity(s[1..], p);
        assert !OccursAt(s, p, 0);
        var r := RemoveAll(s[1..], p);
        assert RemoveAll(s, p) == [s[0]] + r;
        assert [s[0]] + r == s <==> r == s[1..] by {
          if [s[0]] + r == s {
            assert r == ([s[0]] + r)[1..];
          }
          if r == s[1..] {
            assert s == [s[0]] + s[1..];
          }
        }
      }
    } else {
      assert !Contains(s, p);
    }
  }

  // ---------------------------------------------------------------------------
  // Characters

  /** ASCII upper-case letters become lower-case; everything else is kept. */
  function LowerChar(c: char): char {
    if 'A' <= c <= 'Z' then (c as int + 32) as char else c
  }

  /** ASCII lower-case letters become upper-case; everything else is kept. */
  function UpperChar(c: char): char {
    if 'a' <= c <= 'z' then (c as int - 32) as char else c
  }

  /** `s.lower()` on the ASCII range. */
  function Lower(s: string): (r: string)
    ensures |r| == |s|
    ensures forall i :: 0 <= i < |s| ==> r[i] == LowerChar(s[i])
  {
    seq(|s|, i requires 0 <= i < |s| => LowerChar(s[i]))
  }

  /** `s.upper()` on the ASCII range. */
  function Upper(s: string): (r: string)
    ensures |r| == |s|
    ensures forall i :: 0 <= i < |s| ==> r[i] == UpperChar(s[i])
  {
    seq(|s|, i requires 0 <= i < |s| => UpperChar(s[i]))
  }

  /** The characters for which Python's `str.isspace()` holds. */
  predicate IsSpace(c: char) {
    c == ' ' || ('\t' <= c <= '\r') || ('\U{1C}' <= c <= '\U{1F}')
    || c == '\U{85}' || c == '\U{A0}' || c == '\U{1680}' || ('\U{2000}' <= c <= '\U{200A}')
    || c == '\U{2028}' || c == '\U{2029}' || c == '\U{202F}' || c == '\U{205F}' || c == '\U{3000}'
  }

  function TrimStart(s: string): (r: string)
    ensures EndsWith(s, r)
    ensures r == [] || !IsSpace(r[0])
    decreases |s|
  {
    if |s| > 0 && IsSpace(s[0]) then
      var r := TrimStart(s[1..]);
      EndsWithDropFirst(s, r);
      r
    else s
  }

  /** A suffix of the tail is a suffix of the whole. */
  lemma EndsWithDropFirst<T>(s: seq<T>, r: seq<T>)
    requires |s| > 0 && EndsWith(s[1..], r)
    ensures EndsWith(s, r)
  {
    assert s[1..][|s| - 1 - |r|..] == s[|s| - |r|..];
  }

  function TrimEnd(s: string): (r: string)
    ensures StartsWith(s, r)
    ensures r == [] || !IsSpace(r[|r| - 1])
    decreases |s|
  {
    if |s| > 0 && IsSpace(s[|s| - 1]) then TrimEnd(s[..|s| - 1]) else s
  }

  /** `s.strip()`: leading and trailing whitespace removed. */
  function Strip(s: string): (r: string)
    ensures |r| <= |s|
    ensures r == [] || (!IsSpace(r[0]) && !IsSpace(r[|r| - 1]))
  {
    var t := TrimStart(s);
    var r := TrimEnd(t);
    assert r != [] ==> r[0] == t[0];
    r
  }

  lemma {:induction false} TrimStartDrops(s: string)
    ensures forall k :: 0 <= k < |s| - |TrimStart(s)| ==> IsSpace(s[k])
    decreases |s|
  {
    if |s| > 0 && IsSpace(s[0]) {
      TrimStartDrops(s[1..]);
    }
  }

  lemma {:induction false} TrimEndDrops(s: string)
    ensures forall k :: |TrimEnd(s)| <= k < |s| ==> IsSpace(s[k])
    decreases |s|
  {
    if |s| > 0 && IsSpace(s[|s| - 1]) {
      TrimEndDrops(s[..|s| - 1]);
    }
  }

  /** Stripping text that starts and ends with non-whitespace trims only the text after it. */
  lemma {:induction false} StripFront(p: string, rest: string)
    requires |p| > 0 && !IsSpace(p[0]) && !IsSpace(p[|p| - 1])
    ensures Strip(p + rest) == p + TrimEnd(rest)
    decreases |rest|
  {
    var s := p + rest;
    assert TrimStart(s) == s;
    if |rest| > 0 && IsSpace(rest[|rest| - 1]) {
      assert s[..|s| - 1] == p + rest[..|rest| - 1];
      StripFront(p, rest[..|rest| - 1]);
    } else if |rest| == 0 {
      assert s == p;
    }
  }

  /** `strip()` keeps a slice of `s` and drops only whitespace on either side of it. */
  lemma StripIsSlice(s: string) returns (a: nat, b: nat)
    ensures a <= b <= |s| && Strip(s) == s[a..b]
    ensures forall k :: 0 <= k < a ==> IsSpace(s[k])
    ensures forall k :: b <= k < |s| ==> IsSpace(s[k])
  {
    var t := TrimStart(s);
    a := |s| - |t|;
    TrimStartDrops(s);
    var r := TrimEnd(t);
    TrimEndDrops(t);
    b := a + |r|;
    SliceOfSuffix(s, a, t, r);
  }

  /** A prefix `r` of the suffix `t == s[a..]` is the slice `s[a..a + |r|]`, and whitespace after
      `r` in `t` is whitespace after it in `s`. */
  lemma SliceOfSuffix(s: string, a: nat, t: string, r: string)
    requires a <= |s| && EndsWith(s, t) && a == |s| - |t| && StartsWith(t, r)
    requires forall k :: |r| <= k < |t| ==> IsSpace(t[k])
    ensures r == s[a..a + |r|]
    ensures forall k :: a + |r| <= k < |s| ==> IsSpace(s[k])
  {
    assert t == s[a..];
    assert r == t[..|r|];
    assert s[a..][..|r|] == s[a..a + |r|];
    forall k | a + |r| <= k < |s|
      ensures IsSpace(s[k])
    {
      assert s[k] == t[k - a];
    }
  }

  lemma NotInSpaceRun(s: string, lo: int, hi: int, i: int)
    requires 0 <= lo <= hi <= |s| && 0 <= i < |s|
    requires forall k :: lo <= k < hi ==> IsSpace(s[k])
    requires !IsSpace(s[i])
    ensures i < lo || hi <= i
  {
  }

  /** An occurrence inside a slice is an occurrence in the slice, shifted. */
  lemma OccursInSlice<T>(s: seq<T>, w: seq<T>, a: nat, b: nat, i: nat)
    requires a <= i && i + |w| <= b <= |s| && OccursAt(s, w, i)
    ensures OccursAt(s[a..b], w, i - a)
  {
    var inner, outer := s[a..b][i - a..i - a + |w|], s[i..i + |w|];
    assert |inner| == |outer|;
    forall k | 0 <= k < |w| ensures inner[k] == outer[k] {
      assert inner[k] == s[a..b][i - a + k] == s[i + k];
    }
    assert inner == outer;
  }

  /** An occurrence that begins and ends on non-space characters lies inside the non-space span. */
  lemma OccurrenceInside(s: string, w: string, a: nat, b: nat, i: nat)
    requires a <= b <= |s| && i + |w| <= |s| && OccursAt(s, w, i)
    requires |w| > 0 && !IsSpace(w[0]) && !IsSpace(w[|w| - 1])
    requires forall k :: 0 <= k < a ==> IsSpace(s[k])
    requires forall k :: b <= k < |s| ==> IsSpace(s[k])
    ensures a <= i && i + |w| <= b
  {
    var piece := s[i..i + |w|];
    assert piece[0] == s[i];
    assert piece[|w| - 1] == s[i + |w| - 1];
    NotInSpaceRun(s, 0, a, i);
    NotInSpaceRun(s, b, |s|, i + |w| - 1);
  }

  /** A phrase that neither begins nor ends with whitespace survives `strip()`. */
  lemma StripKeeps(s: string, w: string)
    requires Contains(s, w) && |w| > 0 && !IsSpace(w[0]) && !IsSpace(w[|w| - 1])
    ensures Contains(Strip(s), w)
  {
    var a, b := StripIsSlice(s);
    var i :| 0 <= i <= |s| - |w| && OccursAt(s, w, i);
    OccurrenceInside(s, w, a, b, i);
    OccursInSlice(s, w, a, b, i);
    var t := Strip(s);
    assert OccursAt(t, w, i - a);
    ContainsWitness(t, w, i - a);
  }

  /** `s[-n:]`: the last `n` elements, or all of `s` when it is shorter. */
  function LastN<T>(s: seq<T>, n: nat): (r: seq<T>)
    ensures |r| == if |s| <= n then |s| else n
    ensures EndsWith(s, r)
  {
    if |s| <= n then s else s[|s| - n..]
  }

  /** `s[:-n]` for `n >= 1`: Python clamps, so a longer `n` gives the empty sequence. */
  function DropLast<T>(s: seq<T>, n: nat): (r: seq<T>)
    requires n >= 1
    ensures |r| == if n <= |s| then |s| - n else 0
    ensures r <= s
  {
    if n <= |s| then s[..|s| - n] else []
  }

  // ---------------------------------------------------------------------------
  // Splitting and paths

  /** `s.split(sep)` with a one-character separator: always at least one piece. */
  function Split(s: string, sep: char): (r: seq<string>)
    ensures |r| >= 1
    ensures forall k :: 0 <= k < |r| ==> sep !in r[k]
  {
    if |s| == 0 then [""]
    else
      var rest := Split(s[1..], sep);
      if s[0] == sep then [""] + rest else [[s[0]] + rest[0]] + rest[1..]
  }

  /** `os.path.basename(p)`: the text after the last '/'. */
  function Basename(p: string): (r: string)
    ensures '/' !in r
    ensures EndsWith(p, r)
    ensures '/' !in p ==> r == p
  {
    if |p| == 0 then ""
    else if p[|p| - 1] == '/' then ""
    else
      var r := Basename(p[..|p| - 1]) + [p[|p| - 1]];
      assert p[..|p| - 1] + [p[|p| - 1]] == p;
      r
  }

  // ---------------------------------------------------------------------------
  // Python's string order

  /** `a <= b` on Python strings: code point by code point, a proper prefix first. */
  predicate LexLe(a: string, b: string)
    decreases |a|
  {
    |a| == 0 || (|b| > 0 && (a[0] < b[0] || (a[0] == b[0] && LexLe(a[1..], b[1..]))))
  }

  lemma {:induction false} LexLeTotal(a: string, b: string)
    ensures LexLe(a, b) || LexLe(b, a)
    decreases |a|
  {
    if |a| > 0 && |b| > 0 && a[0] == b[0] {
      LexLeTotal(a[1..], b[1..]);
    }
  }

  lemma {:induction false} LexLeTransitive(a: string, b: string, c: string)
    requires LexLe(a, b) && LexLe(b, c)
    ensures LexLe(a, c)
    decreases |a|
  {
    if |a| > 0 && a[0] == b[0] && b[0] == c[0] {
      LexLeTransitive(a[1..], b[1..], c[1..]);
    }
  }

  /** Two strings that are each `<=` the other are equal. */
  lemma {:induction false} LexLeAntisymmetric(a: string, b: string)
    requires LexLe(a, b) && LexLe(b, a)
    ensures a == b
    decreases |a|
  {
    if |a| > 0 {
      LexLeAntisymmetric(a[1..], b[1..]);
      assert a == [a[0]] + a[1..] && b == [b[0]] + b[1..];
    }
  }

  /**
    `os.path.splitext` of a file name without '/': the extension runs from the
    last '.' on, unless only dots come before that '.' (".bashrc" has none).
   */
  function SplitExt(name: string): (r: (string, string))
    ensures r.0 + r.1 == name
    ensures r.1 == [] || (r.1[0] == '.' && '.' !in r.1[1..])
  {
    match LastWhere(name, (c: char) => c == '.')
    case None => (name, "")
    case Some(d) =>
      if exists j :: 0 <= j < d && name[j] != '.' then
        assert name[..d] + name[d..] == name;
        assert forall k :: 0 <= k < |name[d..][1..]| ==> name[d..][1..][k] == name[d + 1 + k];
        (name[..d], name[d..])
      else (name, "")
  }

  // ---------------------------------------------------------------------------
  // Decimal numbers

  predicate IsDigit(c: char) {
    '0' <= c <= '9'
  }

  function DigitChar(d: nat): char
    requires d < 10
  {
    ('0' as int + d) as char
  }

  function DigitValue(c: char): nat
    requires IsDigit(c)
  {
    c as int - '0' as int
  }

  predicate AllDigits(s: string) {
    forall i :: 0 <= i < |s| ==> IsDigit(s[i])
  }

  /** The value of a string of decimal digits, as Python's `int(s)` reads it. */
  function DigitsValue(s: string): nat
    requires AllDigits(s)
  {
    if |s| == 0 then 0 else DigitsValue(s[..|s| - 1]) * 10 + DigitValue(s[|s| - 1])
  }

  /** `str(n)` for a natural number. */
  function NatToString(n: nat): (r: string)
    ensures |r| >= 1 && AllDigits(r)
  {
    if n < 10 then [DigitChar(n)] else NatToString(n / 10) + [DigitChar(n % 10)]
  }

  /** Reading back the digits written by `NatToString` gives the number. */
  lemma {:induction false} NatToStringValue(n: nat)
    ensures DigitsValue(NatToString(n)) == n
  {
    if n >= 10 {
      var s := NatToString(n);
      assert s[..|s| - 1] == NatToString(n / 10);
      NatToStringValue(n / 10);
    }
  }

  function Pow10(n: nat): (r: nat)
    ensures r >= 1
  {
    if n == 0 then 1 else 10 * Pow10(n - 1)
  }

  /** Reading digits `a` then `b` is reading `a` and shifting it past `b`. */
  lemma {:induction false} DigitsValueAppend(a: string, b: string)
    requires AllDigits(a) && AllDigits(b)
    ensures AllDigits(a + b)
    ensures DigitsValue(a + b) == DigitsValue(a) * Pow10(|b|) + DigitsValue(b)
    decreases |b|
  {
    if |b| == 0 {
      assert a + b == a;
    } else {
      var b' := b[..|b| - 1];
      assert (a + b)[..|a + b| - 1] == a + b';
      assert (a + b)[|a + b| - 1] == b[|b| - 1];
      DigitsValueAppend(a, b');
      var va, vb, d, p := DigitsValue(a), DigitsValue(b'), DigitValue(b[|b| - 1]), Pow10(|b'|);
      assert DigitsValue(a + b) == DigitsValue(a + b') * 10 + d;
      assert DigitsValue(b) == vb * 10 + d;
      assert Pow10(|b|) == 10 * p;
      ShiftDigit(va, p, vb, d);
    }
  }

  lemma ShiftDigit(va: int, p: int, vb: int, d: int)
    ensures (va * p + vb) * 10 + d == va * (10 * p) + (vb * 10 + d)
  {
  }

  /** A value written in `n` digits is below `10^n`. */
  lemma {:induction false} DigitsValueBound(s: string)
    requires AllDigits(s)
    ensures DigitsValue(s) < Pow10(|s|)
  {
    if |s| > 0 {
      DigitsValueBound(s[..|s| - 1]);
    }
  }

  /** `n` zero characters. */
  function Zeros(n: nat): (r: string)
    ensures |r| == n
  {
    if n == 0 then [] else Zeros(n - 1) + ['0']
  }

  /** Left-pads with '0' up to width `w` (`str.zfill` on an unsigned number). */
  function ZeroPad(s: string, w: nat): (r: string)
    ensures |r| == if |s| >= w then |s| else w
    ensures EndsWith(r, s)
  {
    if |s| >= w then s else Zeros(w - |s|) + s
  }

  lemma {:induction false} LeadingZerosValue(z: nat, s: string)
    requires AllDigits(s)
    ensures AllDigits(Zeros(z) + s)
    ensures DigitsValue(Zeros(z) + s) == DigitsValue(s)
    decreases |s|
  {
    var t := Zeros(z) + s;
    if |s| == 0 {
      assert t == Zeros(z);
      AllZerosValue(z);
    } else {
      assert t[..|t| - 1] == Zeros(z) + s[..|s| - 1];
      LeadingZerosValue(z, s[..|s| - 1]);
    }
  }

  lemma {:induction false} AllZerosValue(z: nat)
    ensures AllDigits(Zeros(z))
    ensures DigitsValue(Zeros(z)) == 0
  {
    if z > 0 {
      var t := Zeros(z);
      assert t[..z - 1] == Zeros(z - 1);
      AllZerosValue(z - 1);
    }
  }

  /** `f"{n:0{w}d}"`: Python puts the sign first and fills with zeros up to the width. */
  function FormatInt(n: int, w: nat): (r: string)
    ensures |r| >= 1
  {
    if n < 0 then "-" + ZeroPad(NatToString(-n), if w >= 1 then w - 1 else 0)
    else ZeroPad(NatToString(n), w)
  }

  /** A zero-padded natural number reads back as itself. */
  lemma ZeroPadValue(n: nat, w: nat)
    ensures AllDigits(FormatInt(n, w))
    ensures DigitsValue(FormatInt(n, w)) == n
  {
    var s := NatToString(n);
    NatToStringValue(n);
    if |s| < w {
      LeadingZerosValue(w - |s|, s);
    }
  }
}
