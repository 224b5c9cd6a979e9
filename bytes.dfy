/** Byte strings, as Python's `bytes` values. */
module Bytes {

  /** One byte. */
  type byte = b: int | 0 <= b < 256

  /** The bytes of an ASCII string (`s.encode()` when every character is below 128). */
  function Ascii(s: string): (r: seq<byte>)
    requires forall i :: 0 <= i < |s| ==> s[i] as int < 128
    ensures |r| == |s|
    ensures forall i :: 0 <= i < |s| ==> r[i] == s[i] as int
  {
    seq(|s|, i requires 0 <= i < |s| => s[i] as int as byte)
  }

  /** A lower-case hex digit, as `hexdigest()` writes them. */
  predicate IsLowerHex(c: char) {
    '0' <= c <= '9' || 'a' <= c <= 'f'
  }

  /** What `hashlib.sha1(...).hexdigest()` returns: forty lower-case hex digits (RFC 3174, 160 bits). */
  type Sha1Hex = s: string | |s| == 40 && forall i :: 0 <= i < |s| ==> IsLowerHex(s[i])
    witness seq(40, _ => '0')
}
