/**
  Base 64 encoding with the standard alphabet and '=' padding, as in
  section 4 of RFC 4648: Python's `base64.b64encode` and `base64.b64decode`.
 */
module Base64 {
  import opened Wrappers
  import opened Bytes

  /** A 6-bit group: the index of one character of the alphabet. */
  type sextet = x: int | 0 <= x < 64

  /** The alphabet of Table 1 of RFC 4648: A-Z, a-z, 0-9, '+', '/'. */
  function CharOf(x: sextet): char {
    if x < 26 then ('A' as int + x) as char
    else if x < 52 then ('a' as int + (x - 26)) as char
    else if x < 62 then ('0' as int + (x - 52)) as char
    else if x == 62 then '+'
    else '/'
  }

  /** The position of a character in the alphabet; the pad character and all others have none. */
  function IndexOf(c: char): Option<sextet> {
    if 'A' <= c <= 'Z' then Some(c as int - 'A' as int)
    else if 'a' <= c <= 'z' then Some(c as int - 'a' as int + 26)
    else if '0' <= c <= '9' then Some(c as int - '0' as int + 52)
    else if c == '+' then Some(62)
    else if c == '/' then Some(63)
    else None
  }

  lemma IndexOfCharOf(x: sextet)
    ensures IndexOf(CharOf(x)) == Some(x)
  {
  }

  /** Three bytes as four characters. */
  function Quad3(a: byte, b: byte, c: byte): seq<char> {
    [CharOf(a / 4), CharOf((a % 4) * 16 + b / 16), CharOf((b % 16) * 4 + c / 64), CharOf(c % 64)]
  }

  /** The last two bytes, padded with one '='. */
  function Quad2(a: byte, b: byte): seq<char> {
    [CharOf(a / 4), CharOf((a % 4) * 16 + b / 16), CharOf((b % 16) * 4), '=']
  }

  /** The last byte, padded with two '='. */
  function Quad1(a: byte): seq<char> {
    [CharOf(a / 4), CharOf((a % 4) * 16), '=', '=']
  }

  /** `b64encode`: one quad per three bytes, the last one padded. */
  function Encode(s: seq<byte>): (r: string)
    ensures |r| == 4 * ((|s| + 2) / 3)
    decreases |s|
  {
    if |s| == 0 then []
    else if |s| == 1 then Quad1(s[0])
    else if |s| == 2 then Quad2(s[0], s[1])
    else Quad3(s[0], s[1], s[2]) + Encode(s[3..])
  }

  /** The byte made of the first sextet and the top two bits of the second. */
  function Byte0(w: sextet, x: sextet): byte {
    w as int * 4 + x as int / 16
  }

  /** The byte made of the low four bits of `x` and the top four bits of `y`. */
  function Byte1(x: sextet, y: sextet): byte {
    (x as int % 16) * 16 + y as int / 4
  }

  /** The byte made of the low two bits of `y` and all of `z`. */
  function Byte2(y: sextet, z: sextet): byte {
    (y as int % 4) * 64 + z as int
  }

  /** The bytes of a quad without padding. */
  function DecodeFull(c0: char, c1: char, c2: char, c3: char): Option<seq<byte>> {
    match (IndexOf(c0), IndexOf(c1), IndexOf(c2), IndexOf(c3))
    case (Some(w), Some(x), Some(y), Some(z)) => Some([Byte0(w, x), Byte1(x, y), Byte2(y, z)])
    case _ => None
  }

  /** The bytes of the final quad, which may end in one or two '='. */
  function DecodeLast(c0: char, c1: char, c2: char, c3: char): Option<seq<byte>> {
    if c2 == '=' && c3 == '=' then
      match (IndexOf(c0), IndexOf(c1))
      case (Some(w), Some(x)) => Some([Byte0(w, x)])
      case _ => None
    else if c3 == '=' then
      match (IndexOf(c0), IndexOf(c1), IndexOf(c2))
      case (Some(w), Some(x), Some(y)) => Some([Byte0(w, x), Byte1(x, y)])
      case _ => None
    else DecodeFull(c0, c1, c2, c3)
  }

  /**
    `b64decode` on text made of alphabet characters and final padding:
    `None` where Python raises `binascii.Error`.
   */
  function Decode(r: string): (s: Option<seq<byte>>)
    decreases |r|
  {
    if |r| == 0 then Some([])
    else if |r| < 4 then None
    else if |r| == 4 then DecodeLast(r[0], r[1], r[2], r[3])
    else
      match DecodeFull(r[0], r[1], r[2], r[3])
      case None => None
      case Some(g) =>
        match Decode(r[4..])
        case None => None
        case Some(rest) => Some(g + rest)
  }

  /** Text whose length is not a multiple of four is incorrectly padded and does not decode. */
  lemma {:induction false} DecodeRejectsLength(r: string)
    ensures |r| % 4 != 0 ==> Decode(r) == None
    decreases |r|
  {
    if |r| % 4 != 0 && |r| > 4 {
      var n := |r|;
      assert |r[4..]| == n - 4;
      assert (n - 4) % 4 == n % 4;
      DecodeRejectsLength(r[4..]);
    }
  }

  lemma Split4(n: int, q: int, r: int)
    requires n == 4 * q + r && 0 <= r < 4
    ensures n / 4 == q && n % 4 == r
  {
  }

  lemma Split16(n: int, q: int, r: int)
    requires n == 16 * q + r && 0 <= r < 16
    ensures n / 16 == q && n % 16 == r
  {
  }

  lemma Split64(n: int, q: int, r: int)
    requires n == 64 * q + r && 0 <= r < 64
    ensures n / 64 == q && n % 64 == r
  {
  }

  /** Regrouping the sextets of three bytes gives the bytes back. */
  lemma JoinFirst(a: byte, b: byte)
    ensures Byte0(a / 4, (a % 4) * 16 + b / 16) == a
  {
    Split16((a % 4) * 16 + b / 16, a % 4, b / 16);
  }

  lemma JoinSecond(a: byte, b: byte, c: byte)
    ensures Byte1((a % 4) * 16 + b / 16, (b % 16) * 4 + c / 64) == b
  {
    Split16((a % 4) * 16 + b / 16, a % 4, b / 16);
    Split4((b % 16) * 4 + c / 64, b % 16, c / 64);
  }

  lemma JoinThird(b: byte, c: byte)
    ensures Byte2((b % 16) * 4 + c / 64, c % 64) == c
  {
    Split4((b % 16) * 4 + c / 64, b % 16, c / 64);
  }

  lemma Quad3RoundTrip(a: byte, b: byte, c: byte)
    ensures var q := Quad3(a, b, c); DecodeFull(q[0], q[1], q[2], q[3]) == Some([a, b, c])
  {
    IndexOfCharOf(a / 4);
    IndexOfCharOf((a % 4) * 16 + b / 16);
    IndexOfCharOf((b % 16) * 4 + c / 64);
    IndexOfCharOf(c % 64);
    JoinFirst(a, b);
    JoinSecond(a, b, c);
    JoinThird(b, c);
  }

  lemma Quad2RoundTrip(a: byte, b: byte)
    ensures var q := Quad2(a, b); DecodeLast(q[0], q[1], q[2], q[3]) == Some([a, b])
  {
    IndexOfCharOf(a / 4);
    IndexOfCharOf((a % 4) * 16 + b / 16);
    IndexOfCharOf((b % 16) * 4);
    JoinFirst(a, b);
    JoinSecond(a, b, 0);
  }

  lemma Quad1RoundTrip(a: byte)
    ensures var q := Quad1(a); DecodeLast(q[0], q[1], q[2], q[3]) == Some([a])
  {
    IndexOfCharOf(a / 4);
    IndexOfCharOf((a % 4) * 16);
    JoinFirst(a, 0);
  }

  /** A full quad followed by more text decodes to the quad's bytes and then the rest's. */
  lemma DecodeAppend(q: string, rest: string, g: seq<byte>, t: seq<byte>)
    requires |q| == 4 && |rest| > 0
    requires DecodeFull(q[0], q[1], q[2], q[3]) == Some(g) && Decode(rest) == Some(t)
    ensures Decode(q + rest) == Some(g + t)
  {
    var r := q + rest;
    assert r[4..] == rest;
    assert r[0] == q[0] && r[1] == q[1] && r[2] == q[2] && r[3] == q[3];
  }

  /** Three bytes alone encode to one unpadded quad, which decodes back. */
  lemma DecodeEncodeThree(s: seq<byte>)
    requires |s| == 3
    ensures Decode(Encode(s)) == Some(s)
  {
    var q := Quad3(s[0], s[1], s[2]);
    assert Encode(s) == q + Encode(s[3..]) == q;
    Quad3RoundTrip(s[0], s[1], s[2]);
    IndexOfCharOf((s[1] % 16) * 4 + s[2] / 64);
    IndexOfCharOf(s[2] % 64);
    assert q[2] != '=' && q[3] != '=';
    assert [s[0], s[1], s[2]] == s;
  }

  /** Decoding what was encoded gives back the bytes: `b64decode(b64encode(s)) == s`. */
  lemma {:induction false} DecodeEncode(s: seq<byte>)
    ensures Decode(Encode(s)) == Some(s)
    decreases |s|
  {
    if |s| == 1 {
      Quad1RoundTrip(s[0]);
      assert [s[0]] == s;
    } else if |s| == 2 {
      Quad2RoundTrip(s[0], s[1]);
      assert [s[0], s[1]] == s;
    } else if |s| == 3 {
      DecodeEncodeThree(s);
    } else if |s| > 3 {
      var q := Quad3(s[0], s[1], s[2]);
      Quad3RoundTrip(s[0], s[1], s[2]);
      DecodeEncode(s[3..]);
      DecodeAppend(q, Encode(s[3..]), [s[0], s[1], s[2]], s[3..]);
      assert [s[0], s[1], s[2]] + s[3..] == s;
    }
  }
}
