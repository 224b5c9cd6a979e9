/**
  The license decomposer: `openssl aes-256-cbc -d -md md5` on an exported
  license bundle, then the `key` of every entry of its `licenses` array with
  line breaks removed. MD5 (RFC 1321), PBKDF2, AES-256-CBC, text decoding and
  JSON parsing are parameters of the model: their results are taken as given.
 */
module License {
  import opened Wrappers
  import opened Bytes
  import opened Text
  import opened Json
  import opened Search

  /** An MD5 digest: always 16 bytes. */
  type Digest = d: seq<byte> | |d| == 16 witness seq(16, _ => 0)

  /** The 48 bytes PBKDF2 is asked for in the unsalted case. */
  type KeyMaterial = d: seq<byte> | |d| == 48 witness seq(48, _ => 0)

  // ---------------------------------------------------------------------------
  // derive_key_iv_openssl: EVP_BytesToKey with MD5 and one round

  /** `D_1 = MD5(password ‖ salt)`, `D_i = MD5(D_(i-1) ‖ password ‖ salt)`: the first `n` blocks, concatenated. */
  function Chain(md5: seq<byte> -> Digest, password: seq<byte>, salt: seq<byte>, n: nat): (d: seq<byte>)
    ensures |d| == 16 * n
  {
    if n == 0 then []
    else
      var prev := Chain(md5, password, salt, n - 1);
      prev + md5(LastBlock(prev) + password + salt)
  }

  /** The last 16 bytes, or nothing before the first block: what `d_i` holds. */
  function LastBlock(d: seq<byte>): seq<byte> {
    if |d| < 16 then [] else d[|d| - 16..]
  }

  /**
    `derive_key_iv_openssl`: digests are appended until there are at least 48
    bytes; the key is the first 32 and the IV the next 16.
   */
  method DeriveKeyIv(md5: seq<byte> -> Digest, password: seq<byte>, salt: seq<byte>) returns (key: seq<byte>, iv: seq<byte>)
    ensures |key| == 32 && |iv| == 16
    ensures key + iv == Chain(md5, password, salt, 3)
  {
    var d: seq<byte> := [];
    var di: seq<byte> := [];
    var n := 0;
    while |d| < 48
      invariant 0 <= n <= 3 && d == Chain(md5, password, salt, n)
      invariant di == LastBlock(d)
      decreases 48 - |d|
    {
      var block := md5(di + password + salt);
      d := d + block;
      di := block;
      n := n + 1;
      assert d[|d| - 16..] == block;
    }
    key, iv := d[..32], d[32..48];
    assert key + iv == d;
  }

  /** The three digests behind the key and IV, each hashing the one before it. */
  lemma KeyIvBlocks(md5: seq<byte> -> Digest, password: seq<byte>, salt: seq<byte>)
    ensures var d := Chain(md5, password, salt, 3);
            && d[..16] == md5(password + salt)
            && d[16..32] == md5(d[..16] + password + salt)
            && d[32..48] == md5(d[16..32] + password + salt)
  {
    var d1 := Chain(md5, password, salt, 1);
    var d2 := Chain(md5, password, salt, 2);
    var d3 := Chain(md5, password, salt, 3);
    assert Chain(md5, password, salt, 0) == [];
    assert LastBlock([]) == [];
    assert d1 == md5([] + password + salt);
    assert [] + password + salt == password + salt;
    assert d2 == d1 + md5(d1 + password + salt);
    assert d3 == d2 + md5(d2[16..] + password + salt);
    assert d3[..16] == d1 && d3[16..32] == d2[16..] && d2[..16] == d1;
  }

  // ---------------------------------------------------------------------------
  // decrypt_aes_256_cbc

  /** The 8-byte magic of OpenSSL's salted format. */
  function SaltedMagic(): (m: seq<byte>)
    ensures |m| == 8
  {
    Ascii("Salted__")
  }

  /** `data[8:16]` and `data[16:]` of salted data, clamped as Python slices are. */
  function SplitSalted(data: seq<byte>): (r: Option<(seq<byte>, seq<byte>)>)
    ensures r.Some? <==> SaltedMagic() <= data
    ensures r.Some? ==> |r.value.0| <= 8 && SaltedMagic() + r.value.0 + r.value.1 == data
    ensures r.Some? && |data| >= 16 ==> r.value.0 == data[8..16] && r.value.1 == data[16..]
  {
    if SaltedMagic() <= data then
      var cut := if |data| < 16 then |data| else 16;
      assert data[..8] + data[8..cut] + data[cut..] == data;
      Some((data[8..cut], data[cut..]))
    else None
  }

  /** The ways decryption fails; all of them reach the caller as "Decryption failed: …". */
  datatype Failure = CipherFailed | EmptyPlaintext | InvalidJson | NotIterable | KeyNotText

  /**
    The padding removal: a last byte `p` with `1 <= p <= 16` drops `p` bytes
    (all of them when there are fewer); any other last byte keeps the data.
    The pad bytes themselves are not checked. An empty plaintext has no last
    byte and raises.
   */
  function Unpad(decrypted: seq<byte>): (r: Result<seq<byte>, Failure>)
    ensures r.Err? <==> |decrypted| == 0
    ensures r.Ok? ==> r.value <= decrypted
  {
    if |decrypted| == 0 then Err(EmptyPlaintext)
    else
      var p := decrypted[|decrypted| - 1];
      if 0 < p <= 16 then Ok(DropLast(decrypted, p)) else Ok(decrypted)
  }

  /** `p` copies of the byte `p`: PKCS #7 padding, section 6.3 of RFC 5652. */
  function Padding(p: nat): (pad: seq<byte>)
    requires 1 <= p <= 16
    ensures |pad| == p && forall i :: 0 <= i < p ==> pad[i] == p
  {
    seq(p, _ => p)
  }

  /** Removing what PKCS #7 padding added gives the data back. */
  lemma UnpadPadded(data: seq<byte>, p: nat)
    requires 1 <= p <= 16
    ensures Unpad(data + Padding(p)) == Ok(data)
  {
    var s := data + Padding(p);
    assert s[|s| - 1] == p;
    assert s[..|s| - p] == data;
  }

  /** The last byte alone decides: pad bytes that disagree with it are stripped all the same. */
  lemma UnpadUnchecked(data: seq<byte>, junk: seq<byte>, p: nat)
    requires 1 <= p <= 16 && |junk| == p - 1
    ensures Unpad(data + junk + [p]) == Ok(data)
  {
    var s := data + junk + [p];
    assert s[|s| - 1] == p;
    assert s[..|s| - p] == data;
  }

  /** A last byte outside `1..16` leaves the plaintext as it is. */
  lemma UnpadKeeps(decrypted: seq<byte>)
    requires |decrypted| > 0 && !(0 < decrypted[|decrypted| - 1] <= 16)
    ensures Unpad(decrypted) == Ok(decrypted)
  {
  }

  /** Latin-1 decoding: every byte is the code point of the same number, so it never fails. */
  function Latin1(b: seq<byte>): (s: string)
    ensures |s| == |b| && forall i :: 0 <= i < |b| ==> s[i] as int == b[i]
  {
    seq(|b|, i requires 0 <= i < |b| => b[i] as char)
  }

  /** The primitives the decryption calls, taken as given. */
  datatype Primitives = Primitives(
    md5: seq<byte> -> Digest,
    pbkdf2: (seq<byte>, seq<byte>) -> KeyMaterial,   // PBKDF2-HMAC-MD5, one iteration, 48 bytes
    aes: (seq<byte>, seq<byte>, seq<byte>) -> Option<seq<byte>>,   // AES-256-CBC decryption of (key, iv, ciphertext)
    utf8: seq<byte> -> Option<string>)   // strict UTF-8 decoding

  /** The key and IV for the data, and the ciphertext they apply to. */
  function KeyIvFor(prims: Primitives, data: seq<byte>, password: seq<byte>): (r: (seq<byte>, seq<byte>, seq<byte>))
    ensures |r.0| == 32 && |r.1| == 16
  {
    match SplitSalted(data)
    case Some((salt, ciphertext)) =>
      var d := Chain(prims.md5, password, salt, 3);
      (d[..32], d[32..], ciphertext)
    case None =>
      var m := prims.pbkdf2(password, seq(8, _ => 0));
      (m[..32], m[32..], data)
  }

  /**
    `decrypt_aes_256_cbc`: salted data uses the OpenSSL derivation, other data
    PBKDF2 with an all-zero salt; the plaintext is unpadded and read as UTF-8,
    or as Latin-1 when it is not UTF-8.
   */
  function Decrypt(prims: Primitives, data: seq<byte>, password: seq<byte>): (r: Result<string, Failure>)
  {
    var (key, iv, ciphertext) := KeyIvFor(prims, data, password);
    match prims.aes(key, iv, ciphertext)
    case None => Err(CipherFailed)
    case Some(plain) =>
      match Unpad(plain)
      case Err(e) => Err(e)
      case Ok(text) =>
        match prims.utf8(text)
        case Some(s) => Ok(s)
        case None => Ok(Latin1(text))
  }

  /** Salted data is decrypted with the key and IV `DeriveKeyIv` yields, over the bytes after the salt. */
  lemma DecryptSalted(prims: Primitives, data: seq<byte>, password: seq<byte>)
    requires SaltedMagic() <= data && |data| >= 16
    ensures var (key, iv, ciphertext) := KeyIvFor(prims, data, password);
            && key + iv == Chain(prims.md5, password, data[8..16], 3)
            && ciphertext == data[16..]
  {
    var d := Chain(prims.md5, password, data[8..16], 3);
    assert d[..32] + d[32..] == d;
  }

  /** Decryption fails exactly when the cipher fails or yields nothing. */
  lemma DecryptFails(prims: Primitives, data: seq<byte>, password: seq<byte>)
    ensures var (key, iv, ciphertext) := KeyIvFor(prims, data, password);
            Decrypt(prims, data, password).Err? <==>
              prims.aes(key, iv, ciphertext).None? || prims.aes(key, iv, ciphertext) == Some([])
  {
  }

  // ---------------------------------------------------------------------------
  // extract_license_keys and clean_license_keys

  /** `isinstance(item, dict) and 'key' in item`. */
  predicate Keyed(item: Json) {
    HasKey(item, "key")
  }

  /** `item['key']` of a keyed item. */
  function KeyOf(item: Json): Json {
    match Get(item, "key")
    case Some(k) => k
    case None => JNull
  }

  /** `[item['key'] for item in items if isinstance(item, dict) and 'key' in item]`. */
  function KeysOf(items: seq<Json>): seq<Json> {
    MapFilter(items, Keyed, KeyOf)
  }

  /**
    What the loop over `data['licenses']` iterates, or `None` where Python
    raises: an array gives its items, an object its names and a string its
    characters (none of which is a dict), anything else is not iterable.
   */
  function Licenses(data: Json): (r: Result<seq<Json>, Failure>) {
    match Get(data, "licenses")
    case Some(JArr(items)) => Ok(items)
    case Some(JObj(_)) => Ok([])
    case Some(JStr(_)) => Ok([])
    case Some(_) => Err(NotIterable)
    case None => Err(NotIterable)
  }

  /**
    `'licenses' in data`: a name of an object, an element of an array, a
    substring of a string; on a number, a boolean or null the test raises.
   */
  function HasLicenses(data: Json): Result<bool, Failure> {
    match data
    case JObj(_) => Ok(HasKey(data, "licenses"))
    case JArr(items) => Ok(JStr("licenses") in items)
    case JStr(s) => Ok(Contains(s, "licenses"))
    case _ => Err(NotIterable)
  }

  /** What `extract_license_keys` returns for a parsed document. */
  function Extracted(data: Json): (r: Result<seq<Json>, Failure>)
    ensures HasLicenses(data).Err? ==> r.Err?
  {
    match HasLicenses(data)
    case Err(e) => Err(e)
    case Ok(false) => Ok([])
    case Ok(true) =>
      match Licenses(data)
      case Err(e) => Err(e)
      case Ok(items) => Ok(KeysOf(items))
  }

  /** A document without `licenses` yields no keys; one whose `licenses` is an array yields its entries' keys. */
  lemma ExtractedCases(data: Json, items: seq<Json>)
    ensures data.JObj? && !HasKey(data, "licenses") ==> Extracted(data) == Ok([])
    ensures Get(data, "licenses") == Some(JArr(items)) ==> Extracted(data) == Ok(KeysOf(items))
  {
  }

  /** `extract_license_keys`: the loop appends the key of each keyed entry. */
  method ExtractLicenseKeys(data: Json) returns (keys: Result<seq<Json>, Failure>)
    ensures keys == Extracted(data)
  {
    var has := HasLicenses(data);
    if has.Err? {
      return Err(has.error);
    }
    if !has.value {
      return Ok([]);
    }
    var items := Licenses(data);
    if items.Err? {
      return Err(items.error);
    }
    var found: seq<Json> := [];
    var i := 0;
    while i < |items.value|
      invariant 0 <= i <= |items.value|
      invariant found == KeysOf(items.value[..i])
    {
      var item := items.value[i];
      MapFilterAppend(items.value[..i], [item], Keyed, KeyOf);
      assert items.value[..i + 1] == items.value[..i] + [item];
      if Keyed(item) {
        found := found + [KeyOf(item)];
      }
      i := i + 1;
    }
    assert items.value[..i] == items.value;
    keys := Ok(found);
  }

  /** A key comes out exactly when some keyed entry carries it, and in entry order. */
  lemma KeysOfSpec(items: seq<Json>, k: Json, a: seq<Json>, b: seq<Json>)
    ensures k in KeysOf(items) <==> exists j :: 0 <= j < |items| && Keyed(items[j]) && k == KeyOf(items[j])
    ensures KeysOf(a + b) == KeysOf(a) + KeysOf(b)
  {
    MapFilterSpec(items, Keyed, KeyOf, k);
    MapFilterAppend(a, b, Keyed, KeyOf);
  }

  /** A keyed entry's value is its last `key` binding. */
  lemma KeyOfKeyed(item: Json)
    requires Keyed(item)
    ensures Some(KeyOf(item)) == Get(item, "key")
  {
  }

  /** The four characters `\r\n` (backslash, r, backslash, n) of an escaped line break. */
  const EscapedBreak: string := "\\r\\n"

  /** A real carriage return and line feed. */
  const LineBreak: string := "\r\n"

  /** One key of `clean_license_keys`: escaped breaks removed first, then real ones. */
  function CleanKey(key: string): string {
    RemoveAll(RemoveAll(key, EscapedBreak), LineBreak)
  }

  /** A key holding neither kind of break is left as it is. */
  lemma CleanKeyKeeps(key: string)
    requires !Contains(key, EscapedBreak) && !Contains(key, LineBreak)
    ensures CleanKey(key) == key
  {
    RemoveAllIdentity(key, EscapedBreak);
    RemoveAllIdentity(key, LineBreak);
  }

  /** A key holding a real break always changes. */
  lemma CleanKeyChanges(key: string)
    requires !Contains(key, EscapedBreak) && Contains(key, LineBreak)
    ensures CleanKey(key) != key
  {
    RemoveAllIdentity(key, EscapedBreak);
    RemoveAllIdentity(key, LineBreak);
  }

  /** What `clean_license_keys` returns: every key cleaned, in order, or the error of a key that is not text. */
  function Cleaned(keys: seq<Json>): (r: Result<seq<string>, Failure>)
    ensures r.Err? <==> exists j :: 0 <= j < |keys| && !keys[j].JStr?
    ensures r.Ok? ==> |r.value| == |keys| && forall j :: 0 <= j < |keys| ==> r.value[j] == CleanKey(keys[j].s)
  {
    if forall j :: 0 <= j < |keys| ==> keys[j].JStr? then
      Ok(seq(|keys|, j requires 0 <= j < |keys| => CleanKey(keys[j].s)))
    else Err(KeyNotText)
  }

  /** `clean_license_keys`: the loop appends one cleaned key per key. */
  method CleanLicenseKeys(keys: seq<Json>) returns (cleaned: Result<seq<string>, Failure>)
    ensures cleaned == Cleaned(keys)
  {
    var out: seq<string> := [];
    var i := 0;
    while i < |keys|
      invariant 0 <= i <= |keys|
      invariant |out| == i
      invariant forall j :: 0 <= j < i ==> keys[j].JStr? && out[j] == CleanKey(keys[j].s)
    {
      if !keys[i].JStr? {
        return Err(KeyNotText);
      }
      out := out + [CleanKey(keys[i].s)];
      i := i + 1;
    }
    assert out == Cleaned(keys).value;
    cleaned := Ok(out);
  }

  /**
    `process_file` after reading the file: decrypt, parse, extract, clean.
    Every failure reaches the caller as "Processing failed: …".
   */
  method ProcessFile(prims: Primitives, parse: string -> Option<Json>, data: seq<byte>, password: seq<byte>)
    returns (r: Result<seq<string>, Failure>)
    ensures r == match Decrypt(prims, data, password)
                 case Err(e) => Err(e)
                 case Ok(text) =>
                   match parse(text)
                   case None => Err(InvalidJson)
                   case Some(doc) =>
                     match Extracted(doc)
                     case Err(e) => Err(e)
                     case Ok(keys) => Cleaned(keys)
  {
    var text := Decrypt(prims, data, password);
    if text.Err? {
      return Err(text.error);
    }
    var doc := parse(text.value);
    if doc.None? {
      return Err(InvalidJson);
    }
    var keys := ExtractLicenseKeys(doc.value);
    if keys.Err? {
      return Err(keys.error);
    }
    r := CleanLicenseKeys(keys.value);
  }
}
