/** Canonical inputs and derived identifiers (`src/utils.rs`). SHA-256 is a
    parameter: a function from bytes to a digest, assumed injective. */
module Utils {
  import opened Models

  predicate IsBytes(bytes: seq<int>) {
    forall i | 0 <= i < |bytes| :: 0 <= bytes[i] < 256
  }

  predicate IsHexDigit(ch: char) {
    '0' <= ch <= '9' || 'a' <= ch <= 'f' || 'A' <= ch <= 'F'
  }

  predicate Is256BitsHexHash(s: string) {
    |s| == 64 && forall i | 0 <= i < |s| :: IsHexDigit(s[i])
  }

  function LowerChar(ch: char): char {
    if 'A' <= ch <= 'Z' then (ch as int - 'A' as int + 'a' as int) as char else ch
  }

  function ToLower(s: string): (t: string)
    ensures |t| == |s| && forall i | 0 <= i < |s| :: t[i] == LowerChar(s[i])
  {
    if s == [] then [] else [LowerChar(s[0])] + ToLower(s[1..])
  }

  /** The form every handler works with: 64 lower-case hexadecimal digits. */
  predicate Canonical(s: string) {
    |s| == 64 && forall i | 0 <= i < |s| :: '0' <= s[i] <= '9' || 'a' <= s[i] <= 'f'
  }

  const DIGITS := "0123456789abcdef"
  const LOWER := "abcdefghijklmnopqrstuvwxyz"
  const UPPER := "ABCDEFGHIJKLMNOPQRSTUVWXYZ"

  /** Letter by letter, lower-casing is the alphabet's; anything else stays. */
  lemma LowerCharTable(ch: char)
    ensures forall i | 0 <= i < 26 ::
      LowerChar("ABCDEFGHIJKLMNOPQRSTUVWXYZ"[i]) == "abcdefghijklmnopqrstuvwxyz"[i]
    ensures forall i | 0 <= i < 26 :: LowerChar(LOWER[i]) == LOWER[i]
    ensures ch !in UPPER ==> LowerChar(ch) == ch
  {
    forall i | 0 <= i < 26 ensures UPPER[i] as int == 'A' as int + i && LOWER[i] as int == 'a' as int + i {
      Alphabets(i);
    }
    if 'A' <= ch <= 'Z' {
      assert UPPER[ch as int - 'A' as int] == ch;
    }
  }

  lemma HexValueTable()
    ensures forall i | 0 <= i < 16 :: HexValue("0123456789abcdef"[i]) == i
  {
  }

  /** Equal characters, or one letter in both cases. */
  ghost predicate SameLetter(a: char, b: char) {
    a == b || exists i | 0 <= i < 26 ::
      (a == UPPER[i] && b == LOWER[i]) || (a == LOWER[i] && b == UPPER[i])
  }

  ghost predicate SameButCase(s: string, t: string) {
    |s| == |t| && forall i | 0 <= i < |s| :: SameLetter(s[i], t[i])
  }

  lemma SameLetterIff(a: char, b: char)
    ensures LowerChar(a) == LowerChar(b) <==> SameLetter(a, b)
  {
    LowerCharTable(a);
    LowerCharTable(b);
    if 'A' <= a <= 'Z' && a != b && LowerChar(a) == LowerChar(b) {
      UpperOf(a, b);
    }
    if 'A' <= b <= 'Z' && a != b && LowerChar(a) == LowerChar(b) {
      UpperOf(b, a);
    }
  }

  lemma UpperOf(a: char, b: char)
    requires 'A' <= a <= 'Z' && a != b && LowerChar(a) == LowerChar(b)
    ensures SameLetter(a, b) && SameLetter(b, a)
  {
    var i := a as int - 'A' as int;
    Alphabets(i);
  }

  lemma Alphabets(i: nat)
    requires i < 26
    ensures UPPER[i] as int == 'A' as int + i && LOWER[i] as int == 'a' as int + i
  {
  }

  /** Strings become equal exactly when they differ in letter case only. */
  lemma LowerIgnoresCase(s: string, t: string)
    ensures ToLower(s) == ToLower(t) <==> SameButCase(s, t)
  {
    hide SameLetter, LowerChar;
    forall i | 0 <= i < |s| && i < |t|
      ensures ToLower(s)[i] == ToLower(t)[i] <==> SameLetter(s[i], t[i]) {
      SameLetterIff(s[i], t[i]);
    }
  }

  /** What counts as a 256-bit hash: 64 hexadecimal digits in either case. */
  lemma HexHashIff(s: string)
    ensures Is256BitsHexHash(s) <==> |s| == 64 && forall ch | ch in s :: ch in DIGITS || ch in "ABCDEF"
  {
    DigitsAre();
    if |s| == 64 {
      forall i | 0 <= i < 64 ensures IsHexDigit(s[i]) <==> s[i] in DIGITS || s[i] in "ABCDEF" {
        InDigits(s[i]);
      }
    }
  }

  lemma DigitsAre()
    ensures forall i | 0 <= i < 16 :: '0' <= DIGITS[i] <= '9' || 'a' <= DIGITS[i] <= 'f'
  {
  }

  lemma InDigits(ch: char)
    ensures ch in DIGITS <==> '0' <= ch <= '9' || 'a' <= ch <= 'f'
    ensures ch in "ABCDEF" <==> 'A' <= ch <= 'F'
  {
    DigitsAre();
    HexValueTable();
    if '0' <= ch <= '9' || 'a' <= ch <= 'f' {
      assert DIGITS[HexValue(ch)] == ch;
    }
    if 'A' <= ch <= 'F' {
      assert "ABCDEF"[ch as int - 'A' as int] == ch;
    }
  }

  /** Lower-casing and then validating accepts exactly the strings that are
      valid as they came, and makes them canonical. */
  lemma LowerThenValidate(s: string)
    ensures Is256BitsHexHash(ToLower(s)) <==> Is256BitsHexHash(s)
    ensures Is256BitsHexHash(s) ==> Canonical(ToLower(s))
    ensures Canonical(s) ==> ToLower(s) == s && Is256BitsHexHash(s)
  {
    var t := ToLower(s);
    if Is256BitsHexHash(t) {
      forall i | 0 <= i < |s| ensures IsHexDigit(s[i]) {
        assert IsHexDigit(t[i]);
      }
    }
    if Is256BitsHexHash(s) {
      forall i | 0 <= i < |t| ensures IsHexDigit(t[i]) && ('0' <= t[i] <= '9' || 'a' <= t[i] <= 'f') {
        assert IsHexDigit(s[i]);
      }
    }
  }

  function AsBytes(s: string): (bytes: seq<int>)
    ensures |bytes| == |s| && forall i | 0 <= i < |s| :: bytes[i] == s[i] as int
  {
    seq(|s|, i requires 0 <= i < |s| => s[i] as int)
  }

  function HexValue(ch: char): int {
    if '0' <= ch <= '9' then ch as int - '0' as int else ch as int - 'a' as int + 10
  }

  /** Two digits a byte. */
  function HexDecode(s: string): (bytes: seq<int>)
    requires |s| % 2 == 0
    ensures |bytes| == |s| / 2
    ensures forall i | 0 <= i < |bytes| :: bytes[i] == 16 * HexValue(s[2 * i]) + HexValue(s[2 * i + 1])
  {
    seq(|s| / 2, i requires 0 <= i < |s| / 2 => 16 * HexValue(s[2 * i]) + HexValue(s[2 * i + 1]))
  }

  ghost predicate Injective(hash: seq<int> -> string) {
    forall a, b :: hash(a) == hash(b) ==> a == b
  }

  /** The digest of the raw identifier: the rate-limit bucket. */
  function IdentifierHash(hash: seq<int> -> string, identifier: string): IdHash
    requires Canonical(identifier)
  {
    hash(HexDecode(identifier))
  }

  /** The digest of both hexadecimal strings, one after the other: the row's id
      and the candidate tag. */
  function SecretId(hash: seq<int> -> string, identifier: string, key: string): Tag {
    hash(AsBytes(identifier) + AsBytes(key))
  }

  lemma BytesAreInjective(s: string, t: string)
    requires AsBytes(s) == AsBytes(t)
    ensures s == t
  {
    forall i | 0 <= i < |s| ensures s[i] == t[i] {
      assert AsBytes(s)[i] == AsBytes(t)[i];
    }
  }

  lemma DecodingIsInjective(s: string, t: string)
    requires Canonical(s) && Canonical(t) && HexDecode(s) == HexDecode(t)
    ensures s == t
  {
    forall i | 0 <= i < 32 ensures s[2 * i] == t[2 * i] && s[2 * i + 1] == t[2 * i + 1] {
      assert HexDecode(s)[i] == HexDecode(t)[i];
    }
    forall j | 0 <= j < 64 ensures s[j] == t[j] {
      assert j == 2 * (j / 2) || j == 2 * (j / 2) + 1;
    }
  }

  /** Canonical (identifier, key) pairs map one-to-one to row ids. */
  lemma SecretIdsAreDistinct(hash: seq<int> -> string, x: string, k: string, y: string, m: string)
    requires Injective(hash)
    requires Canonical(x) && Canonical(k) && Canonical(y) && Canonical(m)
    ensures SecretId(hash, x, k) == SecretId(hash, y, m) <==> x == y && k == m
  {
    if SecretId(hash, x, k) == SecretId(hash, y, m) {
      var a, b := AsBytes(x) + AsBytes(k), AsBytes(y) + AsBytes(m);
      assert a == b;
      assert a[..64] == AsBytes(x) && b[..64] == AsBytes(y);
      assert a[64..] == AsBytes(k) && b[64..] == AsBytes(m);
      BytesAreInjective(x, y);
      BytesAreInjective(k, m);
    }
  }

  lemma BucketsAreDistinct(hash: seq<int> -> string, x: string, y: string)
    requires Injective(hash) && Canonical(x) && Canonical(y)
    ensures IdentifierHash(hash, x) == IdentifierHash(hash, y) <==> x == y
  {
    if IdentifierHash(hash, x) == IdentifierHash(hash, y) {
      DecodingIsInjective(x, y);
    }
  }

  /** A candidate tag belongs to one bucket. */
  lemma TagHasOneBucket(hash: seq<int> -> string, x: string, k: string, y: string, m: string)
    requires Injective(hash)
    requires Canonical(x) && Canonical(k) && Canonical(y) && Canonical(m)
    requires SecretId(hash, x, k) == SecretId(hash, y, m)
    ensures IdentifierHash(hash, x) == IdentifierHash(hash, y)
  {
    SecretIdsAreDistinct(hash, x, k, y, m);
  }

  /** Two lower-case digits a byte, as digests and identifiers are written. */
  function HexEncode(bytes: seq<int>): (s: string)
    requires IsBytes(bytes)
    ensures |s| == 2 * |bytes|
    ensures forall i | 0 <= i < |bytes| :: s[2 * i] == DIGITS[bytes[i] / 16] && s[2 * i + 1] == DIGITS[bytes[i] % 16]
  {
    if bytes == [] then []
    else [DIGITS[bytes[0] / 16], DIGITS[bytes[0] % 16]] + HexEncode(bytes[1..])
  }

  lemma DigitIs(v: int)
    requires 0 <= v < 16
    ensures HexValue(DIGITS[v]) == v
    ensures '0' <= DIGITS[v] <= '9' || 'a' <= DIGITS[v] <= 'f'
  {
  }

  lemma EncodedAt(bytes: seq<int>, i: nat)
    requires IsBytes(bytes) && i < |bytes|
    ensures var s := HexEncode(bytes);
      && 16 * HexValue(s[2 * i]) + HexValue(s[2 * i + 1]) == bytes[i]
      && ('0' <= s[2 * i] <= '9' || 'a' <= s[2 * i] <= 'f')
      && ('0' <= s[2 * i + 1] <= '9' || 'a' <= s[2 * i + 1] <= 'f')
  {
    hide HexValue;
    DigitIs(bytes[i] / 16);
    DigitIs(bytes[i] % 16);
  }

  /** Decoding undoes encoding. */
  lemma DecodeEncode(bytes: seq<int>)
    requires |bytes| == 32 && IsBytes(bytes)
    ensures Canonical(HexEncode(bytes)) && HexDecode(HexEncode(bytes)) == bytes
  {
    hide HexValue, HexEncode;
    var s := HexEncode(bytes);
    forall j | 0 <= j < 64 ensures '0' <= s[j] <= '9' || 'a' <= s[j] <= 'f' {
      var i := j / 2;
      EncodedAt(bytes, i);
      assert j == 2 * i || j == 2 * i + 1;
    }
    forall i | 0 <= i < 32 ensures HexDecode(s)[i] == bytes[i] {
      EncodedAt(bytes, i);
    }
  }

  /** And encoding undoes decoding, on canonical strings. */
  lemma EncodeDecode(s: string)
    requires Canonical(s)
    ensures |HexDecode(s)| == 32 && IsBytes(HexDecode(s))
    ensures HexEncode(HexDecode(s)) == s
  {
    var bytes := HexDecode(s);
    assert IsBytes(bytes);
    DecodeEncode(bytes);
    DecodingIsInjective(s, HexEncode(bytes));
  }

  /** The bucket of an identifier is the digest of the 32 bytes it spells. */
  lemma BucketIsDigestOfRawBytes(hash: seq<int> -> string, raw: seq<int>)
    requires |raw| == 32 && IsBytes(raw)
    ensures Canonical(HexEncode(raw)) && IdentifierHash(hash, HexEncode(raw)) == hash(raw)
  {
    DecodeEncode(raw);
  }

  /** The row id is the digest of the identifier's text, then the key's. */
  lemma RowIdIsDigestOfBothTexts(hash: seq<int> -> string, identifier: string, key: string, text: seq<int>)
    requires |text| == |identifier| + |key|
    requires forall i | 0 <= i < |identifier| :: text[i] == identifier[i] as int
    requires forall i | 0 <= i < |key| :: text[|identifier| + i] == key[i] as int
    ensures SecretId(hash, identifier, key) == hash(text)
  {
    assert AsBytes(identifier) + AsBytes(key) == text;
  }

  /** Valid inputs reach the same row exactly when identifier and key agree up to
      letter case, and the same bucket exactly when the identifiers do. */
  lemma SameRecordIffSameButCase(hash: seq<int> -> string, x: string, k: string, y: string, m: string)
    requires Injective(hash)
    requires Is256BitsHexHash(x) && Is256BitsHexHash(k) && Is256BitsHexHash(y) && Is256BitsHexHash(m)
    ensures SecretId(hash, ToLower(x), ToLower(k)) == SecretId(hash, ToLower(y), ToLower(m))
      <==> SameButCase(x, y) && SameButCase(k, m)
    ensures Canonical(ToLower(x)) && Canonical(ToLower(y))
    ensures IdentifierHash(hash, ToLower(x)) == IdentifierHash(hash, ToLower(y)) <==> SameButCase(x, y)
  {
    LowerThenValidate(x);
    LowerThenValidate(k);
    LowerThenValidate(y);
    LowerThenValidate(m);
    SecretIdsAreDistinct(hash, ToLower(x), ToLower(k), ToLower(y), ToLower(m));
    BucketsAreDistinct(hash, ToLower(x), ToLower(y));
    LowerIgnoresCase(x, y);
    LowerIgnoresCase(k, m);
  }
}
