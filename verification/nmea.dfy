/** The NMEA 0183 sentence checksum, in its two implementations:
    the service's `calculateChecksum` (Kotlin, over UTF-16 code units held
    in an `Int`) and the native `generateNmeaData` (C, over the bytes of the
    sentence body, accumulated in an `unsigned char`), plus the native
    degree/minute split with its hemisphere letters.

    Section 4 ("Sentence structure") of NMEA 0183 defines the checksum as the
    exclusive-or of every character between `$` and `*`, written as two
    upper-case hexadecimal digits.
 */
module Nmea {
  import Text

  // ---------------------------------------------------------------------
  // Bitwise exclusive-or on natural numbers

  function Pow2(k: nat): (r: nat)
    ensures r >= 1
  {
    if k == 0 then 1 else 2 * Pow2(k - 1)
  }

  /** Bitwise exclusive-or, one binary digit at a time. */
  function Xor(a: nat, b: nat): nat
    decreases a + b
  {
    if a == 0 then b
    else if b == 0 then a
    else 2 * Xor(a / 2, b / 2) + (if a % 2 == b % 2 then 0 else 1)
  }

  /** Exclusive-or of two k-bit numbers is a k-bit number, so folding bytes
      never leaves the byte range. */
  lemma {:induction false} XorBound(a: nat, b: nat, k: nat)
    requires a < Pow2(k) && b < Pow2(k)
    ensures Xor(a, b) < Pow2(k)
    decreases k
  {
    if a != 0 && b != 0 {
      XorBound(a / 2, b / 2, k - 1);
    }
  }

  /** Exclusive-or of a list, folded left to right from 0. */
  function XorAll(s: seq<nat>): nat
  {
    if |s| == 0 then 0 else Xor(XorAll(s[..|s| - 1]), s[|s| - 1])
  }

  lemma {:induction false} XorAllBound(s: seq<nat>, k: nat)
    requires forall i :: 0 <= i < |s| ==> s[i] < Pow2(k)
    ensures XorAll(s) < Pow2(k)
    decreases |s|
  {
    if |s| > 0 {
      XorAllBound(s[..|s| - 1], k);
      XorBound(XorAll(s[..|s| - 1]), s[|s| - 1], k);
    }
  }

  // ---------------------------------------------------------------------
  // Hexadecimal rendering (`%02X`)

  const HexDigitChars: string := "0123456789ABCDEF"

  function HexDigit(d: nat): char
    requires d < 16
  {
    HexDigitChars[d]
  }

  /** Value of an upper-case hexadecimal digit, or none. */
  function DigitValue(c: char): (r: int)
    ensures -1 <= r < 16
    ensures 0 <= r ==> HexDigit(r) == c
  {
    if '0' <= c <= '9' then c as int - '0' as int
    else if 'A' <= c <= 'F' then c as int - 'A' as int + 10
    else -1
  }

  predicate IsUpperHex(s: string) {
    forall i :: 0 <= i < |s| ==> DigitValue(s[i]) >= 0
  }

  /** Reads an upper-case hexadecimal numeral. */
  function HexValue(s: string): int
    requires IsUpperHex(s)
  {
    if |s| == 0 then 0 else 16 * HexValue(s[..|s| - 1]) + DigitValue(s[|s| - 1])
  }

  /** Minimal upper-case hexadecimal digits of `n` (`"0"` for zero). */
  function HexDigits(n: nat): (r: string)
    ensures |r| >= 1 && IsUpperHex(r)
    ensures HexValue(r) == n
  {
    if n < 16 then [HexDigit(n)]
    else
      var r := HexDigits(n / 16) + [HexDigit(n % 16)];
      assert r[..|r| - 1] == HexDigits(n / 16);
      r
  }

  /** `String.format("%02X", n)` and C `%02X`: hexadecimal, upper case,
      zero-padded to at least two digits. */
  function Format02X(n: nat): (r: string)
  {
    var d := HexDigits(n);
    if |d| < 2 then "0" + d else d
  }

  lemma {:induction false} HexValueLeadingZero(d: string)
    requires IsUpperHex(d)
    ensures IsUpperHex("0" + d) && HexValue("0" + d) == HexValue(d)
    decreases |d|
  {
    if |d| > 0 {
      assert ("0" + d)[..|"0" + d| - 1] == "0" + d[..|d| - 1];
      HexValueLeadingZero(d[..|d| - 1]);
    }
  }

  lemma {:induction false} HexDigitsBelow256(n: nat)
    requires n < 256
    ensures |HexDigits(n)| <= 2
  {
    if n >= 16 {
      assert n / 16 < 16;
    }
  }

  /** `%02X` is readable back: it is upper-case hexadecimal for the same
      number, at least two digits, and exactly two below 256. */
  lemma Format02XRoundTrip(n: nat)
    ensures IsUpperHex(Format02X(n)) && HexValue(Format02X(n)) == n
    ensures |Format02X(n)| >= 2
    ensures n < 256 ==> |Format02X(n)| == 2
  {
    var d := HexDigits(n);
    if |d| < 2 {
      HexValueLeadingZero(d);
    }
    if n < 256 {
      HexDigitsBelow256(n);
    }
  }

  // ---------------------------------------------------------------------
  // Kotlin `calculateChecksum`

  /** Whether `calculateChecksum` feeds a character into the checksum. */
  predicate Counted(c: char) {
    c != '$' && c != '*'
  }

  /** Exclusive-or of the code units of the counted characters of `s`. */
  function XorCounted(s: string): nat
  {
    if |s| == 0 then 0
    else if Counted(s[|s| - 1]) then Xor(XorCounted(s[..|s| - 1]), s[|s| - 1] as nat)
    else XorCounted(s[..|s| - 1])
  }

  /** The value `calculateChecksum` formats: everything after index 0
      except `$` and `*`. */
  function ChecksumValue(nmea: string): nat
  {
    if |nmea| == 0 then 0 else XorCounted(nmea[1..])
  }

  /** Characters left out of the checksum do not change it: the value of a
      string is that of its counted characters alone. */
  lemma {:induction false} XorCountedFilter(s: string)
    ensures XorCounted(s) == XorCounted(Text.Filter(s, Counted))
    ensures forall i :: 0 <= i < |Text.Filter(s, Counted)| ==> Counted(Text.Filter(s, Counted)[i])
    decreases |s|
  {
    if |s| > 0 {
      var init := s[..|s| - 1];
      var last := s[|s| - 1];
      assert s == init + [last];
      XorCountedFilter(init);
      Text.FilterAppend(init, [last], Counted);
      var fi := Text.Filter(init, Counted);
      if Counted(last) {
        assert Text.Filter(s, Counted) == fi + [last];
        assert (fi + [last])[..|fi|] == fi;
      } else {
        assert Text.Filter(s, Counted) == fi;
      }
    }
  }

  /** The Kotlin loop itself (LocationInjectorService.kt `calculateChecksum`):
      starts at index 1, skips `$` and `*`, and returns `*` followed by the
      `%02X` rendering of the accumulated value. */
  method CalculateChecksum(nmea: string) returns (r: string)
    ensures r == "*" + Format02X(ChecksumValue(nmea))
  {
    var checksum: nat := 0;
    var i := 1;
    while i < |nmea|
      invariant |nmea| == 0 || i <= |nmea|
      invariant 1 <= i
      invariant |nmea| == 0 ==> checksum == 0
      invariant |nmea| == 0 || checksum == XorCounted(nmea[1..i])
    {
      var c := nmea[i];
      assert nmea[1..i + 1][..i - 1] == nmea[1..i];
      if c == '$' || c == '*' {
        i := i + 1;
        continue;
      }
      checksum := Xor(checksum, c as nat);
      i := i + 1;
    }
    if |nmea| > 0 {
      assert nmea[1..i] == nmea[1..];
      assert checksum == ChecksumValue(nmea);
    } else {
      assert checksum == ChecksumValue(nmea);
    }
    r := "*" + Format02X(checksum);
  }

  // ---------------------------------------------------------------------
  // Native `generateNmeaData`

  type Byte = b: nat | b < 256

  /** `checksum ^= sentence[i]` into an `unsigned char`: the exclusive-or is
      reduced modulo 256 at every step, whatever the signedness of `char`. */
  function NativeChecksum(body: seq<Byte>): Byte
  {
    if |body| == 0 then 0
    else Xor(NativeChecksum(body[..|body| - 1]), body[|body| - 1]) % 256
  }

  /** A C string's contents: the bytes before the first NUL. */
  function CString(buf: seq<Byte>): (r: seq<Byte>)
    ensures |r| <= |buf| && r == buf[..|r|]
    ensures forall i :: 0 <= i < |r| ==> r[i] != 0
    ensures |r| < |buf| ==> buf[|r|] == 0
  {
    if |buf| == 0 || buf[0] == 0 then [] else [buf[0]] + CString(buf[1..])
  }

  /** The low byte of each character (the identity on ISO 8859-1 text). */
  function CharBytes(s: string): (r: seq<Byte>)
    ensures |r| == |s|
    ensures forall i :: 0 <= i < |s| ==> r[i] == s[i] as int % 256
  {
    if |s| == 0 then [] else [(s[0] as int % 256) as Byte] + CharBytes(s[1..])
  }

  /** `snprintf(buffer, size, "$%s*%02X\r\n", sentence, checksum)`, with the
      checksum computed over the C string `sentence` (which excludes `$`). */
  function NativeSentence(sentence: seq<Byte>): seq<Byte>
  {
    var body := CString(sentence);
    [36] + body + [42] + CharBytes(Format02X(NativeChecksum(body))) + [13, 10]
  }

  /** Reducing modulo 256 at every step loses nothing: the `unsigned char`
      accumulator holds the plain exclusive-or of all the bytes. */
  lemma {:induction false} NativeChecksumIsXorAll(body: seq<Byte>)
    ensures NativeChecksum(body) == XorAll(body)
    decreases |body|
  {
    if |body| > 0 {
      var init := body[..|body| - 1];
      NativeChecksumIsXorAll(init);
      var bn: seq<nat> := body;
      var inn: seq<nat> := init;
      assert bn[..|bn| - 1] == inn;
      assert Pow2(8) == 256;
      XorAllBound(body, 8);
    }
  }

  /** Value of a byte read as an upper-case hexadecimal digit, or -1. */
  function ByteDigit(b: Byte): int {
    DigitValue(b as char)
  }

  /** The native sentence is always `$`, the body, `*`, exactly two
      upper-case hexadecimal digits (the `unsigned char` never exceeds 255)
      and CR LF; the two digits read back as the checksum of the body. */
  lemma NativeFraming(sentence: seq<Byte>)
    ensures var out := NativeSentence(sentence);
      var n := |CString(sentence)|;
      && |out| == n + 6
      && out[..n + 2] == [36] + CString(sentence) + [42]
      && out[n + 4..] == [13, 10]
      && ByteDigit(out[n + 2]) >= 0 && ByteDigit(out[n + 3]) >= 0
      && 16 * ByteDigit(out[n + 2]) + ByteDigit(out[n + 3]) == NativeChecksum(CString(sentence))
  {
    var body := CString(sentence);
    var c := NativeChecksum(body);
    var hex := Format02X(c);
    HexPair(c);
    var hb := CharBytes(hex);
    var out := NativeSentence(sentence);
    var n := |body|;
    assert out == ([36] + body + [42]) + hb + [13, 10];
    assert out[n + 2] == hb[0] && out[n + 3] == hb[1];
  }

  /** The two bytes `%02X` produces for a checksum read back as it. */
  lemma HexPair(c: Byte)
    ensures var hb := CharBytes(Format02X(c));
      && |hb| == 2 && ByteDigit(hb[0]) >= 0 && ByteDigit(hb[1]) >= 0
      && 16 * ByteDigit(hb[0]) + ByteDigit(hb[1]) == c
  {
    Format02XRoundTrip(c);
    var hex := Format02X(c);
    TwoDigits(hex);
    var hb := CharBytes(hex);
    HexDigitByte(hex[0], hb[0]);
    HexDigitByte(hex[1], hb[1]);
  }

  lemma TwoDigits(hex: string)
    requires |hex| == 2 && IsUpperHex(hex)
    ensures HexValue(hex) == 16 * DigitValue(hex[0]) + DigitValue(hex[1])
  {
    assert hex[..1] == [hex[0]];
    assert HexValue(hex[..1]) == DigitValue(hex[0]);
  }

  lemma HexDigitByte(c: char, b: Byte)
    requires DigitValue(c) >= 0 && b == c as int % 256
    ensures ByteDigit(b) == DigitValue(c)
  {
    assert c as int < 128;
    assert b == c as int;
  }

  predicate PlainAscii(body: string) {
    forall i :: 0 <= i < |body| ==> 0 < body[i] as int < 128 && Counted(body[i])
  }

  lemma XorCountedAscii(body: string)
    requires PlainAscii(body)
    ensures XorCounted(body) < 128
    ensures NativeChecksum(CharBytes(body)) == XorCounted(body)
  {
    AsciiBytes(body);
    AsciiBytesChecksum(body, CharBytes(body));
  }

  /** On ASCII text each character's byte is its code, and never NUL. */
  lemma AsciiBytes(body: string)
    requires PlainAscii(body)
    ensures forall i :: 0 <= i < |body| ==> CharBytes(body)[i] == body[i] as int
    ensures forall i :: 0 <= i < |body| ==> CharBytes(body)[i] != 0
  {
    var b := CharBytes(body);
    forall i | 0 <= i < |body| ensures b[i] == body[i] as int && b[i] != 0 {
      AsciiLowByte(body[i] as int);
    }
  }

  lemma AsciiLowByte(k: int)
    requires 0 <= k < 128
    ensures k % 256 == k
  {
  }

  /** The native checksum of any byte string that spells an ASCII body
      character for character is the Kotlin checksum of that body. */
  lemma {:induction false} AsciiBytesChecksum(body: string, bytes: seq<Byte>)
    requires PlainAscii(body) && |bytes| == |body|
    requires forall i :: 0 <= i < |body| ==> bytes[i] == body[i] as int
    ensures XorCounted(body) < 128
    ensures NativeChecksum(bytes) == XorCounted(body)
    decreases |body|
  {
    if |body| > 0 {
      var n := |body|;
      var init := body[..n - 1];
      var initBytes := bytes[..n - 1];
      AsciiPrefix(body, bytes, init, initBytes);
      AsciiBytesChecksum(init, initBytes);
      var prev := XorCounted(init);
      var c := body[n - 1];
      XorCountedStep(body);
      NativeChecksumStep(bytes);
      assert Pow2(7) == 128;
      XorBound(prev, c as nat, 7);
      AsciiLowByte(Xor(prev, c as nat));
    }
  }

  /** Dropping the last character keeps a body ASCII and its bytes
      matching; the last character is counted and below 128. */
  lemma AsciiPrefix(body: string, bytes: seq<Byte>, init: string, initBytes: seq<Byte>)
    requires PlainAscii(body) && |bytes| == |body| && |body| > 0
    requires forall i :: 0 <= i < |body| ==> bytes[i] == body[i] as int
    requires init == body[..|body| - 1] && initBytes == bytes[..|body| - 1]
    ensures PlainAscii(init) && |initBytes| == |init|
    ensures forall i :: 0 <= i < |init| ==> initBytes[i] == init[i] as int
    ensures 0 < body[|body| - 1] as int < 128 && Counted(body[|body| - 1])
    ensures bytes[|body| - 1] == body[|body| - 1] as int
  {
    forall i | 0 <= i < |init| ensures 0 < init[i] as int < 128 && Counted(init[i]) && initBytes[i] == init[i] as int {
      assert init[i] == body[i] && initBytes[i] == bytes[i];
    }
  }

  lemma XorCountedStep(body: string)
    requires |body| > 0 && Counted(body[|body| - 1])
    ensures XorCounted(body) == Xor(XorCounted(body[..|body| - 1]), body[|body| - 1] as nat)
  {
  }

  lemma NativeChecksumStep(bytes: seq<Byte>)
    requires |bytes| > 0
    ensures NativeChecksum(bytes) == Xor(NativeChecksum(bytes[..|bytes| - 1]), bytes[|bytes| - 1]) % 256
  {
  }

  /** The two implementations agree: for an ASCII body free of `$`, `*` and
      NUL, the native sentence is `$`, the body, Kotlin's checksum field for
      `"$" + body`, and CR LF. */
  lemma ChecksumsAgree(body: string)
    requires PlainAscii(body)
    ensures NativeChecksum(CharBytes(body)) == ChecksumValue("$" + body)
    ensures NativeSentence(CharBytes(body)) == CharBytes("$" + body + "*" + Format02X(ChecksumValue("$" + body)) + "\r\n")
  {
    var b := CharBytes(body);
    DollarSkipped(body);
    XorCountedAscii(body);
    AsciiBytes(body);
    CStringNoNul(b);
    var hex := Format02X(ChecksumValue("$" + body));
    NativeSentenceOf(b, ChecksumValue("$" + body));
    SentenceBytes(body, hex);
  }

  /** The leading `$` is not part of the Kotlin checksum. */
  lemma DollarSkipped(body: string)
    ensures ChecksumValue("$" + body) == XorCounted(body)
  {
    assert ("$" + body)[1..] == body;
  }

  /** The native sentence of a NUL-free body with a known checksum. */
  lemma NativeSentenceOf(b: seq<Byte>, v: nat)
    requires CString(b) == b && NativeChecksum(b) == v
    ensures NativeSentence(b) == [36] + b + [42] + CharBytes(Format02X(v)) + [13, 10]
  {
  }

  lemma SentenceBytes(body: string, hex: string)
    ensures CharBytes("$" + body + "*" + hex + "\r\n") == [36] + CharBytes(body) + [42] + CharBytes(hex) + [13, 10]
  {
    assert CharBytes("$") == [36];
    assert CharBytes("*") == [42];
    assert CharBytes("\r\n") == [13, 10];
    var head := "$" + body;
    CharBytesAppend("$", body);
    var star := head + "*";
    CharBytesAppend(head, "*");
    var withHex := star + hex;
    CharBytesAppend(star, hex);
    CharBytesAppend(withHex, "\r\n");
  }

  lemma {:induction false} CharBytesAppend(a: string, b: string)
    ensures CharBytes(a + b) == CharBytes(a) + CharBytes(b)
  {
    assert forall i :: 0 <= i < |a + b| ==> CharBytes(a + b)[i] == (CharBytes(a) + CharBytes(b))[i];
  }

  lemma {:induction false} CStringNoNul(b: seq<Byte>)
    requires forall i :: 0 <= i < |b| ==> b[i] != 0
    ensures CString(b) == b
    decreases |b|
  {
    if |b| > 0 {
      CStringNoNul(b[1..]);
    }
  }

  // ---------------------------------------------------------------------
  // Degrees, minutes and hemisphere (native `generateNmeaData`)

  /** C `(int)x`: truncation toward zero. */
  function TruncToInt(x: real): int
  {
    if x >= 0.0 then x.Floor else -((-x).Floor)
  }

  datatype DegMin = DegMin(degrees: real, minutes: real, letter: char)

  /** The native split of a coordinate into whole degrees, minutes and a
      hemisphere letter (`pos` is N or E, `neg` is S or W); negative
      coordinates have both parts negated. Real arithmetic stands in for
      the C doubles. */
  function SplitDegrees(x: real, pos: char, neg: char): DegMin
  {
    var d := TruncToInt(x) as real;
    var m := (x - d) * 60.0;
    var letter := if x >= 0.0 then pos else neg;
    if x < 0.0 then DegMin(-d, -m, letter) else DegMin(d, m, letter)
  }

  lemma FloorParts(y: real)
    requires y >= 0.0
    ensures y.Floor >= 0 && 0.0 <= (y - y.Floor as real) * 60.0 < 60.0
    ensures y.Floor as real + (y - y.Floor as real) * 60.0 / 60.0 == y
  {
  }

  /** The hemisphere letter is `N` (`E`) exactly for non-negative input, the
      degrees are a whole non-negative number, the minutes lie in [0, 60),
      and together they give back the magnitude of the coordinate. */
  lemma SplitDegreesSpec(x: real, pos: char, neg: char)
    requires pos != neg
    ensures var r := SplitDegrees(x, pos, neg);
      && (r.letter == pos <==> x >= 0.0)
      && r.degrees >= 0.0 && r.degrees == r.degrees.Floor as real
      && 0.0 <= r.minutes < 60.0
      && r.degrees + r.minutes / 60.0 == (if x >= 0.0 then x else -x)
  {
    var y := if x >= 0.0 then x else -x;
    FloorParts(y);
    var r := SplitDegrees(x, pos, neg);
    assert r.degrees == y.Floor as real;
    assert r.minutes == (y - y.Floor as real) * 60.0;
  }

  function LatitudeLetter(lat: real): char { SplitDegrees(lat, 'N', 'S').letter }
  function LongitudeLetter(lng: real): char { SplitDegrees(lng, 'E', 'W').letter }
}
