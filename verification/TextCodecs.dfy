/** Hex (section 8 of RFC 4648) and base64 (section 4 of RFC 4648). */
module TextCodecs {
  import opened Bytes

  // ---------------------------------------------------------------- hex

  function HexDigit(n: int): char
    requires 0 <= n < 16
  {
    if n < 10 then ('0' as int + n) as char else ('a' as int + n - 10) as char
  }

  /** The value of a hex digit of either case, -1 for any other character. */
  function HexValue(c: char): int {
    if '0' <= c <= '9' then c as int - '0' as int
    else if 'a' <= c <= 'f' then c as int - 'a' as int + 10
    else if 'A' <= c <= 'F' then c as int - 'A' as int + 10
    else -1
  }

  function HexEncode(b: Bytes): string {
    if b == [] then "" else [HexDigit(b[0] as int / 16), HexDigit(b[0] as int % 16)] + HexEncode(b[1..])
  }

  /** The bytes hex.DecodeString has produced when it stops: at the end, at a bad digit or at an odd last one. */
  function HexDecode(s: string): Bytes {
    if |s| < 2 || HexValue(s[0]) < 0 || HexValue(s[1]) < 0 then []
    else [(HexValue(s[0]) * 16 + HexValue(s[1])) as byte] + HexDecode(s[2..])
  }

  function LowerChar(c: char): char {
    if 'A' <= c <= 'Z' then (c as int + 32) as char else c
  }

  function UpperChar(c: char): char {
    if 'a' <= c <= 'z' then (c as int - 32) as char else c
  }

  function ToLower(s: string): string { seq(|s|, i requires 0 <= i < |s| => LowerChar(s[i])) }

  function ToUpper(s: string): string { seq(|s|, i requires 0 <= i < |s| => UpperChar(s[i])) }

  lemma HexDigitReads(n: int)
    requires 0 <= n < 16
    ensures HexValue(HexDigit(n)) == n
    ensures LowerChar(HexDigit(n)) == HexDigit(n) && LowerChar(UpperChar(HexDigit(n))) == HexDigit(n)
  {}

  lemma {:induction false} HexRoundTrip(b: Bytes)
    ensures HexDecode(HexEncode(b)) == b && |HexEncode(b)| == 2 * |b|
  {
    if b != [] {
      HexRoundTrip(b[1..]);
      HexDigitReads(b[0] as int / 16);
      HexDigitReads(b[0] as int % 16);
      assert HexEncode(b)[2..] == HexEncode(b[1..]);
    }
  }

  const HEX_DIGITS := "0123456789abcdef"

  lemma HexDigitSpelledOut(n: int)
    requires 0 <= n < 16
    ensures HexDigit(n) == HEX_DIGITS[n]
  {}

  /** Byte i becomes two digits, the high half first. */
  lemma {:induction false} HexSpelledOut(b: Bytes, i: nat)
    requires i < |b|
    ensures var s := HexEncode(b);
            |s| == 2 * |b| && s[2 * i] == HEX_DIGITS[b[i] as int / 16] && s[2 * i + 1] == HEX_DIGITS[b[i] as int % 16]
  {
    HexDigitSpelledOut(b[0] as int / 16);
    HexDigitSpelledOut(b[0] as int % 16);
    if |b| > 1 {
      HexSpelledOut(b[1..], if i == 0 then 0 else i - 1);
    }
  }

  /** Neither 0 to 9, nor a to f, nor A to F. */
  predicate NoHexDigit(c: char) { !('0' <= c <= '9') && !('a' <= c <= 'f') && !('A' <= c <= 'F') }

  /** Decoding keeps what stands in front of the first pair that is no hex pair, or of a single last character. */
  lemma {:induction false} HexDecodeStops(b: Bytes, rest: string)
    requires |rest| < 2 || NoHexDigit(rest[0]) || NoHexDigit(rest[1])
    ensures HexDecode(HexEncode(b) + rest) == b
  {
    if b == [] {
      assert HexEncode(b) + rest == rest;
    } else {
      var s := HexEncode(b) + rest;
      HexDigitReads(b[0] as int / 16);
      HexDigitReads(b[0] as int % 16);
      assert s[2..] == HexEncode(b[1..]) + rest;
      HexDecodeStops(b[1..], rest);
    }
  }

  /** Hex text is lower case already, and lowering undoes raising it. */
  lemma {:induction false} HexCaseFree(b: Bytes)
    ensures ToLower(HexEncode(b)) == HexEncode(b)
    ensures ToLower(ToUpper(HexEncode(b))) == HexEncode(b)
  {
    var s := HexEncode(b);
    forall i | 0 <= i < |s| ensures LowerChar(s[i]) == s[i] && LowerChar(UpperChar(s[i])) == s[i] {
      HexCharIsDigit(b, i);
    }
  }

  lemma {:induction false} HexCharIsDigit(b: Bytes, i: nat)
    requires i < |HexEncode(b)|
    ensures LowerChar(HexEncode(b)[i]) == HexEncode(b)[i]
    ensures LowerChar(UpperChar(HexEncode(b)[i])) == HexEncode(b)[i]
  {
    if i < 2 {
      HexDigitReads(b[0] as int / 16);
      HexDigitReads(b[0] as int % 16);
    } else {
      HexCharIsDigit(b[1..], i - 2);
    }
  }

  // ---------------------------------------------------------------- base64

  function Digit64(n: int): char
    requires 0 <= n < 64
  {
    if n < 26 then ('A' as int + n) as char
    else if n < 52 then ('a' as int + n - 26) as char
    else if n < 62 then ('0' as int + n - 52) as char
    else if n == 62 then '+' else '/'
  }

  function Value64(c: char): (n: int)
    ensures 0 <= n < 64
  {
    if 'A' <= c <= 'Z' then c as int - 'A' as int
    else if 'a' <= c <= 'z' then c as int - 'a' as int + 26
    else if '0' <= c <= '9' then c as int - '0' as int + 52
    else if c == '+' then 62
    else if c == '/' then 63
    else 0
  }

  lemma Digit64Reads(n: int)
    requires 0 <= n < 64
    ensures Value64(Digit64(n)) == n && Digit64(n) != '='
  {}

  /** The alphabet: A to Z, a to z, 0 to 9, plus and slash. */
  lemma AlphabetSpelledOut(n: int)
    ensures Digit64(0) == 'A' && Digit64(25) == 'Z' && Digit64(26) == 'a' && Digit64(51) == 'z'
    ensures Digit64(52) == '0' && Digit64(61) == '9' && Digit64(62) == '+' && Digit64(63) == '/'
    ensures 0 <= n < 25 || 26 <= n < 51 || 52 <= n < 61 ==> Digit64(n + 1) as int == Digit64(n) as int + 1
  {}

  /** Three bytes as four sextets, most significant first. */
  function Sextets(a: int, b: int, c: int): (int, int, int, int) {
    (a / 4, a % 4 * 16 + b / 16, b % 16 * 4 + c / 64, c % 64)
  }

  function Octets(w: int, x: int, y: int, z: int): (int, int, int) {
    ((w * 4 + x / 16) % 256, x % 16 * 16 + y / 4, y % 4 * 64 + z)
  }

  lemma SextetsUndone(a: int, b: int, c: int)
    requires 0 <= a < 256 && 0 <= b < 256 && 0 <= c < 256
    ensures var (w, x, y, z) := Sextets(a, b, c);
            0 <= w < 64 && 0 <= x < 64 && 0 <= y < 64 && 0 <= z < 64 && Octets(w, x, y, z) == (a, b, c)
    ensures c == 0 ==> Sextets(a, b, c).3 == 0
    ensures b == c == 0 ==> Sextets(a, b, c).2 == 0
  {
    PackParts(a % 4, b / 16, 16);
    PackParts(b % 16, c / 64, 4);
  }

  lemma PackParts(high: int, low: int, k: int)
    requires 0 <= low < k && (k == 16 || k == 4)
    ensures (high * k + low) / k == high && (high * k + low) % k == low
  {}

  function Quad(a: int, b: int, c: int): (q: string)
    requires 0 <= a < 256 && 0 <= b < 256 && 0 <= c < 256
    ensures |q| == 4
  {
    SextetsUndone(a, b, c);
    var (w, x, y, z) := Sextets(a, b, c);
    [Digit64(w), Digit64(x), Digit64(y), Digit64(z)]
  }

  function Base64Encode(b: Bytes): string {
    if b == [] then ""
    else if |b| == 1 then Quad(b[0] as int, 0, 0)[..2] + "=="
    else if |b| == 2 then Quad(b[0] as int, b[1] as int, 0)[..3] + "="
    else Quad(b[0] as int, b[1] as int, b[2] as int) + Base64Encode(b[3..])
  }

  function Unquad(s: string): (r: (int, int, int))
    requires |s| >= 4
    ensures 0 <= r.0 < 256 && 0 <= r.1 < 256 && 0 <= r.2 < 256
  {
    Octets(Value64(s[0]), Value64(s[1]), Value64(s[2]), Value64(s[3]))
  }

  /** The bytes of an encoded text; '=' marks the bytes that are not there. */
  function Base64Decode(s: string): Bytes {
    if |s| < 4 then []
    else
      var (a, b, c) := Unquad(s);
      if s[2] == '=' then [a as byte]
      else if s[3] == '=' then [a as byte, b as byte]
      else [a as byte, b as byte, c as byte] + Base64Decode(s[4..])
  }

  lemma QuadReads(a: int, b: int, c: int, s: string)
    requires 0 <= a < 256 && 0 <= b < 256 && 0 <= c < 256 && |s| >= 4
    requires s[..2] == Quad(a, b, c)[..2]
    requires s[2] == Quad(a, b, c)[2] || (s[2] == '=' && b == c == 0)
    requires s[3] == Quad(a, b, c)[3] || (s[3] == '=' && c == 0)
    ensures Unquad(s) == (a, b, c)
    ensures forall i :: 0 <= i < 4 ==> Quad(a, b, c)[i] != '='
  {
    SextetsUndone(a, b, c);
    var (w, x, y, z) := Sextets(a, b, c);
    Digit64Reads(w);
    Digit64Reads(x);
    Digit64Reads(y);
    Digit64Reads(z);
    assert s[0] == s[..2][0] && s[1] == s[..2][1];
    assert Value64('=') == 0;
  }

  lemma {:induction false} Base64RoundTrip(b: Bytes)
    ensures Base64Decode(Base64Encode(b)) == b
  {
    var s := Base64Encode(b);
    if |b| == 1 {
      QuadReads(b[0] as int, 0, 0, s);
    } else if |b| == 2 {
      QuadReads(b[0] as int, b[1] as int, 0, s);
    } else if |b| >= 3 {
      QuadReads(b[0] as int, b[1] as int, b[2] as int, s);
      Base64RoundTrip(b[3..]);
      assert s[4..] == Base64Encode(b[3..]);
    }
  }

  /** The number three bytes make. */
  function Group(a: int, b: int, c: int): int { a * 65536 + b * 256 + c }

  lemma QuadSpelledOut(a: int, b: int, c: int)
    requires 0 <= a < 256 && 0 <= b < 256 && 0 <= c < 256
    ensures var n := Group(a, b, c);
            0 <= n / 262144 < 64 && Quad(a, b, c) ==
            [Digit64(n / 262144), Digit64(n / 4096 % 64), Digit64(n / 64 % 64), Digit64(n % 64)]
  {
    hide Digit64, Sextets, Group;
    SextetsUndone(a, b, c);
    SextetsOfGroup(a, b, c);
  }

  lemma SextetsOfGroup(a: int, b: int, c: int)
    requires 0 <= a < 256 && 0 <= b < 256 && 0 <= c < 256
    ensures var n := Group(a, b, c); Sextets(a, b, c) == (n / 262144, n / 4096 % 64, n / 64 % 64, n % 64)
  {
    var n := Group(a, b, c);
    FirstSextet(n, a / 4, a % 4 * 65536 + b * 256 + c);
    SecondSextet(n, a / 4, a % 4 * 16 + b / 16, b % 16 * 256 + c);
    ThirdSextet(n, a * 16 + b / 16, b % 16 * 4 + c / 64, c % 64);
    FourthSextet(n, a * 1024 + b * 4 + c / 64, c % 64);
  }

  lemma FirstSextet(n: int, q: int, r: int)
    requires n == q * 262144 + r && 0 <= r < 262144
    ensures n / 262144 == q
  {}

  lemma SecondSextet(n: int, q: int, x: int, r: int)
    requires n == (q * 64 + x) * 4096 + r && 0 <= r < 4096 && 0 <= x < 64
    ensures n / 4096 % 64 == x
  {
    assert n / 4096 == q * 64 + x;
  }

  lemma ThirdSextet(n: int, q: int, x: int, r: int)
    requires n == (q * 64 + x) * 64 + r && 0 <= r < 64 && 0 <= x < 64
    ensures n / 64 % 64 == x
  {
    assert n / 64 == q * 64 + x;
  }

  lemma FourthSextet(n: int, q: int, r: int)
    requires n == q * 64 + r && 0 <= r < 64
    ensures n % 64 == r
  {}

  /** Byte k of b, zero beyond the end. */
  function ByteAt(b: Bytes, k: nat): int { if k < |b| then b[k] as int else 0 }

  /** Bytes 3i to 3i + 2 become four digits of 64, most significant first; = stands for what bytes that are not
      there would have given. */
  lemma {:induction false} Base64SpelledOut(b: Bytes, i: nat)
    requires 3 * i < |b|
    ensures var s, n := Base64Encode(b), Group(ByteAt(b, 3 * i), ByteAt(b, 3 * i + 1), ByteAt(b, 3 * i + 2));
            && 4 * i + 4 <= |s| && (3 * i + 3 >= |b| ==> |s| == 4 * i + 4)
            && 0 <= n / 262144 < 64 && s[4 * i] == Digit64(n / 262144) && s[4 * i + 1] == Digit64(n / 4096 % 64)
            && s[4 * i + 2] == (if 3 * i + 1 < |b| then Digit64(n / 64 % 64) else '=')
            && s[4 * i + 3] == (if 3 * i + 2 < |b| then Digit64(n % 64) else '=')
  {
    hide Quad, Group, Digit64;
    if i == 0 {
      QuadSpelledOut(ByteAt(b, 0), ByteAt(b, 1), ByteAt(b, 2));
    } else {
      Base64SpelledOut(b[3..], i - 1);
    }
  }
}
