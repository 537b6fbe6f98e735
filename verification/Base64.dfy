/**
 Go's encoding/base64 as the sources use it: the padded standard alphabet
 (section 4 of RFC 4648) for key text and fingerprints, and the unpadded URL
 alphabet (section 5) for link sessions.  The decoder is Go's lenient one: it
 skips CR and LF and ignores stray trailing bits.
 */
module Base64 {
  import opened Text

  datatype Encoding = Std | RawUrl

  type sextet = x: int | 0 <= x < 64

  function Digit(e: Encoding, v: sextet): char {
    if v < 26 then 'A' + v as char
    else if v < 52 then 'a' + (v - 26) as char
    else if v < 62 then '0' + (v - 52) as char
    else if v == 62 then (if e.Std? then '+' else '-')
    else (if e.Std? then '/' else '_')
  }

  predicate InAlphabet(e: Encoding, c: char) {
    'A' <= c <= 'Z' || 'a' <= c <= 'z' || '0' <= c <= '9' ||
    (if e.Std? then c == '+' || c == '/' else c == '-' || c == '_')
  }

  function Value(e: Encoding, c: char): (v: sextet)
    requires InAlphabet(e, c)
  {
    if 'A' <= c <= 'Z' then c as int - 'A' as int
    else if 'a' <= c <= 'z' then c as int - 'a' as int + 26
    else if '0' <= c <= '9' then c as int - '0' as int + 52
    else if c == '+' || c == '-' then 62
    else 63
  }

  lemma DigitValue(e: Encoding, v: sextet)
    ensures InAlphabet(e, Digit(e, v)) && Value(e, Digit(e, v)) == v
  {}

  predicate AllInAlphabet(e: Encoding, s: string) {
    forall i :: 0 <= i < |s| ==> InAlphabet(e, s[i])
  }

  /** The four digits of one full three-byte group. */
  function Quad(e: Encoding, a: byte, b: byte, c: byte): (s: string)
    ensures |s| == 4 && AllInAlphabet(e, s)
  {
    [Digit(e, a / 4), Digit(e, a % 4 * 16 + b / 16), Digit(e, b % 16 * 4 + c / 64), Digit(e, c % 64)]
  }

  function Padding(e: Encoding, n: nat): string {
    if e.RawUrl? then "" else if n == 1 then "==" else "="
  }

  /** EncodeToString. */
  function Encode(e: Encoding, b: seq<byte>): string {
    if |b| == 0 then ""
    else if |b| == 1 then Quad(e, b[0], 0, 0)[..2] + Padding(e, 1)
    else if |b| == 2 then Quad(e, b[0], b[1], 0)[..3] + Padding(e, 2)
    else Quad(e, b[0], b[1], b[2]) + Encode(e, b[3..])
  }

  /** The three bytes of four digits. */
  function Bytes3(e: Encoding, a: char, b: char, c: char, d: char): (r: seq<byte>)
    requires AllInAlphabet(e, [a, b, c, d])
    ensures |r| == 3
  {
    assert forall i :: 0 <= i < 4 ==> InAlphabet(e, [a, b, c, d][i]);
    assert [a, b, c, d][0] == a && [a, b, c, d][1] == b && [a, b, c, d][2] == c && [a, b, c, d][3] == d;
    var v0, v1, v2, v3 := Value(e, a), Value(e, b), Value(e, c), Value(e, d);
    [v0 * 4 + v1 / 16, v1 % 16 * 16 + v2 / 4, v2 % 4 * 64 + v3]
  }

  /** The decoder on text without line breaks. */
  function DecodeClean(e: Encoding, s: string): Option<seq<byte>>
    decreases |s|
  {
    if s == "" then Some([])
    else if |s| >= 4 && AllInAlphabet(e, s[..4]) then
      assert s[..4] == [s[0], s[1], s[2], s[3]];
      var rest := DecodeClean(e, s[4..]);
      if rest.None? then None else Some(Bytes3(e, s[0], s[1], s[2], s[3]) + rest.value)
    else if |s| == 2 + |Padding(e, 1)| && AllInAlphabet(e, s[..2]) && s[2..] == Padding(e, 1) then
      assert s[..2][0] == s[0] && s[..2][1] == s[1];
      Some(Bytes3(e, s[0], s[1], 'A', 'A')[..1])
    else if |s| == 3 + |Padding(e, 2)| && AllInAlphabet(e, s[..3]) && s[3..] == Padding(e, 2) then
      assert s[..3][0] == s[0] && s[..3][1] == s[1] && s[..3][2] == s[2];
      Some(Bytes3(e, s[0], s[1], s[2], 'A')[..2])
    else None
  }

  function DropBreaks(s: string): string {
    if s == "" then ""
    else (if s[0] == '\n' || s[0] == '\r' then "" else [s[0]]) + DropBreaks(s[1..])
  }

  /** DecodeString. */
  function Decode(e: Encoding, s: string): Option<seq<byte>> {
    DecodeClean(e, DropBreaks(s))
  }

  lemma {:induction false} DropBreaksNone(s: string)
    requires '\n' !in s && '\r' !in s
    ensures DropBreaks(s) == s
  {
    if s != "" {
      DropBreaksNone(s[1..]);
    }
  }

  predicate TextOf(e: Encoding, s: string) {
    forall i :: 0 <= i < |s| ==> InAlphabet(e, s[i]) || (e.Std? && s[i] == '=')
  }

  /** Everything the encoder writes is in the alphabet or padding. */
  lemma {:induction false} EncodeText(e: Encoding, b: seq<byte>)
    ensures TextOf(e, Encode(e, b))
    decreases |b|
  {
    if |b| >= 3 {
      EncodeText(e, b[3..]);
    }
  }

  /** Six-bit groups of three bytes reassemble into the same bytes. */
  lemma Regroup(a: byte, b: byte, c: byte)
    ensures a / 4 * 4 + (a % 4 * 16 + b / 16) / 16 == a
    ensures (a % 4 * 16 + b / 16) % 16 * 16 + (b % 16 * 4 + c / 64) / 4 == b
    ensures (b % 16 * 4 + c / 64) % 4 * 64 + c % 64 == c
  {
    var x, y := a % 4 * 16 + b / 16, b % 16 * 4 + c / 64;
    assert x / 16 == a % 4 && x % 16 == b / 16;
    assert y / 4 == b % 16 && y % 4 == c / 64;
  }

  lemma QuadBytes(e: Encoding, a: byte, b: byte, c: byte)
    ensures var q := Quad(e, a, b, c); Bytes3(e, q[0], q[1], q[2], q[3]) == [a, b, c]
  {
    var v0: sextet, v1: sextet := a / 4, a % 4 * 16 + b / 16;
    var v2: sextet, v3: sextet := b % 16 * 4 + c / 64, c % 64;
    DigitValue(e, v0);
    DigitValue(e, v1);
    DigitValue(e, v2);
    DigitValue(e, v3);
    BytesOfDigits(e, v0, v1, v2, v3);
    Regroup(a, b, c);
  }

  lemma BytesOfDigits(e: Encoding, v0: sextet, v1: sextet, v2: sextet, v3: sextet)
    ensures AllInAlphabet(e, [Digit(e, v0), Digit(e, v1), Digit(e, v2), Digit(e, v3)])
    ensures Bytes3(e, Digit(e, v0), Digit(e, v1), Digit(e, v2), Digit(e, v3)) ==
            [v0 * 4 + v1 / 16, v1 % 16 * 16 + v2 / 4, v2 % 4 * 64 + v3]
  {
    DigitValue(e, v0);
    DigitValue(e, v1);
    DigitValue(e, v2);
    DigitValue(e, v3);
  }

  lemma DecodeTailOfOne(e: Encoding, a: byte)
    ensures DecodeClean(e, Quad(e, a, 0, 0)[..2] + Padding(e, 1)) == Some([a])
  {
    var q := Quad(e, a, 0, 0);
    var s := q[..2] + Padding(e, 1);
    QuadBytes(e, a, 0, 0);
    assert s[..2] == q[..2] && s[2..] == Padding(e, 1);
    assert e.Std? ==> s[..4][2] == '=';
    assert q[2] == 'A' && q[3] == 'A';
    assert [a, 0, 0][..1] == [a];
  }

  lemma DecodeTailOfTwo(e: Encoding, a: byte, b: byte)
    ensures DecodeClean(e, Quad(e, a, b, 0)[..3] + Padding(e, 2)) == Some([a, b])
  {
    var q := Quad(e, a, b, 0);
    var s := q[..3] + Padding(e, 2);
    QuadBytes(e, a, b, 0);
    assert InAlphabet(e, q[2]) && q[3] == 'A';
    assert s[..3] == q[..3] && s[3..] == Padding(e, 2);
    assert e.Std? ==> s[..4][3] == '=' && s[2..][0] == q[2];
    assert [a, b, 0][..2] == [a, b];
  }

  lemma {:induction false} DecodeCleanEncode(e: Encoding, b: seq<byte>)
    ensures DecodeClean(e, Encode(e, b)) == Some(b)
    decreases |b|
  {
    if |b| == 1 {
      assert b == [b[0]];
      DecodeTailOfOne(e, b[0]);
    } else if |b| == 2 {
      assert b == [b[0], b[1]];
      DecodeTailOfTwo(e, b[0], b[1]);
    } else if |b| >= 3 {
      var s := Encode(e, b);
      var q := Quad(e, b[0], b[1], b[2]);
      QuadBytes(e, b[0], b[1], b[2]);
      assert s[..4] == q && s[4..] == Encode(e, b[3..]);
      assert b == [b[0], b[1], b[2]] + b[3..];
      DecodeCleanEncode(e, b[3..]);
    }
  }

  /** Round trip, for every byte string and both alphabets. */
  lemma DecodeEncode(e: Encoding, b: seq<byte>)
    ensures Decode(e, Encode(e, b)) == Some(b)
  {
    EncodeText(e, b);
    DropBreaksNone(Encode(e, b));
    DecodeCleanEncode(e, b);
  }

  /** Whatever decodes, and has no line breaks, is alphabet and padding only. */
  lemma {:induction false} DecodableText(e: Encoding, s: string)
    requires DecodeClean(e, s).Some?
    ensures TextOf(e, s)
    decreases |s|
  {
    if s == "" {
    } else if |s| >= 4 && AllInAlphabet(e, s[..4]) {
      DecodableText(e, s[4..]);
      assert s == s[..4] + s[4..];
    } else if |s| == 2 + |Padding(e, 1)| && AllInAlphabet(e, s[..2]) && s[2..] == Padding(e, 1) {
      assert s == s[..2] + s[2..];
    } else {
      assert s == s[..3] + s[3..];
    }
  }

  /** Two bytes over a multiple of three: padded text is alphabet characters and one pad. */
  lemma {:induction false} EncodeOnePad(b: seq<byte>)
    requires |b| % 3 == 2
    ensures |Encode(Std, b)| == 4 * (|b| / 3) + 4
    ensures AllInAlphabet(Std, Encode(Std, b)[..4 * (|b| / 3) + 3])
    ensures Encode(Std, b)[4 * (|b| / 3) + 3] == '='
    decreases |b|
  {
    if |b| > 2 {
      EncodeOnePad(b[3..]);
      var n := 4 * (|b| / 3) + 3;
      var q, rest := Quad(Std, b[0], b[1], b[2]), Encode(Std, b[3..]);
      assert (q + rest)[..n] == q + rest[..n - 4];
    }
  }

  // ----------------------------------------------------------- the two alphabets

  /**
   * The alphabets of sections 4 and 5 of RFC 4648: three runs of consecutive
   * characters, A to Z, a to z and 0 to 9, and two more that differ.
   */
  lemma Alphabets(e: Encoding, v: sextet)
    ensures Digit(e, 0) == 'A' && Digit(e, 25) == 'Z' && Digit(e, 26) == 'a' && Digit(e, 51) == 'z'
    ensures Digit(e, 52) == '0' && Digit(e, 61) == '9'
    ensures v < 61 && v != 25 && v != 51 ==> Digit(e, v + 1) as int == Digit(e, v) as int + 1
    ensures Digit(Std, 62) == '+' && Digit(Std, 63) == '/' && Digit(RawUrl, 62) == '-' && Digit(RawUrl, 63) == '_'
  {}

  /** The test vectors of section 10 of RFC 4648, and their unpadded forms. */
  lemma Vectors()
    ensures Encode(Std, [0x66]) == "Zg==" && Encode(RawUrl, [0x66]) == "Zg"
    ensures Encode(Std, [0x66, 0x6f]) == "Zm8=" && Encode(RawUrl, [0x66, 0x6f]) == "Zm8"
    ensures Encode(Std, [0x66, 0x6f, 0x6f]) == "Zm9v"
    ensures Encode(Std, [0x66, 0x6f, 0x6f, 0x62]) == "Zm9vYg=="
  {
    assert Encode(Std, [0x66, 0x6f, 0x6f]) == Quad(Std, 0x66, 0x6f, 0x6f) + Encode(Std, []);
    assert [0x66, 0x6f, 0x6f, 0x62][3..] == [0x62];
  }
}
