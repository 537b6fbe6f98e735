/**
 The signed session cookie of a share link (internal/server/links.go): printer,
 parser and the exact condition under which one accepts the other's output.
 */
module LinkSession {
  import opened Text
  import Base64

  /** HMAC-SHA256 of a message under a key; the function stays abstract. */
  type Mac = (seq<byte>, seq<byte>) -> seq<byte>

  const DOT: byte := 46
  const PLUS: byte := 43
  const MINUS: byte := 45
  const ZERO: byte := 48

  const MIN_INT64: int := -0x8000_0000_0000_0000
  const MAX_INT64: int := 0x7fff_ffff_ffff_ffff

  predicate IsInt64(x: int) { MIN_INT64 <= x <= MAX_INT64 }

  predicate IsDigit(b: byte) { 48 <= b <= 57 }

  predicate AllDigits(s: seq<byte>) { forall i :: 0 <= i < |s| ==> IsDigit(s[i]) }

  function Digits(n: nat): (s: seq<byte>)
    ensures s != [] && AllDigits(s)
  {
    if n < 10 then [48 + n] else Digits(n / 10) + [48 + n % 10]
  }

  /** strconv.FormatInt(x, 10). */
  function FormatInt(x: int): (s: seq<byte>)
    ensures s != []
  {
    if x < 0 then [MINUS] + Digits(-x) else Digits(x)
  }

  function Number(s: seq<byte>): nat
    requires AllDigits(s)
  {
    if s == [] then 0 else Number(s[..|s| - 1]) * 10 + (s[|s| - 1] - 48)
  }

  /** strconv.ParseInt(s, 10, 64): an optional sign, digits, and the int64 range. */
  function ParseInt(s: seq<byte>): Option<int> {
    if s == [] then None
    else
      var signed := s[0] == PLUS || s[0] == MINUS;
      var body := if signed then s[1..] else s;
      if body == [] || !AllDigits(body) then None
      else
        var v: int := if s[0] == MINUS then -(Number(body) as int) else Number(body);
        if IsInt64(v) then Some(v) else None
  }

  function Message(id: seq<byte>, expText: seq<byte>): seq<byte> { id + [DOT] + expText }

  /** signLinkSession. */
  function Sign(mac: Mac, id: seq<byte>, exp: int, key: seq<byte>): string {
    var msg := Message(id, FormatInt(exp));
    Base64.Encode(Base64.RawUrl, msg) + "." + Base64.Encode(Base64.RawUrl, mac(key, msg))
  }

  /** verifyLinkSession, at Unix time `now`. */
  predicate Verify(mac: Mac, cookie: string, id: seq<byte>, key: seq<byte>, now: int) {
    key != [] &&
    var parts := Split(cookie, '.');
    |parts| == 2 &&
    var msg := Base64.Decode(Base64.RawUrl, parts[0]);
    msg.Some? && VerifyMessage(mac, msg.value, parts[1], id, key, now)
  }

  predicate VerifyMessage(mac: Mac, msg: seq<byte>, sig: string, id: seq<byte>, key: seq<byte>, now: int) {
    var i := IndexOf(msg, DOT);
    var expText := if i < |msg| then msg[i + 1..] else [];
    msg[..i] == id &&
    var exp := ParseInt(expText);
    exp.Some? && now <= exp.value &&
    Base64.Decode(Base64.RawUrl, sig) == Some(mac(key, msg))
  }

  // -------------------------------------------------------------------- decimal

  lemma {:induction false} NumberDigits(n: nat)
    ensures Number(Digits(n)) == n
  {
    if n >= 10 {
      NumberDigits(n / 10);
      assert Digits(n)[..|Digits(n)| - 1] == Digits(n / 10);
    } else {
      assert Digits(n)[..0] == [];
    }
  }

  /** Printing then parsing an expiry gives it back, over the whole int64 range. */
  lemma ParseFormat(x: int)
    requires IsInt64(x)
    ensures ParseInt(FormatInt(x)) == Some(x)
  {
    if x < 0 {
      NumberDigits(-x);
      assert FormatInt(x)[1..] == Digits(-x);
    } else {
      NumberDigits(x);
      assert IsDigit(FormatInt(x)[0]);
    }
  }

  /** Text with a dot is no number. */
  lemma DottedIsNoNumber(s: seq<byte>)
    requires DOT in s
    ensures ParseInt(s) == None
  {
    var i :| 0 <= i < |s| && s[i] == DOT;
    var body := if s[0] == PLUS || s[0] == MINUS then s[1..] else s;
    assert DOT in body;
    assert !IsDigit(DOT);
  }

  // ---------------------------------------------------------------------- token

  lemma EncodedHasNoDot(b: seq<byte>)
    ensures '.' !in Base64.Encode(Base64.RawUrl, b)
  {
    Base64.EncodeText(Base64.RawUrl, b);
    assert !Base64.InAlphabet(Base64.RawUrl, '.');
  }

  lemma SplitPair(a: string, b: string)
    requires '.' !in a && '.' !in b
    ensures Split(a + "." + b, '.') == [a, b]
  {
    JoinPair(a, b);
    SplitJoin([a, b], '.');
  }

  lemma JoinPair(a: string, b: string)
    ensures Join([a, b], '.') == a + ['.'] + b
  {
    assert [a, b][1..] == [b];
  }

  lemma MessageParts(id: seq<byte>, expText: seq<byte>)
    requires DOT !in id
    ensures var msg := Message(id, expText);
      |id| < |msg| && IndexOf(msg, DOT) == |id| && msg[..|id|] == id && msg[|id| + 1..] == expText
  {
    IndexOfConcat(id, DOT, expText);
    CutAt(id, DOT, expText);
  }

  /** When the id has a dot, what follows its first dot is never a number. */
  lemma DottedId(id: seq<byte>, expText: seq<byte>)
    requires DOT in id
    ensures var msg := Message(id, expText);
      var i := IndexOf(msg, DOT);
      i < |msg| && ParseInt(msg[i + 1..]) == None
  {
    var msg := Message(id, expText);
    var k := IndexOf(id, DOT);
    var tail := id[k + 1..] + [DOT] + expText;
    assert id == id[..k] + [DOT] + id[k + 1..] by { SplitAt(id, k); }
    assert msg == id[..k] + [DOT] + tail;
    IndexOfConcat(id[..k], DOT, tail);
    CutAt(id[..k], DOT, tail);
    assert tail[|id| - k - 1] == DOT;
    DottedIsNoNumber(tail);
  }

  lemma SignedIsDecoded(mac: Mac, id: seq<byte>, exp: int, key: seq<byte>, id': seq<byte>, key': seq<byte>, now: int)
    ensures var msg := Message(id, FormatInt(exp));
      Verify(mac, Sign(mac, id, exp, key), id', key', now) <==>
        key' != [] && VerifyMessage(mac, msg, Base64.Encode(Base64.RawUrl, mac(key, msg)), id', key', now)
  {
    hide VerifyMessage, Base64.Encode, Base64.Decode, Split, Message;
    var msg := Message(id, FormatInt(exp));
    EncodedHasNoDot(msg);
    EncodedHasNoDot(mac(key, msg));
    SplitPair(Base64.Encode(Base64.RawUrl, msg), Base64.Encode(Base64.RawUrl, mac(key, msg)));
    Base64.DecodeEncode(Base64.RawUrl, msg);
  }

  /**
   * A signed token is accepted for an id under a key exactly when the key is not
   * empty, the id is the signed one and has no dot, the expiry has not passed,
   * and the two keys give the message the same MAC.
   */
  lemma SignVerifyIff(mac: Mac, id: seq<byte>, exp: int, key: seq<byte>, id': seq<byte>, key': seq<byte>, now: int)
    requires IsInt64(exp)
    ensures Verify(mac, Sign(mac, id, exp, key), id', key', now) <==>
            && key' != [] && id' == id && DOT !in id && now <= exp
            && mac(key', Message(id, FormatInt(exp))) == mac(key, Message(id, FormatInt(exp)))
  {
    var text := FormatInt(exp);
    var msg := Message(id, text);
    SignedIsDecoded(mac, id, exp, key, id', key', now);
    Base64.DecodeEncode(Base64.RawUrl, mac(key, msg));
    hide FormatInt, ParseInt, Base64.Encode, Base64.Decode, Verify, Sign, Message;
    if DOT in id {
      DottedId(id, text);
    } else {
      MessageParts(id, text);
      assert ParseInt(text) == Some(exp) by { ParseFormat(exp); }
    }
  }

  lemma {:induction false} DropBreaksKeeps(s: string, c: char)
    requires c in s && c != '\n' && c != '\r'
    ensures c in Base64.DropBreaks(s)
  {
    if s[0] != c {
      DropBreaksKeeps(s[1..], c);
    }
  }

  lemma DecodableHasNoDot(s: string)
    requires Base64.Decode(Base64.RawUrl, s).Some?
    ensures '.' !in s
  {
    Base64.DecodableText(Base64.RawUrl, Base64.DropBreaks(s));
    assert !Base64.InAlphabet(Base64.RawUrl, '.');
    if '.' in s {
      DropBreaksKeeps(s, '.');
    }
  }

  /** A cookie that carries `id`, a dot, and a decimal expiry not yet past, under a matching MAC. */
  predicate Genuine(mac: Mac, cookie: string, id: seq<byte>, key: seq<byte>, now: int, p: string, q: string, text: seq<byte>) {
    && cookie == p + "." + q
    && DOT !in id
    && Base64.Decode(Base64.RawUrl, p) == Some(Message(id, text))
    && ParseInt(text).Some? && now <= ParseInt(text).value
    && Base64.Decode(Base64.RawUrl, q) == Some(mac(key, Message(id, text)))
  }

  /** Nothing else is ever accepted: for every cookie, acceptance is the same as being genuine. */
  lemma VerifyIff(mac: Mac, cookie: string, id: seq<byte>, key: seq<byte>, now: int)
    ensures Verify(mac, cookie, id, key, now) <==> key != [] && exists p, q, text :: Genuine(mac, cookie, id, key, now, p, q, text)
  {
    if Verify(mac, cookie, id, key, now) {
      AcceptedIsGenuine(mac, cookie, id, key, now);
    }
    if key != [] && exists p, q, text :: Genuine(mac, cookie, id, key, now, p, q, text) {
      var p, q, text :| Genuine(mac, cookie, id, key, now, p, q, text);
      GenuineIsAccepted(mac, cookie, id, key, now, p, q, text);
    }
  }

  lemma AcceptedIsGenuine(mac: Mac, cookie: string, id: seq<byte>, key: seq<byte>, now: int)
    requires Verify(mac, cookie, id, key, now)
    ensures exists p, q, text :: Genuine(mac, cookie, id, key, now, p, q, text)
  {
    hide Base64.Decode, Split, ParseInt, IndexOf;
    var parts := Split(cookie, '.');
    var p, q := parts[0], parts[1];
    TwoParts(cookie);
    var msg := Base64.Decode(Base64.RawUrl, p).value;
    EmptyIsNoNumber();
    var i := IndexOf(msg, DOT);
    assert i < |msg|;
    SplitAt(msg, i);
    assert Genuine(mac, cookie, id, key, now, p, q, msg[i + 1..]);
  }

  lemma TwoParts(cookie: string)
    requires |Split(cookie, '.')| == 2
    ensures cookie == Split(cookie, '.')[0] + "." + Split(cookie, '.')[1]
  {
    var parts := Split(cookie, '.');
    JoinSplit(cookie, '.');
    hide Split;
    JoinPair(parts[0], parts[1]);
    assert parts == [parts[0], parts[1]];
  }

  lemma EmptyIsNoNumber()
    ensures ParseInt([]) == None
  {}

  lemma GenuineIsAccepted(mac: Mac, cookie: string, id: seq<byte>, key: seq<byte>, now: int, p: string, q: string, text: seq<byte>)
    requires key != [] && Genuine(mac, cookie, id, key, now, p, q, text)
    ensures Verify(mac, cookie, id, key, now)
  {
    hide ParseInt, Base64.Decode, Split;
    DecodableHasNoDot(p);
    DecodableHasNoDot(q);
    SplitPair(p, q);
    MessageParts(id, text);
  }

  // ------------------------------------------------------------- the text itself

  lemma ParsedIsSigned(s: seq<byte>)
    requires ParseInt(s).Some?
    ensures exists sign, digits :: SignedNumber(s, sign, digits, ParseInt(s).value)
  {
    hide Number;
    if s[0] == PLUS || s[0] == MINUS {
      assert s == [s[0]] + s[1..];
      assert SignedNumber(s, [s[0]], s[1..], ParseInt(s).value);
    } else {
      assert s == [] + s;
      assert SignedNumber(s, [], s, ParseInt(s).value);
    }
  }

  lemma SignedIsParsed(s: seq<byte>, sign: seq<byte>, digits: seq<byte>, v: int)
    requires SignedNumber(s, sign, digits, v)
    ensures ParseInt(s) == if IsInt64(v) then Some(v) else None
  {
    hide Number;
    assert IsDigit(digits[0]);
    if sign == [] {
      assert s == digits;
    } else {
      assert s[0] == sign[0] && s[1..] == digits;
    }
  }

  /** A decimal number: perhaps a sign, then digits, within int64. */
  lemma ParseIntIff(s: seq<byte>, v: int)
    ensures ParseInt(s) == Some(v) <==>
      && -9_223_372_036_854_775_808 <= v <= 9_223_372_036_854_775_807
      && exists sign, digits :: SignedNumber(s, sign, digits, v)
  {
    if ParseInt(s) == Some(v) {
      ParsedIsSigned(s);
    }
    hide ParseInt, SignedNumber;
    forall sign, digits | SignedNumber(s, sign, digits, v) ensures ParseInt(s) == if IsInt64(v) then Some(v) else None {
      SignedIsParsed(s, sign, digits, v);
    }
    assert ParseInt(s) == Some(v) ==> IsInt64(v) by {
      if ParseInt(s) == Some(v) {
        ParsedInRange(s);
      }
    }
  }

  lemma ParsedInRange(s: seq<byte>)
    requires ParseInt(s).Some?
    ensures IsInt64(ParseInt(s).value)
  {
    hide Number;
  }

  /** `s` is the sign, if any, and the digits of `v`. */
  predicate SignedNumber(s: seq<byte>, sign: seq<byte>, digits: seq<byte>, v: int) {
    && s == sign + digits && (sign == [] || sign == [43] || sign == [45])
    && digits != [] && (forall i :: 0 <= i < |digits| ==> 48 <= digits[i] <= 57)
    && AllDigits(digits) && v == if sign == [45] then -(Number(digits) as int) else Number(digits)
  }

  /** Each digit counts ten times the one behind it. */
  lemma NumberStep(s: seq<byte>, d: byte)
    requires AllDigits(s) && 48 <= d <= 57
    ensures AllDigits(s + [d]) && Number(s + [d]) == 10 * Number(s) + (d as int - 48) && Number([]) == 0
  {
    assert (s + [d])[..|s|] == s;
  }

  /** "-120". */
  lemma FormatExample()
    ensures FormatInt(-120) == [45, 49, 50, 48]
  {
    assert Digits(1) == [49] && Digits(12) == [49, 50];
  }

  /** The token in full: base64 of the id, a dot and the decimal expiry; a dot; base64 of the MAC of those bytes. */
  lemma TokenText(mac: Mac, id: seq<byte>, exp: int, key: seq<byte>)
    ensures var parts := Split(Sign(mac, id, exp, key), '.');
      var msg := id + [46] + FormatInt(exp);
      && |parts| == 2
      && Base64.Decode(Base64.RawUrl, parts[0]) == Some(msg)
      && Base64.Decode(Base64.RawUrl, parts[1]) == Some(mac(key, msg))
  {
    hide Base64.Encode, Base64.Decode, Split, FormatInt;
    var msg := id + [46] + FormatInt(exp);
    assert Message(id, FormatInt(exp)) == msg;
    EncodedHasNoDot(msg);
    EncodedHasNoDot(mac(key, msg));
    SplitPair(Base64.Encode(Base64.RawUrl, msg), Base64.Encode(Base64.RawUrl, mac(key, msg)));
    Base64.DecodeEncode(Base64.RawUrl, msg);
    Base64.DecodeEncode(Base64.RawUrl, mac(key, msg));
  }
}
