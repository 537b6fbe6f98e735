/**
 The binary half of internal/sftpadmin/validate.go: length-prefixed fields
 (section 5 of RFC 4251) and the check that a decoded blob encodes a key of the
 declared type.
 */
module Wire {
  import opened Text

  const TWO32: int := 0x1_0000_0000

  predicate IsAscii(s: string) {
    forall i :: 0 <= i < |s| ==> s[i] as int < 128
  }

  function AsciiBytes(s: string): (b: seq<byte>)
    requires IsAscii(s)
    ensures |b| == |s|
  {
    seq(|s|, i requires 0 <= i < |s| => s[i] as int)
  }

  function Uint32(b: seq<byte>): (n: nat)
    requires |b| >= 4
    ensures n < TWO32
  {
    0x100_0000 * b[0] as int + 0x1_0000 * b[1] as int + 0x100 * b[2] as int + b[3] as int
  }

  function PutUint32(n: nat): (b: seq<byte>)
    requires n < TWO32
    ensures |b| == 4 && Uint32(b) == n
  {
    var high, low := n / 0x1_0000, n % 0x1_0000;
    [high / 0x100, high % 0x100, low / 0x100, low % 0x100]
  }

  /** Panics is a Go slice expression whose bounds are out of order. */
  datatype WireRead = Field(inner: seq<byte>, rest: seq<byte>) | Truncated | Panics

  /** readWireBytes, with the uint32 addition 4+n written out. */
  function ReadWire(b: seq<byte>): WireRead {
    if |b| < 4 then Truncated
    else
      var n := Uint32(b);
      if n > |b| - 4 then Truncated
      else
        var end := (4 + n) % TWO32;
        if end < 4 then Panics else Field(b[4..end], b[end..])
  }

  /** One encoded field. */
  function WireField(s: seq<byte>): seq<byte>
    requires |s| < TWO32
  {
    PutUint32(|s|) + s
  }

  /** The slice expressions go wrong for exactly the announced lengths at which 4+n wraps. */
  lemma PanicsExactly(b: seq<byte>)
    ensures ReadWire(b).Panics? <==> |b| >= 4 && TWO32 - 4 <= Uint32(b) <= |b| - 4
    ensures |b| < TWO32 ==> !ReadWire(b).Panics?
  {
    if |b| >= 4 {
      var n := Uint32(b);
      assert n < TWO32 - 4 ==> (4 + n) % TWO32 == 4 + n;
      assert n >= TWO32 - 4 ==> (4 + n) % TWO32 == 4 + n - TWO32;
    }
  }

  /** A 4 GiB blob that announces a length of 2^32 - 4 is such an input. */
  lemma PanicExample()
    ensures var b := PutUint32(TWO32 - 4) + seq(TWO32 - 4, i => 0 as byte); ReadWire(b).Panics?
  {
    var head, zeros := PutUint32(TWO32 - 4), seq(TWO32 - 4, i => 0 as byte);
    var b := head + zeros;
    assert b[0] == head[0] && b[1] == head[1] && b[2] == head[2] && b[3] == head[3];
    assert Uint32(b) == Uint32(head);
    PanicsExactly(b);
  }

  lemma PutOfUint32(b: seq<byte>)
    requires |b| >= 4
    ensures PutUint32(Uint32(b)) == b[..4]
  {
    var high, low := 0x100 * b[0] as int + b[1] as int, 0x100 * b[2] as int + b[3] as int;
    assert Uint32(b) == 0x1_0000 * high + low;
    assert Uint32(b) / 0x1_0000 == high && Uint32(b) % 0x1_0000 == low;
  }

  lemma ThreeParts(a: seq<byte>, b: seq<byte>, c: seq<byte>)
    ensures (a + b + c)[..|a|] == a && (a + b + c)[|a|..|a| + |b|] == b && (a + b + c)[|a| + |b|..] == c
  {}

  lemma ReadIsWritten(b: seq<byte>)
    requires |b| < TWO32 && ReadWire(b).Field?
    ensures |ReadWire(b).inner| < TWO32
    ensures b == WireField(ReadWire(b).inner) + ReadWire(b).rest
  {
    PanicsExactly(b);
    PutOfUint32(b);
    var n := Uint32(b);
    hide Uint32, PutUint32;
    assert (4 + n) % TWO32 == 4 + n;
    Thirds(b, 4, 4 + n);
  }

  lemma WrittenIsRead(inner: seq<byte>, rest: seq<byte>)
    requires |inner| + |rest| + 4 < TWO32
    ensures ReadWire(WireField(inner) + rest) == Field(inner, rest)
  {
    var head := PutUint32(|inner|);
    var b := head + inner + rest;
    ThreeParts(head, inner, rest);
    assert Uint32(b) == Uint32(b[..4]);
    hide Uint32, PutUint32;
    assert (4 + |inner|) % TWO32 == 4 + |inner|;
  }

  /** Reading is the inverse of writing, in both directions. */
  lemma ReadWireIff(b: seq<byte>, inner: seq<byte>, rest: seq<byte>)
    requires |b| < TWO32
    ensures ReadWire(b) == Field(inner, rest) <==> |inner| < TWO32 && b == WireField(inner) + rest
  {
    hide ReadWire;
    if ReadWire(b).Field? {
      ReadIsWritten(b);
    }
    if |inner| < TWO32 && b == WireField(inner) + rest {
      WrittenIsRead(inner, rest);
    }
  }

  function TrimCurvePrefix(typ: string): (c: string)
    requires IsAscii(typ)
    ensures IsAscii(c)
  {
    if HasPrefix(typ, "ecdsa-sha2-") then typ[11..] else typ
  }

  datatype Verdict = Accept | Refuse | Crash

  /** checkKeyBlob, branch by branch. */
  function CheckKeyBlob(typ: string, blob: seq<byte>): Verdict
    requires IsAscii(typ)
  {
    match ReadWire(blob)
    case Truncated => Refuse
    case Panics => Crash
    case Field(inner, rest) =>
      if inner != AsciiBytes(typ) then Refuse
      else if typ == "ssh-ed25519" || typ == "sk-ssh-ed25519@openssh.com" then
        match ReadWire(rest)
        case Truncated => Refuse
        case Panics => Crash
        case Field(k, tail) => if |k| != 32 || |tail| != 0 then Refuse else Accept
      else if typ == "ssh-rsa" then
        match ReadWire(rest)
        case Truncated => Refuse
        case Panics => Crash
        case Field(e, tail) =>
          if |e| == 0 || |e| > 8 then Refuse
          else
            match ReadWire(tail)
            case Truncated => Refuse
            case Panics => Crash
            case Field(n, end) => if |n| < 32 || |end| != 0 then Refuse else Accept
      else
        match ReadWire(rest)
        case Truncated => Refuse
        case Panics => Crash
        case Field(curve, tail) =>
          if curve != AsciiBytes(TrimCurvePrefix(typ)) then Refuse
          else
            match ReadWire(tail)
            case Truncated => Refuse
            case Panics => Crash
            case Field(k, end) => if |k| == 0 || |end| != 0 then Refuse else Accept
  }

  /** The field sizes each key type requires after its type name. */
  predicate Layout(typ: string, fields: seq<seq<byte>>)
    requires IsAscii(typ)
  {
    && (forall f :: f in fields ==> |f| < TWO32)
    && if typ == "ssh-ed25519" || typ == "sk-ssh-ed25519@openssh.com" then
         |fields| == 1 && |fields[0]| == 32
       else if typ == "ssh-rsa" then
         |fields| == 2 && 1 <= |fields[0]| <= 8 && |fields[1]| >= 32
       else
         |fields| == 2 && fields[0] == AsciiBytes(TrimCurvePrefix(typ)) && |fields[1]| > 0
  }

  /** A sequence of fields written one after the other. */
  function Encoded(fields: seq<seq<byte>>): seq<byte>
    requires forall f :: f in fields ==> |f| < TWO32
  {
    if fields == [] then [] else WireField(fields[0]) + Encoded(fields[1..])
  }

  lemma EncodedOne(a: seq<byte>)
    requires |a| < TWO32
    ensures Encoded([a]) == WireField(a)
  {
    assert [a][1..] == [];
    assert WireField(a) + [] == WireField(a);
  }

  lemma EncodedTwo(a: seq<byte>, b: seq<byte>)
    requires |a| < TWO32 && |b| < TWO32
    ensures Encoded([a, b]) == WireField(a) + WireField(b)
  {
    assert [a, b][1..] == [b];
    EncodedOne(b);
  }

  /** The fields the code reads after the type name, when it accepts. */
  function FieldsRead(typ: string, blob: seq<byte>): (fields: seq<seq<byte>>)
    requires IsAscii(typ) && CheckKeyBlob(typ, blob).Accept?
  {
    var first := ReadWire(ReadWire(blob).rest);
    if typ == "ssh-ed25519" || typ == "sk-ssh-ed25519@openssh.com" then [first.inner]
    else [first.inner, ReadWire(first.rest).inner]
  }

  lemma ReadWireShrinks(b: seq<byte>)
    requires ReadWire(b).Field?
    ensures |ReadWire(b).rest| < |b| && |ReadWire(b).inner| < |b|
  {}

  /** `fields` is a way to read `blob` as a key of type `typ`. */
  predicate Decomposes(typ: string, blob: seq<byte>, fields: seq<seq<byte>>)
    requires IsAscii(typ) && |typ| < TWO32
  {
    Layout(typ, fields) && blob == WireField(AsciiBytes(typ)) + Encoded(fields)
  }

  /** Soundness: an accepted blob is exactly the type name and fields of the required sizes. */
  lemma AcceptedIsEncoding(typ: string, blob: seq<byte>)
    requires IsAscii(typ) && |typ| < TWO32 && |blob| < TWO32
    requires CheckKeyBlob(typ, blob).Accept?
    ensures Decomposes(typ, blob, FieldsRead(typ, blob))
  {
    var r0 := ReadWire(blob);
    ReadWireShrinks(blob);
    ReadWireIff(blob, r0.inner, r0.rest);
    var r1 := ReadWire(r0.rest);
    ReadWireShrinks(r0.rest);
    ReadWireIff(r0.rest, r1.inner, r1.rest);
    if typ == "ssh-ed25519" || typ == "sk-ssh-ed25519@openssh.com" {
      EncodedOne(r1.inner);
      assert WireField(r1.inner) + r1.rest == WireField(r1.inner);
    } else {
      var r2 := ReadWire(r1.rest);
      ReadWireShrinks(r1.rest);
      ReadWireIff(r1.rest, r2.inner, r2.rest);
      EncodedTwo(r1.inner, r2.inner);
      assert WireField(r2.inner) + r2.rest == WireField(r2.inner);
    }
  }

  /** Completeness, and uniqueness of the decomposition. */
  lemma EncodingIsAccepted(typ: string, blob: seq<byte>, fields: seq<seq<byte>>)
    requires IsAscii(typ) && |typ| < TWO32 && |blob| < TWO32
    requires Decomposes(typ, blob, fields)
    ensures CheckKeyBlob(typ, blob).Accept? && FieldsRead(typ, blob) == fields
  {
    ReadWireIff(blob, AsciiBytes(typ), Encoded(fields));
    if |fields| == 1 {
      assert fields == [fields[0]];
      EncodedOne(fields[0]);
      assert WireField(fields[0]) == WireField(fields[0]) + [];
      ReadWireIff(Encoded(fields), fields[0], []);
    } else {
      assert fields == [fields[0], fields[1]];
      EncodedTwo(fields[0], fields[1]);
      ReadWireIff(Encoded(fields), fields[0], WireField(fields[1]));
      assert WireField(fields[1]) == WireField(fields[1]) + [];
      ReadWireIff(WireField(fields[1]), fields[1], []);
    }
  }

  /** checkKeyBlob accepts exactly the encodings, and never panics below 4 GiB. */
  lemma CheckKeyBlobIff(typ: string, blob: seq<byte>)
    requires IsAscii(typ) && |typ| < TWO32 && |blob| < TWO32
    ensures CheckKeyBlob(typ, blob).Accept? <==> exists fields :: Decomposes(typ, blob, fields)
    ensures !CheckKeyBlob(typ, blob).Crash?
    ensures forall f, g :: Decomposes(typ, blob, f) && Decomposes(typ, blob, g) ==> f == g
  {
    forall f | Decomposes(typ, blob, f)
      ensures CheckKeyBlob(typ, blob).Accept? && FieldsRead(typ, blob) == f
    {
      EncodingIsAccepted(typ, blob, f);
    }
    if CheckKeyBlob(typ, blob).Accept? {
      AcceptedIsEncoding(typ, blob);
    }
    NeverCrashes(typ, blob);
  }

  lemma NeverCrashes(typ: string, blob: seq<byte>)
    requires IsAscii(typ) && |blob| < TWO32
    ensures !CheckKeyBlob(typ, blob).Crash?
  {
    PanicsExactly(blob);
    if ReadWire(blob).Field? {
      var rest := ReadWire(blob).rest;
      ReadWireShrinks(blob);
      PanicsExactly(rest);
      if ReadWire(rest).Field? {
        ReadWireShrinks(rest);
        PanicsExactly(ReadWire(rest).rest);
      }
    }
  }

  // -------------------------------------------------------- layouts in numbers

  /** Lengths are written most significant byte first. */
  lemma LengthBytes(inner: seq<byte>)
    requires |inner| < 0x1_0000
    ensures WireField(inner) == [0, 0, |inner| / 0x100, |inner| % 0x100] + inner
  {}

  /** An ed25519 key, plain or on a security key, has exactly thirty-two bytes. */
  lemma Ed25519Layout(typ: string, key: seq<byte>)
    requires IsAscii(typ) && (typ == "ssh-ed25519" || typ == "sk-ssh-ed25519@openssh.com") && |key| < 0x1_0000
    ensures CheckKeyBlob(typ, WireField(AsciiBytes(typ)) + WireField(key)).Accept? <==> |key| == 32
  {
    hide ReadWire, WireField;
    OneFieldRead(AsciiBytes(typ), key);
  }

  lemma OneFieldRead(a: seq<byte>, b: seq<byte>)
    requires |a| < 0x1_0000 && |b| < 0x1_0000
    ensures ReadWire(WireField(a) + WireField(b)) == Field(a, WireField(b)) && ReadWire(WireField(b)) == Field(b, [])
  {
    WrittenIsRead(a, WireField(b));
    WrittenIsRead(b, []);
    assert WireField(b) + [] == WireField(b);
  }

  lemma TwoFieldsRead(a: seq<byte>, b: seq<byte>, c: seq<byte>)
    requires |a| < 0x1_0000 && |b| < 0x1_0000 && |c| < 0x1_0000
    ensures ReadWire(WireField(a) + (WireField(b) + WireField(c))) == Field(a, WireField(b) + WireField(c))
    ensures ReadWire(WireField(b) + WireField(c)) == Field(b, WireField(c)) && ReadWire(WireField(c)) == Field(c, [])
  {
    WrittenIsRead(a, WireField(b) + WireField(c));
    OneFieldRead(b, c);
  }

  /** An RSA key has an exponent of one to eight bytes and a modulus of at least thirty-two. */
  lemma RsaLayout(e: seq<byte>, n: seq<byte>)
    requires |e| < 0x1_0000 && |n| < 0x1_0000 && IsAscii("ssh-rsa")
    ensures CheckKeyBlob("ssh-rsa", WireField(AsciiBytes("ssh-rsa")) + (WireField(e) + WireField(n))).Accept?
      <==> 1 <= |e| <= 8 && |n| >= 32
  {
    hide ReadWire, WireField;
    TwoFieldsRead(AsciiBytes("ssh-rsa"), e, n);
  }

  /** An ECDSA key names the curve of its type, followed by a point that is not empty. */
  lemma EcdsaLayout(bits: string, curve: seq<byte>, point: seq<byte>)
    requires bits == "256" || bits == "384" || bits == "521"
    requires |curve| < 0x1_0000 && |point| < 0x1_0000 && IsAscii("ecdsa-sha2-nistp" + bits) && IsAscii("nistp" + bits)
    ensures var typ := "ecdsa-sha2-nistp" + bits;
      CheckKeyBlob(typ, WireField(AsciiBytes(typ)) + (WireField(curve) + WireField(point))).Accept?
      <==> curve == AsciiBytes("nistp" + bits) && point != []
  {
    var typ := "ecdsa-sha2-nistp" + bits;
    assert TrimCurvePrefix(typ) == "nistp" + bits by { CurveOf(bits); }
    assert typ[0] == 'e';
    hide ReadWire, WireField, TrimCurvePrefix;
    TwoFieldsRead(AsciiBytes(typ), curve, point);
  }

  lemma CurveOf(bits: string)
    requires IsAscii("ecdsa-sha2-nistp" + bits)
    ensures TrimCurvePrefix("ecdsa-sha2-nistp" + bits) == "nistp" + bits
  {
    var typ := "ecdsa-sha2-nistp" + bits;
    assert typ[..11] == "ecdsa-sha2-" && typ[11..] == "nistp" + bits;
  }

  /** The blob announces the type it was declared with. */
  lemma TypeAnnounced(typ: string, announced: seq<byte>, rest: seq<byte>)
    requires IsAscii(typ) && |announced| < 0x1_0000 && |rest| < 0x1_0000 && announced != AsciiBytes(typ)
    ensures CheckKeyBlob(typ, WireField(announced) + rest).Refuse?
  {
    hide ReadWire, WireField;
    WrittenIsRead(announced, rest);
  }
}
