/**
 The text half of internal/sftpadmin/validate.go: login names, single-line
 public keys, their canonical form and their fingerprint.
 */
module Keys {
  import opened Text
  import Base64
  import Wire

  /** A SHA-256 digest; the digest function itself stays abstract. */
  type Digest = d: seq<byte> | |d| == 32 witness seq(32, i => 0)
  type Sha256 = seq<byte> -> Digest

  predicate NameStart(c: char) { 'a' <= c <= 'z' || c == '_' }
  predicate NameChar(c: char) { NameStart(c) || '0' <= c <= '9' || c == '-' }

  /** ^[a-z_][a-z0-9_-]{0,31}$ */
  predicate NameShape(s: string) {
    1 <= |s| <= 32 && NameStart(s[0]) && forall i :: 0 <= i < |s| ==> NameChar(s[i])
  }

  predicate Reserved(s: string) {
    s == "root" || s == "admin" || s == "sshd" || s == "sftpusers"
  }

  /** ValidateUsername. */
  predicate ValidUsername(s: string) { NameShape(s) && !Reserved(s) }

  predicate AllowedType(t: string) {
    t == "ssh-ed25519" || t == "ssh-rsa" || t == "ecdsa-sha2-nistp256" || t == "ecdsa-sha2-nistp384" ||
    t == "ecdsa-sha2-nistp521" || t == "sk-ssh-ed25519@openssh.com"
  }

  /** Printable ASCII without spaces. */
  predicate Graphic(s: string) { forall i :: 0 <= i < |s| ==> '!' <= s[i] <= '~' }

  lemma GraphicTypes()
    ensures Graphic("ssh-ed25519") && Graphic("ssh-rsa")
    ensures Graphic("sk-ssh-ed25519@openssh.com")
  {}

  lemma GraphicCurves()
    ensures Graphic("ecdsa-sha2-nistp256") && Graphic("ecdsa-sha2-nistp384") && Graphic("ecdsa-sha2-nistp521")
  {}

  lemma AllowedTypeText(t: string)
    requires AllowedType(t)
    ensures t != "" && Graphic(t) && Wire.IsAscii(t) && NoSpace(t) && |t| < 32
  {
    hide Wire.IsAscii, NoSpace;
    GraphicTypes();
    GraphicCurves();
    GraphicText(t);
  }

  lemma GraphicText(t: string)
    requires Graphic(t)
    ensures Wire.IsAscii(t) && NoSpace(t)
  {
    assert forall i :: 0 <= i < |t| ==> '!' <= t[i] <= '~';
  }

  datatype Rejection = MultiLine | EmptyText | PrivateKey | MissingField | UnsupportedType | BadBase64 | BadBlob | Crashed

  datatype ParsedKey = Rejected(why: Rejection) | Accepted(canonical: string, blob: seq<byte>)

  predicate SingleLine(s: string) { '\n' !in s && '\r' !in s }

  /** ValidatePublicKey, up to the digest of the blob it returns. */
  function ParseKey(key: string): ParsedKey {
    if !SingleLine(key) then Rejected(MultiLine)
    else
      var trimmed := TrimSpace(key);
      if trimmed == "" then Rejected(EmptyText)
      else if HasPrefix(trimmed, "-----BEGIN") then Rejected(PrivateKey)
      else ParseFields(Fields(trimmed))
  }

  function ParseFields(parts: seq<string>): ParsedKey {
    if |parts| < 2 then Rejected(MissingField)
    else
      var typ, b64 := parts[0], parts[1];
      if !AllowedType(typ) then Rejected(UnsupportedType)
      else
        AllowedTypeText(typ);
        var blob := Base64.Decode(Base64.Std, b64);
        if blob.None? then Rejected(BadBase64)
        else
          match Wire.CheckKeyBlob(typ, blob.value)
          case Refuse => Rejected(BadBlob)
          case Crash => Rejected(Crashed)
          case Accept => Accepted(typ + " " + b64, blob.value)
  }

  predicate ValidKey(key: string) { ParseKey(key).Accepted? }

  /** Text that is its own canonical "type base64" form. */
  predicate IsCanonical(key: string) {
    ParseKey(key).Accepted? && ParseKey(key).canonical == key
  }

  /** strings.TrimRight(s, "="). */
  function TrimPad(s: string): string {
    if s != "" && s[|s| - 1] == '=' then TrimPad(s[..|s| - 1]) else s
  }

  function BlobFingerprint(sha: Sha256, blob: seq<byte>): string {
    "SHA256:" + TrimPad(Base64.Encode(Base64.Std, sha(blob)))
  }

  /** FingerprintOf a valid key. */
  function Fingerprint(sha: Sha256, key: string): string
    requires ValidKey(key)
  {
    BlobFingerprint(sha, ParseKey(key).blob)
  }

  /** ^SHA256:[A-Za-z0-9+/]{43}$ */
  predicate ValidFingerprint(fp: string) {
    HasPrefix(fp, "SHA256:") && |fp| == 50 && Base64.AllInAlphabet(Base64.Std, fp[7..])
  }

  /** A text whose first character is not a space starts like its first field. */
  lemma PrefixInFirstField(s: string, p: string)
    requires s != "" && !IsSpace(s[0]) && NoSpace(p)
    ensures Fields(s) != []
    ensures HasPrefix(s, p) <==> HasPrefix(Fields(s)[0], p)
  {
    FirstField(s);
    var n := WordLen(s);
    if HasPrefix(s, p) {
      assert forall i :: 0 <= i < |p| ==> s[i] == p[i];
      assert s[..n][..|p|] == s[..|p|];
    } else if |p| <= n {
      assert s[..n][..|p|] == s[..|p|];
    }
  }

  lemma {:induction false} TrimLeftHead(s: string)
    ensures TrimLeft(s) != "" ==> !IsSpace(TrimLeft(s)[0])
  {
    if s != "" && IsSpace(s[0]) {
      TrimLeftHead(s[1..]);
    }
  }

  lemma {:induction false} TrimRightHead(s: string)
    requires s != "" ==> !IsSpace(s[0])
    ensures s == "" <==> TrimRight(s) == ""
    ensures s != "" ==> TrimRight(s)[0] == s[0]
    decreases |s|
  {
    if s != "" && IsSpace(s[|s| - 1]) {
      TrimRightHead(s[..|s| - 1]);
    }
  }

  lemma TrimSpaceHead(s: string)
    ensures TrimSpace(s) != "" ==> !IsSpace(TrimSpace(s)[0])
    ensures TrimSpace(s) == "" <==> Fields(s) == []
  {
    TrimLeftHead(s);
    TrimRightHead(TrimLeft(s));
    FieldsTrim(s);
    if TrimSpace(s) != "" {
      FirstField(TrimSpace(s));
    }
  }

  /** On one line, parsing sees nothing but the white-space separated fields. */
  lemma ParseByFields(key: string)
    requires SingleLine(key)
    ensures ParseKey(key) == if Fields(key) == [] then Rejected(EmptyText)
                             else if HasPrefix(Fields(key)[0], "-----BEGIN") then Rejected(PrivateKey)
                             else ParseFields(Fields(key))
  {
    assert NoSpace("-----BEGIN");
    hide ParseFields, IsSpace, NoSpace;
    TrimSpaceHead(key);
    FieldsTrim(key);
    if Fields(key) != [] {
      PrefixInFirstField(TrimSpace(key), "-----BEGIN");
    }
  }

  /** The result depends only on the first two fields of a single-line text. */
  lemma FirstTwoFieldsDecide(a: string, b: string)
    requires SingleLine(a) && SingleLine(b)
    requires |Fields(a)| >= 2 && |Fields(b)| >= 2
    requires Fields(a)[..2] == Fields(b)[..2]
    ensures ParseKey(a) == ParseKey(b)
  {
    ParseByFields(a);
    ParseByFields(b);
    assert Fields(a)[0] == Fields(a)[..2][0] && Fields(a)[1] == Fields(a)[..2][1];
    assert Fields(b)[0] == Fields(b)[..2][0] && Fields(b)[1] == Fields(b)[..2][1];
  }

  /** What an accepted text looks like. */
  lemma AcceptedParts(key: string)
    requires ValidKey(key)
    ensures SingleLine(key) && |Fields(key)| >= 2
    ensures AllowedType(Fields(key)[0])
    ensures Fields(key)[1] != "" && Base64.TextOf(Base64.Std, Fields(key)[1])
    ensures ParseKey(key).canonical == Fields(key)[0] + " " + Fields(key)[1]
  {
    ParseByFields(key);
    var b64 := Fields(key)[1];
    AllowedTypeText(Fields(key)[0]);
    FieldChars(key, 1);
    Base64.DropBreaksNone(b64);
    Base64.DecodableText(Base64.Std, b64);
    FieldsAreWords(key);
  }

  /** Fields hold no line breaks. */
  lemma FieldChars(key: string, i: nat)
    requires i < |Fields(key)|
    ensures SingleLine(Fields(key)[i])
  {
    FieldsAreWords(key);
    assert IsSpace('\n') && IsSpace('\r');
  }

  /** Canonicalising a canonical key gives the same key and the same blob. */
  lemma CanonicalIdempotent(key: string)
    requires ValidKey(key)
    ensures ParseKey(ParseKey(key).canonical) == ParseKey(key)
    ensures IsCanonical(ParseKey(key).canonical)
  {
    AcceptedParts(key);
    var typ, b64 := Fields(key)[0], Fields(key)[1];
    AllowedTypeText(typ);
    FieldsAreWords(key);
    FieldsOfPair(typ, b64);
    FieldChars(key, 0);
    FieldChars(key, 1);
    assert Fields(typ + " " + b64)[..2] == Fields(key)[..2];
    FirstTwoFieldsDecide(typ + " " + b64, key);
  }

  lemma {:induction false} TrimPadOne(s: string)
    requires s != "" && Base64.AllInAlphabet(Base64.Std, s)
    ensures TrimPad(s + "=") == s
  {
    var t := s + "=";
    assert t[..|t| - 1] == s;
    assert Base64.InAlphabet(Base64.Std, s[|s| - 1]);
  }

  lemma DigestText(d: Digest)
    ensures var body := TrimPad(Base64.Encode(Base64.Std, d)); |body| == 43 && Base64.AllInAlphabet(Base64.Std, body)
  {
    var enc := Base64.Encode(Base64.Std, d);
    Base64.EncodeOnePad(d);
    assert enc == enc[..43] + "=";
    TrimPadOne(enc[..43]);
  }

  lemma ShapedFingerprint(body: string)
    requires |body| == 43 && Base64.AllInAlphabet(Base64.Std, body)
    ensures ValidFingerprint("SHA256:" + body) && NoSpace("SHA256:" + body)
  {
    var fp := "SHA256:" + body;
    assert fp[7..] == body && fp[..7] == "SHA256:";
    forall i | 0 <= i < |fp| ensures !IsSpace(fp[i]) {
      if i < 7 {
        assert fp[i] == "SHA256:"[i];
      } else {
        assert Base64.InAlphabet(Base64.Std, body[i - 7]);
      }
    }
  }

  /** Every fingerprint the code produces has the shape the handlers demand, and survives their trimming. */
  lemma FingerprintShape(sha: Sha256, key: string)
    requires ValidKey(key)
    ensures ValidFingerprint(Fingerprint(sha, key))
    ensures TrimSpace(Fingerprint(sha, key)) == Fingerprint(sha, key)
  {
    var d: Digest := sha(ParseKey(key).blob);
    DigestText(d);
    ShapedFingerprint(TrimPad(Base64.Encode(Base64.Std, d)));
    TrimNoSpace(Fingerprint(sha, key));
  }

  lemma DigestTextInjective(d: Digest, e: Digest)
    requires TrimPad(Base64.Encode(Base64.Std, d)) == TrimPad(Base64.Encode(Base64.Std, e))
    ensures d == e
  {
    var x, y := Base64.Encode(Base64.Std, d), Base64.Encode(Base64.Std, e);
    PaddedBack(d);
    PaddedBack(e);
    assert x == y;
    Base64.DecodeEncode(Base64.Std, d);
    Base64.DecodeEncode(Base64.Std, e);
  }

  lemma PaddedBack(d: Digest)
    ensures var x := Base64.Encode(Base64.Std, d); x == TrimPad(x) + "="
  {
    var x := Base64.Encode(Base64.Std, d);
    Base64.EncodeOnePad(d);
    assert x == x[..43] + "=";
    TrimPadOne(x[..43]);
  }

  /** Two valid keys share a fingerprint exactly when their blobs share a digest, whatever the texts look like. */
  lemma FingerprintIff(sha: Sha256, a: string, b: string)
    requires ValidKey(a) && ValidKey(b)
    ensures Fingerprint(sha, a) == Fingerprint(sha, b) <==> sha(ParseKey(a).blob) == sha(ParseKey(b).blob)
  {
    var d: Digest, e: Digest := sha(ParseKey(a).blob), sha(ParseKey(b).blob);
    hide ParseKey, TrimPad, Base64.Encode;
    if Fingerprint(sha, a) == Fingerprint(sha, b) {
      var x, y := TrimPad(Base64.Encode(Base64.Std, d)), TrimPad(Base64.Encode(Base64.Std, e));
      assert ("SHA256:" + x)[7..] == x && ("SHA256:" + y)[7..] == y;
      DigestTextInjective(d, e);
    }
  }

  // -------------------------------------------------------------------- grammar

  /** The bytes of a key of type `typ` with these fields. */
  function KeyBlob(typ: string, fields: seq<seq<byte>>): seq<byte>
    requires Wire.IsAscii(typ) && |typ| < Wire.TWO32 && Wire.Layout(typ, fields)
  {
    Wire.WireField(Wire.AsciiBytes(typ)) + Wire.Encoded(fields)
  }

  lemma TypeIsNoPem(typ: string)
    requires AllowedType(typ)
    ensures !HasPrefix(typ, "-----BEGIN")
  {
    PrefixHead(typ, "-----BEGIN");
  }

  lemma PrefixHead(s: string, p: string)
    requires p != ""
    ensures HasPrefix(s, p) ==> s != "" && s[0] == p[0]
  {
    assert |p| <= |s| ==> s[..|p|][0] == s[0];
  }

  lemma NothingDecodes()
    ensures Base64.Decode(Base64.Std, "") == Some([])
  {}

  /** A line is a valid key exactly when its first two fields are an allowed type and base64 of a blob of that type. */
  lemma KeyGrammar(key: string)
    requires SingleLine(key)
    requires |Fields(key)| >= 2 ==> var b := Base64.Decode(Base64.Std, Fields(key)[1]); b.Some? ==> |b.value| < Wire.TWO32
    ensures ValidKey(key) <==>
      && |Fields(key)| >= 2 && AllowedType(Fields(key)[0])
      && Base64.Decode(Base64.Std, Fields(key)[1]).Some?
      && Wire.IsAscii(Fields(key)[0]) && |Fields(key)[0]| < Wire.TWO32
      && exists fields :: Wire.Decomposes(Fields(key)[0], Base64.Decode(Base64.Std, Fields(key)[1]).value, fields)
  {
    ParseByFields(key);
    hide ParseKey, Fields, Base64.Decode, Wire.CheckKeyBlob, Wire.Decomposes, Wire.IsAscii;
    if |Fields(key)| >= 2 && AllowedType(Fields(key)[0]) {
      var typ, blob := Fields(key)[0], Base64.Decode(Base64.Std, Fields(key)[1]);
      AllowedTypeText(typ);
      TypeIsNoPem(typ);
      hide AllowedType, HasPrefix;
      if blob.Some? {
        Wire.CheckKeyBlobIff(typ, blob.value);
      }
    }
  }

  lemma EncodedLine(b: seq<byte>)
    requires b != []
    ensures var t := Base64.Encode(Base64.Std, b); t != "" && NoSpace(t) && SingleLine(t)
  {
    var t := Base64.Encode(Base64.Std, b);
    Base64.EncodeText(Base64.Std, b);
    Base64.DecodeEncode(Base64.Std, b);
    NothingDecodes();
    forall i | 0 <= i < |t| ensures !IsSpace(t[i]) && t[i] != '\n' && t[i] != '\r' {
      assert Base64.InAlphabet(Base64.Std, t[i]) || t[i] == '=';
    }
  }

  /** What parsing makes of a type, a text that decodes, and a comment. */
  lemma LineParsed(typ: string, b64: string, blob: seq<byte>, comment: string)
    requires AllowedType(typ) && Wire.IsAscii(typ)
    requires b64 != "" && NoSpace(b64) && SingleLine(b64) && Base64.Decode(Base64.Std, b64) == Some(blob)
    requires Wire.CheckKeyBlob(typ, blob).Accept?
    requires comment == "" || (IsSpace(comment[0]) && SingleLine(comment))
    ensures ParseKey(typ + " " + b64 + comment) == Accepted(typ + " " + b64, blob)
  {
    AllowedTypeText(typ);
    TypeIsNoPem(typ);
    assert SingleLine(typ);
    hide AllowedType, Wire.IsAscii, Base64.Decode, Wire.CheckKeyBlob, HasPrefix, Graphic, NoSpace, IsSpace, Fields, ParseKey;
    FieldsOfTwo(typ, b64, comment);
    assert SingleLine(typ + " " + b64 + comment);
    ParseByFields(typ + " " + b64 + comment);
    FirstTwo(typ, b64, Fields(comment));
  }

  lemma FirstTwo<T>(a: T, b: T, rest: seq<T>)
    ensures var s := [a, b] + rest; |s| >= 2 && s[0] == a && s[1] == b
  {}

  /** Round trip: every key of an allowed type, written out with any comment, is accepted with its own blob and canonical form. */
  lemma WrittenKeyAccepted(typ: string, fields: seq<seq<byte>>, comment: string)
    requires AllowedType(typ) && Wire.IsAscii(typ) && Wire.Layout(typ, fields) && |KeyBlob(typ, fields)| < Wire.TWO32
    requires comment == "" || (IsSpace(comment[0]) && SingleLine(comment))
    ensures var blob := KeyBlob(typ, fields);
      var text := typ + " " + Base64.Encode(Base64.Std, blob);
      ParseKey(text + comment) == Accepted(text, blob) && IsCanonical(text)
  {
    var blob := KeyBlob(typ, fields);
    var b64 := Base64.Encode(Base64.Std, blob);
    assert Wire.Decomposes(typ, blob, fields) && blob != [];
    hide Wire.Decomposes, KeyBlob, Base64.Encode, Base64.Decode, Wire.CheckKeyBlob, ParseKey, AllowedType, NoSpace, SingleLine, Wire.Layout;
    EncodedLine(blob);
    Base64.DecodeEncode(Base64.Std, blob);
    Wire.EncodingIsAccepted(typ, blob, fields);
    LineParsed(typ, b64, blob, comment);
    CanonicalIdempotent(typ + " " + b64 + comment);
  }

  // ------------------------------------------------------------- in plain letters

  /** A login name in plain letters, not one of the four reserved ones. */
  lemma UsernameIff(s: string)
    ensures NameShape(s) <==>
      && 1 <= |s| <= 32 && s[0] in "abcdefghijklmnopqrstuvwxyz_"
      && forall i :: 0 <= i < |s| ==> s[i] in "abcdefghijklmnopqrstuvwxyz_0123456789-"
    ensures ValidUsername(s) <==> NameShape(s) && s != "root" && s != "admin" && s != "sshd" && s != "sftpusers"
  {
    if 1 <= |s| <= 32 {
      StartLetters(s[0]);
      forall i | 0 <= i < |s| ensures NameChar(s[i]) <==> s[i] in "abcdefghijklmnopqrstuvwxyz_0123456789-" {
        NameLetters(s[i]);
      }
    }
  }

  lemma StartLetters(c: char)
    ensures NameStart(c) <==> c in "abcdefghijklmnopqrstuvwxyz_"
  {}

  lemma NameLetters(c: char)
    ensures NameChar(c) <==> c in "abcdefghijklmnopqrstuvwxyz_0123456789-"
  {}

  /** The six key types. */
  lemma SixTypes(t: string)
    ensures AllowedType(t) <==>
      t in {"ssh-rsa", "ssh-ed25519", "sk-ssh-ed25519@openssh.com", "ecdsa-sha2-nistp256", "ecdsa-sha2-nistp384", "ecdsa-sha2-nistp521"}
  {}

  /** A fingerprint is "SHA256:" and the unpadded base64 of the digest of the blob. */
  lemma FingerprintDecodes(sha: Sha256, key: string)
    requires ValidKey(key)
    ensures var fp := Fingerprint(sha, key);
      && |fp| == 50 && fp[..7] == "SHA256:"
      && Base64.Decode(Base64.Std, fp[7..] + "=") == Some(sha(ParseKey(key).blob))
  {
    hide ParseKey, Base64.Encode, Base64.Decode, TrimPad;
    var d: Digest := sha(ParseKey(key).blob);
    var body := TrimPad(Base64.Encode(Base64.Std, d));
    DigestText(d);
    PaddedBack(d);
    Base64.DecodeEncode(Base64.Std, d);
    assert ("SHA256:" + body)[7..] == body && ("SHA256:" + body)[..7] == "SHA256:";
  }

  /** What the handlers take for a fingerprint. */
  lemma ValidFingerprintIff(fp: string)
    ensures ValidFingerprint(fp) <==>
      && |fp| == 50 && fp[..7] == "SHA256:"
      && forall i :: 7 <= i < 50 ==> 'A' <= fp[i] <= 'Z' || 'a' <= fp[i] <= 'z' || '0' <= fp[i] <= '9' || fp[i] == '+' || fp[i] == '/'
  {
    if |fp| == 50 {
      assert forall i :: 7 <= i < 50 ==> fp[i] == fp[7..][i - 7];
      assert forall j :: 0 <= j < 43 ==> fp[7..][j] == fp[j + 7];
    }
  }
}
