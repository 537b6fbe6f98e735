/**
 Path and prefix rules of internal/config/config.go and the digests of
 internal/hash/hash.go.  Absolute paths are lists of segments.
 */
module Config {
  import opened Text
  import Keys

  // ---------------------------------------------------------------------- paths

  /** A path segment that names something. */
  predicate Proper(seg: string) { seg != "" && seg != "." && seg != ".." && '/' !in seg }

  predicate AllProper(segs: seq<string>) { forall i :: 0 <= i < |segs| ==> Proper(segs[i]) }

  /** path.Clean on the segments of a rooted path. */
  function CleanRooted(segs: seq<string>): (r: seq<string>)
    requires forall i :: 0 <= i < |segs| ==> '/' !in segs[i]
    ensures AllProper(r)
  {
    if segs == [] then []
    else
      var done, last := CleanRooted(segs[..|segs| - 1]), segs[|segs| - 1];
      if last == "" || last == "." then done
      else if last == ".." then (if done == [] then [] else done[..|done| - 1])
      else done + [last]
  }

  lemma {:induction false} CleanProper(segs: seq<string>)
    requires AllProper(segs)
    ensures CleanRooted(segs) == segs
  {
    if segs != [] {
      var init, last := segs[..|segs| - 1], segs[|segs| - 1];
      CleanProper(init);
      assert Proper(last);
      InitLast(segs);
    }
  }

  lemma InitLast<T>(s: seq<T>)
    requires s != []
    ensures s == s[..|s| - 1] + [s[|s| - 1]]
  {}

  lemma CleanLeadingEmpty(segs: seq<string>)
    requires AllProper(segs)
    ensures CleanRooted([""] + segs) == segs
  {
    if segs == [] {
      assert [""] + segs == [""];
      assert CleanRooted([""]) == CleanRooted([""][..0]);
    } else {
      var init := segs[..|segs| - 1];
      CleanLeadingEmpty(init);
      assert ([""] + segs)[..|segs|] == [""] + init;
      assert Proper(segs[|segs| - 1]);
      InitLast(segs);
    }
  }

  /** Clean(p) for a rooted path text, as segments. */
  function CleanPath(p: string): (r: seq<string>)
    ensures AllProper(r)
  {
    SplitParts(p, '/');
    CleanRooted(Split(p, '/'))
  }

  /** A clean relative text survives "/" + text, Clean and splitting. */
  lemma CleanJoined(segs: seq<string>)
    requires segs != [] && AllProper(segs)
    ensures CleanPath("/" + Join(segs, '/')) == segs
  {
    assert forall p :: p in [""] + segs ==> '/' !in p by {
      assert forall i :: 0 <= i < |segs| ==> Proper(segs[i]);
    }
    JoinFirst("", segs, '/');
    assert "" + ['/'] + Join(segs, '/') == "/" + Join(segs, '/');
    SplitJoin([""] + segs, '/');
    CleanLeadingEmpty(segs);
  }

  /** filepath.Rel between clean rooted paths: ".." for each left-over base segment, then the rest. */
  function Rel(base: seq<string>, target: seq<string>): seq<string> {
    if base == [] then target
    else if target != [] && base[0] == target[0] then Rel(base[1..], target[1..])
    else seq(|base|, i => "..") + target
  }

  /** withinRoot. */
  predicate WithinRoot(root: seq<string>, abs: seq<string>) {
    abs != root &&
    var rel := Rel(root, abs);
    rel != [] && rel[0] != ".."
  }

  /** withinRoot accepts exactly the paths strictly below the root. */
  lemma {:induction false} WithinRootIff(root: seq<string>, abs: seq<string>)
    requires AllProper(root) && AllProper(abs)
    ensures WithinRoot(root, abs) <==> root < abs
    ensures root <= abs ==> Rel(root, abs) == abs[|root|..]
  {
    if root != [] && abs != [] && root[0] == abs[0] {
      WithinRootIff(root[1..], abs[1..]);
      HeadTail(root, abs);
      assert root <= abs ==> abs[1..][|root| - 1..] == abs[|root|..];
    } else if root == [] {
      assert abs != [] ==> Proper(abs[0]);
    }
  }

  // -------------------------------------------------------------------- prefix

  function TrimSlashes(p: string): string { TrimRightSlash(TrimLeftSlash(p)) }

  function TrimLeftSlash(p: string): string {
    if p != "" && p[0] == '/' then TrimLeftSlash(p[1..]) else p
  }

  function TrimRightSlash(p: string): string {
    if p != "" && p[|p| - 1] == '/' then TrimRightSlash(p[..|p| - 1]) else p
  }

  /** NormalizePrefix.  Clean is the identity on what passes the segment loop, see PrefixIsClean. */
  function NormalizePrefix(prefix: string): Option<string> {
    var p := TrimSpace(prefix);
    if p == "" || p[0] == '/' then None
    else
      var t := TrimSlashes(p);
      if t == "" || '\\' in t || !AllProper(Split(t, '/')) then None else Some(Join(CleanPath(t), '/'))
  }

  /** The prefix check as the loop over segments runs it. */
  method CheckPrefix(prefix: string) returns (r: Option<string>)
    ensures r == NormalizePrefix(prefix)
  {
    hide TrimSpace, TrimSlashes;
    var p := TrimSpace(prefix);
    if p == "" || p[0] == '/' {
      return None;
    }
    p := TrimSlashes(p);
    if p == "" || '\\' in p {
      return None;
    }
    var segs := Split(p, '/');
    SplitParts(p, '/');
    for i := 0 to |segs|
      invariant forall j :: 0 <= j < i ==> Proper(segs[j])
    {
      if segs[i] == "" || segs[i] == "." || segs[i] == ".." {
        assert !Proper(segs[i]);
        return None;
      }
      assert segs[i] in segs;
    }
    return Some(Join(CleanPath(p), '/'));
  }

  /** An accepted prefix is its own clean form: a non-empty list of proper segments. */
  lemma PrefixIsClean(prefix: string)
    requires NormalizePrefix(prefix).Some?
    ensures var p := NormalizePrefix(prefix).value;
      p == TrimSlashes(TrimSpace(prefix)) && AllProper(Split(p, '/'))
  {
    hide TrimSpace, TrimSlashes;
    var t := TrimSlashes(TrimSpace(prefix));
    SplitParts(t, '/');
    CleanProper(Split(t, '/'));
    JoinSplit(t, '/');
  }

  // -------------------------------------------------------------------- digests

  predicate LowerHex(s: string) {
    forall i :: 0 <= i < |s| ==> '0' <= s[i] <= '9' || 'a' <= s[i] <= 'f'
  }

  type Hex32 = s: string | |s| == 32 && LowerHex(s) witness seq(32, i => '0')
  type Hex64 = s: string | |s| == 64 && LowerHex(s) witness seq(64, i => '0')

  /** The two digest functions, kept abstract. */
  datatype Hasher = Hasher(md5: string -> Hex32, sha256: string -> Hex64)

  /** HexLength. */
  function HexLength(alg: string): Option<nat> {
    if alg == "md5" then Some(32) else if alg == "sha256" then Some(64) else None
  }

  predicate IsDigest(s: string, alg: string) {
    HexLength(alg) == Some(|s|) && LowerHex(s)
  }

  /** ValidHex. */
  method ValidHex(s: string, alg: string) returns (ok: bool)
    ensures ok == IsDigest(s, alg)
  {
    if HexLength(alg) != Some(|s|) {
      return false;
    }
    for i := 0 to |s|
      invariant forall j :: 0 <= j < i ==> '0' <= s[j] <= '9' || 'a' <= s[j] <= 'f'
    {
      if !('0' <= s[i] <= '9' || 'a' <= s[i] <= 'f') {
        return false;
      }
    }
    return true;
  }

  /** hash.String and hash.Reader. */
  function HashString(h: Hasher, s: string, alg: string): (r: Option<string>)
    ensures r.Some? ==> IsDigest(r.value, alg)
    ensures r.Some? <==> HexLength(alg).Some?
  {
    if alg == "md5" then Some(h.md5(s)) else if alg == "sha256" then Some(h.sha256(s)) else None
  }

  /** hash.Directory. */
  function DirectoryHash(h: Hasher, dir: string, alg: string): Option<string> {
    if dir == "" || dir[0] == '/' || dir == "." then None else HashString(h, dir, alg)
  }

  /** hash.Filename. */
  function FilenameHash(h: Hasher, name: string, alg: string): Option<string> {
    if name == "" || '/' in name then None else HashString(h, name, alg)
  }

  // ------------------------------------------------------------------ namespace

  /** The settings a scan depends on; `rest` stands for the other fields of the struct. */
  datatype ServerConfig = ServerConfig(containerRoot: string, sharePrefix: string, hashTarget: string, hashAlgorithm: string, rest: string)

  /** NamespaceRoot of an absolute container root. */
  function RootSegs(cfg: ServerConfig): (r: seq<string>)
    ensures AllProper(r)
  {
    CleanPath(cfg.containerRoot)
  }

  /** sharedTop: the first segment of the shared prefix, or empty. */
  function SharedTop(cfg: ServerConfig): string {
    match NormalizePrefix(cfg.sharePrefix)
    case None => ""
    case Some(p) => Split(p, '/')[0]
  }

  /** IsEligibleNamespace. */
  predicate Eligible(cfg: ServerConfig, name: string) {
    && Proper(name) && '\\' !in name
    && ((NormalizePrefix(cfg.sharePrefix).Some? && name == SharedTop(cfg)) || Keys.NameShape(name))
  }

  /** The shared top directory of an accepted prefix is itself a servable namespace. */
  lemma SharedTopEligible(cfg: ServerConfig)
    requires NormalizePrefix(cfg.sharePrefix).Some?
    ensures Eligible(cfg, SharedTop(cfg))
  {
    PrefixIsClean(cfg.sharePrefix);
    var p := NormalizePrefix(cfg.sharePrefix).value;
    hide TrimSpace, TrimSlashes;
    var top := Split(p, '/')[0];
    assert Proper(top);
    assert top == p[..IndexOf(p, '/')];
    assert '\\' !in p;
  }

  // ----------------------------------------------------------- laws of the parts

  predicate NoSlashes(segs: seq<string>) { forall i :: 0 <= i < |segs| ==> '/' !in segs[i] }

  /** Clean drops empty and "." segments, ".." undoes one, and nothing climbs above the root. */
  lemma CleanLaws(segs: seq<string>, name: string)
    requires NoSlashes(segs) && Proper(name)
    ensures NoSlashes(segs + [""]) && CleanRooted(segs + [""]) == CleanRooted(segs)
    ensures NoSlashes(segs + ["."]) && CleanRooted(segs + ["."]) == CleanRooted(segs)
    ensures NoSlashes(segs + [name]) && CleanRooted(segs + [name]) == CleanRooted(segs) + [name]
    ensures NoSlashes(segs + [name] + [".."]) && CleanRooted(segs + [name] + [".."]) == CleanRooted(segs)
    ensures CleanRooted([".."]) == []
  {
    CleanSnoc(segs, "");
    CleanSnoc(segs, ".");
    CleanSnoc(segs, name);
    CleanSnoc(segs + [name], "..");
    CleanSnoc([], "..");
    assert [] + [".."] == [".."];
    hide CleanRooted;
    var done := CleanRooted(segs);
    assert (done + [name])[..|done|] == done;
  }

  lemma CleanSnoc(segs: seq<string>, last: string)
    requires NoSlashes(segs) && '/' !in last
    ensures NoSlashes(segs + [last])
    ensures var done := CleanRooted(segs);
      CleanRooted(segs + [last]) ==
        if last == "" || last == "." then done
        else if last == ".." then (if done == [] then [] else done[..|done| - 1])
        else done + [last]
  {
    assert (segs + [last])[..|segs|] == segs;
  }

  /** A well-formed digest in plain letters. */
  lemma DigestIff(s: string, alg: string)
    ensures IsDigest(s, alg) <==>
      && ((alg == "md5" && |s| == 32) || (alg == "sha256" && |s| == 64))
      && forall i :: 0 <= i < |s| ==> s[i] in "0123456789abcdef"
  {
    forall i | 0 <= i < |s| ensures ('0' <= s[i] <= '9' || 'a' <= s[i] <= 'f') <==> s[i] in "0123456789abcdef" {
      HexLetters(s[i]);
    }
  }

  lemma HexLetters(c: char)
    ensures ('0' <= c <= '9' || 'a' <= c <= 'f') <==> c in "0123456789abcdef"
  {}

  function Slashes(k: nat): string { seq(k, i => '/') }

  /** The trimmed prefix is proper segments joined by slashes, without a backslash, perhaps followed by slashes. */
  predicate PrefixOf(prefix: string, segs: seq<string>, k: nat) {
    segs != [] && AllProper(segs) && '\\' !in Join(segs, '/') && TrimSpace(prefix) == Join(segs, '/') + Slashes(k)
  }

  lemma {:induction false} JoinEnds(segs: seq<string>)
    requires segs != [] && AllProper(segs)
    ensures var t := Join(segs, '/'); t != "" && t[0] != '/' && t[|t| - 1] != '/'
  {
    assert Proper(segs[0]);
    if |segs| > 1 {
      JoinEnds(segs[1..]);
    }
  }

  lemma {:induction false} TrimSlashTail(t: string, k: nat)
    requires t != "" && t[|t| - 1] != '/'
    ensures TrimRightSlash(t + Slashes(k)) == t
  {
    if k == 0 {
      assert t + Slashes(0) == t;
    } else {
      var s := t + Slashes(k);
      assert s[..|s| - 1] == t + Slashes(k - 1);
      TrimSlashTail(t, k - 1);
    }
  }

  lemma {:induction false} SlashTail(p: string)
    ensures TrimRightSlash(p) <= p && p == TrimRightSlash(p) + Slashes(|p| - |TrimRightSlash(p)|)
  {
    if p != "" && p[|p| - 1] == '/' {
      var init := p[..|p| - 1];
      SlashTail(init);
      var t := TrimRightSlash(p);
      assert p == init + "/";
      assert Slashes(|p| - |t|) == Slashes(|init| - |t|) + "/";
    } else {
      assert p == p + Slashes(0);
    }
  }

  lemma PrefixTaken(prefix: string, segs: seq<string>, k: nat)
    requires PrefixOf(prefix, segs, k)
    ensures NormalizePrefix(prefix) == Some(Join(segs, '/')) && Split(Join(segs, '/'), '/') == segs
  {
    hide TrimSpace;
    var t, p := Join(segs, '/'), TrimSpace(prefix);
    JoinEnds(segs);
    assert p[0] == t[0] && TrimLeftSlash(p) == p;
    TrimSlashTail(t, k);
    assert forall x :: x in segs ==> '/' !in x by {
      assert forall i :: 0 <= i < |segs| ==> Proper(segs[i]);
    }
    SplitJoin(segs, '/');
    CleanProper(segs);
    assert '\\' !in t;
  }

  /** A prefix is accepted exactly when it has that form, and stands for its segments. */
  lemma PrefixIff(prefix: string, p: string)
    ensures NormalizePrefix(prefix) == Some(p) <==> exists segs, k :: PrefixOf(prefix, segs, k) && p == Join(segs, '/')
  {
    hide TrimSpace;
    forall segs, k | PrefixOf(prefix, segs, k) ensures NormalizePrefix(prefix) == Some(Join(segs, '/')) {
      PrefixTaken(prefix, segs, k);
    }
    if NormalizePrefix(prefix) == Some(p) {
      PrefixIsClean(prefix);
      var t := TrimSpace(prefix);
      assert TrimLeftSlash(t) == t;
      SlashTail(t);
      var segs, k := Split(p, '/'), |t| - |p|;
      JoinSplit(p, '/');
      assert PrefixOf(prefix, segs, k) && p == Join(segs, '/');
    }
  }

  /** What can be a namespace: a login name, or the first segment of the shared prefix. */
  lemma EligibleIff(cfg: ServerConfig, name: string)
    ensures Eligible(cfg, name) <==>
      Keys.NameShape(name) || exists segs, k :: PrefixOf(cfg.sharePrefix, segs, k) && name == segs[0]
  {
    NameIsSegment(name);
    hide Keys.NameShape, NormalizePrefix;
    forall segs, k | PrefixOf(cfg.sharePrefix, segs, k)
      ensures NormalizePrefix(cfg.sharePrefix).Some? && SharedTop(cfg) == segs[0]
    {
      PrefixTaken(cfg.sharePrefix, segs, k);
    }
    if NormalizePrefix(cfg.sharePrefix).Some? {
      var p := NormalizePrefix(cfg.sharePrefix).value;
      PrefixIff(cfg.sharePrefix, p);
      var segs, k :| PrefixOf(cfg.sharePrefix, segs, k) && p == Join(segs, '/');
      SharedTopEligible(cfg);
    }
  }

  lemma NameIsSegment(name: string)
    ensures Keys.NameShape(name) ==> Proper(name) && '\\' !in name
  {
    assert !Keys.NameChar('/') && !Keys.NameChar('\\') && !Keys.NameChar('.');
    if Keys.NameShape(name) {
      assert Keys.NameChar(name[0]);
    }
  }

  /** The shared top directory is the first segment of an accepted prefix. */
  lemma SharedTopIs(cfg: ServerConfig, segs: seq<string>, k: nat)
    requires PrefixOf(cfg.sharePrefix, segs, k)
    ensures SharedTop(cfg) == segs[0]
  {
    hide NormalizePrefix;
    PrefixTaken(cfg.sharePrefix, segs, k);
  }
}
