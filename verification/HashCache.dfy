/**
 The content-hash cache of internal/store/store.go: the scan that uses it, what
 its keys identify, and which tree a cached scan sees.
 */
module HashCache {
  import opened Text
  import opened Config
  import opened Listing

  datatype Cached = Cached(size: nat, mtime: int, hash: string)
  type Cache = map<string, Cached>

  const NUL: char := '\0'

  /** The absolute path text of segments. */
  function AbsText(segs: seq<string>): string { "/" + Join(segs, '/') }

  /** The NUL-joined cache key. */
  function CacheKey(cfg: ServerConfig, path: seq<string>): string {
    AbsText(RootSegs(cfg) + path) + [NUL] + (cfg.hashAlgorithm + [NUL] + cfg.hashTarget)
  }

  /** contentHash. */
  function CachedHash(h: Hasher, cfg: ServerConfig, cache: Cache, path: seq<string>, info: FileInfo): (Cache, Hashing) {
    var key := CacheKey(cfg, path);
    if key in cache && cache[key].size == info.size && cache[key].mtime == info.mtime then (cache, Hashed(cache[key].hash))
    else
      match DataHash(h, cfg, info.data)
      case Hashed(x) => (cache[key := Cached(info.size, info.mtime, x)], Hashed(x))
      case other => (cache, other)
  }

  function FileC(h: Hasher, cfg: ServerConfig, cache: Cache, path: seq<string>, info: FileInfo): (Cache, Scan)
    requires path != []
  {
    if !DirHashable(h, cfg, path) then (cache, Ok([]))
    else if cfg.hashTarget == "filename" then (cache, FileScan(h, cfg, path, info.size, NameHash(h, cfg, path[|path| - 1])))
    else
      var (after, x) := CachedHash(h, cfg, cache, path, info);
      (after, FileScan(h, cfg, path, info.size, x))
  }

  function WalkNodeC(h: Hasher, cfg: ServerConfig, cache: Cache, path: seq<string>, node: Node): (Cache, Scan)
    requires path != []
    decreases node
  {
    match node
    case Link => (cache, Ok([]))
    case Special => (cache, Ok([]))
    case File(info) => FileC(h, cfg, cache, path, info)
    case Dir(Denied, _) => (cache, Ok([]))
    case Dir(Broken, _) => (cache, Fail)
    case Dir(Open, cs) => WalkChildrenC(h, cfg, cache, path, cs)
  }

  function WalkChildrenC(h: Hasher, cfg: ServerConfig, cache: Cache, path: seq<string>, cs: seq<Child>): (Cache, Scan)
    requires path != []
    decreases cs
  {
    if cs == [] then (cache, Ok([]))
    else
      var (c1, a) := WalkNodeC(h, cfg, cache, path + [cs[0].name], cs[0].node);
      if a.Fail? then (c1, Fail)
      else
        var (c2, b) := WalkChildrenC(h, cfg, c1, path, cs[1..]);
        (c2, Cat(a, b))
  }

  function ScanTopC(h: Hasher, cfg: ServerConfig, cache: Cache, cs: seq<Child>): (Cache, Scan)
    decreases cs
  {
    if cs == [] then (cache, Ok([]))
    else
      var (c1, a) := if cs[0].node.Dir? && Eligible(cfg, cs[0].name)
                     then WalkNodeC(h, cfg, cache, [cs[0].name], cs[0].node) else (cache, Ok([]));
      if a.Fail? then (c1, Fail)
      else
        var (c2, b) := ScanTopC(h, cfg, c1, cs[1..]);
        (c2, Cat(a, b))
  }

  /** scan. */
  function CachedScan(h: Hasher, cfg: ServerConfig, cache: Cache, root: Node): (Cache, Scan) {
    match root
    case Dir(Denied, _) => (cache, Ok([]))
    case Dir(Open, cs) =>
      var (after, s) := ScanTopC(h, cfg, cache, cs);
      (after, SortScan(s))
    case _ => (cache, Fail)
  }

  // ----------------------------------------------------------------- cache keys

  predicate Plain(path: seq<string>) { forall i :: 0 <= i < |path| ==> NameOk(path[i]) }

  lemma {:induction false} JoinHasNoNul(segs: seq<string>)
    requires forall i :: 0 <= i < |segs| ==> NUL !in segs[i]
    ensures NUL !in Join(segs, '/')
  {
    if |segs| > 1 {
      JoinHasNoNul(segs[1..]);
    }
  }

  lemma AbsTextInjective(a: seq<string>, b: seq<string>)
    requires a != [] && b != [] && AllProper(a) && AllProper(b)
    requires AbsText(a) == AbsText(b)
    ensures a == b
  {
    CleanJoined(a);
    CleanJoined(b);
  }

  lemma SameCut(a: string, x: string, b: string, y: string)
    requires NUL !in a && NUL !in b && a + [NUL] + x == b + [NUL] + y
    ensures a == b && x == y
  {
    IndexOfConcat(a, NUL, x);
    IndexOfConcat(b, NUL, y);
    CutAt(a, NUL, x);
    CutAt(b, NUL, y);
  }

  predicate NoNulIn(segs: seq<string>) { forall i :: 0 <= i < |segs| ==> NUL !in segs[i] }

  /** Equal cache keys mean the same file, algorithm and target, even across configurations. */
  lemma CacheKeyInjective(cfg: ServerConfig, p: seq<string>, cfg': ServerConfig, q: seq<string>)
    requires p != [] && q != [] && Plain(p) && Plain(q)
    requires NoNulIn(RootSegs(cfg)) && NoNulIn(RootSegs(cfg'))
    requires NUL !in cfg.hashAlgorithm && NUL !in cfg'.hashAlgorithm
    requires CacheKey(cfg, p) == CacheKey(cfg', q)
    ensures RootSegs(cfg) + p == RootSegs(cfg') + q
    ensures cfg.hashAlgorithm == cfg'.hashAlgorithm && cfg.hashTarget == cfg'.hashTarget
  {
    var a, b := RootSegs(cfg) + p, RootSegs(cfg') + q;
    PlainAbs(cfg, p);
    PlainAbs(cfg', q);
    hide CleanPath, RootSegs;
    SameCut(AbsText(a), cfg.hashAlgorithm + [NUL] + cfg.hashTarget, AbsText(b), cfg'.hashAlgorithm + [NUL] + cfg'.hashTarget);
    SameCut(cfg.hashAlgorithm, cfg.hashTarget, cfg'.hashAlgorithm, cfg'.hashTarget);
    AbsTextInjective(a, b);
  }

  lemma PlainAbs(cfg: ServerConfig, p: seq<string>)
    requires p != [] && Plain(p) && NoNulIn(RootSegs(cfg))
    ensures RootSegs(cfg) + p != [] && AllProper(RootSegs(cfg) + p) && NUL !in AbsText(RootSegs(cfg) + p)
  {
    hide CleanPath, RootSegs;
    var a := RootSegs(cfg) + p;
    forall i | 0 <= i < |a| ensures Proper(a[i]) && NUL !in a[i] {
      if i < |RootSegs(cfg)| {
        assert a[i] == RootSegs(cfg)[i];
      } else {
        assert NameOk(p[i - |RootSegs(cfg)|]);
      }
    }
    JoinHasNoNul(a);
  }

  // ------------------------------------------------------------------ coherence

  /** The contents that an absolute path, size and mtime name, fixed for a whole run. */
  type World = (seq<string>, nat, int) -> string

  /** Every readable file in open directories has the contents the world says. */
  predicate Agrees(world: World, at: seq<string>, node: Node)
    decreases node
  {
    match node
    case File(info) => info.data.Bytes? ==> info.data.content == world(at, info.size, info.mtime)
    case Dir(Open, cs) => AgreesIn(world, at, cs)
    case _ => true
  }

  predicate AgreesIn(world: World, at: seq<string>, cs: seq<Child>)
    decreases cs
  {
    cs != [] ==> Agrees(world, at + [cs[0].name], cs[0].node) && AgreesIn(world, at, cs[1..])
  }

  /** Every cached hash is the hash of what the world has under the cached size and mtime. */
  ghost predicate Coherent(h: Hasher, cfg: ServerConfig, world: World, cache: Cache) {
    forall p :: p != [] && Plain(p) && CacheKey(cfg, p) in cache ==> TrueHash(h, cfg, world, p, cache[CacheKey(cfg, p)])
  }

  predicate TrueHash(h: Hasher, cfg: ServerConfig, world: World, p: seq<string>, c: Cached) {
    HashString(h, world(RootSegs(cfg) + p, c.size, c.mtime), cfg.hashAlgorithm) == Some(c.hash)
  }

  predicate KeysUsable(cfg: ServerConfig) { NoNulIn(RootSegs(cfg)) && NUL !in cfg.hashAlgorithm }

  lemma SameKeySamePath(cfg: ServerConfig, p: seq<string>, q: seq<string>)
    requires KeysUsable(cfg) && p != [] && q != [] && Plain(p) && Plain(q) && CacheKey(cfg, p) == CacheKey(cfg, q)
    ensures p == q
  {
    CacheKeyInjective(cfg, p, cfg, q);
    hide RootSegs;
    DropRoot(RootSegs(cfg), p, q);
  }

  lemma DropRoot<T>(root: seq<T>, p: seq<T>, q: seq<T>)
    requires root + p == root + q
    ensures p == q
  {
    assert (root + p)[|root|..] == p && (root + q)[|root|..] == q;
  }

  /** The cache answers for the file at `path` without reading it. */
  predicate Hit(cfg: ServerConfig, cache: Cache, path: seq<string>, info: FileInfo) {
    var key := CacheKey(cfg, path);
    key in cache && cache[key].size == info.size && cache[key].mtime == info.mtime
  }

  // ------------------------------------------------- what the cached scan sees

  /** The file as a cached scan sees it: one that can no longer be read keeps its contents while the cache answers for it. */
  function SeenFile(cfg: ServerConfig, world: World, cache: Cache, path: seq<string>, info: FileInfo): FileInfo {
    if !info.data.Bytes? && Hit(cfg, cache, path, info)
    then info.(data := Bytes(world(RootSegs(cfg) + path, info.size, info.mtime))) else info
  }

  function Seen(cfg: ServerConfig, world: World, cache: Cache, path: seq<string>, node: Node): Node
    decreases node
  {
    match node
    case File(info) => File(SeenFile(cfg, world, cache, path, info))
    case Dir(access, cs) => Dir(access, SeenIn(cfg, world, cache, path, cs))
    case other => other
  }

  function SeenIn(cfg: ServerConfig, world: World, cache: Cache, path: seq<string>, cs: seq<Child>): (r: seq<Child>)
    decreases cs
  {
    if cs == [] then []
    else [Child(cs[0].name, Seen(cfg, world, cache, path + [cs[0].name], cs[0].node))] + SeenIn(cfg, world, cache, path, cs[1..])
  }

  /** The two caches say the same about every path below `path`. */
  ghost predicate SameBelow(cfg: ServerConfig, path: seq<string>, a: Cache, b: Cache) {
    forall p :: path <= p && p != [] && Plain(p) ==> SameAt(a, b, CacheKey(cfg, p))
  }

  predicate SameAt(a: Cache, b: Cache, key: string) {
    (key in a <==> key in b) && (key in a ==> a[key] == b[key])
  }

  /** A walk below `path` leaves the cache alone for every path elsewhere. */
  lemma {:induction false} WalkTouches(h: Hasher, cfg: ServerConfig, cache: Cache, path: seq<string>, node: Node, p: seq<string>)
    requires KeysUsable(cfg) && path != [] && Plain(path) && Wf(node) && p != [] && Plain(p) && !(path <= p)
    ensures SameAt(cache, WalkNodeC(h, cfg, cache, path, node).0, CacheKey(cfg, p))
    decreases node
  {
    hide Plain, KeysUsable, CacheKey, DataHash, FileScan;
    match node
    case File(info) =>
      if CacheKey(cfg, p) == CacheKey(cfg, path) {
        SameKeySamePath(cfg, p, path);
      }
    case Dir(Open, cs) => WalkChildrenTouch(h, cfg, cache, path, cs, p);
    case _ =>
  }

  lemma {:induction false} WalkChildrenTouch(h: Hasher, cfg: ServerConfig, cache: Cache, path: seq<string>, cs: seq<Child>, p: seq<string>)
    requires KeysUsable(cfg) && path != [] && Plain(path) && WfChildren(cs) && p != [] && Plain(p)
    requires forall i :: 0 <= i < |cs| ==> !(path + [cs[i].name] <= p)
    ensures SameAt(cache, WalkChildrenC(h, cfg, cache, path, cs).0, CacheKey(cfg, p))
    decreases cs
  {
    hide Plain, KeysUsable, CacheKey, FileC;
    if cs != [] {
      var sub := path + [cs[0].name];
      PlainAppend(path, cs[0].name);
      WalkTouches(h, cfg, cache, sub, cs[0].node, p);
      WalkChildrenTouch(h, cfg, WalkNodeC(h, cfg, cache, sub, cs[0].node).0, path, cs[1..], p);
    }
  }

  lemma {:induction false} SeenSame(cfg: ServerConfig, world: World, a: Cache, b: Cache, path: seq<string>, node: Node)
    requires path != [] && Plain(path) && Wf(node) && SameBelow(cfg, path, a, b)
    ensures Seen(cfg, world, a, path, node) == Seen(cfg, world, b, path, node)
    decreases node
  {
    hide Plain, CacheKey;
    match node
    case File(info) => assert SameAt(a, b, CacheKey(cfg, path));
    case Dir(_, cs) =>
      forall i | 0 <= i < |cs| ensures SameBelow(cfg, path + [cs[i].name], a, b) {}
      SeenSameIn(cfg, world, a, b, path, cs);
    case _ =>
  }

  lemma {:induction false} SeenSameIn(cfg: ServerConfig, world: World, a: Cache, b: Cache, path: seq<string>, cs: seq<Child>)
    requires Plain(path) && WfChildren(cs) && forall i :: 0 <= i < |cs| ==> SameBelow(cfg, path + [cs[i].name], a, b)
    ensures SeenIn(cfg, world, a, path, cs) == SeenIn(cfg, world, b, path, cs)
    decreases cs
  {
    hide Plain, CacheKey, SameBelow;
    if cs != [] {
      PlainAppend(path, cs[0].name);
      assert SameBelow(cfg, path + [cs[0].name], a, b);
      SeenSame(cfg, world, a, b, path + [cs[0].name], cs[0].node);
      SeenSameIn(cfg, world, a, b, path, cs[1..]);
    }
  }

  /** Siblings do not share paths, so walking the first leaves what is seen of the others. */
  lemma SiblingsApart(h: Hasher, cfg: ServerConfig, world: World, cache: Cache, path: seq<string>, cs: seq<Child>)
    requires KeysUsable(cfg) && Plain(path) && cs != [] && WfChildren(cs)
    ensures var after := WalkNodeC(h, cfg, cache, path + [cs[0].name], cs[0].node).0;
      SeenIn(cfg, world, cache, path, cs[1..]) == SeenIn(cfg, world, after, path, cs[1..])
  {
    hide Plain, KeysUsable, CacheKey, SeenIn, WalkNodeC;
    var sub := path + [cs[0].name];
    var after := WalkNodeC(h, cfg, cache, sub, cs[0].node).0;
    var rest := cs[1..];
    PlainAppend(path, cs[0].name);
    forall i | 0 <= i < |rest| ensures SameBelow(cfg, path + [rest[i].name], cache, after) {
      assert rest[i] == cs[i + 1];
      forall p | path + [rest[i].name] <= p && p != [] && Plain(p) ensures SameAt(cache, after, CacheKey(cfg, p)) {
        assert p[|path|] == (path + [rest[i].name])[|path|];
        assert !(sub <= p) by {
          assert sub[|path|] == cs[0].name;
        }
        WalkTouches(h, cfg, cache, sub, cs[0].node, p);
      }
    }
    SeenSameIn(cfg, world, cache, after, path, rest);
  }

  /** Walking the later siblings leaves what is seen of the first. */
  lemma FirstApart(h: Hasher, cfg: ServerConfig, world: World, cache: Cache, path: seq<string>, cs: seq<Child>)
    requires KeysUsable(cfg) && path != [] && Plain(path) && cs != [] && WfChildren(cs)
    ensures var sub, after := path + [cs[0].name], WalkChildrenC(h, cfg, cache, path, cs[1..]).0;
      Seen(cfg, world, cache, sub, cs[0].node) == Seen(cfg, world, after, sub, cs[0].node)
  {
    hide Plain, KeysUsable, CacheKey, Seen, WalkChildrenC;
    var sub, rest := path + [cs[0].name], cs[1..];
    var after := WalkChildrenC(h, cfg, cache, path, rest).0;
    PlainAppend(path, cs[0].name);
    forall p | sub <= p && p != [] && Plain(p) ensures SameAt(cache, after, CacheKey(cfg, p)) {
      assert p[|path|] == sub[|path|];
      forall i | 0 <= i < |rest| ensures !(path + [rest[i].name] <= p) {
        assert rest[i] == cs[i + 1];
        assert (path + [rest[i].name])[|path|] == rest[i].name;
      }
      WalkChildrenTouch(h, cfg, cache, path, rest, p);
    }
    SeenSame(cfg, world, cache, after, sub, cs[0].node);
  }

  /** A walk never changes which files the cache answers for without reading. */
  lemma {:induction false} WalkKeepsSeen(h: Hasher, cfg: ServerConfig, world: World, cache: Cache, path: seq<string>, node: Node)
    requires KeysUsable(cfg) && path != [] && Plain(path) && Wf(node)
    ensures Seen(cfg, world, WalkNodeC(h, cfg, cache, path, node).0, path, node) == Seen(cfg, world, cache, path, node)
    decreases node
  {
    hide Plain, KeysUsable, CacheKey, RootSegs, FileScan;
    match node
    case File(info) =>
    case Dir(Open, cs) => WalkInKeepsSeen(h, cfg, world, cache, path, cs);
    case _ =>
  }

  lemma {:induction false} WalkInKeepsSeen(h: Hasher, cfg: ServerConfig, world: World, cache: Cache, path: seq<string>, cs: seq<Child>)
    requires KeysUsable(cfg) && path != [] && Plain(path) && WfChildren(cs)
    ensures SeenIn(cfg, world, WalkChildrenC(h, cfg, cache, path, cs).0, path, cs) == SeenIn(cfg, world, cache, path, cs)
    decreases cs
  {
    hide Plain, KeysUsable, CacheKey, FileC, SeenFile;
    if cs != [] {
      var sub := path + [cs[0].name];
      var c1 := WalkNodeC(h, cfg, cache, sub, cs[0].node).0;
      PlainAppend(path, cs[0].name);
      WalkKeepsSeen(h, cfg, world, cache, sub, cs[0].node);
      SiblingsApart(h, cfg, world, cache, path, cs);
      WalkInKeepsSeen(h, cfg, world, c1, path, cs[1..]);
      FirstApart(h, cfg, world, c1, path, cs);
    }
  }

  lemma {:induction false} TopTouches(h: Hasher, cfg: ServerConfig, cache: Cache, cs: seq<Child>, p: seq<string>)
    requires KeysUsable(cfg) && WfChildren(cs) && p != [] && Plain(p)
    requires forall i :: 0 <= i < |cs| ==> cs[i].name != p[0]
    ensures SameAt(cache, ScanTopC(h, cfg, cache, cs).0, CacheKey(cfg, p))
    decreases cs
  {
    hide KeysUsable, CacheKey, FileC, Eligible, Proper;
    if cs != [] {
      var c := cs[0];
      if c.node.Dir? && Eligible(cfg, c.name) {
        assert Plain([c.name]) && [c.name][0] != p[0];
        WalkTouches(h, cfg, cache, [c.name], c.node, p);
        TopTouches(h, cfg, WalkNodeC(h, cfg, cache, [c.name], c.node).0, cs[1..], p);
      } else {
        TopTouches(h, cfg, cache, cs[1..], p);
      }
    }
  }

  lemma TopFirstApart(h: Hasher, cfg: ServerConfig, world: World, cache: Cache, cs: seq<Child>)
    requires KeysUsable(cfg) && cs != [] && WfChildren(cs)
    ensures var after := ScanTopC(h, cfg, cache, cs[1..]).0;
      Seen(cfg, world, cache, [cs[0].name], cs[0].node) == Seen(cfg, world, after, [cs[0].name], cs[0].node)
  {
    hide KeysUsable, CacheKey, Seen, ScanTopC, Proper;
    var sub, rest := [cs[0].name], cs[1..];
    var after := ScanTopC(h, cfg, cache, rest).0;
    assert Plain(sub);
    hide Plain;
    forall p | sub <= p && p != [] && Plain(p) ensures SameAt(cache, after, CacheKey(cfg, p)) {
      assert p[0] == sub[0];
      assert forall i :: 0 <= i < |rest| ==> rest[i] == cs[i + 1];
      TopTouches(h, cfg, cache, rest, p);
    }
    SeenSame(cfg, world, cache, after, sub, cs[0].node);
  }

  lemma {:induction false} TopKeepsSeen(h: Hasher, cfg: ServerConfig, world: World, cache: Cache, cs: seq<Child>)
    requires KeysUsable(cfg) && WfChildren(cs)
    ensures SeenIn(cfg, world, ScanTopC(h, cfg, cache, cs).0, [], cs) == SeenIn(cfg, world, cache, [], cs)
    decreases cs
  {
    hide KeysUsable, CacheKey, FileC, SeenFile, Eligible, Proper;
    if cs != [] {
      var c := cs[0];
      assert [] + [c.name] == [c.name];
      assert Plain([c.name]);
      var walked := c.node.Dir? && Eligible(cfg, c.name);
      var c1 := if walked then WalkNodeC(h, cfg, cache, [c.name], c.node).0 else cache;
      if walked {
        WalkKeepsSeen(h, cfg, world, cache, [c.name], c.node);
        SiblingsApart(h, cfg, world, cache, [], cs);
      }
      TopKeepsSeen(h, cfg, world, c1, cs[1..]);
      TopFirstApart(h, cfg, world, c1, cs);
    }
  }

  /** A scan leaves a cache under which the same tree is seen the same way. */
  lemma ScanKeepsSeen(h: Hasher, cfg: ServerConfig, world: World, cache: Cache, root: Node)
    requires KeysUsable(cfg) && Wf(root)
    ensures Seen(cfg, world, CachedScan(h, cfg, cache, root).0, [], root) == Seen(cfg, world, cache, [], root)
  {
    hide KeysUsable, ScanTopC, SeenFile, Sort;
    if root.Dir? && root.access.Open? {
      TopKeepsSeen(h, cfg, world, cache, root.children);
    }
  }

  lemma CachedHashAgrees(h: Hasher, cfg: ServerConfig, world: World, cache: Cache, path: seq<string>, info: FileInfo)
    requires KeysUsable(cfg) && path != [] && Plain(path) && Coherent(h, cfg, world, cache)
    requires info.data.Bytes? ==> info.data.content == world(RootSegs(cfg) + path, info.size, info.mtime)
    ensures CachedHash(h, cfg, cache, path, info).1 == DataHash(h, cfg, SeenFile(cfg, world, cache, path, info).data)
    ensures Coherent(h, cfg, world, CachedHash(h, cfg, cache, path, info).0)
  {
    hide CacheKey, RootSegs, HashString, Plain, KeysUsable;
    var key := CacheKey(cfg, path);
    var after := CachedHash(h, cfg, cache, path, info).0;
    assert key in cache ==> TrueHash(h, cfg, world, path, cache[key]);
    forall p | p != [] && Plain(p) && CacheKey(cfg, p) in after
      ensures TrueHash(h, cfg, world, p, after[CacheKey(cfg, p)])
    {
      if CacheKey(cfg, p) == key {
        SameKeySamePath(cfg, p, path);
      } else {
        assert CacheKey(cfg, p) in cache;
      }
    }
  }

  lemma PlainAppend(path: seq<string>, name: string)
    requires Plain(path) && NameOk(name)
    ensures Plain(path + [name])
  {}

  lemma {:induction false} WalkAgrees(h: Hasher, cfg: ServerConfig, world: World, cache: Cache, path: seq<string>, node: Node)
    requires KeysUsable(cfg) && path != [] && Plain(path) && Wf(node) && Coherent(h, cfg, world, cache)
    requires Agrees(world, RootSegs(cfg) + path, node)
    ensures WalkNodeC(h, cfg, cache, path, node).1 == WalkNode(h, cfg, path, Seen(cfg, world, cache, path, node))
    ensures Coherent(h, cfg, world, WalkNodeC(h, cfg, cache, path, node).0)
    decreases node
  {
    hide Coherent, CachedHash, DataHash, RootSegs, Plain, KeysUsable, DirHashable, Hit;
    match node
    case File(info) => CachedHashAgrees(h, cfg, world, cache, path, info);
    case Dir(Open, cs) => WalkChildrenAgrees(h, cfg, world, cache, path, cs);
    case _ =>
  }

  lemma {:induction false} WalkChildrenAgrees(h: Hasher, cfg: ServerConfig, world: World, cache: Cache, path: seq<string>, cs: seq<Child>)
    requires KeysUsable(cfg) && path != [] && Plain(path) && WfChildren(cs) && Coherent(h, cfg, world, cache)
    requires AgreesIn(world, RootSegs(cfg) + path, cs)
    ensures WalkChildrenC(h, cfg, cache, path, cs).1 == WalkChildren(h, cfg, path, SeenIn(cfg, world, cache, path, cs))
    ensures Coherent(h, cfg, world, WalkChildrenC(h, cfg, cache, path, cs).0)
    decreases cs
  {
    hide Coherent, RootSegs, Plain, KeysUsable, FileScan, FileC, SeenFile;
    if cs != [] {
      var sub := path + [cs[0].name];
      PlainAppend(path, cs[0].name);
      assert RootSegs(cfg) + path + [cs[0].name] == RootSegs(cfg) + sub;
      WalkAgrees(h, cfg, world, cache, sub, cs[0].node);
      WalkChildrenAgrees(h, cfg, world, WalkNodeC(h, cfg, cache, sub, cs[0].node).0, path, cs[1..]);
      SiblingsApart(h, cfg, world, cache, path, cs);
      assert SeenIn(cfg, world, cache, path, cs)[1..] == SeenIn(cfg, world, cache, path, cs[1..]);
    }
  }

  lemma {:induction false} TopAgrees(h: Hasher, cfg: ServerConfig, world: World, cache: Cache, cs: seq<Child>)
    requires KeysUsable(cfg) && WfChildren(cs) && Coherent(h, cfg, world, cache)
    requires AgreesIn(world, RootSegs(cfg), cs)
    ensures ScanTopC(h, cfg, cache, cs).1 == ScanTop(h, cfg, SeenIn(cfg, world, cache, [], cs))
    ensures Coherent(h, cfg, world, ScanTopC(h, cfg, cache, cs).0)
    decreases cs
  {
    hide Coherent, RootSegs, KeysUsable, FileScan, FileC, Eligible, Proper, SeenFile;
    if cs != [] {
      var c := cs[0];
      assert [] + [c.name] == [c.name];
      assert SeenIn(cfg, world, cache, [], cs)[1..] == SeenIn(cfg, world, cache, [], cs[1..]);
      if c.node.Dir? && Eligible(cfg, c.name) {
        assert Plain([c.name]);
        WalkAgrees(h, cfg, world, cache, [c.name], c.node);
        SiblingsApart(h, cfg, world, cache, [], cs);
        TopAgrees(h, cfg, world, WalkNodeC(h, cfg, cache, [c.name], c.node).0, cs[1..]);
      } else {
        TopAgrees(h, cfg, world, cache, cs[1..]);
      }
    }
  }

  /** One cached scan over a coherent cache is the fresh scan of the tree it sees, and leaves the cache coherent. */
  lemma ScanAgrees(h: Hasher, cfg: ServerConfig, world: World, cache: Cache, root: Node)
    requires KeysUsable(cfg) && Wf(root) && Coherent(h, cfg, world, cache) && Agrees(world, RootSegs(cfg), root)
    ensures CachedScan(h, cfg, cache, root).1 == FreshScan(h, cfg, Seen(cfg, world, cache, [], root))
    ensures Coherent(h, cfg, world, CachedScan(h, cfg, cache, root).0)
  {
    hide Coherent, RootSegs, KeysUsable, ScanTop, ScanTopC, Sort, SeenFile;
    if root.Dir? && root.access.Open? {
      TopAgrees(h, cfg, world, cache, root.children);
    }
  }
}
