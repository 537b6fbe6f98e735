/**
 Runs of the hash-URL store of internal/store/store.go: file edits, listings,
 resolves and live configuration swaps, and when the content-hash cache shows.
 */
module StoreRuns {
  import opened Text
  import opened Config
  import opened Listing
  import opened HashCache

  datatype StoreState = StoreState(cfg: ServerConfig, cache: Cache, root: Node)

  /** File edits, and the four locked operations. */
  datatype Op =
    | EditFiles(root: Node)
    | List
    | ListWith(cfg: ServerConfig)
    | Resolve(dirHash: string, fileHash: string)
    | ResolveWith(cfg: ServerConfig, dirHash: string, fileHash: string)

  /** setConfigLocked. */
  function SetConfig(s: StoreState, cfg: ServerConfig): StoreState {
    if s.cfg != cfg then s.(cfg := cfg, cache := map[]) else s
  }

  function Before(s: StoreState, op: Op): StoreState {
    match op
    case EditFiles(root) => s.(root := root)
    case List => s
    case ListWith(cfg) => SetConfig(s, cfg)
    case Resolve(_, _) => s
    case ResolveWith(cfg, _, _) => SetConfig(s, cfg)
  }

  /** A malformed pair is refused before any scan. */
  predicate Scans(cfg: ServerConfig, op: Op) {
    match op
    case EditFiles(_) => false
    case List => true
    case ListWith(_) => true
    case Resolve(d, f) => IsDigest(d, cfg.hashAlgorithm) && IsDigest(f, cfg.hashAlgorithm)
    case ResolveWith(_, d, f) => IsDigest(d, cfg.hashAlgorithm) && IsDigest(f, cfg.hashAlgorithm)
  }

  function StepStore(h: Hasher, s: StoreState, op: Op): StoreState {
    var t := Before(s, op);
    if Scans(t.cfg, op) then t.(cache := CachedScan(h, t.cfg, t.cache, t.root).0) else t
  }

  function StoreAfter(h: Hasher, s: StoreState, ops: seq<Op>): StoreState {
    if ops == [] then s else StepStore(h, StoreAfter(h, s, ops[..|ops| - 1]), ops[|ops| - 1])
  }

  /** The moment of operation `i`: the state its scan starts from. */
  function Moment(h: Hasher, s: StoreState, ops: seq<Op>, i: nat): StoreState
    requires i < |ops|
  {
    Before(StoreAfter(h, s, ops[..i]), ops[i])
  }

  predicate Sane(world: World, s: StoreState) {
    KeysUsable(s.cfg) && Wf(s.root) && Agrees(world, RootSegs(s.cfg), s.root)
  }

  /** In no scan of the run do path, size and mtime name other contents than the world's. */
  ghost predicate SaneRun(h: Hasher, world: World, s: StoreState, ops: seq<Op>) {
    forall i: nat :: i < |ops| && Scans(Moment(h, s, ops, i).cfg, ops[i]) ==> Sane(world, Moment(h, s, ops, i))
  }

  lemma SanePrefix(h: Hasher, world: World, s: StoreState, ops: seq<Op>, n: nat)
    requires SaneRun(h, world, s, ops) && n <= |ops|
    ensures SaneRun(h, world, s, ops[..n])
  {
    hide Sane, Scans, Before, StoreAfter;
    var init := ops[..n];
    forall i: nat | i < n && Scans(Moment(h, s, init, i).cfg, init[i]) ensures Sane(world, Moment(h, s, init, i)) {
      assert init[..i] == ops[..i] && init[i] == ops[i];
      assert Moment(h, s, init, i) == Moment(h, s, ops, i);
    }
  }

  lemma EmptyIsCoherent(h: Hasher, cfg: ServerConfig, world: World)
    ensures Coherent(h, cfg, world, map[])
  {}

  lemma {:induction false} CoherentThroughout(h: Hasher, world: World, s: StoreState, ops: seq<Op>)
    requires s.cache == map[] && SaneRun(h, world, s, ops)
    ensures var t := StoreAfter(h, s, ops); Coherent(h, t.cfg, world, t.cache)
  {
    hide Coherent, Sane, CachedScan, Scans;
    if ops == [] {
      EmptyIsCoherent(h, s.cfg, world);
    } else {
      var n := |ops| - 1;
      SanePrefix(h, world, s, ops, n);
      CoherentThroughout(h, world, s, ops[..n]);
      var t := Moment(h, s, ops, n);
      EmptyIsCoherent(h, t.cfg, world);
      if Scans(t.cfg, ops[n]) {
        SaneScan(h, world, t);
      }
    }
  }

  lemma SaneScan(h: Hasher, world: World, t: StoreState)
    requires Sane(world, t) && Coherent(h, t.cfg, world, t.cache)
    ensures CachedScan(h, t.cfg, t.cache, t.root).1 == FreshScan(h, t.cfg, Seen(t.cfg, world, t.cache, [], t.root))
    ensures Coherent(h, t.cfg, world, CachedScan(h, t.cfg, t.cache, t.root).0)
  {
    ScanAgrees(h, t.cfg, world, t.cache, t.root);
  }

  /**
   * What a cached scan gives, over every run of file edits, listings, resolves
   * and configuration swaps in which path, size and mtime never name two
   * different contents: the fresh scan of the tree in which a file the cache
   * answers for counts as readable.
   */
  lemma CachedScanMeans(h: Hasher, world: World, s: StoreState, ops: seq<Op>, i: nat)
    requires s.cache == map[] && SaneRun(h, world, s, ops)
    requires i < |ops| && Scans(Moment(h, s, ops, i).cfg, ops[i])
    ensures var t := Moment(h, s, ops, i);
      CachedScan(h, t.cfg, t.cache, t.root).1 == FreshScan(h, t.cfg, Seen(t.cfg, world, t.cache, [], t.root))
  {
    hide Coherent, Sane, CachedScan, FreshScan, Scans;
    SanePrefix(h, world, s, ops, i);
    CoherentThroughout(h, world, s, ops[..i]);
    var t := Moment(h, s, ops, i);
    EmptyIsCoherent(h, t.cfg, world);
    SaneScan(h, world, t);
  }

  // ------------------------------------------------------- when caching shows

  /** No unreadable file is still answered for by the cache. */
  predicate NoneLost(cfg: ServerConfig, cache: Cache, path: seq<string>, node: Node)
    decreases node
  {
    match node
    case File(info) => info.data.Bytes? || !Hit(cfg, cache, path, info)
    case Dir(_, cs) => NoneLostIn(cfg, cache, path, cs)
    case _ => true
  }

  predicate NoneLostIn(cfg: ServerConfig, cache: Cache, path: seq<string>, cs: seq<Child>)
    decreases cs
  {
    cs != [] ==> NoneLost(cfg, cache, path + [cs[0].name], cs[0].node) && NoneLostIn(cfg, cache, path, cs[1..])
  }

  lemma {:induction false} SeesAll(cfg: ServerConfig, world: World, cache: Cache, path: seq<string>, node: Node)
    requires NoneLost(cfg, cache, path, node)
    ensures Seen(cfg, world, cache, path, node) == node
    decreases node
  {
    hide Hit;
    if node.Dir? {
      SeesAllIn(cfg, world, cache, path, node.children);
    }
  }

  lemma {:induction false} SeesAllIn(cfg: ServerConfig, world: World, cache: Cache, path: seq<string>, cs: seq<Child>)
    requires NoneLostIn(cfg, cache, path, cs)
    ensures SeenIn(cfg, world, cache, path, cs) == cs
    decreases cs
  {
    hide Hit;
    if cs != [] {
      SeesAll(cfg, world, cache, path + [cs[0].name], cs[0].node);
      SeesAllIn(cfg, world, cache, path, cs[1..]);
      assert cs == [cs[0]] + cs[1..];
    }
  }

  /**
   * Caching is invisible: if moreover no file has become unreadable under an
   * unchanged size and mtime, the scan gives what hashing every file afresh gives.
   */
  lemma CacheInvisible(h: Hasher, world: World, s: StoreState, ops: seq<Op>, i: nat)
    requires s.cache == map[] && SaneRun(h, world, s, ops)
    requires i < |ops| && Scans(Moment(h, s, ops, i).cfg, ops[i])
    requires var t := Moment(h, s, ops, i); NoneLost(t.cfg, t.cache, [], t.root)
    ensures var t := Moment(h, s, ops, i);
      CachedScan(h, t.cfg, t.cache, t.root).1 == FreshScan(h, t.cfg, t.root)
  {
    hide SaneRun, CachedScan, FreshScan, Scans, StoreAfter, NoneLost, Seen;
    CachedScanMeans(h, world, s, ops, i);
    var t := Moment(h, s, ops, i);
    SeesAll(t.cfg, world, t.cache, [], t.root);
  }

  /** A served file that cannot be read now, though the cache still answers for it. */
  predicate Lost(cfg: ServerConfig, cache: Cache, cs: seq<Child>, q: seq<string>) {
    Served(cfg, cs, q) && var info := ReachIn(cs, q).value; !info.data.Bytes? && Hit(cfg, cache, q, info)
  }

  function SeenMaybe(cfg: ServerConfig, world: World, cache: Cache, path: seq<string>, info: Option<FileInfo>): Option<FileInfo> {
    match info
    case None => None
    case Some(i) => Some(SeenFile(cfg, world, cache, path, i))
  }

  lemma {:induction false} SeenReach(cfg: ServerConfig, world: World, cache: Cache, path: seq<string>, node: Node, p: seq<string>)
    ensures Reach(Seen(cfg, world, cache, path, node), p) == SeenMaybe(cfg, world, cache, path + p, Reach(node, p))
    decreases node
  {
    hide SeenFile;
    if p == [] {
      assert path + p == path;
    } else if node.Dir? {
      SeenReachIn(cfg, world, cache, path, node.children, p);
    }
  }

  lemma {:induction false} SeenReachIn(cfg: ServerConfig, world: World, cache: Cache, path: seq<string>, cs: seq<Child>, p: seq<string>)
    requires p != []
    ensures ReachIn(SeenIn(cfg, world, cache, path, cs), p) == SeenMaybe(cfg, world, cache, path + p, ReachIn(cs, p))
    decreases cs
  {
    hide SeenFile;
    if cs != [] {
      assert SeenIn(cfg, world, cache, path, cs)[1..] == SeenIn(cfg, world, cache, path, cs[1..]);
      if cs[0].name == p[0] {
        MoveHead(path, p);
        SeenReach(cfg, world, cache, path + [cs[0].name], cs[0].node, p[1..]);
      } else {
        SeenReachIn(cfg, world, cache, path, cs[1..], p);
      }
    }
  }

  lemma {:induction false} SeenWf(cfg: ServerConfig, world: World, cache: Cache, path: seq<string>, node: Node)
    requires Wf(node)
    ensures Wf(Seen(cfg, world, cache, path, node))
    decreases node
  {
    if node.Dir? {
      SeenWfIn(cfg, world, cache, path, node.children);
    }
  }

  lemma {:induction false} SeenWfIn(cfg: ServerConfig, world: World, cache: Cache, path: seq<string>, cs: seq<Child>)
    requires WfChildren(cs)
    ensures var r := SeenIn(cfg, world, cache, path, cs);
      WfChildren(r) && |r| == |cs| && forall i :: 0 <= i < |cs| ==> r[i].name == cs[i].name
    decreases cs
  {
    hide NameOk;
    if cs != [] {
      var r := SeenIn(cfg, world, cache, path, cs);
      SeenWf(cfg, world, cache, path + [cs[0].name], cs[0].node);
      SeenWfIn(cfg, world, cache, path, cs[1..]);
      assert r[1..] == SeenIn(cfg, world, cache, path, cs[1..]);
      forall i | 1 <= i < |r| ensures r[i].name == cs[i].name {
        assert r[i] == r[1..][i - 1] && cs[i] == cs[1..][i - 1];
      }
    }
  }

  /** A file that is served but not lost is seen as it is; a lost one is shareable only as seen. */
  lemma SeenShareable(h: Hasher, cfg: ServerConfig, world: World, cache: Cache, cs: seq<Child>, q: seq<string>)
    requires HexLength(cfg.hashAlgorithm).Some? && cfg.hashTarget != "filename"
    ensures var seen := SeenIn(cfg, world, cache, [], cs);
      && (Lost(cfg, cache, cs, q) ==> Shareable(h, cfg, seen, q) && !Shareable(h, cfg, cs, q))
      && (!Lost(cfg, cache, cs, q) ==> (Shareable(h, cfg, seen, q) <==> Shareable(h, cfg, cs, q)))
      && (!Lost(cfg, cache, cs, q) && Served(cfg, cs, q) ==> ReachIn(seen, q) == ReachIn(cs, q))
  {
    hide Hit, Eligible, SeenIn, ReachIn, RootSegs, HexLength;
    if q != [] {
      SeenReachIn(cfg, world, cache, [], cs, q);
      assert [] + q == q;
    }
  }

  /**
   * The exact condition: when both scans succeed under content hashing, the tree
   * the cache sees is listed as the real one if and only if no served file is lost.
   */
  lemma ListedAlikeIff(h: Hasher, cfg: ServerConfig, world: World, cache: Cache, cs: seq<Child>)
    requires WfChildren(cs) && HexLength(cfg.hashAlgorithm).Some? && cfg.hashTarget != "filename"
    requires FreshScan(h, cfg, Dir(Open, cs)).Ok? && FreshScan(h, cfg, Seen(cfg, world, cache, [], Dir(Open, cs))).Ok?
    ensures FreshScan(h, cfg, Dir(Open, cs)) == FreshScan(h, cfg, Seen(cfg, world, cache, [], Dir(Open, cs)))
      <==> forall q :: !Lost(cfg, cache, cs, q)
  {
    var seen := SeenIn(cfg, world, cache, [], cs);
    var a, b := FreshScan(h, cfg, Dir(Open, cs)).entries, FreshScan(h, cfg, Dir(Open, seen)).entries;
    SeenWfIn(cfg, world, cache, [], cs);
    hide FreshScan, Lost, ServedEntry, Shareable, SeenIn, WfChildren, HexLength;
    if q :| Lost(cfg, cache, cs, q) {
      SeenShareable(h, cfg, world, cache, cs, q);
      ListingExact(h, cfg, seen, q);
      ListingExact(h, cfg, cs, q);
      var e :| e in b && SegsOf(e) == q;
      assert e !in a;
    } else {
      ListedAlike(h, cfg, cs, seen) by {
        forall q ensures Alike(h, cfg, cs, seen, q) {
          SeenShareable(h, cfg, world, cache, cs, q);
        }
      }
    }
  }

  predicate Alike(h: Hasher, cfg: ServerConfig, cs: seq<Child>, ds: seq<Child>, q: seq<string>) {
    && (Shareable(h, cfg, cs, q) <==> Shareable(h, cfg, ds, q))
    && (Shareable(h, cfg, cs, q) ==> ReachIn(cs, q) == ReachIn(ds, q))
  }

  /** A listing is decided by which files are shareable and what they are. */
  lemma ListedAlike(h: Hasher, cfg: ServerConfig, cs: seq<Child>, ds: seq<Child>)
    requires WfChildren(cs) && WfChildren(ds)
    requires FreshScan(h, cfg, Dir(Open, cs)).Ok? && FreshScan(h, cfg, Dir(Open, ds)).Ok?
    requires forall q :: Alike(h, cfg, cs, ds, q)
    ensures FreshScan(h, cfg, Dir(Open, cs)) == FreshScan(h, cfg, Dir(Open, ds))
  {
    var a, b := FreshScan(h, cfg, Dir(Open, cs)).entries, FreshScan(h, cfg, Dir(Open, ds)).entries;
    forall e ensures e in a <==> e in b {
      assert Alike(h, cfg, cs, ds, SegsOf(e));
      ListedIsDescribed(h, cfg, cs, e);
      ListedIsDescribed(h, cfg, ds, e);
    }
    ListingExact(h, cfg, cs, []);
    ListingExact(h, cfg, ds, []);
    hide FreshScan;
    SortedSameSet(a, b);
  }

  /** An entry is listed exactly when it describes the shareable file at its own path. */
  lemma ListedIsDescribed(h: Hasher, cfg: ServerConfig, cs: seq<Child>, e: Entry)
    requires WfChildren(cs) && FreshScan(h, cfg, Dir(Open, cs)).Ok?
    ensures e in FreshScan(h, cfg, Dir(Open, cs)).entries
      <==> Shareable(h, cfg, cs, SegsOf(e)) && Describes(h, cfg, e, ReachIn(cs, SegsOf(e)).value)
  {
    ListingExact(h, cfg, cs, SegsOf(e));
    hide FreshScan, EntryFor, SegsOf, Eligible, FreshHash, DirHashable, AllProper, ReachIn;
    var es := FreshScan(h, cfg, Dir(Open, cs)).entries;
    if Shareable(h, cfg, cs, SegsOf(e)) && Describes(h, cfg, e, ReachIn(cs, SegsOf(e)).value) {
      var d :| d in es && SegsOf(d) == SegsOf(e);
      assert ServedEntry(h, cfg, cs, d);
      assert d == e;
    }
  }

  // --------------------------------------------------------- when a scan fails

  predicate ByContent(cfg: ServerConfig) { cfg.hashTarget != "filename" && HexLength(cfg.hashAlgorithm).Some? }

  /** The walk meets a broken directory, or a file with an I/O error that the cache does not answer for. */
  predicate Halts(cfg: ServerConfig, cache: Cache, path: seq<string>, node: Node)
    decreases node
  {
    match node
    case File(info) => info.data.IoError? && !Hit(cfg, cache, path, info)
    case Dir(Open, cs) => HaltsIn(cfg, cache, path, cs)
    case Dir(Broken, _) => true
    case _ => false
  }

  predicate HaltsIn(cfg: ServerConfig, cache: Cache, path: seq<string>, cs: seq<Child>)
    decreases cs
  {
    cs != [] && (Halts(cfg, cache, path + [cs[0].name], cs[0].node) || HaltsIn(cfg, cache, path, cs[1..]))
  }

  /** ... in an eligible namespace. */
  predicate HaltsTop(cfg: ServerConfig, cache: Cache, cs: seq<Child>)
    decreases cs
  {
    cs != [] &&
    ((cs[0].node.Dir? && Eligible(cfg, cs[0].name) && Halts(cfg, cache, [cs[0].name], cs[0].node)) || HaltsTop(cfg, cache, cs[1..]))
  }

  lemma {:induction false} WalkFailsIff(h: Hasher, cfg: ServerConfig, world: World, cache: Cache, path: seq<string>, node: Node)
    requires ByContent(cfg) && path != [] && AllProper(path) && Wf(node) && (node.File? ==> |path| >= 2)
    ensures WalkNode(h, cfg, path, Seen(cfg, world, cache, path, node)).Fail? <==> Halts(cfg, cache, path, node)
    decreases node
  {
    hide Hit, RootSegs, EntryFor, Proper, DirHashable, HexLength;
    match node
    case File(info) => ServedDirHashable(h, cfg, path);
    case Dir(Open, cs) => WalkInFailsIff(h, cfg, world, cache, path, cs);
    case _ =>
  }

  lemma {:induction false} WalkInFailsIff(h: Hasher, cfg: ServerConfig, world: World, cache: Cache, path: seq<string>, cs: seq<Child>)
    requires ByContent(cfg) && path != [] && AllProper(path) && WfChildren(cs)
    ensures WalkChildren(h, cfg, path, SeenIn(cfg, world, cache, path, cs)).Fail? <==> HaltsIn(cfg, cache, path, cs)
    decreases cs
  {
    hide Hit, RootSegs, FileScan, Proper, SeenFile, HexLength;
    if cs != [] {
      var sub := path + [cs[0].name];
      NameIsProper(cs[0].name);
      ProperAppend(path, cs[0].name);
      WalkFailsIff(h, cfg, world, cache, sub, cs[0].node);
      WalkInFailsIff(h, cfg, world, cache, path, cs[1..]);
      assert SeenIn(cfg, world, cache, path, cs)[1..] == SeenIn(cfg, world, cache, path, cs[1..]);
    }
  }

  /** A content-hashing scan fails exactly when the walk is halted. */
  lemma {:induction false} TopFailsIff(h: Hasher, cfg: ServerConfig, world: World, cache: Cache, cs: seq<Child>)
    requires ByContent(cfg) && WfChildren(cs)
    ensures ScanTop(h, cfg, SeenIn(cfg, world, cache, [], cs)).Fail? <==> HaltsTop(cfg, cache, cs)
    decreases cs
  {
    hide Hit, RootSegs, FileScan, Proper, SeenFile, Eligible, HexLength;
    if cs != [] {
      NameIsProper(cs[0].name);
      assert [] + [cs[0].name] == [cs[0].name];
      if cs[0].node.Dir? {
        WalkFailsIff(h, cfg, world, cache, [cs[0].name], cs[0].node);
      }
      TopFailsIff(h, cfg, world, cache, cs[1..]);
      assert SeenIn(cfg, world, cache, [], cs)[1..] == SeenIn(cfg, world, cache, [], cs[1..]);
    }
  }

  lemma {:induction false} NothingLost(cfg: ServerConfig, path: seq<string>, node: Node)
    ensures NoneLost(cfg, map[], path, node)
    decreases node
  {
    if node.Dir? {
      NothingLostIn(cfg, path, node.children);
    }
  }

  lemma {:induction false} NothingLostIn(cfg: ServerConfig, path: seq<string>, cs: seq<Child>)
    ensures NoneLostIn(cfg, map[], path, cs)
    decreases cs
  {
    if cs != [] {
      NothingLost(cfg, path + [cs[0].name], cs[0].node);
      NothingLostIn(cfg, path, cs[1..]);
    }
  }

  /** The same for the fresh scan, which is the scan with an empty cache. */
  lemma FreshFailsIff(h: Hasher, cfg: ServerConfig, world: World, cs: seq<Child>)
    requires ByContent(cfg) && WfChildren(cs)
    ensures ScanTop(h, cfg, cs).Fail? <==> HaltsTop(cfg, map[], cs)
  {
    hide ScanTop, HaltsTop, SeenIn, NoneLostIn;
    NothingLostIn(cfg, [], cs);
    SeesAllIn(cfg, world, map[], [], cs);
    TopFailsIff(h, cfg, world, map[], cs);
  }

  /** A fuller cache never halts a scan that an emptier one lets through. */
  lemma {:induction false} HaltsLess(cfg: ServerConfig, cache: Cache, path: seq<string>, node: Node)
    requires Halts(cfg, cache, path, node)
    ensures Halts(cfg, map[], path, node)
    decreases node
  {
    if node.Dir? && node.access.Open? {
      HaltsLessIn(cfg, cache, path, node.children);
    }
  }

  lemma {:induction false} HaltsLessIn(cfg: ServerConfig, cache: Cache, path: seq<string>, cs: seq<Child>)
    requires HaltsIn(cfg, cache, path, cs)
    ensures HaltsIn(cfg, map[], path, cs)
    decreases cs
  {
    hide Hit;
    if Halts(cfg, cache, path + [cs[0].name], cs[0].node) {
      HaltsLess(cfg, cache, path + [cs[0].name], cs[0].node);
    } else {
      HaltsLessIn(cfg, cache, path, cs[1..]);
    }
  }

  lemma {:induction false} HaltsLessTop(cfg: ServerConfig, cache: Cache, cs: seq<Child>)
    requires HaltsTop(cfg, cache, cs)
    ensures HaltsTop(cfg, map[], cs)
    decreases cs
  {
    hide Hit, Eligible;
    if cs[0].node.Dir? && Eligible(cfg, cs[0].name) && Halts(cfg, cache, [cs[0].name], cs[0].node) {
      HaltsLess(cfg, cache, [cs[0].name], cs[0].node);
    } else {
      HaltsLessTop(cfg, cache, cs[1..]);
    }
  }

  // ------------------------------------------------------- the exact condition

  /** Hashing by name, or by an unknown algorithm, never looks at contents. */
  lemma {:induction false} ContentsUnseen(h: Hasher, cfg: ServerConfig, world: World, cache: Cache, path: seq<string>, node: Node)
    requires !ByContent(cfg) && path != []
    ensures WalkNode(h, cfg, path, Seen(cfg, world, cache, path, node)) == WalkNode(h, cfg, path, node)
    decreases node
  {
    hide Hit, RootSegs;
    if node.Dir? {
      ContentsUnseenIn(h, cfg, world, cache, path, node.children);
    }
  }

  lemma {:induction false} ContentsUnseenIn(h: Hasher, cfg: ServerConfig, world: World, cache: Cache, path: seq<string>, cs: seq<Child>)
    requires !ByContent(cfg) && path != []
    ensures WalkChildren(h, cfg, path, SeenIn(cfg, world, cache, path, cs)) == WalkChildren(h, cfg, path, cs)
    decreases cs
  {
    hide SeenFile, FileScan, ByContent;
    if cs != [] {
      ContentsUnseen(h, cfg, world, cache, path + [cs[0].name], cs[0].node);
      ContentsUnseenIn(h, cfg, world, cache, path, cs[1..]);
      assert SeenIn(cfg, world, cache, path, cs)[1..] == SeenIn(cfg, world, cache, path, cs[1..]);
    }
  }

  lemma {:induction false} ContentsUnseenTop(h: Hasher, cfg: ServerConfig, world: World, cache: Cache, cs: seq<Child>)
    requires !ByContent(cfg)
    ensures ScanTop(h, cfg, SeenIn(cfg, world, cache, [], cs)) == ScanTop(h, cfg, cs)
    decreases cs
  {
    hide SeenFile, FileScan, ByContent, Eligible;
    if cs != [] {
      assert [] + [cs[0].name] == [cs[0].name];
      ContentsUnseen(h, cfg, world, cache, [cs[0].name], cs[0].node);
      ContentsUnseenTop(h, cfg, world, cache, cs[1..]);
      assert SeenIn(cfg, world, cache, [], cs)[1..] == SeenIn(cfg, world, cache, [], cs[1..]);
    }
  }

  /**
   * The cache makes no difference: under content hashing of an open root, what
   * halts a fresh scan halts the cached one too, and where nothing does, no
   * served file is lost.
   */
  ghost predicate Harmless(cfg: ServerConfig, cache: Cache, root: Node) {
    ByContent(cfg) && root.Dir? && root.access.Open? ==>
      if HaltsTop(cfg, map[], root.children) then HaltsTop(cfg, cache, root.children)
      else forall q :: !Lost(cfg, cache, root.children, q)
  }

  lemma SeenScanIff(h: Hasher, cfg: ServerConfig, world: World, cache: Cache, root: Node)
    requires Wf(root)
    ensures FreshScan(h, cfg, Seen(cfg, world, cache, [], root)) == FreshScan(h, cfg, root) <==> Harmless(cfg, cache, root)
  {
    hide ScanTop, HaltsTop, Lost, SeenIn, ByContent, Sort, SeenFile, WfChildren;
    if root.Dir? && root.access.Open? {
      var cs := root.children;
      assert root == Dir(Open, cs);
      if ByContent(cfg) {
        TopFailsIff(h, cfg, world, cache, cs);
        FreshFailsIff(h, cfg, world, cs);
        if !HaltsTop(cfg, map[], cs) {
          if HaltsTop(cfg, cache, cs) {
            HaltsLessTop(cfg, cache, cs);
          }
          assert HexLength(cfg.hashAlgorithm).Some? && cfg.hashTarget != "filename" by { ContentHashing(cfg); }
          ListedAlikeIff(h, cfg, world, cache, cs);
        }
      } else {
        ContentsUnseenTop(h, cfg, world, cache, cs);
      }
    }
  }

  lemma ContentHashing(cfg: ServerConfig)
    ensures ByContent(cfg) <==> cfg.hashTarget != "filename" && HexLength(cfg.hashAlgorithm).Some?
  {}

  /**
   * Over every run in which path, size and mtime never name two contents, a scan
   * gives what hashing every file afresh gives, failures included, if and only
   * if the cache is harmless at that moment.
   */
  lemma CacheInvisibleIff(h: Hasher, world: World, s: StoreState, ops: seq<Op>, i: nat)
    requires s.cache == map[] && SaneRun(h, world, s, ops)
    requires i < |ops| && Scans(Moment(h, s, ops, i).cfg, ops[i])
    ensures var t := Moment(h, s, ops, i);
      CachedScan(h, t.cfg, t.cache, t.root).1 == FreshScan(h, t.cfg, t.root) <==> Harmless(t.cfg, t.cache, t.root)
  {
    var t := Moment(h, s, ops, i);
    CachedScanMeans(h, world, s, ops, i);
    assert Wf(t.root);
    hide SaneRun, CachedScan, FreshScan, Scans, StoreAfter, Harmless, Seen;
    SeenScanIff(h, t.cfg, world, t.cache, t.root);
  }

  function OneFile(data: Read): FileInfo { FileInfo(1, 1, data) }

  /** One user directory with one file in it. */
  function OneTree(data: Read): Node {
    Dir(Open, [Child("u", Dir(Open, [Child("f", File(OneFile(data)))]))])
  }

  lemma SortOne(s: Scan)
    requires s.Ok? ==> |s.entries| <= 1
    ensures SortScan(s) == s
  {
    if s.Ok? && s.entries != [] {
      var e := s.entries[0];
      assert s.entries == [e];
      assert Sort([e]) == Insert(e, Sort([]));
    }
  }

  lemma OneChild(h: Hasher, cfg: ServerConfig, cache: Cache, path: seq<string>, c: Child)
    requires path != []
    ensures WalkChildrenC(h, cfg, cache, path, [c]) == WalkNodeC(h, cfg, cache, path + [c.name], c.node)
    ensures WalkChildren(h, cfg, path, [c]) == WalkNode(h, cfg, path + [c.name], c.node)
  {
    hide WalkNodeC, WalkNode;
    assert [c][1..] == [];
    CatNothing(WalkNodeC(h, cfg, cache, path + [c.name], c.node).1);
    CatNothing(WalkNode(h, cfg, path + [c.name], c.node));
  }

  lemma OneWalk(h: Hasher, cfg: ServerConfig, cache: Cache, data: Read)
    requires Eligible(cfg, "u")
    ensures CachedScan(h, cfg, cache, OneTree(data)) == FileC(h, cfg, cache, ["u", "f"], OneFile(data))
    ensures FreshScan(h, cfg, OneTree(data)) == WalkNode(h, cfg, ["u", "f"], File(OneFile(data)))
  {
    hide Eligible, FileC, FreshHash, DirHashable, EntryFor, SortScan;
    var file := [Child("f", File(OneFile(data)))];
    var top := [Child("u", Dir(Open, file))];
    assert ["u"] + ["f"] == ["u", "f"];
    var (after, x) := FileC(h, cfg, cache, ["u", "f"], OneFile(data));
    var y := WalkNode(h, cfg, ["u", "f"], File(OneFile(data)));
    CatNothing(x);
    CatNothing(y);
    OneChild(h, cfg, cache, ["u"], file[0]);
    assert WalkNodeC(h, cfg, cache, ["u"], Dir(Open, file)) == (after, x);
    assert WalkNode(h, cfg, ["u"], Dir(Open, file)) == y;
    assert top[1..] == [];
    assert ScanTopC(h, cfg, cache, top) == (after, x);
    assert ScanTop(h, cfg, top) == y;
    assert x.Ok? ==> |x.entries| <= 1 by { hide *; AtMostOne(h, cfg, cache, data); }
    SortOne(x);
    SortOne(y);
  }

  lemma AtMostOne(h: Hasher, cfg: ServerConfig, cache: Cache, data: Read)
    ensures var x := FileC(h, cfg, cache, ["u", "f"], OneFile(data)).1; x.Ok? ==> |x.entries| <= 1
  {
    hide CachedHash, DirHashable, EntryFor;
  }

  const OneConfig := ServerConfig("/srv", "files", "file", "md5", "")

  lemma OneConfigFits()
    ensures Eligible(OneConfig, "u") && RootSegs(OneConfig) == ["srv"]
  {
    CleanJoined(["srv"]);
  }

  lemma OneTreeFits(world: World, data: Read)
    requires data.Bytes? ==> data.content == "x"
    requires forall p, size, mtime :: world(p, size, mtime) == "x"
    ensures KeysUsable(OneConfig) && Wf(OneTree(data)) && Agrees(world, RootSegs(OneConfig), OneTree(data))
  {
    OneConfigFits();
    hide RootSegs;
    var file := [Child("f", File(OneFile(data)))];
    assert WfChildren(file) by { assert file[1..] == []; }
    assert WfChildren(OneTree(data).children) by { assert OneTree(data).children[1..] == []; }
    assert AgreesIn(world, RootSegs(OneConfig) + ["u"], file) by { assert file[1..] == []; }
    assert AgreesIn(world, RootSegs(OneConfig), OneTree(data).children) by { assert OneTree(data).children[1..] == []; }
  }

  lemma OneDirHashable(h: Hasher)
    ensures DirHashable(h, OneConfig, ["u", "f"])
  {
    assert ["u", "f"][..1] == ["u"];
  }

  lemma OneLost(h: Hasher, gone: Read)
    requires !gone.Bytes?
    ensures var cache := CachedScan(h, OneConfig, map[], OneTree(Bytes("x"))).0;
      CachedScan(h, OneConfig, cache, OneTree(gone)).1 != FreshScan(h, OneConfig, OneTree(gone))
  {
    OneConfigFits();
    OneDirHashable(h);
    hide DirHashable, Eligible, CacheKey, CachedScan, FreshScan, EntryFor, HashString;
    OneWalk(h, OneConfig, map[], Bytes("x"));
    OneWalk(h, OneConfig, CachedScan(h, OneConfig, map[], OneTree(Bytes("x"))).0, gone);
  }

  /**
   * Taking away read permission, or an I/O error, leaves size and mtime alone:
   * the cached scan lists a file that the fresh one omits or fails on.
   */
  lemma ChmodShows(h: Hasher, world: World, gone: Read)
    requires !gone.Bytes? && forall p, size, mtime :: world(p, size, mtime) == "x"
    ensures var s := StoreState(OneConfig, map[], OneTree(Bytes("x")));
      var ops := [List, EditFiles(OneTree(gone)), List];
      var t := Moment(h, s, ops, 2);
      && SaneRun(h, world, s, ops)
      && CachedScan(h, t.cfg, t.cache, t.root).1 != FreshScan(h, t.cfg, t.root)
  {
    var s := StoreState(OneConfig, map[], OneTree(Bytes("x")));
    var ops := [List, EditFiles(OneTree(gone)), List];
    OneLost(h, gone);
    OneTreeFits(world, Bytes("x"));
    OneTreeFits(world, gone);
    hide CachedScan, FreshScan, Wf, Agrees, KeysUsable, RootSegs, OneTree, StoreAfter, Moment, SaneRun;
    ChmodMoments(h, OneConfig, OneTree(Bytes("x")), OneTree(gone));
    assert Sane(world, Moment(h, s, ops, 0)) && Sane(world, Moment(h, s, ops, 2));
    hide *;
    SaneThree(h, world, s, List, EditFiles(OneTree(gone)), List);
  }

  lemma SaneThree(h: Hasher, world: World, s: StoreState, a: Op, b: Op, c: Op)
    requires b.EditFiles? && Sane(world, Moment(h, s, [a, b, c], 0)) && Sane(world, Moment(h, s, [a, b, c], 2))
    ensures SaneRun(h, world, s, [a, b, c])
  {
    hide Sane, Moment;
    var ops := [a, b, c];
    forall i: nat | i < |ops| && Scans(Moment(h, s, ops, i).cfg, ops[i]) ensures Sane(world, Moment(h, s, ops, i)) {
      assert i == 0 || i == 2;
    }
  }

  lemma ChmodMoments(h: Hasher, cfg: ServerConfig, a: Node, b: Node)
    ensures var s, ops := StoreState(cfg, map[], a), [List, EditFiles(b), List];
      && Moment(h, s, ops, 0) == s
      && Moment(h, s, ops, 2) == StoreState(cfg, CachedScan(h, cfg, map[], a).0, b)
  {
    hide CachedScan;
    var s, ops := StoreState(cfg, map[], a), [List, EditFiles(b), List];
    assert ops[..0] == [] && ops[..1] == [List] && ops[..2] == [List, EditFiles(b)];
    assert ops[..2][..1] == ops[..1] && ops[..1][..0] == [];
    assert StoreAfter(h, s, []) == s;
    assert StoreAfter(h, s, ops[..1]) == StepStore(h, s, List);
    assert StoreAfter(h, s, ops[..2]) == StepStore(h, StoreAfter(h, s, ops[..1]), EditFiles(b));
  }

  /** The same tree under two container roots is listed alike by any two stores whose caches are harmless. */
  lemma RootDoesNotMatter(h: Hasher, world: World, s: StoreState, ops: seq<Op>, i: nat, s': StoreState, ops': seq<Op>, i': nat)
    requires s.cache == map[] && SaneRun(h, world, s, ops) && i < |ops| && Scans(Moment(h, s, ops, i).cfg, ops[i])
    requires s'.cache == map[] && SaneRun(h, world, s', ops') && i' < |ops'| && Scans(Moment(h, s', ops', i').cfg, ops'[i'])
    requires var t, t' := Moment(h, s, ops, i), Moment(h, s', ops', i');
      && t'.cfg == t.cfg.(containerRoot := t'.cfg.containerRoot) && t'.root == t.root
      && Harmless(t.cfg, t.cache, t.root) && Harmless(t'.cfg, t'.cache, t'.root)
    ensures var t, t' := Moment(h, s, ops, i), Moment(h, s', ops', i');
      CachedScan(h, t.cfg, t.cache, t.root).1 == CachedScan(h, t'.cfg, t'.cache, t'.root).1
  {
    hide SaneRun, CachedScan, FreshScan, Scans, Moment, Harmless;
    CacheInvisibleIff(h, world, s, ops, i);
    CacheInvisibleIff(h, world, s', ops', i');
    SameFresh(h, Moment(h, s, ops, i).cfg, Moment(h, s', ops', i').cfg, Moment(h, s, ops, i).root);
  }

  lemma SameFresh(h: Hasher, a: ServerConfig, b: ServerConfig, root: Node)
    requires b == a.(containerRoot := b.containerRoot)
    ensures FreshScan(h, a, root) == FreshScan(h, b, root)
  {
    if root.Dir? {
      SameTop(h, a, b, root.children);
    }
  }

  lemma {:induction false} SameTop(h: Hasher, a: ServerConfig, b: ServerConfig, cs: seq<Child>)
    requires b == a.(containerRoot := b.containerRoot)
    ensures ScanTop(h, a, cs) == ScanTop(h, b, cs)
  {
    hide NormalizePrefix, Proper;
    if cs != [] {
      SameTop(h, a, b, cs[1..]);
      SameWalk(h, a, b, [cs[0].name], cs[0].node);
    }
  }

  lemma {:induction false} SameWalk(h: Hasher, a: ServerConfig, b: ServerConfig, path: seq<string>, node: Node)
    requires b == a.(containerRoot := b.containerRoot) && path != []
    ensures WalkNode(h, a, path, node) == WalkNode(h, b, path, node)
    decreases node
  {
    if node.Dir? {
      SameWalkIn(h, a, b, path, node.children);
    }
  }

  lemma {:induction false} SameWalkIn(h: Hasher, a: ServerConfig, b: ServerConfig, path: seq<string>, cs: seq<Child>)
    requires b == a.(containerRoot := b.containerRoot) && path != []
    ensures WalkChildren(h, a, path, cs) == WalkChildren(h, b, path, cs)
    decreases cs
  {
    if cs != [] {
      SameWalk(h, a, b, path + [cs[0].name], cs[0].node);
      SameWalkIn(h, a, b, path, cs[1..]);
    }
  }
}
