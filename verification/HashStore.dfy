/**
 The Store object of internal/store/store.go: its live configuration, its cache
 and its locked operations, proved against the run model.
 */
module HashStore {
  import opened Text
  import opened Config
  import opened Listing
  import opened HashCache
  import opened StoreRuns
  import opened Resolve

  lemma CatCat(a: seq<Entry>, b: Scan, c: Scan)
    requires b.Ok?
    ensures Cat(Ok(a + b.entries), c) == Cat(Ok(a), Cat(b, c))
  {
    if c.Ok? {
      assert a + b.entries + c.entries == a + (b.entries + c.entries);
    }
  }

  /** The loop of resolveLocked over the scanned entries. */
  method Matching(entries: seq<Entry>, dirHash: string, fileHash: string) returns (matches: seq<Entry>)
    ensures matches == Filter(entries, Carries(dirHash, fileHash))
  {
    matches := [];
    for i := 0 to |entries|
      invariant matches == Filter(entries[..i], Carries(dirHash, fileHash))
    {
      FilterSnoc(entries, i, Carries(dirHash, fileHash));
      if entries[i].dirHash == dirHash && entries[i].fileHash == fileHash {
        matches := matches + [entries[i]];
      }
    }
    assert entries[..|entries|] == entries;
  }

  class Store {
    const hasher: Hasher
    var cfg: ServerConfig
    var cache: Cache

    /** New. */
    constructor (hasher: Hasher, cfg: ServerConfig)
      ensures this.hasher == hasher && this.cfg == cfg && cache == map[]
    {
      this.hasher := hasher;
      this.cfg := cfg;
      this.cache := map[];
    }

    /** The abstract state, given the tree the file system holds. */
    ghost function State(root: Node): StoreState
      reads this
    {
      StoreState(cfg, cache, root)
    }

    method Swap(next: ServerConfig)
      modifies this
      ensures forall root :: State(root) == SetConfig(old(State(root)), next)
    {
      if cfg != next {
        cfg := next;
        cache := map[];
      }
    }

    method ContentHash(path: seq<string>, info: FileInfo) returns (x: Hashing)
      modifies this`cache
      ensures (cache, x) == CachedHash(hasher, cfg, old(cache), path, info)
    {
      hide CacheKey, DataHash;
      var key := CacheKey(cfg, path);
      if key in cache {
        var c := cache[key];
        if c.size == info.size && c.mtime == info.mtime {
          return Hashed(c.hash);
        }
      }
      x := DataHash(hasher, cfg, info.data);
      if x.Hashed? {
        cache := cache[key := Cached(info.size, info.mtime, x.hex)];
      }
    }

    /** The walk callback on a regular file, appending to `entries`. */
    method VisitFile(path: seq<string>, info: FileInfo, entries: seq<Entry>) returns (r: Scan)
      requires path != []
      modifies this`cache
      ensures (cache, r) == (var (after, s) := FileC(hasher, cfg, old(cache), path, info); (after, Cat(Ok(entries), s)))
    {
      hide CachedHash, EntryFor, DirectoryHash, NameHash;
      CatNothing(Ok(entries));
      var dirHash := DirectoryHash(hasher, LogicalDir(path), cfg.hashAlgorithm);
      if dirHash.None? {
        return Ok(entries);
      }
      var x;
      if cfg.hashTarget == "filename" {
        x := NameHash(hasher, cfg, path[|path| - 1]);
      } else {
        x := ContentHash(path, info);
      }
      match x {
        case Omitted => return Ok(entries);
        case Aborted => return Fail;
        case Hashed(hex) => return Ok(entries + [EntryFor(hasher, cfg, path, info.size, hex)]);
      }
    }

    method ScanNamespace(path: seq<string>, node: Node, entries: seq<Entry>) returns (r: Scan)
      requires path != []
      modifies this`cache
      ensures (cache, r) == (var (after, s) := WalkNodeC(hasher, cfg, old(cache), path, node); (after, Cat(Ok(entries), s)))
      decreases node
    {
      hide FileC;
      CatNothing(Ok(entries));
      match node {
        case Link => return Ok(entries);
        case Special => return Ok(entries);
        case File(info) => r := VisitFile(path, info, entries);
        case Dir(Denied, _) => return Ok(entries);
        case Dir(Broken, _) => return Fail;
        case Dir(Open, cs) =>
          r := Ok(entries);
          for i := 0 to |cs|
            invariant r.Ok?
            invariant WalkChildrenC(hasher, cfg, old(cache), path, cs).0 == WalkChildrenC(hasher, cfg, cache, path, cs[i..]).0
            invariant Cat(Ok(entries), WalkChildrenC(hasher, cfg, old(cache), path, cs).1)
                   == Cat(r, WalkChildrenC(hasher, cfg, cache, path, cs[i..]).1)
          {
            ghost var before, sofar, sub := cache, r.entries, path + [cs[i].name];
            r := ScanNamespace(path + [cs[i].name], cs[i].node, r.entries);
            assert cs[i..][1..] == cs[i + 1..];
            if r.Fail? {
              return;
            }
            CatCat(sofar, WalkNodeC(hasher, cfg, before, sub, cs[i].node).1, WalkChildrenC(hasher, cfg, cache, path, cs[i + 1..]).1);
          }
          CatNothing(Ok(r.entries));
      }
    }

    /** scan: the loop over the top-level directory, then the sort. */
    method ScanAll(root: Node) returns (r: Scan)
      modifies this`cache
      ensures (cache, r) == CachedScan(hasher, cfg, old(cache), root)
    {
      hide WalkNodeC, Sort, Eligible;
      match root {
        case Dir(Denied, _) => return Ok([]);
        case Dir(Open, top) =>
          CatNothing(Ok([]));
          r := Ok([]);
          var entries := [];
          ghost var all := ScanTopC(hasher, cfg, old(cache), top);
          CatNothing(all.1);
          for i := 0 to |top|
            invariant all.0 == ScanTopC(hasher, cfg, cache, top[i..]).0
            invariant all.1 == Cat(Ok(entries), ScanTopC(hasher, cfg, cache, top[i..]).1)
          {
            assert top[i..][1..] == top[i + 1..];
            if !top[i].node.Dir? || !Eligible(cfg, top[i].name) {
              CatNothing(ScanTopC(hasher, cfg, cache, top[i + 1..]).1);
              continue;
            }
            ghost var before, sofar := cache, entries;
            r := ScanNamespace([top[i].name], top[i].node, entries);
            if r.Fail? {
              return;
            }
            entries := r.entries;
            CatCat(sofar, WalkNodeC(hasher, cfg, before, [top[i].name], top[i].node).1, ScanTopC(hasher, cfg, cache, top[i + 1..]).1);
          }
          CatNothing(Ok(entries));
          return Ok(Sort(entries));
        case _ => return Fail;
      }
    }

    method List(root: Node) returns (r: Scan)
      modifies this
      ensures State(root) == StepStore(hasher, old(State(root)), Op.List)
      ensures r == CachedScan(hasher, cfg, old(cache), root).1
    {
      hide CachedScan;
      r := ScanAll(root);
    }

    method ListWith(next: ServerConfig, root: Node) returns (r: Scan)
      modifies this
      ensures State(root) == StepStore(hasher, old(State(root)), Op.ListWith(next))
      ensures r == CachedScan(hasher, next, SetConfig(old(State(root)), next).cache, root).1
    {
      hide CachedScan;
      Swap(next);
      assert State(root) == SetConfig(old(State(root)), next);
      r := ScanAll(root);
    }

    /** resolveLocked. */
    method ResolveLocked(disk: Disk, root: Node, dirHash: string, fileHash: string) returns (r: Outcome)
      modifies this`cache
      ensures State(root) == StepStore(hasher, old(State(root)), Op.Resolve(dirHash, fileHash))
      ensures r == ResolveIn(disk, cfg, CachedScan(hasher, cfg, old(cache), root).1, dirHash, fileHash)
    {
      hide CachedScan, OpenPath, IsDigest;
      var okDir := ValidHex(dirHash, cfg.hashAlgorithm);
      var okFile := ValidHex(fileHash, cfg.hashAlgorithm);
      if !okDir || !okFile {
        return Invalid;
      }
      var scan := ScanAll(root);
      assert State(root) == StepStore(hasher, old(State(root)), Op.Resolve(dirHash, fileHash));
      if scan.Fail? {
        return Error;
      }
      var matches := Matching(scan.entries, dirHash, fileHash);
      if |matches| == 0 {
        return NotFound;
      }
      if |matches| > 1 {
        return Conflict;
      }
      match OpenPath(disk, cfg, matches[0]) {
        case Opened(abs) => return Found(abs, matches[0]);
        case NotThere => return NotFound;
        case Trouble => return Error;
      }
    }

    method Resolve(disk: Disk, root: Node, dirHash: string, fileHash: string) returns (r: Outcome)
      modifies this
      ensures State(root) == StepStore(hasher, old(State(root)), Op.Resolve(dirHash, fileHash))
      ensures r == ResolveIn(disk, cfg, CachedScan(hasher, cfg, old(cache), root).1, dirHash, fileHash)
    {
      hide CachedScan, ResolveIn;
      r := ResolveLocked(disk, root, dirHash, fileHash);
    }

    method ResolveWith(next: ServerConfig, disk: Disk, root: Node, dirHash: string, fileHash: string) returns (r: Outcome)
      modifies this
      ensures State(root) == StepStore(hasher, old(State(root)), Op.ResolveWith(next, dirHash, fileHash))
      ensures var t := SetConfig(old(State(root)), next);
        r == ResolveIn(disk, next, CachedScan(hasher, next, t.cache, root).1, dirHash, fileHash)
    {
      hide CachedScan, ResolveIn;
      Swap(next);
      assert State(root) == SetConfig(old(State(root)), next);
      r := ResolveLocked(disk, root, dirHash, fileHash);
    }
  }

  // ------------------------------------------------------------------- the laws

  /** Whatever the cache sees is served by the real tree as well. */
  lemma SeenServed(h: Hasher, cfg: ServerConfig, world: World, cache: Cache, cs: seq<Child>, e: Entry)
    requires ServedEntry(h, cfg, SeenIn(cfg, world, cache, [], cs), e)
    ensures ServedIn(cfg, Dir(Open, cs), e)
  {
    hide SeenIn, ReachIn, Eligible, SegsOf, EntryFor, FreshHash, DirHashable, AllProper;
    var q := SegsOf(e);
    SeenReachIn(cfg, world, cache, [], cs, q);
  }

  /** What a cached scan lists is strictly increasing, served by the tree, and carries well-formed hashes. */
  lemma CachedListing(h: Hasher, world: World, t: StoreState, scan: Scan)
    requires Wf(t.root) && scan == FreshScan(h, t.cfg, Seen(t.cfg, world, t.cache, [], t.root)) && scan.Ok?
    ensures Sorted(scan.entries)
    ensures forall e :: e in scan.entries ==>
      && ServedIn(t.cfg, t.root, e)
      && IsDigest(e.dirHash, t.cfg.hashAlgorithm) && IsDigest(e.fileHash, t.cfg.hashAlgorithm)
  {
    if t.root.access.Open? {
      var cs := t.root.children;
      var seen := SeenIn(t.cfg, world, t.cache, [], cs);
      assert t.root == Dir(Open, cs) && Seen(t.cfg, world, t.cache, [], t.root) == Dir(Open, seen);
      SeenWfIn(t.cfg, world, t.cache, [], cs);
      ListingExact(h, t.cfg, seen, []);
      hide FreshScan, SeenIn, WfChildren, ServedIn, ServedEntry, Shareable, IsDigest, Sorted, Seen;
      forall e | e in scan.entries
        ensures ServedIn(t.cfg, t.root, e) && IsDigest(e.dirHash, t.cfg.hashAlgorithm) && IsDigest(e.fileHash, t.cfg.hashAlgorithm)
      {
        SeenServed(h, t.cfg, world, t.cache, cs, e);
        ListedHashes(h, t.cfg, seen, e);
      }
    }
  }

  predicate Asks(op: Op, dirHash: string, fileHash: string) {
    (op.Resolve? || op.ResolveWith?) && op.dirHash == dirHash && op.fileHash == fileHash
  }

  /** What resolving the pair at moment `t` gives, on the disk that holds the tree of that moment. */
  function ResolveAt(h: Hasher, t: StoreState, beyond: Beyond, dirHash: string, fileHash: string): Outcome
    requires Wf(t.root)
  {
    ResolveIn(TreeDisk(beyond, RootSegs(t.cfg), t.root), t.cfg, CachedScan(h, t.cfg, t.cache, t.root).1, dirHash, fileHash)
  }

  /**
   * Listing and download agree, over every run in which path, size and mtime
   * never name two contents, whatever has become unreadable since: a malformed
   * pair is Invalid, a failing scan an Error, and otherwise the outcome is
   * exactly what the store's own listing of that moment says.
   */
  lemma ResolveOverRuns(h: Hasher, world: World, s: StoreState, ops: seq<Op>, i: nat, beyond: Beyond, dirHash: string, fileHash: string)
    requires s.cache == map[] && SaneRun(h, world, s, ops) && i < |ops| && Asks(ops[i], dirHash, fileHash)
    requires Wf(Moment(h, s, ops, i).root)
    ensures var t := Moment(h, s, ops, i);
      var scan := CachedScan(h, t.cfg, t.cache, t.root).1;
      var r := ResolveAt(h, t, beyond, dirHash, fileHash);
      if !IsDigest(dirHash, t.cfg.hashAlgorithm) || !IsDigest(fileHash, t.cfg.hashAlgorithm) then r == Invalid
      else if scan.Fail? then r == Error
      else
        && ExactOutcome(t.cfg, scan.entries, dirHash, fileHash, r)
        && (r.Found? ==> ServedIn(t.cfg, t.root, r.entry) && r.abs == RootSegs(t.cfg) + SegsOf(r.entry))
  {
    var t := Moment(h, s, ops, i);
    if IsDigest(dirHash, t.cfg.hashAlgorithm) && IsDigest(fileHash, t.cfg.hashAlgorithm) {
      assert Scans(t.cfg, ops[i]);
      hide SaneRun, CachedScan, FreshScan, IsDigest, RootSegs, TreeDisk, Moment, Scans, ServedIn, OpenPath, Sorted, Wf, Seen, ExactOutcome, SegsOf;
      CachedScanMeans(h, world, s, ops, i);
      var scan := CachedScan(h, t.cfg, t.cache, t.root).1;
      if scan.Ok? {
        CachedListing(h, world, t, scan);
        ResolveListing(t.cfg, beyond, t.root, scan.entries, dirHash, fileHash);
      }
    }
  }

  /** A listing followed at once by a resolve under the same configuration. */
  predicate ListThenResolve(h: Hasher, s: StoreState, ops: seq<Op>, i: nat, dirHash: string, fileHash: string) {
    && i + 1 < |ops| && (ops[i].List? || ops[i].ListWith?) && Asks(ops[i + 1], dirHash, fileHash)
    && (ops[i + 1].ResolveWith? ==> ops[i + 1].cfg == Moment(h, s, ops, i).cfg)
  }

  lemma NextMoment(h: Hasher, s: StoreState, ops: seq<Op>, i: nat, dirHash: string, fileHash: string)
    requires ListThenResolve(h, s, ops, i, dirHash, fileHash)
    ensures var t := Moment(h, s, ops, i);
      Moment(h, s, ops, i + 1) == t.(cache := CachedScan(h, t.cfg, t.cache, t.root).0)
  {
    hide CachedScan, IsDigest;
    assert ops[..i + 1][..i] == ops[..i];
  }

  /** Nothing changed in between, so the resolve lists what the listing listed. */
  lemma SameListing(h: Hasher, world: World, s: StoreState, ops: seq<Op>, i: nat, dirHash: string, fileHash: string)
    requires s.cache == map[] && SaneRun(h, world, s, ops) && ListThenResolve(h, s, ops, i, dirHash, fileHash)
    requires Scans(Moment(h, s, ops, i + 1).cfg, ops[i + 1])
    ensures var t, u := Moment(h, s, ops, i), Moment(h, s, ops, i + 1);
      Wf(t.root) && CachedScan(h, t.cfg, t.cache, t.root).1 == CachedScan(h, u.cfg, u.cache, u.root).1
  {
    var t, u := Moment(h, s, ops, i), Moment(h, s, ops, i + 1);
    assert Scans(t.cfg, ops[i]);
    assert Sane(world, t);
    NextMoment(h, s, ops, i, dirHash, fileHash);
    hide SaneRun, CachedScan, FreshScan, Moment, Scans, Seen, ListThenResolve;
    CachedScanMeans(h, world, s, ops, i);
    CachedScanMeans(h, world, s, ops, i + 1);
    ScanKeepsSeen(h, t.cfg, world, t.cache, t.root);
  }

  /**
   * A link works as soon as it is listed: resolving the pair of a listed entry
   * opens that entry at its own path, unless another listed entry carries the
   * same pair.
   */
  lemma ListedLinkWorks(h: Hasher, world: World, s: StoreState, ops: seq<Op>, i: nat, beyond: Beyond, e: Entry)
    requires s.cache == map[] && SaneRun(h, world, s, ops)
    requires ListThenResolve(h, s, ops, i, e.dirHash, e.fileHash)
    requires var t := Moment(h, s, ops, i);
      var scan := CachedScan(h, t.cfg, t.cache, t.root).1; scan.Ok? && e in scan.entries
    ensures var t, u := Moment(h, s, ops, i), Moment(h, s, ops, i + 1);
      var es := CachedScan(h, t.cfg, t.cache, t.root).1.entries;
      Wf(u.root) &&
      ResolveAt(h, u, beyond, e.dirHash, e.fileHash) ==
        if OnlyCarrier(es, e.dirHash, e.fileHash, e) then Found(RootSegs(t.cfg) + SegsOf(e), e) else Conflict
  {
    var t, u := Moment(h, s, ops, i), Moment(h, s, ops, i + 1);
    assert Scans(t.cfg, ops[i]);
    assert Sane(world, t);
    NextMoment(h, s, ops, i, e.dirHash, e.fileHash);
    CachedScanMeans(h, world, s, ops, i);
    var scan := CachedScan(h, t.cfg, t.cache, t.root).1;
    hide SaneRun, CachedScan, FreshScan, Moment, Seen, Sorted, IsDigest, RootSegs, ServedIn, ResolveAt, SegsOf, Wf;
    CachedListing(h, world, t, scan);
    assert Scans(u.cfg, ops[i + 1]);
    SameListing(h, world, s, ops, i, e.dirHash, e.fileHash);
    ResolveOverRuns(h, world, s, ops, i + 1, beyond, e.dirHash, e.fileHash);
    assert Carries(e.dirHash, e.fileHash)(e);
  }

  lemma {:induction false} AgreesAt(world: World, at: seq<string>, node: Node, p: seq<string>)
    requires Agrees(world, at, node) && Reach(node, p).Some? && Reach(node, p).value.data.Bytes?
    ensures var info := Reach(node, p).value; info.data.content == world(at + p, info.size, info.mtime)
    decreases node
  {
    if p == [] {
      assert at + p == at;
    } else {
      AgreesAmong(world, at, node.children, p);
    }
  }

  lemma {:induction false} AgreesAmong(world: World, at: seq<string>, cs: seq<Child>, p: seq<string>)
    requires AgreesIn(world, at, cs) && p != [] && ReachIn(cs, p).Some? && ReachIn(cs, p).value.data.Bytes?
    ensures var info := ReachIn(cs, p).value; info.data.content == world(at + p, info.size, info.mtime)
    decreases cs
  {
    if cs[0].name == p[0] {
      MoveHead(at, p);
      AgreesAt(world, at + [cs[0].name], cs[0].node, p[1..]);
    } else {
      AgreesAmong(world, at, cs[1..], p);
    }
  }

  /** The file hash is the digest of the contents that path, size and mtime name, or of the last segment. */
  ghost predicate TellsOver(h: Hasher, world: World, cfg: ServerConfig, cs: seq<Child>, e: Entry) {
    var q := SegsOf(e);
    && Served(cfg, cs, q)
    && var info := ReachIn(cs, q).value;
      && e.logicalPath == Join(q, '/') && e.logicalDir == Join(q[..|q| - 1], '/') && e.size == info.size
      && DigestOf(h, cfg, Join(q[..|q| - 1], '/'), e.dirHash)
      && DigestOf(h, cfg, if cfg.hashTarget == "filename" then q[|q| - 1] else world(RootSegs(cfg) + q, info.size, info.mtime), e.fileHash)
  }

  lemma SeenTells(h: Hasher, world: World, cfg: ServerConfig, cache: Cache, cs: seq<Child>, e: Entry)
    requires AgreesIn(world, RootSegs(cfg), cs) && ServedEntry(h, cfg, SeenIn(cfg, world, cache, [], cs), e)
    ensures TellsOver(h, world, cfg, cs, e)
  {
    hide SeenIn, ReachIn, Eligible, SegsOf, Describes, DigestOf, RootSegs, Hit, AgreesIn;
    var q := SegsOf(e);
    SeenServed(h, cfg, world, cache, cs, e);
    SeenReachIn(cfg, world, cache, [], cs, q);
    assert [] + q == q;
    var info := ReachIn(cs, q).value;
    var seen := SeenFile(cfg, world, cache, q, info);
    DescribesTells(h, cfg, e, seen);
    if info.data.Bytes? {
      AgreesAmong(world, RootSegs(cfg), cs, q);
    }
  }

  /** Over every such run, every entry a scan lists tells the truth about a served file. */
  lemma CachedListingTells(h: Hasher, world: World, s: StoreState, ops: seq<Op>, i: nat, e: Entry)
    requires s.cache == map[] && SaneRun(h, world, s, ops)
    requires i < |ops| && Scans(Moment(h, s, ops, i).cfg, ops[i])
    requires var t := Moment(h, s, ops, i); var scan := CachedScan(h, t.cfg, t.cache, t.root).1; scan.Ok? && e in scan.entries
    ensures var t := Moment(h, s, ops, i); t.root.Dir? && TellsOver(h, world, t.cfg, t.root.children, e)
  {
    var t := Moment(h, s, ops, i);
    assert Sane(world, t);
    CachedScanMeans(h, world, s, ops, i);
    hide SaneRun, CachedScan, Scans, Moment, TellsOver, SeenIn, ScanTop, Sort;
    assert t.root.Dir? && t.root.access.Open?;
    var cs := t.root.children;
    var seen := SeenIn(t.cfg, world, t.cache, [], cs);
    assert t.root == Dir(Open, cs) && Seen(t.cfg, world, t.cache, [], t.root) == Dir(Open, seen);
    SeenWfIn(t.cfg, world, t.cache, [], cs);
    ListingExact(h, t.cfg, seen, []);
    hide FreshScan, ServedEntry, WfChildren, AgreesIn, Sorted, Shareable;
    assert ServedEntry(h, t.cfg, seen, e);
    SeenTells(h, world, t.cfg, t.cache, cs, e);
  }
}
