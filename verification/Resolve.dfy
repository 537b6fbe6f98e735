/**
 From a pair of hashes to a file on disk: resolveLocked and openPath of
 internal/store/store.go.
 */
module Resolve {
  import opened Text
  import opened Config
  import opened Listing

  type CleanSegs = s: seq<string> | AllProper(s)

  /** What EvalSymlinks gives: a clean absolute path, or one of two kinds of error. */
  datatype Followed = At(abs: CleanSegs) | Missing | Failed

  /** What Lstat gives. */
  datatype Kind = Regular | Other | Gone | Unknown

  /** The file system as openPath asks it. */
  datatype Disk = Disk(follow: CleanSegs -> Followed, lstat: CleanSegs -> Kind)

  datatype Outcome = Found(abs: seq<string>, entry: Entry) | Invalid | NotFound | Conflict | Error

  datatype Opened = Opened(abs: CleanSegs) | NotThere | Trouble

  /** openPath. */
  function OpenPath(disk: Disk, cfg: ServerConfig, e: Entry): Opened {
    var root := RootSegs(cfg);
    var clean := CleanPath("/" + e.logicalPath);
    if clean == [] || !Eligible(cfg, clean[0]) then NotThere
    else
      var abs := Under(root, clean);
      if !WithinRoot(root, abs) then NotThere
      else
        match disk.follow(abs)
        case Missing => NotThere
        case Failed => Trouble
        case At(resolved) =>
          if !WithinRoot(root, resolved) || !Eligible(cfg, Rel(root, resolved)[0]) then NotThere
          else
            match disk.lstat(resolved)
            case Gone => NotThere
            case Unknown => Trouble
            case Other => NotThere
            case Regular => Opened(resolved)
  }

  function Under(root: CleanSegs, p: CleanSegs): CleanSegs { root + p }

  function Carries(dirHash: string, fileHash: string): Entry -> bool {
    (e: Entry) => e.dirHash == dirHash && e.fileHash == fileHash
  }

  /** resolveLocked on the entries of its scan. */
  function ResolveIn(disk: Disk, cfg: ServerConfig, scan: Scan, dirHash: string, fileHash: string): Outcome {
    if !IsDigest(dirHash, cfg.hashAlgorithm) || !IsDigest(fileHash, cfg.hashAlgorithm) then Invalid
    else if scan.Fail? then Error
    else
      var matches := Filter(scan.entries, Carries(dirHash, fileHash));
      if |matches| == 0 then NotFound
      else if |matches| > 1 then Conflict
      else
        match OpenPath(disk, cfg, matches[0])
        case Opened(abs) => Found(abs, matches[0])
        case NotThere => NotFound
        case Trouble => Error
  }

  // --------------------------------------------------------------------- safety

  /** Whatever links the disk holds, openPath opens exactly what lies strictly below the root, in a namespace, as a regular file. */
  lemma OpenPathIff(disk: Disk, cfg: ServerConfig, e: Entry, r: CleanSegs)
    ensures OpenPath(disk, cfg, e) == Opened(r) <==>
      var root, clean := RootSegs(cfg), CleanPath("/" + e.logicalPath);
      && clean != [] && Eligible(cfg, clean[0]) && disk.follow(Under(root, clean)) == At(r)
      && root < r && Eligible(cfg, r[|root|]) && disk.lstat(r) == Regular
  {
    hide Eligible, CleanPath, RootSegs;
    var root, clean := RootSegs(cfg), CleanPath("/" + e.logicalPath);
    WithinRootIff(root, Under(root, clean));
    WithinRootIff(root, r);
    assert root < r ==> Rel(root, r)[0] == r[|root|];
  }

  /** A server error, as opposed to NotFound, comes only from a file system that fails to follow or to stat an allowed path. */
  lemma OpenTroubleIff(disk: Disk, cfg: ServerConfig, e: Entry)
    ensures OpenPath(disk, cfg, e) == Trouble <==>
      var root, clean := RootSegs(cfg), CleanPath("/" + e.logicalPath);
      && clean != [] && Eligible(cfg, clean[0])
      && var f := disk.follow(Under(root, clean));
        f.Failed? || (f.At? && root < f.abs && Eligible(cfg, f.abs[|root|]) && disk.lstat(f.abs) == Unknown)
  {
    hide Eligible, CleanPath, RootSegs;
    var root, clean := RootSegs(cfg), CleanPath("/" + e.logicalPath);
    WithinRootIff(root, Under(root, clean));
    var f := disk.follow(Under(root, clean));
    if f.At? {
      WithinRootIff(root, f.abs);
      assert root < f.abs ==> Rel(root, f.abs)[0] == f.abs[|root|];
    }
  }

  // ------------------------------------------------------- the disk of one tree

  /** The node at `p`, through open directories only. */
  function NodeAt(node: Node, p: seq<string>): Option<Node>
    decreases node
  {
    if p == [] then Some(node)
    else if node.Dir? && node.access.Open? then NodeIn(node.children, p) else None
  }

  function NodeIn(cs: seq<Child>, p: seq<string>): Option<Node>
    requires p != []
    decreases cs
  {
    if cs == [] then None
    else if cs[0].name == p[0] then NodeAt(cs[0].node, p[1..])
    else NodeIn(cs[1..], p)
  }

  /** Where links lead, and what cannot be seen in the tree, is anybody's guess. */
  datatype Beyond = Beyond(follow: (CleanSegs, seq<string>) -> Followed, lstat: CleanSegs -> Kind)

  /** EvalSymlinks from the node at absolute path `at` along `p`. */
  function Follow(beyond: Beyond, at: CleanSegs, node: Node, p: seq<string>): Followed
    requires Wf(node)
    decreases node
  {
    match node
    case Link => beyond.follow(at, p)
    case Dir(Open, cs) => if p == [] then At(at) else FollowIn(beyond, at, cs, p)
    case Dir(_, _) => if p == [] then At(at) else beyond.follow(at, p)
    case _ => if p == [] then At(at) else Failed
  }

  function FollowIn(beyond: Beyond, at: CleanSegs, cs: seq<Child>, p: seq<string>): Followed
    requires WfChildren(cs) && p != []
    decreases cs
  {
    if cs == [] then Missing
    else if cs[0].name == p[0] then Follow(beyond, Step(at, cs[0].name), cs[0].node, p[1..])
    else FollowIn(beyond, at, cs[1..], p)
  }

  function Step(at: CleanSegs, name: string): CleanSegs
    requires Proper(name)
  {
    at + [name]
  }

  function KindOf(node: Node): Kind { if node.File? then Regular else Other }

  function FollowFrom(beyond: Beyond, root: CleanSegs, tree: Node, abs: CleanSegs): Followed
    requires Wf(tree)
  {
    if root <= abs then Follow(beyond, root, tree, abs[|root|..]) else beyond.follow(abs, [])
  }

  function KindFrom(beyond: Beyond, root: CleanSegs, tree: Node, abs: CleanSegs): Kind {
    if root <= abs && NodeAt(tree, abs[|root|..]).Some? then KindOf(NodeAt(tree, abs[|root|..]).value) else beyond.lstat(abs)
  }

  /** The quiet disk that holds `tree` at a root reached without links. */
  function TreeDisk(beyond: Beyond, root: CleanSegs, tree: Node): Disk
    requires Wf(tree)
  {
    Disk((abs: CleanSegs) => FollowFrom(beyond, root, tree, abs), (abs: CleanSegs) => KindFrom(beyond, root, tree, abs))
  }

  lemma {:induction false} ReachFollows(beyond: Beyond, at: CleanSegs, node: Node, p: seq<string>)
    requires Wf(node) && Reach(node, p).Some? && AllProper(at + p)
    ensures Follow(beyond, at, node, p) == At(at + p)
    ensures NodeAt(node, p) == Some(File(Reach(node, p).value))
    decreases node
  {
    hide AllProper, Proper;
    if p == [] {
      assert at + p == at;
    } else {
      ReachFollowsIn(beyond, at, node.children, p);
    }
  }

  lemma {:induction false} ReachFollowsIn(beyond: Beyond, at: CleanSegs, cs: seq<Child>, p: seq<string>)
    requires WfChildren(cs) && p != [] && ReachIn(cs, p).Some? && AllProper(at + p)
    ensures FollowIn(beyond, at, cs, p) == At(at + p)
    ensures NodeIn(cs, p) == Some(File(ReachIn(cs, p).value))
    decreases cs
  {
    hide AllProper, Proper;
    if cs[0].name == p[0] {
      MoveHead(at, p);
      NameIsProper(cs[0].name);
      ReachFollows(beyond, Step(at, cs[0].name), cs[0].node, p[1..]);
    } else {
      ReachFollowsIn(beyond, at, cs[1..], p);
    }
  }

  // ------------------------------------------------------- openPath inverts scan

  lemma EntryPathClean(e: Entry)
    requires AllProper(SegsOf(e))
    ensures CleanPath("/" + e.logicalPath) == SegsOf(e)
  {
    hide CleanPath, AllProper;
    JoinSplit(e.logicalPath, '/');
    CleanJoined(SegsOf(e));
  }

  /** The entry's path leads to a regular file that the tree serves. */
  predicate ServedIn(cfg: ServerConfig, tree: Node, e: Entry) {
    tree.Dir? && tree.access.Open? && Served(cfg, tree.children, SegsOf(e)) && AllProper(SegsOf(e))
  }

  /** A served entry opens at its own path, whatever its hashes and wherever links elsewhere lead. */
  lemma OpenServed(cfg: ServerConfig, beyond: Beyond, tree: Node, e: Entry)
    requires Wf(tree) && ServedIn(cfg, tree, e)
    ensures OpenPath(TreeDisk(beyond, RootSegs(cfg), tree), cfg, e) == Opened(RootSegs(cfg) + SegsOf(e))
    ensures NodeAt(tree, SegsOf(e)) == Some(File(ReachIn(tree.children, SegsOf(e)).value))
  {
    var q, root := SegsOf(e), RootSegs(cfg);
    assert tree == Dir(Open, tree.children);
    EntryPathClean(e);
    hide Eligible, CleanPath, RootSegs, SegsOf, Reach, ReachIn, WfChildren, TreeDisk;
    DiskServes(beyond, root, tree.children, q);
    OpenPathIff(TreeDisk(beyond, root, tree), cfg, e, Under(root, q));
    FirstBelow(root, q);
  }

  /** An entry of the scan opens as the very regular file the scan saw. */
  lemma OpenInvertsScan(h: Hasher, cfg: ServerConfig, beyond: Beyond, cs: seq<Child>, e: Entry)
    requires WfChildren(cs) && ServedEntry(h, cfg, cs, e)
    ensures OpenPath(TreeDisk(beyond, RootSegs(cfg), Dir(Open, cs)), cfg, e) == Opened(RootSegs(cfg) + SegsOf(e))
    ensures NodeAt(Dir(Open, cs), SegsOf(e)) == Some(File(ReachIn(cs, SegsOf(e)).value))
  {
    hide OpenPath, RootSegs, SegsOf, TreeDisk, Served, NodeAt;
    OpenServed(cfg, beyond, Dir(Open, cs), e);
  }

  lemma FirstBelow<T>(root: seq<T>, q: seq<T>)
    requires q != []
    ensures root < root + q && (root + q)[|root|] == q[0] && (root + q)[|root|..] == q
  {}

  /** The disk of a tree follows no link on the way to a file the scan reaches. */
  lemma DiskServes(beyond: Beyond, root: CleanSegs, cs: seq<Child>, q: CleanSegs)
    requires WfChildren(cs) && q != [] && ReachIn(cs, q).Some?
    ensures var disk, abs := TreeDisk(beyond, root, Dir(Open, cs)), Under(root, q);
      disk.follow(abs) == At(abs) && disk.lstat(abs) == Regular
    ensures NodeAt(Dir(Open, cs), q) == Some(File(ReachIn(cs, q).value))
  {
    hide Proper, Reach, ReachIn, NodeIn, FollowIn;
    var tree, abs := Dir(Open, cs), Under(root, q);
    FirstBelow(root, q);
    ReachFollowsIn(beyond, root, cs, q);
    assert Follow(beyond, root, tree, q) == At(abs);
    assert FollowFrom(beyond, root, tree, abs) == At(abs);
    assert KindFrom(beyond, root, tree, abs) == Regular;
  }

  // ------------------------------------------------------------ resolving pairs

  /** `e` is the only member of `s` that carries the pair. */
  predicate OnlyCarrier(s: seq<Entry>, dirHash: string, fileHash: string, e: Entry) {
    && e in s && Carries(dirHash, fileHash)(e)
    && forall d :: d in s && Carries(dirHash, fileHash)(d) ==> d == e
  }

  /** How many matches there are, read off a strictly increasing listing. */
  lemma MatchCount(s: seq<Entry>, dirHash: string, fileHash: string)
    requires Sorted(s)
    ensures var c := Carries(dirHash, fileHash); var m := Filter(s, c);
      && (|m| == 0 <==> forall e :: e in s ==> !c(e))
      && (|m| > 1 <==> exists d, e :: d in s && e in s && c(d) && c(e) && d != e)
      && (forall e :: OnlyCarrier(s, dirHash, fileHash, e) <==> |m| == 1 && m[0] == e)
  {
    hide Less;
    var c := Carries(dirHash, fileHash);
    var m := Filter(s, c);
    FilterSorted(s, c);
    assert forall e :: e in s && c(e) <==> e in m;
    if |m| > 0 {
      assert m[0] in m;
      if |m| > 1 {
        assert m[1] in m;
        LessTotal(m[0].logicalPath, m[1].logicalPath);
      }
    }
  }

  /**
   * The outcome for a pair is exactly what a listing says: NotFound, the entry at
   * its own path, or Conflict as none, one, or several entries carry it.
   */
  ghost predicate ExactOutcome(cfg: ServerConfig, es: seq<Entry>, dirHash: string, fileHash: string, r: Outcome) {
    var c := Carries(dirHash, fileHash);
    && (r == NotFound <==> forall e :: e in es ==> !c(e))
    && (r == Conflict <==> exists d, e :: d in es && e in es && c(d) && c(e) && d != e)
    && (forall e :: OnlyCarrier(es, dirHash, fileHash, e) <==> r == Found(RootSegs(cfg) + SegsOf(e), e))
    && (r == NotFound || r == Conflict || r.Found?)
  }

  /** Resolving against any strictly increasing listing of served entries is exact. */
  lemma ResolveListing(cfg: ServerConfig, beyond: Beyond, tree: Node, es: seq<Entry>, dirHash: string, fileHash: string)
    requires Wf(tree) && Sorted(es) && forall e :: e in es ==> ServedIn(cfg, tree, e)
    requires IsDigest(dirHash, cfg.hashAlgorithm) && IsDigest(fileHash, cfg.hashAlgorithm)
    ensures ExactOutcome(cfg, es, dirHash, fileHash,
                         ResolveIn(TreeDisk(beyond, RootSegs(cfg), tree), cfg, Ok(es), dirHash, fileHash))
    ensures var r := ResolveIn(TreeDisk(beyond, RootSegs(cfg), tree), cfg, Ok(es), dirHash, fileHash);
      r.Found? ==> r.entry in es && r.abs == RootSegs(cfg) + SegsOf(r.entry)
  {
    hide Less, RootSegs, OpenPath, TreeDisk, Wf, Sorted, IsDigest, ServedIn;
    var m := Filter(es, Carries(dirHash, fileHash));
    MatchCount(es, dirHash, fileHash);
    if |m| == 1 {
      assert m[0] in m;
      OpenServed(cfg, beyond, tree, m[0]);
    }
  }

  /**
   * On a quiet tree a well-formed pair gives NotFound, the entry with its very
   * file, or Conflict exactly when no, one, or several listed entries carry it.
   */
  lemma ResolveExact(h: Hasher, cfg: ServerConfig, beyond: Beyond, cs: seq<Child>, dirHash: string, fileHash: string)
    requires WfChildren(cs) && FreshScan(h, cfg, Dir(Open, cs)).Ok?
    requires IsDigest(dirHash, cfg.hashAlgorithm) && IsDigest(fileHash, cfg.hashAlgorithm)
    ensures var scan := FreshScan(h, cfg, Dir(Open, cs));
      var r := ResolveIn(TreeDisk(beyond, RootSegs(cfg), Dir(Open, cs)), cfg, scan, dirHash, fileHash);
      && ExactOutcome(cfg, scan.entries, dirHash, fileHash, r)
      && (r.Found? ==>
            && Served(cfg, cs, SegsOf(r.entry)) && r.abs == RootSegs(cfg) + SegsOf(r.entry)
            && Describes(h, cfg, r.entry, ReachIn(cs, SegsOf(r.entry)).value))
  {
    var es := FreshScan(h, cfg, Dir(Open, cs)).entries;
    ListingExact(h, cfg, cs, []);
    forall e | e in es ensures ServedIn(cfg, Dir(Open, cs), e) {
      hide Served, EntryFor, FreshHash, DirHashable, AllProper, Shareable, FreshScan, Sorted;
      assert ServedEntry(h, cfg, cs, e);
    }
    hide FreshScan, RootSegs, ResolveIn, Describes, TreeDisk, Served, Sorted, ExactOutcome, ServedIn, SegsOf, IsDigest;
    ResolveListing(cfg, beyond, Dir(Open, cs), es, dirHash, fileHash);
  }

  /** The link of a listed entry works: it opens that entry unless another entry carries the same pair. */
  lemma ListedPairResolves(h: Hasher, cfg: ServerConfig, beyond: Beyond, cs: seq<Child>, e: Entry)
    requires WfChildren(cs) && FreshScan(h, cfg, Dir(Open, cs)).Ok?
    requires e in FreshScan(h, cfg, Dir(Open, cs)).entries
    ensures var scan := FreshScan(h, cfg, Dir(Open, cs));
      var r := ResolveIn(TreeDisk(beyond, RootSegs(cfg), Dir(Open, cs)), cfg, scan, e.dirHash, e.fileHash);
      r == if OnlyCarrier(scan.entries, e.dirHash, e.fileHash, e) then Found(RootSegs(cfg) + SegsOf(e), e) else Conflict
  {
    ListingExact(h, cfg, cs, []);
    ListedHashes(h, cfg, cs, e);
    hide FreshScan, ServedEntry, Shareable, IsDigest, RootSegs, TreeDisk, ResolveIn, Sorted, HexLength, Describes, Served;
    ResolveExact(h, cfg, beyond, cs, e.dirHash, e.fileHash);
    assert Carries(e.dirHash, e.fileHash)(e);
  }
}
