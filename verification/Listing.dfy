/**
 The namespace scan of internal/store/store.go when every file is hashed afresh:
 which entries it yields, for which files, and in which order.
 */
module Listing {
  import opened Text
  import opened Config

  // ------------------------------------------------------------------ file tree

  /** Broken is any directory error other than "permission" or "does not exist". */
  datatype Access = Open | Denied | Broken

  /** What opening and reading a file gives. */
  datatype Read = Bytes(content: string) | NoAccess | IoError

  datatype FileInfo = FileInfo(size: nat, mtime: int, data: Read)

  datatype Node = Dir(access: Access, children: seq<Child>) | File(info: FileInfo) | Link | Special
  datatype Child = Child(name: string, node: Node)

  /** File names are proper segments without NUL, and siblings differ. */
  predicate NameOk(s: string) { Proper(s) && '\0' !in s }

  predicate Wf(node: Node)
    decreases node
  {
    node.Dir? ==> WfChildren(node.children)
  }

  predicate WfChildren(cs: seq<Child>)
    decreases cs
  {
    cs != [] ==>
      && NameOk(cs[0].name) && Wf(cs[0].node) && WfChildren(cs[1..])
      && forall i :: 1 <= i < |cs| ==> cs[i].name != cs[0].name
  }

  // ----------------------------------------------------------------------- scan

  datatype Entry = Entry(logicalPath: string, logicalDir: string, dirHash: string, fileHash: string, size: nat)

  datatype Scan = Ok(entries: seq<Entry>) | Fail

  datatype Hashing = Hashed(hex: string) | Omitted | Aborted

  /** Hash of a basename; an error skips the file. */
  function NameHash(h: Hasher, cfg: ServerConfig, name: string): Hashing {
    match FilenameHash(h, name, cfg.hashAlgorithm)
    case Some(x) => Hashed(x)
    case None => Omitted
  }

  /** Hash of the contents; unreadable files are omitted, other errors end the scan. */
  function DataHash(h: Hasher, cfg: ServerConfig, data: Read): Hashing {
    match data
    case NoAccess => Omitted
    case IoError => Aborted
    case Bytes(c) =>
      match HashString(h, c, cfg.hashAlgorithm)
      case Some(x) => Hashed(x)
      case None => Aborted
  }

  function FreshHash(h: Hasher, cfg: ServerConfig, path: seq<string>, info: FileInfo): Hashing
    requires path != []
  {
    if cfg.hashTarget == "filename" then NameHash(h, cfg, path[|path| - 1]) else DataHash(h, cfg, info.data)
  }

  function LogicalDir(path: seq<string>): string
    requires path != []
  {
    Join(path[..|path| - 1], '/')
  }

  /** The entry for the file at `path` (namespace first) once its hash is known. */
  function EntryFor(h: Hasher, cfg: ServerConfig, path: seq<string>, size: nat, hex: string): Entry
    requires path != [] && DirectoryHash(h, LogicalDir(path), cfg.hashAlgorithm).Some?
  {
    var dir := LogicalDir(path);
    Entry(dir + "/" + path[|path| - 1], dir, DirectoryHash(h, dir, cfg.hashAlgorithm).value, hex, size)
  }

  predicate DirHashable(h: Hasher, cfg: ServerConfig, path: seq<string>)
    requires path != []
  {
    DirectoryHash(h, LogicalDir(path), cfg.hashAlgorithm).Some?
  }

  /** The walk callback on a regular file. */
  function FileScan(h: Hasher, cfg: ServerConfig, path: seq<string>, size: nat, x: Hashing): Scan
    requires path != []
  {
    if !DirHashable(h, cfg, path) then Ok([])
    else
      match x
      case Hashed(hex) => Ok([EntryFor(h, cfg, path, size, hex)])
      case Omitted => Ok([])
      case Aborted => Fail
  }

  function Cat(a: Scan, b: Scan): Scan {
    if a.Fail? || b.Fail? then Fail else Ok(a.entries + b.entries)
  }

  lemma CatNothing(s: Scan)
    ensures Cat(s, Ok([])) == s && Cat(Ok([]), s) == s
  {
    if s.Ok? {
      assert s.entries + [] == s.entries && [] + s.entries == s.entries;
    }
  }

  /** scanNamespace: links are never followed, denied directories are skipped. */
  function WalkNode(h: Hasher, cfg: ServerConfig, path: seq<string>, node: Node): Scan
    requires path != []
    decreases node
  {
    match node
    case Link => Ok([])
    case Special => Ok([])
    case File(info) => FileScan(h, cfg, path, info.size, FreshHash(h, cfg, path, info))
    case Dir(Denied, _) => Ok([])
    case Dir(Broken, _) => Fail
    case Dir(Open, cs) => WalkChildren(h, cfg, path, cs)
  }

  function WalkChildren(h: Hasher, cfg: ServerConfig, path: seq<string>, cs: seq<Child>): Scan
    requires path != []
    decreases cs
  {
    if cs == [] then Ok([])
    else Cat(WalkNode(h, cfg, path + [cs[0].name], cs[0].node), WalkChildren(h, cfg, path, cs[1..]))
  }

  /** The loop over the top-level directory. */
  function ScanTop(h: Hasher, cfg: ServerConfig, cs: seq<Child>): Scan {
    if cs == [] then Ok([])
    else
      var first := if cs[0].node.Dir? && Eligible(cfg, cs[0].name) then WalkNode(h, cfg, [cs[0].name], cs[0].node) else Ok([]);
      Cat(first, ScanTop(h, cfg, cs[1..]))
  }

  function SortScan(s: Scan): Scan { if s.Fail? then Fail else Ok(Sort(s.entries)) }

  /** scan, hashing every file. */
  function FreshScan(h: Hasher, cfg: ServerConfig, root: Node): Scan {
    match root
    case Dir(Denied, _) => Ok([])
    case Dir(Open, cs) => SortScan(ScanTop(h, cfg, cs))
    case _ => Fail
  }

  // ---------------------------------------------------------------------- order

  /** Go's string order. */
  predicate Less(a: string, b: string) {
    b != "" && (a == "" || a[0] < b[0] || (a[0] == b[0] && Less(a[1..], b[1..])))
  }

  lemma {:induction false} LessTotal(a: string, b: string)
    ensures !Less(a, a)
    ensures a != b ==> (Less(a, b) <==> !Less(b, a))
  {
    if a != "" {
      LessTotal(a[1..], if b != "" then b[1..] else "");
      if b != "" {
        HeadTail(a, b);
      }
    }
  }

  lemma {:induction false} LessTrans(a: string, b: string, c: string)
    requires Less(a, b) && Less(b, c)
    ensures Less(a, c)
  {
    if a != "" && a[0] == b[0] == c[0] {
      LessTrans(a[1..], b[1..], c[1..]);
    }
  }

  predicate Sorted(s: seq<Entry>) {
    forall i, j :: 0 <= i < j < |s| ==> Less(s[i].logicalPath, s[j].logicalPath)
  }

  predicate Distinct(s: seq<Entry>) {
    forall i, j :: 0 <= i < j < |s| ==> s[i].logicalPath != s[j].logicalPath
  }

  function Insert(e: Entry, s: seq<Entry>): seq<Entry> {
    if s == [] || Less(e.logicalPath, s[0].logicalPath) then [e] + s else [s[0]] + Insert(e, s[1..])
  }

  /** sort.Slice by logical path; with distinct paths the result is unique, so any sort will do. */
  function Sort(s: seq<Entry>): seq<Entry> {
    if s == [] then [] else Insert(s[0], Sort(s[1..]))
  }

  lemma {:induction false} InsertMembers(e: Entry, s: seq<Entry>)
    ensures multiset(Insert(e, s)) == multiset(s) + multiset{e}
  {
    if s != [] && !Less(e.logicalPath, s[0].logicalPath) {
      InsertMembers(e, s[1..]);
      assert s == [s[0]] + s[1..];
    }
  }

  lemma {:induction false} SortMembers(s: seq<Entry>)
    ensures multiset(Sort(s)) == multiset(s)
  {
    if s != [] {
      SortMembers(s[1..]);
      InsertMembers(s[0], Sort(s[1..]));
      assert s == [s[0]] + s[1..];
    }
  }

  lemma SameMembers(a: seq<Entry>, b: seq<Entry>)
    requires multiset(a) == multiset(b)
    ensures |a| == |b| && forall e :: e in a <==> e in b
  {
    assert |multiset(a)| == |a| && |multiset(b)| == |b|;
    forall e ensures e in a <==> e in b {
      assert e in a <==> e in multiset(a);
      assert e in b <==> e in multiset(b);
    }
  }

  predicate Fresh(e: Entry, s: seq<Entry>) { forall i :: 0 <= i < |s| ==> s[i].logicalPath != e.logicalPath }

  lemma {:induction false} InsertSorted(e: Entry, s: seq<Entry>)
    requires Sorted(s) && Fresh(e, s)
    ensures Sorted(Insert(e, s))
  {
    hide Less;
    if s != [] {
      LessTotal(e.logicalPath, s[0].logicalPath);
      if Less(e.logicalPath, s[0].logicalPath) {
        forall j | 0 < j < |s| ensures Less(e.logicalPath, s[j].logicalPath) {
          LessTrans(e.logicalPath, s[0].logicalPath, s[j].logicalPath);
        }
      } else {
        InsertSorted(e, s[1..]);
        InsertMembers(e, s[1..]);
        var r := Insert(e, s[1..]);
        forall j | 0 <= j < |r| ensures Less(s[0].logicalPath, r[j].logicalPath) {
          assert r[j] in multiset(r);
          assert r[j] == e || r[j] in s[1..];
        }
      }
    }
  }

  /** With distinct logical paths the listing is strictly increasing. */
  lemma {:induction false} SortSorted(s: seq<Entry>)
    requires Distinct(s)
    ensures Sorted(Sort(s))
  {
    if s != [] {
      var rest := s[1..];
      SortSorted(rest);
      SortMembers(rest);
      SameMembers(Sort(rest), rest);
      forall i | 0 <= i < |Sort(rest)| ensures Sort(rest)[i].logicalPath != s[0].logicalPath {
        assert Sort(rest)[i] in rest;
      }
      InsertSorted(s[0], Sort(rest));
    }
  }

  lemma SameHead(a: seq<Entry>, b: seq<Entry>)
    requires Sorted(a) && Sorted(b) && a != [] && b != []
    requires a[0] in b && b[0] in a
    ensures a[0] == b[0]
  {
    var i :| 0 <= i < |b| && b[i] == a[0];
    var j :| 0 <= j < |a| && a[j] == b[0];
    LessTotal(a[0].logicalPath, b[0].logicalPath);
    hide Less;
  }

  /** A strictly increasing listing is determined by its members. */
  lemma {:induction false} SortedSameSet(a: seq<Entry>, b: seq<Entry>)
    requires Sorted(a) && Sorted(b) && forall e :: e in a <==> e in b
    ensures a == b
  {
    hide Less;
    SomeMember(a);
    SomeMember(b);
    if a != [] && b != [] {
      assert a[0] in a && b[0] in b;
      SameHead(a, b);
      forall e ensures e in a[1..] <==> e in b[1..] {
        TailOfSorted(a, e);
        TailOfSorted(b, e);
      }
      SortedSameSet(a[1..], b[1..]);
      HeadTail(a, b);
    }
  }

  lemma SomeMember(a: seq<Entry>)
    ensures a != [] ==> exists e :: e in a
  {
    if a != [] {
      assert a[0] in a;
    }
  }

  lemma TailOfSorted(a: seq<Entry>, e: Entry)
    requires Sorted(a) && a != []
    ensures e in a[1..] <==> e in a && e != a[0]
  {
    LessTotal(a[0].logicalPath, a[0].logicalPath);
    hide Less;
    if e in a && e != a[0] {
      var i :| 0 <= i < |a| && a[i] == e;
      assert a[1..][i - 1] == e;
    }
  }

  lemma {:induction false} FilterSorted(s: seq<Entry>, p: Entry -> bool)
    requires Sorted(s)
    ensures Sorted(Filter(s, p))
  {
    hide Less;
    if s != [] {
      var rest := Filter(s[1..], p);
      FilterSorted(s[1..], p);
      forall j | 0 <= j < |rest| ensures Less(s[0].logicalPath, rest[j].logicalPath) {
        assert rest[j] in s[1..];
      }
    }
  }

  // -------------------------------------------------------- which files appear

  /** The regular file reached from `node` along `p`, through open directories only. */
  function Reach(node: Node, p: seq<string>): Option<FileInfo>
    decreases node
  {
    if p == [] then (if node.File? then Some(node.info) else None)
    else if node.Dir? && node.access.Open? then ReachIn(node.children, p) else None
  }

  function ReachIn(cs: seq<Child>, p: seq<string>): Option<FileInfo>
    requires p != []
    decreases cs
  {
    if cs == [] then None
    else if cs[0].name == p[0] then Reach(cs[0].node, p[1..])
    else ReachIn(cs[1..], p)
  }

  /** The path an entry speaks of. */
  function SegsOf(e: Entry): seq<string> { Split(e.logicalPath, '/') }

  /** `e` is the entry of the file `info` at its own path. */
  predicate Describes(h: Hasher, cfg: ServerConfig, e: Entry, info: FileInfo) {
    var q := SegsOf(e);
    && AllProper(q) && DirHashable(h, cfg, q)
    && FreshHash(h, cfg, q, info).Hashed?
    && e == EntryFor(h, cfg, q, info.size, FreshHash(h, cfg, q, info).hex)
  }

  lemma EntrySegs(h: Hasher, cfg: ServerConfig, path: seq<string>, size: nat, hex: string)
    requires |path| >= 2 && AllProper(path) && DirHashable(h, cfg, path)
    ensures SegsOf(EntryFor(h, cfg, path, size, hex)) == path
  {
    hide DirectoryHash;
    var init, last := path[..|path| - 1], path[|path| - 1];
    JoinLast(init, last, '/');
    InitLast(path);
    assert forall p :: p in path ==> '/' !in p by {
      assert forall i :: 0 <= i < |path| ==> Proper(path[i]);
    }
    SplitJoin(path, '/');
  }

  /** Every entry of a walk describes a file the walk reaches, below `path`. */
  predicate Below(h: Hasher, cfg: ServerConfig, path: seq<string>, node: Node, e: Entry) {
    var q := SegsOf(e);
    && path <= q && Reach(node, q[|path|..]).Some?
    && Describes(h, cfg, e, Reach(node, q[|path|..]).value)
  }

  predicate BelowIn(h: Hasher, cfg: ServerConfig, path: seq<string>, cs: seq<Child>, e: Entry) {
    var q := SegsOf(e);
    && path < q && ReachIn(cs, q[|path|..]).Some?
    && Describes(h, cfg, e, ReachIn(cs, q[|path|..]).value)
  }

  lemma ProperAppend(path: seq<string>, name: string)
    requires AllProper(path) && Proper(name)
    ensures AllProper(path + [name])
  {}

  lemma {:induction false} WalkSound(h: Hasher, cfg: ServerConfig, path: seq<string>, node: Node, e: Entry)
    requires path != [] && AllProper(path) && Wf(node) && (node.File? ==> |path| >= 2)
    requires WalkNode(h, cfg, path, node).Ok? && e in WalkNode(h, cfg, path, node).entries
    ensures Below(h, cfg, path, node, e)
    decreases node
  {
    hide Describes, EntryFor, FreshHash;
    match node
    case File(info) =>
      FileBelow(h, cfg, path, info, e);
    case Dir(_, cs) =>
      WalkChildrenSound(h, cfg, path, cs, e);
      assert SegsOf(e)[|path|..] != [];
  }

  lemma FileBelow(h: Hasher, cfg: ServerConfig, path: seq<string>, info: FileInfo, e: Entry)
    requires |path| >= 2 && AllProper(path)
    requires var s := FileScan(h, cfg, path, info.size, FreshHash(h, cfg, path, info)); s.Ok? && e in s.entries
    ensures Below(h, cfg, path, File(info), e)
  {
    EntrySegs(h, cfg, path, info.size, FreshHash(h, cfg, path, info).hex);
    assert path[|path|..] == [];
  }

  lemma {:induction false} WalkChildrenSound(h: Hasher, cfg: ServerConfig, path: seq<string>, cs: seq<Child>, e: Entry)
    requires path != [] && AllProper(path) && WfChildren(cs)
    requires WalkChildren(h, cfg, path, cs).Ok? && e in WalkChildren(h, cfg, path, cs).entries
    ensures BelowIn(h, cfg, path, cs, e)
    decreases cs
  {
    hide Describes, FileScan, Proper;
    var c, sub := cs[0], path + [cs[0].name];
    assert Proper(c.name) by { NameIsProper(c.name); }
    ProperAppend(path, c.name);
    if e in WalkNode(h, cfg, sub, c.node).entries {
      WalkSound(h, cfg, sub, c.node, e);
      ConsBelow(SegsOf(e), path, c.name);
    } else {
      WalkChildrenSound(h, cfg, path, cs[1..], e);
      OtherChild(cs, SegsOf(e)[|path|..]);
    }
  }

  lemma NameIsProper(s: string)
    requires NameOk(s)
    ensures Proper(s)
  {}

  lemma ConsBelow(q: seq<string>, path: seq<string>, name: string)
    requires path + [name] <= q
    ensures path < q && q[|path|..][0] == name && q[|path|..][1..] == q[|path + [name]|..]
  {
    assert q[|path|] == (path + [name])[|path|];
  }

  /** A path found among the later children starts with another name than the first child's. */
  lemma {:induction false} OtherChild(cs: seq<Child>, p: seq<string>)
    requires cs != [] && WfChildren(cs) && p != [] && ReachIn(cs[1..], p).Some?
    ensures p[0] != cs[0].name
  {
    NameAmong(cs[1..], p);
  }

  lemma {:induction false} NameAmong(cs: seq<Child>, p: seq<string>)
    requires p != [] && ReachIn(cs, p).Some?
    ensures exists i :: 0 <= i < |cs| && cs[i].name == p[0]
    decreases cs
  {
    if cs[0].name != p[0] {
      NameAmong(cs[1..], p);
      var i :| 0 <= i < |cs[1..]| && cs[1..][i].name == p[0];
      assert cs[i + 1].name == p[0];
    }
  }

  /** Every file a successful walk reaches is listed, unless its hash is omitted. */
  lemma {:induction false} WalkComplete(h: Hasher, cfg: ServerConfig, path: seq<string>, node: Node, p: seq<string>)
    requires path != [] && WalkNode(h, cfg, path, node).Ok? && Reach(node, p).Some?
    requires DirHashable(h, cfg, path + p) && FreshHash(h, cfg, path + p, Reach(node, p).value).Hashed?
    ensures var info := Reach(node, p).value;
      EntryFor(h, cfg, path + p, info.size, FreshHash(h, cfg, path + p, info).hex) in WalkNode(h, cfg, path, node).entries
    decreases node
  {
    hide EntryFor, FreshHash, DirHashable;
    if p == [] {
      assert path + p == path;
    } else {
      WalkChildrenComplete(h, cfg, path, node.children, p);
    }
  }

  lemma {:induction false} WalkChildrenComplete(h: Hasher, cfg: ServerConfig, path: seq<string>, cs: seq<Child>, p: seq<string>)
    requires path != [] && p != [] && WalkChildren(h, cfg, path, cs).Ok? && ReachIn(cs, p).Some?
    requires DirHashable(h, cfg, path + p) && FreshHash(h, cfg, path + p, ReachIn(cs, p).value).Hashed?
    ensures var info := ReachIn(cs, p).value;
      EntryFor(h, cfg, path + p, info.size, FreshHash(h, cfg, path + p, info).hex) in WalkChildren(h, cfg, path, cs).entries
    decreases cs
  {
    hide EntryFor, FreshHash, DirHashable, FileScan;
    if cs[0].name == p[0] {
      MoveHead(path, p);
      WalkComplete(h, cfg, path + [cs[0].name], cs[0].node, p[1..]);
    } else {
      WalkChildrenComplete(h, cfg, path, cs[1..], p);
    }
  }

  lemma MoveHead<T>(a: seq<T>, p: seq<T>)
    requires p != []
    ensures a + [p[0]] + p[1..] == a + p
  {}

  // -------------------------------------------------------------- whole listing

  lemma SameSegs(a: Entry, b: Entry)
    ensures a.logicalPath == b.logicalPath <==> SegsOf(a) == SegsOf(b)
  {
    JoinSplit(a.logicalPath, '/');
    JoinSplit(b.logicalPath, '/');
  }

  lemma DistinctCat(a: seq<Entry>, b: seq<Entry>)
    requires Distinct(a) && Distinct(b)
    requires forall x, y :: x in a && y in b ==> x.logicalPath != y.logicalPath
    ensures Distinct(a + b)
  {
    var s := a + b;
    forall i, j | 0 <= i < j < |s| ensures s[i].logicalPath != s[j].logicalPath {
      if i < |a| <= j {
        assert s[i] in a && s[j] in b;
      }
    }
  }

  /** Distinct files get distinct logical paths. */
  lemma {:induction false} WalkDistinct(h: Hasher, cfg: ServerConfig, path: seq<string>, node: Node)
    requires path != [] && AllProper(path) && Wf(node) && WalkNode(h, cfg, path, node).Ok?
    ensures Distinct(WalkNode(h, cfg, path, node).entries)
    decreases node
  {
    if node.Dir? && node.access.Open? {
      WalkChildrenDistinct(h, cfg, path, node.children);
    }
  }

  lemma {:induction false} WalkChildrenDistinct(h: Hasher, cfg: ServerConfig, path: seq<string>, cs: seq<Child>)
    requires path != [] && AllProper(path) && WfChildren(cs) && WalkChildren(h, cfg, path, cs).Ok?
    ensures Distinct(WalkChildren(h, cfg, path, cs).entries)
    decreases cs
  {
    hide Proper, SegsOf, Reach, ReachIn, Describes;
    if cs != [] {
      var c, sub := cs[0], path + [cs[0].name];
      NameIsProper(c.name);
      ProperAppend(path, c.name);
      WalkDistinct(h, cfg, sub, c.node);
      WalkChildrenDistinct(h, cfg, path, cs[1..]);
      var a, b := WalkNode(h, cfg, sub, c.node).entries, WalkChildren(h, cfg, path, cs[1..]).entries;
      forall x, y | x in a && y in b ensures x.logicalPath != y.logicalPath {
        WalkSound(h, cfg, sub, c.node, x);
        WalkChildrenSound(h, cfg, path, cs[1..], y);
        OtherChild(cs, SegsOf(y)[|path|..]);
        ConsBelow(SegsOf(x), path, c.name);
        SameSegs(x, y);
      }
      DistinctCat(a, b);
    }
  }

  /** `q` names a regular file inside an eligible top-level directory, reached through open directories. */
  predicate Served(cfg: ServerConfig, cs: seq<Child>, q: seq<string>) {
    |q| >= 2 && Eligible(cfg, q[0]) && ReachIn(cs, q).Some?
  }

  predicate ServedEntry(h: Hasher, cfg: ServerConfig, cs: seq<Child>, e: Entry) {
    Served(cfg, cs, SegsOf(e)) && Describes(h, cfg, e, ReachIn(cs, SegsOf(e)).value)
  }

  lemma DirPathLong(node: Node, p: seq<string>)
    requires node.Dir? && Reach(node, p).Some?
    ensures p != []
  {}

  lemma {:induction false} TopSound(h: Hasher, cfg: ServerConfig, cs: seq<Child>, e: Entry)
    requires WfChildren(cs) && ScanTop(h, cfg, cs).Ok? && e in ScanTop(h, cfg, cs).entries
    ensures ServedEntry(h, cfg, cs, e)
    decreases cs
  {
    hide Describes, FileScan, Eligible, Proper;
    var c := cs[0];
    NameIsProper(c.name);
    if c.node.Dir? && Eligible(cfg, c.name) && e in WalkNode(h, cfg, [c.name], c.node).entries {
      WalkSound(h, cfg, [c.name], c.node, e);
      var q := SegsOf(e);
      DirPathLong(c.node, q[1..]);
      assert q[0] == [c.name][0];
    } else {
      TopSound(h, cfg, cs[1..], e);
      OtherChild(cs, SegsOf(e));
    }
  }

  lemma {:induction false} TopComplete(h: Hasher, cfg: ServerConfig, cs: seq<Child>, q: seq<string>)
    requires ScanTop(h, cfg, cs).Ok? && Served(cfg, cs, q)
    requires DirHashable(h, cfg, q) && FreshHash(h, cfg, q, ReachIn(cs, q).value).Hashed?
    ensures var info := ReachIn(cs, q).value;
      EntryFor(h, cfg, q, info.size, FreshHash(h, cfg, q, info).hex) in ScanTop(h, cfg, cs).entries
    decreases cs
  {
    hide EntryFor, FreshHash, DirHashable, FileScan, Eligible;
    if cs[0].name == q[0] {
      assert [q[0]] + q[1..] == q;
      WalkComplete(h, cfg, [q[0]], cs[0].node, q[1..]);
    } else {
      TopComplete(h, cfg, cs[1..], q);
    }
  }

  lemma {:induction false} TopDistinct(h: Hasher, cfg: ServerConfig, cs: seq<Child>)
    requires WfChildren(cs) && ScanTop(h, cfg, cs).Ok?
    ensures Distinct(ScanTop(h, cfg, cs).entries)
    decreases cs
  {
    hide Proper, SegsOf, Reach, ReachIn, Describes, Eligible;
    if cs != [] {
      var c := cs[0];
      TopDistinct(h, cfg, cs[1..]);
      if c.node.Dir? && Eligible(cfg, c.name) {
        NameIsProper(c.name);
        WalkDistinct(h, cfg, [c.name], c.node);
        var a, b := WalkNode(h, cfg, [c.name], c.node).entries, ScanTop(h, cfg, cs[1..]).entries;
        forall x, y | x in a && y in b ensures x.logicalPath != y.logicalPath {
          WalkSound(h, cfg, [c.name], c.node, x);
          assert SegsOf(x)[0] == [c.name][0];
          TopSound(h, cfg, cs[1..], y);
          OtherChild(cs, SegsOf(y));
          SameSegs(x, y);
        }
        DistinctCat(a, b);
      } else {
        assert [] + ScanTop(h, cfg, cs[1..]).entries == ScanTop(h, cfg, cs[1..]).entries;
      }
    }
  }

  /** With a supported algorithm every served directory can be hashed. */
  lemma ServedDirHashable(h: Hasher, cfg: ServerConfig, q: seq<string>)
    requires |q| >= 2 && AllProper(q)
    ensures DirHashable(h, cfg, q) <==> HexLength(cfg.hashAlgorithm).Some?
  {
    var init := q[..|q| - 1];
    var dir := LogicalDir(q);
    assert Proper(init[0]);
    assert dir[0] == init[0][0] && dir != "";
    assert dir != "." by {
      assert forall p :: p in init ==> '/' !in p by {
        assert forall i :: 0 <= i < |init| ==> Proper(q[i]);
      }
      SplitJoin(init, '/');
      assert Split(".", '/') == ["."];
    }
  }

  lemma HashedIsSupported(h: Hasher, cfg: ServerConfig, q: seq<string>, info: FileInfo)
    requires q != [] && FreshHash(h, cfg, q, info).Hashed?
    ensures HexLength(cfg.hashAlgorithm).Some?
  {}

  /** Every listed pair of hashes is well-formed. */
  lemma ListedHashes(h: Hasher, cfg: ServerConfig, cs: seq<Child>, e: Entry)
    requires ServedEntry(h, cfg, cs, e)
    ensures IsDigest(e.dirHash, cfg.hashAlgorithm) && IsDigest(e.fileHash, cfg.hashAlgorithm)
  {
    hide IsDigest, AllProper, Served;
  }

  lemma {:induction false} ReachProper(node: Node, p: seq<string>)
    requires Wf(node) && Reach(node, p).Some?
    ensures AllProper(p)
    decreases node
  {
    if p != [] {
      ReachInProper(node.children, p);
    }
  }

  lemma {:induction false} ReachInProper(cs: seq<Child>, p: seq<string>)
    requires WfChildren(cs) && p != [] && ReachIn(cs, p).Some?
    ensures AllProper(p)
    decreases cs
  {
    if cs[0].name == p[0] {
      NameIsProper(cs[0].name);
      ReachProper(cs[0].node, p[1..]);
      assert forall i :: 1 <= i < |p| ==> p[i] == p[1..][i - 1];
    } else {
      ReachInProper(cs[1..], p);
    }
  }

  /** The served file at `q` has a hash of its own: readable contents, or hashing by name. */
  predicate Shareable(h: Hasher, cfg: ServerConfig, cs: seq<Child>, q: seq<string>) {
    Served(cfg, cs, q) && FreshHash(h, cfg, q, ReachIn(cs, q).value).Hashed?
  }

  /**
   * The listing: strictly increasing in the logical path, every entry describes
   * a served file, and every shareable file has exactly one entry.
   */
  lemma ListingExact(h: Hasher, cfg: ServerConfig, cs: seq<Child>, q: seq<string>)
    requires WfChildren(cs) && FreshScan(h, cfg, Dir(Open, cs)).Ok?
    ensures var es := FreshScan(h, cfg, Dir(Open, cs)).entries;
      && Sorted(es)
      && (forall e :: e in es ==> ServedEntry(h, cfg, cs, e) && Shareable(h, cfg, cs, SegsOf(e)))
      && (Shareable(h, cfg, cs, q) ==> exists e :: e in es && SegsOf(e) == q)
      && (forall i, j :: 0 <= i < |es| && 0 <= j < |es| && SegsOf(es[i]) == SegsOf(es[j]) ==> i == j)
  {
    hide Less, Eligible, FreshHash, Proper;
    var raw := ScanTop(h, cfg, cs).entries;
    var es := Sort(raw);
    TopDistinct(h, cfg, cs);
    SortSorted(raw);
    SortMembers(raw);
    SameMembers(es, raw);
    forall e | e in es ensures ServedEntry(h, cfg, cs, e) && Shareable(h, cfg, cs, SegsOf(e)) {
      TopSound(h, cfg, cs, e);
    }
    if Shareable(h, cfg, cs, q) {
      ReachInProper(cs, q);
      HashedIsSupported(h, cfg, q, ReachIn(cs, q).value);
      ServedDirHashable(h, cfg, q);
      TopComplete(h, cfg, cs, q);
      var info := ReachIn(cs, q).value;
      EntrySegs(h, cfg, q, info.size, FreshHash(h, cfg, q, info).hex);
    }
    forall i, j | 0 <= i < |es| && 0 <= j < |es| && SegsOf(es[i]) == SegsOf(es[j]) ensures i == j {
      SameSegs(es[i], es[j]);
      LessTotal(es[i].logicalPath, es[j].logicalPath);
    }
  }

  // ------------------------------------------------------- what an entry means

  /** What the algorithm of the configuration makes of a text. */
  predicate DigestOf(h: Hasher, cfg: ServerConfig, text: string, hex: string) {
    (cfg.hashAlgorithm == "md5" && hex == h.md5(text)) || (cfg.hashAlgorithm == "sha256" && hex == h.sha256(text))
  }

  /** The text whose digest is the file hash: the contents, or the last segment when hashing by name. */
  predicate FileText(cfg: ServerConfig, q: seq<string>, info: FileInfo, text: string)
    requires q != []
  {
    if cfg.hashTarget == "filename" then text == q[|q| - 1] else info.data == Bytes(text)
  }

  /** The entry says the path, the directory, the size and the two digests of the file `info` at `q`. */
  ghost predicate Tells(h: Hasher, cfg: ServerConfig, e: Entry, q: seq<string>, info: FileInfo)
    requires |q| >= 2
  {
    && e.logicalPath == Join(q, '/') && e.logicalDir == Join(q[..|q| - 1], '/') && e.size == info.size
    && DigestOf(h, cfg, Join(q[..|q| - 1], '/'), e.dirHash)
    && exists text :: FileText(cfg, q, info, text) && DigestOf(h, cfg, text, e.fileHash)
  }

  lemma DirectoryDigest(h: Hasher, cfg: ServerConfig, dir: string)
    requires DirectoryHash(h, dir, cfg.hashAlgorithm).Some?
    ensures DigestOf(h, cfg, dir, DirectoryHash(h, dir, cfg.hashAlgorithm).value)
  {}

  lemma FileDigest(h: Hasher, cfg: ServerConfig, q: seq<string>, info: FileInfo)
    requires q != [] && FreshHash(h, cfg, q, info).Hashed?
    ensures exists text :: FileText(cfg, q, info, text) && DigestOf(h, cfg, text, FreshHash(h, cfg, q, info).hex)
  {
    var text := if cfg.hashTarget == "filename" then q[|q| - 1] else info.data.content;
    assert FileText(cfg, q, info, text) && DigestOf(h, cfg, text, FreshHash(h, cfg, q, info).hex);
  }

  /** Describing a file is telling exactly these things. */
  lemma DescribesTells(h: Hasher, cfg: ServerConfig, e: Entry, info: FileInfo)
    requires Describes(h, cfg, e, info) && |SegsOf(e)| >= 2
    ensures Tells(h, cfg, e, SegsOf(e), info)
  {
    hide Proper, FreshHash, DirectoryHash, FileText, DigestOf;
    var q := SegsOf(e);
    JoinSplit(e.logicalPath, '/');
    DirectoryDigest(h, cfg, LogicalDir(q));
    FileDigest(h, cfg, q, info);
  }

  /** Every listed entry tells the truth about a served file. */
  lemma ListedTells(h: Hasher, cfg: ServerConfig, cs: seq<Child>, e: Entry)
    requires WfChildren(cs) && FreshScan(h, cfg, Dir(Open, cs)).Ok? && e in FreshScan(h, cfg, Dir(Open, cs)).entries
    ensures var q := SegsOf(e); Served(cfg, cs, q) && Tells(h, cfg, e, q, ReachIn(cs, q).value)
  {
    ListingExact(h, cfg, cs, []);
    hide FreshScan, Describes, SegsOf, Tells, ReachIn, Eligible;
    assert ServedEntry(h, cfg, cs, e);
    DescribesTells(h, cfg, e, ReachIn(cs, SegsOf(e)).value);
  }

  /** Which served files are shareable. */
  lemma ShareableIff(h: Hasher, cfg: ServerConfig, cs: seq<Child>, q: seq<string>)
    requires WfChildren(cs)
    ensures Shareable(h, cfg, cs, q) <==>
      && |q| >= 2 && Eligible(cfg, q[0]) && ReachIn(cs, q).Some?
      && (cfg.hashAlgorithm == "md5" || cfg.hashAlgorithm == "sha256")
      && (cfg.hashTarget == "filename" || ReachIn(cs, q).value.data.Bytes?)
  {
    hide Eligible;
    if q != [] && ReachIn(cs, q).Some? {
      ReachInProper(cs, q);
      assert Proper(q[|q| - 1]);
    }
  }

  // ----------------------------------------------------------------- the order

  /** One text comes before another exactly when it is a proper prefix, or has the smaller character where they first differ. */
  lemma {:induction false} LessIff(a: string, b: string)
    ensures Less(a, b) <==> exists k :: DiffersAt(a, b, k)
  {
    if b == "" {
      assert forall k :: !DiffersAt(a, b, k);
    } else if a == "" || a[0] != b[0] {
      assert DiffersAt(a, b, 0) <==> a == "" || a[0] < b[0];
      assert forall k :: k > 0 ==> !DiffersAt(a, b, k);
    } else {
      LessIff(a[1..], b[1..]);
      if k :| DiffersAt(a[1..], b[1..], k) {
        DiffersLater(a, b, k + 1);
      }
      if k :| DiffersAt(a, b, k) {
        DiffersLater(a, b, k);
      }
    }
  }

  predicate DiffersAt(a: string, b: string, k: int) {
    0 <= k <= |a| && k < |b| && a[..k] == b[..k] && (k == |a| || a[k] < b[k])
  }

  lemma DiffersLater(a: string, b: string, k: int)
    requires a != "" && b != "" && a[0] == b[0]
    ensures DiffersAt(a, b, k) <==> DiffersAt(a[1..], b[1..], k - 1)
  {
    if 0 < k <= |a| && k < |b| {
      HeadTail(a[..k], b[..k]);
      assert a[..k][1..] == a[1..][..k - 1] && b[..k][1..] == b[1..][..k - 1];
    }
  }

  /** A root that is missing or may not be read serves nothing; any other trouble with it is an error. */
  lemma RootTrouble(h: Hasher, cfg: ServerConfig, cs: seq<Child>, info: FileInfo)
    ensures FreshScan(h, cfg, Dir(Denied, cs)) == Ok([]) && FreshScan(h, cfg, Dir(Broken, cs)) == Fail
    ensures FreshScan(h, cfg, File(info)) == Fail && FreshScan(h, cfg, Special) == Fail
  {}
}
