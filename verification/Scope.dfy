/** What a share link may see: sharedTop and filterByScope of internal/server/links.go. */
module Scope {
  import opened Text
  import opened Config
  import opened Listing

  datatype Scope = AdminScope | UserScope(user: string)

  /** The text before the first slash. */
  function TopOf(logicalPath: string): string { logicalPath[..IndexOf(logicalPath, '/')] }

  function Visible(cfg: ServerConfig, user: string): Entry -> bool {
    (e: Entry) => TopOf(e.logicalPath) == SharedTop(cfg) || TopOf(e.logicalPath) == user
  }

  /** filterByScope. */
  method FilterByScope(cfg: ServerConfig, entries: seq<Entry>, scope: Scope) returns (out: seq<Entry>)
    ensures out == match scope
                   case AdminScope => entries
                   case UserScope(user) => Filter(entries, Visible(cfg, user))
  {
    hide SharedTop;
    if scope.AdminScope? {
      return entries;
    }
    var top := SharedTop(cfg);
    out := [];
    for i := 0 to |entries|
      invariant out == Filter(entries[..i], Visible(cfg, scope.user))
    {
      var seg := TopOf(entries[i].logicalPath);
      FilterSnoc(entries, i, Visible(cfg, scope.user));
      if seg == top || seg == scope.user {
        out := out + [entries[i]];
      }
    }
    assert entries[..|entries|] == entries;
  }

  // ------------------------------------------------------------ restricted tree

  function Shown(cfg: ServerConfig, user: string): Child -> bool {
    (c: Child) => c.name == SharedTop(cfg) || c.name == user
  }

  /** The tree with only the shared top directory and the user's own. */
  function Restrict(cfg: ServerConfig, user: string, cs: seq<Child>): seq<Child> { Filter(cs, Shown(cfg, user)) }

  lemma TopIsFirst(e: Entry)
    ensures TopOf(e.logicalPath) == SegsOf(e)[0]
  {
    assert e.logicalPath[..|e.logicalPath|] == e.logicalPath;
  }

  /** All entries of one namespace are visible, or none is. */
  lemma NamespaceVisible(h: Hasher, cfg: ServerConfig, user: string, c: Child)
    requires NameOk(c.name) && Wf(c.node) && c.node.Dir? && WalkNode(h, cfg, [c.name], c.node).Ok?
    ensures var es := WalkNode(h, cfg, [c.name], c.node).entries;
      Filter(es, Visible(cfg, user)) == if Shown(cfg, user)(c) then es else []
  {
    hide SharedTop, TopOf, WalkNode, Wf;
    var es := WalkNode(h, cfg, [c.name], c.node).entries;
    NameIsProper(c.name);
    forall e | e in es ensures TopOf(e.logicalPath) == c.name {
      TopIsFirst(e);
      WalkSound(h, cfg, [c.name], c.node, e);
      hide Describes, Reach, SegsOf;
      assert SegsOf(e)[0] == [c.name][0];
    }
    FilterAll(es, Visible(cfg, user));
  }

  /** Scanning the restricted tree is filtering the scan, before sorting. */
  lemma {:induction false} TopRestricted(h: Hasher, cfg: ServerConfig, user: string, cs: seq<Child>)
    requires WfChildren(cs) && ScanTop(h, cfg, cs).Ok?
    ensures ScanTop(h, cfg, Restrict(cfg, user, cs)) == Ok(Filter(ScanTop(h, cfg, cs).entries, Visible(cfg, user)))
    decreases cs
  {
    hide SharedTop, Visible, Eligible, Proper, WalkNode;
    if cs != [] {
      var c, rest := cs[0], ScanTop(h, cfg, cs[1..]).entries;
      var first := if c.node.Dir? && Eligible(cfg, c.name) then WalkNode(h, cfg, [c.name], c.node) else Ok([]);
      TopRestricted(h, cfg, user, cs[1..]);
      FilterCat(first.entries, rest, Visible(cfg, user));
      if c.node.Dir? && Eligible(cfg, c.name) {
        NamespaceVisible(h, cfg, user, c);
      }
      var shown := Restrict(cfg, user, cs);
      if Shown(cfg, user)(c) {
        assert shown[0] == c && shown[1..] == Restrict(cfg, user, cs[1..]);
      } else {
        assert [] + Filter(rest, Visible(cfg, user)) == Filter(rest, Visible(cfg, user));
      }
    }
  }

  /**
   * Filtering a listing by a user scope is listing the restricted tree: nothing
   * else appears and nothing is lost.
   */
  lemma ScopeIsRestriction(h: Hasher, cfg: ServerConfig, user: string, cs: seq<Child>)
    requires WfChildren(cs) && FreshScan(h, cfg, Dir(Open, cs)).Ok?
    ensures FreshScan(h, cfg, Dir(Open, Restrict(cfg, user, cs)))
      == Ok(Filter(FreshScan(h, cfg, Dir(Open, cs)).entries, Visible(cfg, user)))
  {
    hide ScanTop, Restrict, Visible, Less, SharedTop;
    var p := Visible(cfg, user);
    var raw := ScanTop(h, cfg, cs).entries;
    TopDistinct(h, cfg, cs);
    TopRestricted(h, cfg, user, cs);
    FilterSort(raw, p);
  }

  lemma FilterSort(raw: seq<Entry>, p: Entry -> bool)
    requires Distinct(raw)
    ensures Filter(Sort(raw), p) == Sort(Filter(raw, p))
  {
    hide Less;
    var kept := Filter(raw, p);
    SortSorted(raw);
    FilterSorted(Sort(raw), p);
    FilterDistinct(raw, p);
    SortSorted(kept);
    SortMembers(raw);
    SameMembers(Sort(raw), raw);
    SortMembers(kept);
    SameMembers(Sort(kept), kept);
    SortedSameSet(Filter(Sort(raw), p), Sort(kept));
  }

  lemma {:induction false} FilterDistinct(s: seq<Entry>, p: Entry -> bool)
    requires Distinct(s)
    ensures Distinct(Filter(s, p))
  {
    if s != [] {
      var rest := Filter(s[1..], p);
      FilterDistinct(s[1..], p);
      forall j | 0 <= j < |rest| ensures s[0].logicalPath != rest[j].logicalPath {
        assert rest[j] in s[1..];
      }
    }
  }

  /** A user link shows exactly the shareable files of the shared top directory and of the user's own. */
  lemma ScopeShows(h: Hasher, cfg: ServerConfig, user: string, cs: seq<Child>, q: seq<string>)
    requires WfChildren(cs) && FreshScan(h, cfg, Dir(Open, cs)).Ok?
    ensures (exists e :: e in Filter(FreshScan(h, cfg, Dir(Open, cs)).entries, Visible(cfg, user)) && SegsOf(e) == q)
      <==> Shareable(h, cfg, cs, q) && (q[0] == SharedTop(cfg) || q[0] == user)
  {
    ListingExact(h, cfg, cs, q);
    hide FreshScan, Shareable, SharedTop, ServedEntry, TopOf, SegsOf, Sorted;
    var es := FreshScan(h, cfg, Dir(Open, cs)).entries;
    forall e ensures Visible(cfg, user)(e) <==> SegsOf(e)[0] == SharedTop(cfg) || SegsOf(e)[0] == user {
      TopIsFirst(e);
    }
    if Shareable(h, cfg, cs, q) {
      var e :| e in es && SegsOf(e) == q;
      assert e in Filter(es, Visible(cfg, user)) <==> Visible(cfg, user)(e);
    }
  }
}
