/**
 The sidecar notes when writes fail and when two keys share a fingerprint: the
 exact requests that leave a note without its key, or a key without its note.
 */
module KeyNotes {
  import opened Text
  import opened Keys
  import opened Manifest
  import opened Admin
  import RS = ReconcileScript

  /** A delete-key request passes every check on the loaded users. */
  predicate Removes(sha: Sha256, us: seq<User>, name: string, fp: string) {
    && Admissible(RemoveKey(name, fp))
    && var i := FirstIndex(us, name);
      i < |us| && DropKey(sha, us[i], fp).Ok? && StrictValid(us[i := DropKey(sha, us[i], fp).value])
  }

  /** Some key of the user still carries the fingerprint afterwards. */
  predicate StillCarried(sha: Sha256, us: seq<User>, name: string, fp: string)
    requires Removes(sha, us, name, fp)
  {
    KeyIn(sha, DropKey(sha, us[FirstIndex(us, name)], fp).value.keys, fp)
  }

  /** A delete request passes every check on the loaded users. */
  predicate Deletes(us: seq<User>, name: string) {
    ValidUsername(name) && var i := FirstIndex(us, name); i < |us| && !us[i].enabled && StrictValid(RemoveAt(us, i))
  }

  predicate HasNote(sha: Sha256, notes: NotesFile, u: User) {
    notes.Notes? && exists k :: k in u.keys && ValidKey(k) && NoteId(u.username, Fingerprint(sha, k)) in notes.text
  }

  /**
   * The request orphans a note: the manifest is written and the notes are not,
   * and it deletes a user with a noted key, or removes the last key of a user
   * that carries a noted fingerprint.
   */
  predicate Orphans(sha: Sha256, st: AdminState, req: Request, io: Outcomes) {
    && io.manifestOk && !io.notesOk && st.notes.Notes? && LoadUsers(st.manifest).Ok?
    && var us := LoadUsers(st.manifest).value;
      match req
      case Delete(name) => Deletes(us, name) && HasNote(sha, st.notes, us[FirstIndex(us, name)])
      case DeleteKey(name, fp) => Removes(sha, us, name, fp) && NoteId(name, fp) in st.notes.text && !StillCarried(sha, us, name, fp)
      case _ => false
  }

  // --------------------------------------------------------------- whose id is it

  /** An id of a valid user's fingerprint is live exactly when a key of that user carries it. */
  lemma LiveIff(sha: Sha256, us: seq<User>, name: string, fp: string)
    requires NamesValid(us) && ValidUsername(name)
    ensures NoteId(name, fp) in LiveIds(sha, us) <==> exists i :: 0 <= i < |us| && us[i].username == name && KeyIn(sha, us[i].keys, fp)
  {
    hide ParseKey, ValidUsername;
    if NoteId(name, fp) in LiveIds(sha, us) {
      var u, k :| u in us && k in u.keys && ValidKey(k) && NoteId(name, fp) == NoteId(u.username, Fingerprint(sha, k));
      var i :| 0 <= i < |us| && us[i] == u;
      NoteIdInjective(name, fp, u.username, Fingerprint(sha, k));
      var j :| 0 <= j < |u.keys| && u.keys[j] == k;
      assert Carries(sha, us[i].keys[j], fp);
    }
    if i :| 0 <= i < |us| && us[i].username == name && KeyIn(sha, us[i].keys, fp) {
      var j :| 0 <= j < |us[i].keys| && Carries(sha, us[i].keys[j], fp);
      LiveIntro(sha, us, us[i], us[i].keys[j]);
    }
  }

  /** After a removal the fingerprint is live exactly when a key of that user still carries it. */
  lemma LiveAfterRemoval(sha: Sha256, us: seq<User>, name: string, fp: string)
    requires LooseValid(us) && Removes(sha, us, name, fp)
    ensures NoteId(name, fp) in LiveIds(sha, Without(sha, us, name, fp)) <==> StillCarried(sha, us, name, fp)
  {
    hide ParseKey, ValidKey, ValidUsername, ValidOnly, KeyIn, LiveIds, KeysValid;
    var i := FirstIndex(us, name);
    var v := DropKey(sha, us[i], fp).value;
    var next := us[i := v];
    assert v.username == name && next[i] == v;
    assert forall j :: 0 <= j < |us| && j != i ==> next[j] == us[j] && us[j].username != name;
    LiveIff(sha, next, name, fp);
  }

  lemma RemovalLoses(sha: Sha256, us: seq<User>, name: string, fp: string)
    requires Removes(sha, us, name, fp)
    ensures LiveIds(sha, us) - {NoteId(name, fp)} <= LiveIds(sha, Without(sha, us, name, fp))
  {
    hide ParseKey, ValidKey, ValidUsername, ValidOnly, LiveIds, StrictValid, ValidFingerprint;
    var i := FirstIndex(us, name);
    var v := DropKey(sha, us[i], fp).value;
    forall k | k in us[i].keys && ValidKey(k) && k !in v.keys
      ensures NoteId(v.username, Fingerprint(sha, k)) in {NoteId(name, fp)}
    {
      DropKeyLoses(sha, us[i], fp, k);
    }
    LiveAfterReplace(sha, us, i, v, {NoteId(name, fp)});
  }

  /** Deleting a user loses exactly that user's ids. */
  lemma DeletionLoses(sha: Sha256, us: seq<User>, i: nat, id: string)
    requires LooseValid(us) && i < |us| && id in LiveIds(sha, us)
    ensures id !in LiveIds(sha, RemoveAt(us, i)) <==>
            exists k :: k in us[i].keys && ValidKey(k) && id == NoteId(us[i].username, Fingerprint(sha, k))
  {
    hide ParseKey, ValidUsername, KeysValid;
    var left := RemoveAt(us, i);
    assert forall j :: 0 <= j < |left| ==> left[j] == us[if j < i then j else j + 1];
    if k :| k in us[i].keys && ValidKey(k) && id == NoteId(us[i].username, Fingerprint(sha, k)) {
      LiveIff(sha, left, us[i].username, Fingerprint(sha, k));
    } else {
      var u, k :| u in us && k in u.keys && ValidKey(k) && id == NoteId(u.username, Fingerprint(sha, k));
      OthersRemain(us, i, u);
      LiveIntro(sha, left, u, k);
    }
  }

  lemma RepairKeepsLive(sha: Sha256, us: seq<User>)
    ensures LiveIds(sha, us) <= LiveIds(sha, RepairUsers(us))
  {
    hide ParseKey, ValidOnly, RepairUser;
    var r := RepairUsers(us);
    forall id | id in LiveIds(sha, us) ensures id in LiveIds(sha, r) {
      var u, k :| u in us && k in u.keys && ValidKey(k) && id == NoteId(u.username, Fingerprint(sha, k));
      var i :| 0 <= i < |us| && us[i] == u;
      RepairedUser(u);
      ValidOnlyFacts(u.keys);
      assert r[i] in r;
      LiveIntro(sha, r, r[i], k);
    }
  }

  // ----------------------------------------------------------- the six requests

  /** The manifest half of a delete-key request. */
  lemma RemovalOutcome(sha: Sha256, m: ManifestFile, name: string, fp: string, writeOk: bool)
    requires LoadUsers(m).Ok?
    ensures var us := LoadUsers(m).value; var i := FirstIndex(us, name);
      var (after, err) := UpdateFile(sha, m, RemoveKey(name, fp), writeOk);
      && (err.None? <==> writeOk && Removes(sha, us, name, fp)) && (err.Some? <==> !err.None?)
      && (err.None? ==> after == Document(1, us[i := DropKey(sha, us[i], fp).value]))
      && (err.Some? ==> after == m)
  {
    hide StrictValid, LooseValid, DropKey, ValidUsername, ValidFingerprint;
  }

  lemma DeletionOutcome(sha: Sha256, m: ManifestFile, name: string, writeOk: bool)
    requires LoadUsers(m).Ok?
    ensures var us := LoadUsers(m).value; var i := FirstIndex(us, name);
      var (after, err) := UpdateFile(sha, m, RemoveUser(name), writeOk);
      && (err.None? <==> writeOk && Deletes(us, name)) && (err.Some? <==> !err.None?)
      && (err.None? ==> after == Document(1, RemoveAt(us, i)))
      && (err.Some? ==> after == m)
  {
    hide StrictValid, LooseValid, ValidUsername;
  }

  lemma LoadedLoose(m: ManifestFile)
    requires LoadUsers(m).Ok?
    ensures LooseValid(LoadUsers(m).value)
  {
    assert LooseValid([]);
  }

  /** The users after a delete-key request that passes every check. */
  function Without(sha: Sha256, us: seq<User>, name: string, fp: string): seq<User>
    requires Removes(sha, us, name, fp)
  {
    var i := FirstIndex(us, name);
    us[i := DropKey(sha, us[i], fp).value]
  }

  /** A delete-key request as a whole. */
  lemma RemovalHandled(sha: Sha256, st: AdminState, name: string, fp: string, io: Outcomes)
    requires LoadUsers(st.manifest).Ok?
    ensures var us := LoadUsers(st.manifest).value;
      Handle(sha, st, DeleteKey(name, fp), io) ==
        if io.manifestOk && Removes(sha, us, name, fp)
        then AdminState(Document(1, Without(sha, us, name, fp)), DeleteNote(st.notes, NoteId(name, fp), io.notesOk).0)
        else st
    ensures var us := LoadUsers(st.manifest).value;
      Removes(sha, us, name, fp) ==> LoadUsers(Document(1, Without(sha, us, name, fp))) == Ok(Without(sha, us, name, fp))
  {
    hide UpdateFile, StrictValid, LoadUsers, DropKey, FirstIndex;
    var us := LoadUsers(st.manifest).value;
    RemovalOutcome(sha, st.manifest, name, fp, io.manifestOk);
    if Removes(sha, us, name, fp) {
      StrictIsLoose(Without(sha, us, name, fp));
    }
  }

  lemma RemovalGoodIff(sha: Sha256, st: AdminState, name: string, fp: string, io: Outcomes)
    requires Good(sha, st) && !io.notesOk && st.notes.Notes?
    ensures Good(sha, Handle(sha, st, DeleteKey(name, fp), io)) <==> !Orphans(sha, st, DeleteKey(name, fp), io)
  {
    hide LoadUsers, EnabledUsable, LiveIds, Handle, DropKey, FirstIndex, Removes, StillCarried, LooseValid;
    var us := LoadUsers(st.manifest).value;
    HandlerKeepsUsable(sha, st, DeleteKey(name, fp), io);
    RemovalHandled(sha, st, name, fp, io);
    if io.manifestOk && Removes(sha, us, name, fp) {
      LoadedLoose(st.manifest);
      RemovalLoses(sha, us, name, fp);
      LiveAfterRemoval(sha, us, name, fp);
    }
  }

  /** A delete request as a whole. */
  lemma DeletionHandled(sha: Sha256, st: AdminState, name: string, io: Outcomes)
    requires LoadUsers(st.manifest).Ok? && !io.notesOk
    ensures var us := LoadUsers(st.manifest).value; var i := FirstIndex(us, name);
      Handle(sha, st, Delete(name), io) ==
        if io.manifestOk && Deletes(us, name) then st.(manifest := Document(1, RemoveAt(us, i))) else st
    ensures var us := LoadUsers(st.manifest).value; var i := FirstIndex(us, name);
      Deletes(us, name) ==> LoadUsers(Document(1, RemoveAt(us, i))) == Ok(RemoveAt(us, i))
  {
    hide UpdateFile, StrictValid, LoadUsers, LiveIds, FirstIndex;
    var us := LoadUsers(st.manifest).value;
    DeletionOutcome(sha, st.manifest, name, io.manifestOk);
    if Deletes(us, name) {
      StrictIsLoose(RemoveAt(us, FirstIndex(us, name)));
    }
  }

  lemma DeletionGoodIff(sha: Sha256, st: AdminState, name: string, io: Outcomes)
    requires Good(sha, st) && !io.notesOk && st.notes.Notes?
    ensures Good(sha, Handle(sha, st, Delete(name), io)) <==> !Orphans(sha, st, Delete(name), io)
  {
    hide LoadUsers, EnabledUsable, LiveIds, Handle, FirstIndex, Deletes, LooseValid, ValidKey, Fingerprint, NoteId, RemoveAt;
    var us := LoadUsers(st.manifest).value;
    var i := FirstIndex(us, name);
    HandlerKeepsUsable(sha, st, Delete(name), io);
    DeletionHandled(sha, st, name, io);
    if io.manifestOk && Deletes(us, name) {
      LoadedLoose(st.manifest);
      DeletesFirst(us, name);
      forall id | id in st.notes.text
        ensures id !in LiveIds(sha, RemoveAt(us, i)) <==>
                exists k :: k in us[i].keys && ValidKey(k) && id == NoteId(us[i].username, Fingerprint(sha, k))
      {
        DeletionLoses(sha, us, i, id);
      }
    }
  }

  lemma DeletesFirst(us: seq<User>, name: string)
    requires Deletes(us, name)
    ensures var i := FirstIndex(us, name); i < |us| && us[i].username == name
  {
    hide StrictValid, ValidUsername;
  }

  lemma RepairOrphansNothing(sha: Sha256, st: AdminState, io: Outcomes)
    requires Good(sha, st) && !io.notesOk
    ensures Good(sha, Handle(sha, st, RemoveInvalid, io))
  {
    hide EnabledUsable, LiveIds, LooseValid, StrictValid, InvalidCount, Emptied, RepairUsers;
    HandlerKeepsUsable(sha, st, RemoveInvalid, io);
    var us := LoadUsers(st.manifest).value;
    RepairKeepsLive(sha, us);
    var (after, rep) := RepairFile(st.manifest, io.manifestOk);
    if after != st.manifest {
      StrictIsLoose(RepairUsers(us));
    }
  }

  /** The other requests either leave the notes alone anyway, or write nothing at all. */
  lemma OthersOrphanNothing(sha: Sha256, st: AdminState, req: Request, io: Outcomes)
    requires Good(sha, st) && !io.notesOk && (req.Submit? || req.Status? || req.KeyNote?)
    ensures Good(sha, Handle(sha, st, req, io))
  {
    hide Good, UpdateFile, LoadUsers, CanEnable, KeyFound;
    if req.KeyNote? {
      assert Handle(sha, st, req, io) == st;
    } else {
      HandlerKeepsGood(sha, st, req, Outcomes(io.manifestOk, true));
    }
  }

  /**
   * From a good state, one handler leaves a good state if and only if its request
   * does not orphan a note: a condition on the state, the request and how the
   * writes go.
   */
  lemma HandlerGoodIff(sha: Sha256, st: AdminState, req: Request, io: Outcomes)
    requires Good(sha, st)
    ensures Good(sha, Handle(sha, st, req, io)) <==> !Orphans(sha, st, req, io)
  {
    hide Handle, LoadUsers, EnabledUsable, LiveIds, Deletes, Removes, StillCarried, HasNote;
    if io.notesOk {
      HandlerKeepsGood(sha, st, req, io);
    } else if st.notes.CorruptNotes? {
      HandlerKeepsUsable(sha, st, req, io);
      ManifestApart(sha, st, req, io, st.notes);
    } else {
      match req
      case Delete(name) => DeletionGoodIff(sha, st, name, io);
      case DeleteKey(name, fp) => RemovalGoodIff(sha, st, name, fp, io);
      case RemoveInvalid => RepairOrphansNothing(sha, st, io);
      case _ => OthersOrphanNothing(sha, st, req, io);
    }
  }

  lemma NextState(sha: Sha256, st: AdminState, calls: seq<Call>, n: nat)
    requires n < |calls|
    ensures HandleAll(sha, st, calls[..n + 1]) == Handle(sha, HandleAll(sha, st, calls[..n]), calls[n].req, calls[n].io)
  {
    hide Handle;
    assert calls[..n + 1][..n] == calls[..n];
  }

  lemma {:induction false} GoodTo(sha: Sha256, st: AdminState, calls: seq<Call>, n: nat)
    requires Good(sha, st) && n <= |calls|
    requires forall k: nat :: k < |calls| ==> !Orphans(sha, HandleAll(sha, st, calls[..k]), calls[k].req, calls[k].io)
    ensures Good(sha, HandleAll(sha, st, calls[..n]))
  {
    hide Good, Orphans, Handle;
    if n > 0 {
      GoodTo(sha, st, calls, n - 1);
      NextState(sha, st, calls, n - 1);
      HandlerGoodIff(sha, HandleAll(sha, st, calls[..n - 1]), calls[n - 1].req, calls[n - 1].io);
    }
  }

  /** Over every run of handlers: both invariants hold at every point if and only if no request ever orphans a note. */
  lemma AlwaysGoodIff(sha: Sha256, st: AdminState, calls: seq<Call>)
    requires Good(sha, st)
    ensures (forall n: nat :: n <= |calls| ==> Good(sha, HandleAll(sha, st, calls[..n]))) <==>
            (forall n: nat :: n < |calls| ==> !Orphans(sha, HandleAll(sha, st, calls[..n]), calls[n].req, calls[n].io))
  {
    hide Good, Orphans, Handle;
    if forall n: nat :: n <= |calls| ==> Good(sha, HandleAll(sha, st, calls[..n])) {
      forall n: nat | n < |calls| ensures !Orphans(sha, HandleAll(sha, st, calls[..n]), calls[n].req, calls[n].io) {
        assert Good(sha, HandleAll(sha, st, calls[..n])) && Good(sha, HandleAll(sha, st, calls[..n + 1]));
        NextState(sha, st, calls, n);
        HandlerGoodIff(sha, HandleAll(sha, st, calls[..n]), calls[n].req, calls[n].io);
      }
    }
    if forall n: nat :: n < |calls| ==> !Orphans(sha, HandleAll(sha, st, calls[..n]), calls[n].req, calls[n].io) {
      forall n: nat | n <= |calls| ensures Good(sha, HandleAll(sha, st, calls[..n])) {
        GoodTo(sha, st, calls, n);
      }
    }
  }

  // ------------------------------------------------- a surviving key loses its note

  /** The note is gone although a key it belongs to is still there. */
  predicate Stripped(sha: Sha256, before: AdminState, after: AdminState, id: string) {
    && before.notes.Notes? && id in before.notes.text
    && after.notes.Notes? && id !in after.notes.text
    && LoadUsers(after.manifest).Ok? && id in LiveIds(sha, LoadUsers(after.manifest).value)
  }

  /**
   * Removing a key strips a surviving key of its note exactly when the note is
   * that of the removed fingerprint, both writes succeed, and another key of the
   * user carries the same fingerprint.
   */
  lemma StrippedIff(sha: Sha256, st: AdminState, name: string, fp: string, io: Outcomes, id: string)
    requires LoadUsers(st.manifest).Ok? && st.notes.Notes? && id in st.notes.text
    ensures var us := LoadUsers(st.manifest).value;
      Stripped(sha, st, Handle(sha, st, DeleteKey(name, fp), io), id) <==>
      && id == NoteId(name, fp) && io.manifestOk && io.notesOk
      && Removes(sha, us, name, fp) && StillCarried(sha, us, name, fp)
  {
    hide LoadUsers, LiveIds, Handle, DropKey, FirstIndex, Removes, StillCarried, LooseValid;
    var us := LoadUsers(st.manifest).value;
    RemovalHandled(sha, st, name, fp, io);
    if io.manifestOk && Removes(sha, us, name, fp) {
      LoadedLoose(st.manifest);
      LiveAfterRemoval(sha, us, name, fp);
    }
  }

  /** A key, and the same key with a comment. */
  function Twins(): seq<string> { [RS.SampleKey() + " alice", RS.SampleKey()] }

  lemma TwinsMatch(sha: Sha256)
    ensures ValidKey(Twins()[0]) && ValidKey(Twins()[1]) && Fingerprint(sha, Twins()[0]) == Fingerprint(sha, Twins()[1])
  {
    assert IsSpace(' ') && SingleLine(" alice");
    hide IsSpace, SingleLine, ParseKey, RS.SampleKey, BlobFingerprint;
    RS.SampleWithComment(" alice");
  }

  /** One enabled user whose two keys share a fingerprint. */
  lemma TwinRemoved(sha: Sha256, name: string, a: string, b: string)
    requires ValidUsername(name) && ValidKey(a) && ValidKey(b) && Fingerprint(sha, a) == Fingerprint(sha, b)
    ensures var us, fp := [User(name, true, [a, b])], Fingerprint(sha, b);
      LooseValid(us) && Removes(sha, us, name, fp) && StillCarried(sha, us, name, fp)
  {
    hide ParseKey, ValidUsername, ValidOnly, ValidFingerprint, ValidKey, Fingerprint, FirstCarrier;
    var u, fp := User(name, true, [a, b]), Fingerprint(sha, b);
    var us := [u];
    FingerprintShape(sha, b);
    assert Carries(sha, u.keys[0], fp) && Carries(sha, [b][0], fp);
    assert FirstCarrier(sha, u.keys, fp) == 0;
    assert RemoveAt(u.keys, 0) == [b];
    UsableMember([b], b);
    assert DropKey(sha, u, fp) == Ok(User(name, true, [b]));
    assert us[0 := User(name, true, [b])] == [User(name, true, [b])];
  }

  lemma TwinGood(sha: Sha256, name: string, a: string, b: string, note: string)
    requires ValidUsername(name) && ValidKey(a) && ValidKey(b)
    ensures Good(sha, AdminState(Document(1, [User(name, true, [a, b])]), Notes(map[NoteId(name, Fingerprint(sha, b)) := note])))
  {
    hide ParseKey, ValidUsername, ValidOnly, Fingerprint;
    var us := [User(name, true, [a, b])];
    assert us[0] in us && b in us[0].keys;
    UsableMember(us[0].keys, b);
    LiveIntro(sha, us, us[0], b);
  }

  /** Removing the commented twin by its fingerprint takes the note of the other one along. */
  lemma TwinStripped(sha: Sha256, note: string)
    ensures ValidKey(RS.SampleKey())
    ensures var fp := Fingerprint(sha, RS.SampleKey());
      var st := AdminState(Document(1, [User("u", true, Twins())]), Notes(map[NoteId("u", fp) := note]));
      Good(sha, st) && Stripped(sha, st, Handle(sha, st, DeleteKey("u", fp), Outcomes(true, true)), NoteId("u", fp))
  {
    assert ValidUsername("u");
    hide ParseKey, ValidKey, ValidUsername, Good, Handle, Stripped, Removes, StillCarried, RS.SampleKey, Fingerprint, LooseValid;
    var a, b := RS.SampleKey() + " alice", RS.SampleKey();
    TwinsMatch(sha);
    TwinGood(sha, "u", a, b, note);
    TwinRemoved(sha, "u", a, b);
    var fp := Fingerprint(sha, b);
    var st := AdminState(Document(1, [User("u", true, Twins())]), Notes(map[NoteId("u", fp) := note]));
    StrippedIff(sha, st, "u", fp, Outcomes(true, true), NoteId("u", fp));
  }
}
