/**
 The admin handlers of internal/sftpadmin/server.go, one at a time: what each
 does to the manifest and to the sidecar notes, and what a run of handlers keeps.
 */
module Admin {
  import opened Text
  import opened Keys
  import opened Manifest

  datatype NotesFile = Notes(text: map<string, string>) | CorruptNotes

  datatype AdminState = AdminState(manifest: ManifestFile, notes: NotesFile)

  /** keyNoteID. */
  function NoteId(username: string, fp: string): string { username + ['|'] + fp }

  /** Distinct keys of valid users never share a note. */
  lemma NoteIdInjective(u1: string, fp1: string, u2: string, fp2: string)
    requires ValidUsername(u1) && ValidUsername(u2)
    requires NoteId(u1, fp1) == NoteId(u2, fp2)
    ensures u1 == u2 && fp1 == fp2
  {
    NoBar(u1);
    NoBar(u2);
    IndexOfConcat(u1, '|', fp1);
    IndexOfConcat(u2, '|', fp2);
    assert NoteId(u1, fp1)[..|u1|] == u1 && NoteId(u1, fp1)[|u1| + 1..] == fp1;
    assert NoteId(u2, fp2)[..|u2|] == u2 && NoteId(u2, fp2)[|u2| + 1..] == fp2;
  }

  lemma NoBar(u: string)
    requires NameShape(u)
    ensures '|' !in u
  {
    assert !NameChar('|');
  }

  /** The sidecar ids of all valid keys of the given users. */
  function LiveIds(sha: Sha256, us: seq<User>): set<string> {
    set u, k | u in us && k in u.keys && ValidKey(k) :: NoteId(u.username, Fingerprint(sha, k))
  }

  // The three note operations of the store: the file afterwards and the error, if any.

  function SetNote(n: NotesFile, id: string, note: string, writeOk: bool): (NotesFile, Option<Error>) {
    if n.CorruptNotes? then (n, Some(CannotLoadNotes))
    else if !writeOk then (n, Some(CannotWrite))
    else (Notes(if note == "" then n.text - {id} else n.text[id := note]), None)
  }

  /** A missing entry is no reason to write. */
  function DeleteNote(n: NotesFile, id: string, writeOk: bool): (NotesFile, Option<Error>) {
    if n.CorruptNotes? then (n, Some(CannotLoadNotes))
    else if id !in n.text then (n, None)
    else if !writeOk then (n, Some(CannotWrite))
    else (Notes(n.text - {id}), None)
  }

  /** Neither is a file whose entries are all to be kept. */
  function PruneNotes(n: NotesFile, keep: set<string>, writeOk: bool): (NotesFile, Option<Error>) {
    if n.CorruptNotes? then (n, Some(CannotLoadNotes))
    else if n.text.Keys <= keep then (n, None)
    else if !writeOk then (n, Some(CannotWrite))
    else (Notes(map id | id in n.text && id in keep :: n.text[id]), None)
  }

  const MAX_NOTE := 120

  datatype Request =
    | Submit(edit: Edit)                                       // create, add-key, generate-key
    | Status(name: string, on: bool)
    | Delete(name: string)
    | DeleteKey(name: string, fp: string)
    | KeyNote(name: string, fp: string, note: string)
    | RemoveInvalid

  /** How the writes of one handler go. */
  datatype Outcomes = Outcomes(manifestOk: bool, notesOk: bool)

  predicate Plain(e: Edit) { e.CreateUser? || e.AddKey? || e.GenerateKey? || e.Seed? }

  /** findKey: the user exists and one of its valid keys carries `fp`. */
  predicate KeyFound(sha: Sha256, us: seq<User>, name: string, fp: string) {
    var i := FirstIndex(us, name);
    i < |us| && FirstCarrier(sha, us[i].keys, fp) < |us[i].keys|
  }

  /** Some valid key of the list carries `fp`. */
  predicate KeyIn(sha: Sha256, keys: seq<string>, fp: string) {
    exists j :: 0 <= j < |keys| && Carries(sha, keys[j], fp)
  }

  function PruneToLive(sha: Sha256, st: AdminState, writeOk: bool): AdminState {
    match LoadUsers(st.manifest)
    case Err(_) => st
    case Ok(us) => st.(notes := PruneNotes(st.notes, LiveIds(sha, us), writeOk).0)
  }

  /** One whole handler when no other handler runs. */
  function Handle(sha: Sha256, st: AdminState, req: Request, io: Outcomes): AdminState {
    match req
    case Submit(e) =>
      if Plain(e) then st.(manifest := UpdateFile(sha, st.manifest, e, io.manifestOk).0) else st
    case Status(name, on) =>
      if on && !CanEnable(st.manifest, name) then st
      else st.(manifest := UpdateFile(sha, st.manifest, SetEnabled(name, on), io.manifestOk).0)
    case Delete(name) =>
      var (after, err) := UpdateFile(sha, st.manifest, RemoveUser(name), io.manifestOk);
      if err.Some? then st else PruneToLive(sha, st.(manifest := after), io.notesOk)
    case DeleteKey(name, fp) =>
      var (after, err) := UpdateFile(sha, st.manifest, RemoveKey(name, fp), io.manifestOk);
      if err.Some? then st else AdminState(after, DeleteNote(st.notes, NoteId(name, fp), io.notesOk).0)
    case KeyNote(name, fp, note) =>
      if !ValidUsername(name) || !ValidFingerprint(fp) || |note| > MAX_NOTE then st
      else (
        match LoadUsers(st.manifest)
        case Err(_) => st
        case Ok(us) =>
          if KeyFound(sha, us, name, fp) then st.(notes := SetNote(st.notes, NoteId(name, fp), note, io.notesOk).0) else st
      )
    case RemoveInvalid =>
      var (after, rep) := RepairFile(st.manifest, io.manifestOk);
      if rep.Err? then st else PruneToLive(sha, st.(manifest := after), io.notesOk)
  }

  /** handleStatus's check before enabling. */
  predicate CanEnable(file: ManifestFile, name: string) {
    match LoadUsers(file)
    case Err(_) => false
    case Ok(us) => var i := FirstIndex(us, name); i < |us| && ValidOnly(us[i].keys) != []
  }

  datatype Call = Call(req: Request, io: Outcomes)

  function HandleAll(sha: Sha256, st: AdminState, calls: seq<Call>): AdminState {
    if calls == [] then st
    else
      var c := calls[|calls| - 1];
      Handle(sha, HandleAll(sha, st, calls[..|calls| - 1]), c.req, c.io)
  }

  // -------------------------------------------------------- the two invariants

  /** An enabled user has at least one usable key. */
  predicate EnabledUsable(us: seq<User>) {
    forall i :: 0 <= i < |us| && us[i].enabled ==> ValidOnly(us[i].keys) != []
  }

  /** Every note belongs to a live valid key. */
  predicate NotesLive(sha: Sha256, notes: NotesFile, us: seq<User>) {
    notes.Notes? ==> notes.text.Keys <= LiveIds(sha, us)
  }

  /** The manifest loads, and an enabled user has at least one usable key. */
  predicate UsableFile(m: ManifestFile) { LoadUsers(m).Ok? && EnabledUsable(LoadUsers(m).value) }

  predicate Good(sha: Sha256, st: AdminState) {
    && LoadUsers(st.manifest).Ok?
    && EnabledUsable(LoadUsers(st.manifest).value)
    && NotesLive(sha, st.notes, LoadUsers(st.manifest).value)
  }

  lemma LiveIntro(sha: Sha256, us: seq<User>, u: User, k: string)
    requires u in us && k in u.keys && ValidKey(k)
    ensures NoteId(u.username, Fingerprint(sha, k)) in LiveIds(sha, us)
  {}

  /** Replacing one entry loses only the ids its old version owned and its new version does not. */
  lemma LiveAfterReplace(sha: Sha256, us: seq<User>, i: nat, v: User, lost: set<string>)
    requires i < |us| && v.username == us[i].username
    requires forall k :: k in us[i].keys && ValidKey(k) && k !in v.keys ==>
               NoteId(v.username, Fingerprint(sha, k)) in lost
    ensures LiveIds(sha, us) - lost <= LiveIds(sha, us[i := v])
  {
    hide ParseKey;
    var next := us[i := v];
    forall id | id in LiveIds(sha, us) && id !in lost
      ensures id in LiveIds(sha, next)
    {
      var u, k :| u in us && k in u.keys && ValidKey(k) && id == NoteId(u.username, Fingerprint(sha, k));
      var j :| 0 <= j < |us| && us[j] == u;
      assert next[j] in next;
      LiveIntro(sha, next, next[j], k);
    }
  }

  lemma LiveAfterAppend(sha: Sha256, us: seq<User>, v: User)
    ensures LiveIds(sha, us) <= LiveIds(sha, us + [v])
  {
    hide ParseKey;
    forall id | id in LiveIds(sha, us) ensures id in LiveIds(sha, us + [v]) {
      var u, k :| u in us && k in u.keys && ValidKey(k) && id == NoteId(u.username, Fingerprint(sha, k));
      LiveIntro(sha, us + [v], u, k);
    }
  }

  lemma UsableMember(keys: seq<string>, k: string)
    requires k in keys && ValidKey(k)
    ensures ValidOnly(keys) != []
  {
    ValidOnlyFacts(keys);
    assert k in ValidOnly(keys);
  }

  /** create, add-key, generate-key and seed only add. */
  lemma PlainKeepsGood(sha: Sha256, st: AdminState, e: Edit, io: Outcomes)
    requires Good(sha, st) && io.notesOk && Plain(e)
    ensures Good(sha, Handle(sha, st, Submit(e), io))
  {
    hide ParseKey, StrictValid;
    var us := LoadUsers(st.manifest).value;
    var (after, err) := UpdateFile(sha, st.manifest, e, io.manifestOk);
    if err.None? {
      UpdateOutcome(sha, st.manifest, e, io.manifestOk);
      StrictIsLoose(after.users);
      var canon := ParseKey(e.text).canonical;
      CanonicalIdempotent(e.text);
      var i := FirstIndex(us, e.name);
      if e.Seed? || e.CreateUser? {
        LiveAfterAppend(sha, us, User(e.name, true, [canon]));
        UsableMember([canon], canon);
      } else if after.users != us {
        var v := us[i].(keys := us[i].keys + [canon]);
        LiveAfterReplace(sha, us, i, v, {});
        UsableMember(v.keys, canon);
      }
    }
  }

  lemma StrictIsLoose(us: seq<User>)
    requires StrictValid(us)
    ensures LoadUsers(Document(1, us)) == Ok(us)
  {}

  /** Enabling is refused without a usable key; disabling needs none. */
  lemma StatusKeepsGood(sha: Sha256, st: AdminState, name: string, on: bool, io: Outcomes)
    requires Good(sha, st) && io.notesOk
    ensures Good(sha, Handle(sha, st, Status(name, on), io))
  {
    hide ParseKey, StrictValid, ValidKey;
    var us := LoadUsers(st.manifest).value;
    var (after, err) := UpdateFile(sha, st.manifest, SetEnabled(name, on), io.manifestOk);
    if err.None? {
      UpdateOutcome(sha, st.manifest, SetEnabled(name, on), io.manifestOk);
      StrictIsLoose(after.users);
      var i := FirstIndex(us, name);
      LiveAfterReplace(sha, us, i, us[i].(enabled := on), {});
    }
  }

  lemma PruneIsLive(sha: Sha256, st: AdminState)
    requires LoadUsers(st.manifest).Ok?
    ensures NotesLive(sha, PruneToLive(sha, st, true).notes, LoadUsers(st.manifest).value)
  {
    hide ValidKey;
  }

  lemma RemovalKeepsUsable(us: seq<User>, i: nat)
    requires EnabledUsable(us) && i < |us|
    ensures EnabledUsable(RemoveAt(us, i))
  {
    hide ValidOnly;
    var left := RemoveAt(us, i);
    assert forall j :: 0 <= j < |left| ==> left[j] == us[if j < i then j else j + 1];
  }

  /** Only a disabled user can be deleted, and its notes fall out. */
  lemma DeleteKeepsGood(sha: Sha256, st: AdminState, name: string, io: Outcomes)
    requires Good(sha, st) && io.notesOk
    ensures Good(sha, Handle(sha, st, Delete(name), io))
  {
    hide ParseKey, StrictValid, ValidKey, ValidOnly, LiveIds, NotesLive, FirstIndex, EnabledUsable;
    var us := LoadUsers(st.manifest).value;
    var (after, err) := UpdateFile(sha, st.manifest, RemoveUser(name), io.manifestOk);
    if err.None? {
      UpdateOutcome(sha, st.manifest, RemoveUser(name), io.manifestOk);
      StrictIsLoose(after.users);
      PruneIsLive(sha, st.(manifest := after));
      RemovalKeepsUsable(us, FirstIndex(us, name));
    }
  }

  /** Repair never empties an enabled user who had a usable key. */
  lemma RepairUsable(m: ManifestFile, writeOk: bool)
    requires UsableFile(m)
    ensures UsableFile(RepairFile(m, writeOk).0)
  {
    hide ParseKey, ValidKey, StrictValid, LooseValid, ValidOnly, RepairUser;
    var us := LoadUsers(m).value;
    var after := RepairFile(m, writeOk).0;
    if after != m {
      StrictIsLoose(after.users);
      forall i | 0 <= i < |us| && RepairUsers(us)[i].enabled
        ensures ValidOnly(RepairUsers(us)[i].keys) != []
      {
        RepairedUser(us[i]);
        ValidOnlyFacts(RepairUser(us[i]).keys);
      }
    }
  }

  /** ... and leaves no note behind. */
  lemma RepairKeepsGood(sha: Sha256, st: AdminState, io: Outcomes)
    requires Good(sha, st) && io.notesOk
    ensures Good(sha, Handle(sha, st, RemoveInvalid, io))
  {
    hide LoadUsers, EnabledUsable, LiveIds, RepairFile;
    var (after, rep) := RepairFile(st.manifest, io.manifestOk);
    RepairUsable(st.manifest, io.manifestOk);
    PruneIsLive(sha, st.(manifest := after));
  }

  lemma OthersRemain<T>(s: seq<T>, j: nat, k: T)
    requires j < |s| && k in s && k != s[j]
    ensures k in RemoveAt(s, j)
  {
    var x :| 0 <= x < |s| && s[x] == k;
    assert RemoveAt(s, j)[if x < j then x else x - 1] == k;
  }

  /** The key that was dropped is the only valid one the entry can have lost. */
  lemma DropKeyLoses(sha: Sha256, u: User, fp: string, k: string)
    requires DropKey(sha, u, fp).Ok? && k in u.keys && ValidKey(k) && k !in DropKey(sha, u, fp).value.keys
    ensures Fingerprint(sha, k) == fp
  {
    hide ParseKey, ValidKey, Fingerprint, ValidOnly, RemoveAt;
    var j := FirstCarrier(sha, u.keys, fp);
    if k != u.keys[j] {
      OthersRemain(u.keys, j, k);
    }
    if k in RemoveAt(u.keys, j) {
      UsableMember(RemoveAt(u.keys, j), k);
    }
  }

  /** Removing the last usable key disables the user; its note goes with it. */
  lemma DeleteKeyKeepsGood(sha: Sha256, st: AdminState, name: string, fp: string, io: Outcomes)
    requires Good(sha, st) && io.notesOk
    ensures Good(sha, Handle(sha, st, DeleteKey(name, fp), io))
  {
    hide ParseKey, ValidKey, StrictValid;
    var us := LoadUsers(st.manifest).value;
    var e := RemoveKey(name, fp);
    var (after, err) := UpdateFile(sha, st.manifest, e, io.manifestOk);
    if err.None? {
      UpdateOutcome(sha, st.manifest, e, io.manifestOk);
      StrictIsLoose(after.users);
      var i := FirstIndex(us, name);
      var v := DropKey(sha, us[i], fp).value;
      forall k | k in us[i].keys && ValidKey(k) && k !in v.keys
        ensures NoteId(v.username, Fingerprint(sha, k)) in {NoteId(name, fp)}
      {
        DropKeyLoses(sha, us[i], fp, k);
      }
      LiveAfterReplace(sha, us, i, v, {NoteId(name, fp)});
    }
  }

  /** A note is only ever attached to a key that is there. */
  lemma KeyNoteKeepsGood(sha: Sha256, st: AdminState, name: string, fp: string, note: string, io: Outcomes)
    requires Good(sha, st) && io.notesOk
    ensures Good(sha, Handle(sha, st, KeyNote(name, fp, note), io))
  {
    hide ParseKey, ValidKey;
    var us := LoadUsers(st.manifest).value;
    if KeyFound(sha, us, name, fp) {
      var u := us[FirstIndex(us, name)];
      LiveIntro(sha, us, u, u.keys[FirstCarrier(sha, u.keys, fp)]);
    }
  }

  /** With one handler at a time and notes writable, every handler keeps both invariants. */
  lemma HandlerKeepsGood(sha: Sha256, st: AdminState, req: Request, io: Outcomes)
    requires Good(sha, st) && io.notesOk
    ensures Good(sha, Handle(sha, st, req, io))
  {
    match req
    case Submit(e) => if Plain(e) { PlainKeepsGood(sha, st, e, io); }
    case Status(name, on) => StatusKeepsGood(sha, st, name, on, io);
    case Delete(name) => DeleteKeepsGood(sha, st, name, io);
    case DeleteKey(name, fp) => DeleteKeyKeepsGood(sha, st, name, fp, io);
    case KeyNote(name, fp, note) => KeyNoteKeepsGood(sha, st, name, fp, note, io);
    case RemoveInvalid => RepairKeepsGood(sha, st, io);
  }

  /** What happens to the manifest does not depend on the notes or on how writing them goes; a failed write keeps them. */
  lemma ManifestApart(sha: Sha256, st: AdminState, req: Request, io: Outcomes, notes: NotesFile)
    ensures Handle(sha, st, req, io).manifest == Handle(sha, AdminState(st.manifest, notes), req, Outcomes(io.manifestOk, true)).manifest
    ensures !io.notesOk ==> Handle(sha, st, req, io).notes == st.notes
  {
    hide UpdateFile, RepairFile, LoadUsers, LiveIds, KeyFound, CanEnable;
  }

  /** Every handler, however its writes go, leaves no enabled user without a usable key. */
  lemma HandlerKeepsUsable(sha: Sha256, st: AdminState, req: Request, io: Outcomes)
    requires UsableFile(st.manifest)
    ensures UsableFile(Handle(sha, st, req, io).manifest)
  {
    hide LoadUsers, EnabledUsable, Handle, LiveIds;
    ManifestApart(sha, st, req, io, Notes(map[]));
    HandlerKeepsGood(sha, AdminState(st.manifest, Notes(map[])), req, Outcomes(io.manifestOk, true));
  }

  /** Over every run of handlers from first boot, however writes go; the notes need their writes to succeed. */
  lemma {:induction false} EveryRunIsGood(sha: Sha256, st: AdminState, calls: seq<Call>)
    requires st == AdminState(Absent, Notes(map[])) || Good(sha, st)
    ensures UsableFile(HandleAll(sha, st, calls).manifest)
    ensures (forall i :: 0 <= i < |calls| ==> calls[i].io.notesOk) ==> Good(sha, HandleAll(sha, st, calls))
  {
    hide Handle;
    if calls == [] {
      assert st == AdminState(Absent, Notes(map[])) ==> Good(sha, st);
    } else {
      var init, c := calls[..|calls| - 1], calls[|calls| - 1];
      EveryRunIsGood(sha, st, init);
      hide Good, UsableFile;
      HandlerKeepsUsable(sha, HandleAll(sha, st, init), c.req, c.io);
      if forall i :: 0 <= i < |calls| ==> calls[i].io.notesOk {
        assert forall i :: 0 <= i < |init| ==> init[i] == calls[i];
        HandlerKeepsGood(sha, HandleAll(sha, st, init), c.req, c.io);
      }
    }
  }

  /** Removing a key never touches a note under another user or fingerprint. */
  lemma OtherNotesStay(sha: Sha256, st: AdminState, io: Outcomes, name: string, fp: string, other: string, otherFp: string)
    requires st.notes.Notes? && ValidUsername(other) && (other != name || otherFp != fp)
    requires NoteId(other, otherFp) in st.notes.text
    ensures var after := Handle(sha, st, DeleteKey(name, fp), io).notes;
      after.Notes? && NoteId(other, otherFp) in after.text &&
      after.text[NoteId(other, otherFp)] == st.notes.text[NoteId(other, otherFp)]
  {
    hide ParseKey, ValidKey, StrictValid, LoadUsers, ApplyEdit;
    if NoteId(other, otherFp) == NoteId(name, fp) && ValidUsername(name) {
      NoteIdInjective(other, otherFp, name, fp);
    }
  }

  lemma DeleteOnlyKey(sha: Sha256, name: string, key: string)
    requires ValidUsername(name) && ValidKey(key)
    ensures UpdateFile(sha, Document(1, [User(name, false, [key])]), RemoveKey(name, Fingerprint(sha, key)), true) ==
            (Document(1, [User(name, false, [])]), None)
  {
    hide ParseKey, ValidUsername;
    FingerprintShape(sha, key);
    var us := [User(name, false, [key])];
    assert Carries(sha, key, Fingerprint(sha, key));
    assert RemoveAt([key], 0) == [];
    assert us[0 := User(name, false, [])] == [User(name, false, [])];
  }

  /** A failed notes write after a key removal leaves a note without a key. */
  lemma OrphanNote(sha: Sha256, name: string, key: string, note: string)
    requires ValidUsername(name) && ValidKey(key)
    ensures var fp := Fingerprint(sha, key);
      var st := AdminState(Document(1, [User(name, false, [key])]), Notes(map[NoteId(name, fp) := note]));
      && Good(sha, st)
      && !Good(sha, Handle(sha, st, DeleteKey(name, fp), Outcomes(true, false)))
  {
    hide ParseKey, ValidUsername, ValidFingerprint, UpdateFile, ValidOnly, Fingerprint;
    var us, fp := [User(name, false, [key])], Fingerprint(sha, key);
    DeleteOnlyKey(sha, name, key);
    assert us[0] in us && key in us[0].keys;
    LiveIntro(sha, us, us[0], key);
    assert LiveIds(sha, [User(name, false, [])]) == {};
    assert NoteId(name, fp) in map[NoteId(name, fp) := note];
  }

  /**
   * The check and the write of an enable request are two lock sections.  If a
   * key deletion runs in between, an enabled user without any key results.
   */
  lemma EnableRace(sha: Sha256, name: string, key: string)
    requires ValidUsername(name) && ValidKey(key)
    ensures CanEnable(Document(1, [User(name, false, [key])]), name)
    ensures UpdateFile(sha, Document(1, [User(name, false, [key])]), RemoveKey(name, Fingerprint(sha, key)), true) ==
            (Document(1, [User(name, false, [])]), None)
    ensures UpdateFile(sha, Document(1, [User(name, false, [])]), SetEnabled(name, true), true) ==
            (Document(1, [User(name, true, [])]), None)
  {
    hide ParseKey, ValidUsername, ValidFingerprint;
    DeleteOnlyKey(sha, name, key);
    UsableMember([key], key);
    var empty := [User(name, false, [])];
    assert empty[0 := User(name, true, [])] == [User(name, true, [])];
  }
}
