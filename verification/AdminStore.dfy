/**
 The admin service as it runs: the locked sections of
 internal/sftpadmin/store.go, the loops of the mutation closures and the
 handlers of internal/sftpadmin/server.go, each proved to do what the functions
 of modules Manifest and Admin say.
 */
module AdminStore {
  import opened Text
  import opened Keys
  import opened Manifest
  import opened Admin

  lemma ValidOnlyStep(keys: seq<string>, i: nat)
    requires i < |keys|
    ensures ValidOnly(keys[..i + 1]) == ValidOnly(keys[..i]) + if ValidKey(keys[i]) then [keys[i]] else []
  {
    hide ValidKey;
    FilterSnoc(keys, i, Usable());
  }

  /** validateManifest. */
  method ValidateManifest(version: int, us: seq<User>, strict: bool) returns (ok: bool)
    ensures ok == (version == 1 && if strict then StrictValid(us) else LooseValid(us))
  {
    hide ValidKey, ValidUsername;
    if version != 1 {
      return false;
    }
    var seen: set<string> := {};
    for i := 0 to |us|
      invariant forall n :: n in seen <==> exists j :: 0 <= j < i && us[j].username == n
      invariant LooseValid(us[..i])
      invariant strict ==> KeysValid(us[..i])
    {
      var u := us[i];
      assert us[..i + 1] == us[..i] + [u];
      if !ValidUsername(u.username) {
        assert us[i].username == u.username;
        return false;
      }
      if u.username in seen {
        return false;
      }
      seen := seen + {u.username};
      if strict {
        var good := EveryKeyValid(u.keys);
        if !good {
          assert us[i] == u;
          return false;
        }
      }
    }
    assert us[..|us|] == us;
    return true;
  }

  method EveryKeyValid(keys: seq<string>) returns (ok: bool)
    ensures ok == AllValid(keys)
  {
    hide ValidKey;
    for j := 0 to |keys|
      invariant AllValid(keys[..j])
    {
      if !ValidKey(keys[j]) {
        return false;
      }
      assert keys[..j + 1] == keys[..j] + [keys[j]];
    }
    assert keys[..|keys|] == keys;
    return true;
  }

  /** usableKeys. */
  method UsableKeys(keys: seq<string>) returns (n: nat)
    ensures n == |ValidOnly(keys)|
  {
    hide ValidKey;
    n := 0;
    for i := 0 to |keys|
      invariant n == |ValidOnly(keys[..i])|
    {
      ValidOnlyStep(keys, i);
      if ValidKey(keys[i]) {
        n := n + 1;
      }
    }
    assert keys[..|keys|] == keys;
  }

  /** The inner loop of deleteKey: drop the first carrier of `fp`, keep everything else in order. */
  method DropFirst(sha: Sha256, keys: seq<string>, fp: string) returns (kept: seq<string>, matched: bool)
    ensures matched == (FirstCarrier(sha, keys, fp) < |keys|)
    ensures kept == if matched then RemoveAt(keys, FirstCarrier(sha, keys, fp)) else keys
  {
    hide Carries;
    kept, matched := [], false;
    ghost var f := FirstCarrier(sha, keys, fp);
    for i := 0 to |keys|
      invariant matched == (f < i)
      invariant kept == if matched then keys[..f] + keys[f + 1..i] else keys[..i]
    {
      if Carries(sha, keys[i], fp) && !matched {
        matched := true;
      } else {
        kept := kept + [keys[i]];
      }
    }
    assert keys[..|keys|] == keys;
    assert matched ==> keys[f + 1..|keys|] == keys[f + 1..];
  }

  /** deleteKey, generalised search loop of every closure, and the closures themselves. */
  method RunClosure(sha: Sha256, e: Edit, us: seq<User>) returns (r: Result<seq<User>>)
    requires Admissible(e)
    ensures r == ApplyEdit(sha, e, us)
  {
    hide ParseKey, ValidUsername;
    if e.Seed? {
      return Ok(us + [User(e.name, true, [ParseKey(e.text).canonical])]);
    }
    var i := 0;
    while i < |us| && us[i].username != e.name
      invariant 0 <= i <= FirstIndex(us, e.name)
    {
      i := i + 1;
    }
    match e {
      case CreateUser(name, text) =>
        if i < |us| { return Err(UserExists); }
        return Ok(us + [User(name, true, [ParseKey(text).canonical])]);
      case AddKey(name, text) =>
        if i == |us| { return Err(NoSuchUser); }
        if ParseKey(text).canonical in us[i].keys { return Ok(us); }
        return Ok(us[i := us[i].(keys := us[i].keys + [ParseKey(text).canonical])]);
      case GenerateKey(name, text) =>
        if i == |us| { return Err(NoSuchUser); }
        return Ok(us[i := us[i].(keys := us[i].keys + [ParseKey(text).canonical])]);
      case SetEnabled(name, on) =>
        if i == |us| { return Err(NoSuchUser); }
        return Ok(us[i := us[i].(enabled := on)]);
      case RemoveUser(name) =>
        if i == |us| { return Err(NoSuchUser); }
        if us[i].enabled { return Err(Error.DeleteEnabled); }
        return Ok(us[..i] + us[i + 1..]);
      case RemoveKey(name, fp) =>
        if i == |us| { return Err(NoSuchUser); }
        var kept, matched := DropFirst(sha, us[i].keys, fp);
        if !matched { return Err(NoSuchKey); }
        var usable := UsableKeys(kept);
        if us[i].enabled && usable == 0 {
          return Ok(us[i := User(us[i].username, false, [])]);
        }
        return Ok(us[i := us[i].(keys := kept)]);
    }
  }

  /** findKey: it looks through every entry of that name. */
  method FindKey(sha: Sha256, us: seq<User>, name: string, fp: string) returns (userFound: bool, keyFound: bool)
    ensures userFound == exists i :: 0 <= i < |us| && us[i].username == name
    ensures keyFound == exists i :: 0 <= i < |us| && us[i].username == name && KeyIn(sha, us[i].keys, fp)
  {
    hide Carries;
    userFound, keyFound := false, false;
    for i := 0 to |us|
      invariant userFound == exists x :: 0 <= x < i && us[x].username == name
      invariant keyFound == exists x :: 0 <= x < i && us[x].username == name && KeyIn(sha, us[x].keys, fp)
    {
      if us[i].username != name { continue; }
      userFound := true;
      ghost var before := keyFound;
      for j := 0 to |us[i].keys|
        invariant keyFound == (before || exists y :: 0 <= y < j && Carries(sha, us[i].keys[y], fp))
      {
        if Carries(sha, us[i].keys[j], fp) { keyFound := true; }
      }
    }
  }

  /** With unique names that is the search for the first entry. */
  lemma FoundIsFirst(sha: Sha256, us: seq<User>, name: string, fp: string)
    requires UniqueNames(us)
    ensures KeyFound(sha, us, name, fp) <==> exists i :: 0 <= i < |us| && us[i].username == name && KeyIn(sha, us[i].keys, fp)
  {
    hide Carries;
    var f := FirstIndex(us, name);
    if f < |us| {
      var c := FirstCarrier(sha, us[f].keys, fp);
      assert KeyIn(sha, us[f].keys, fp) <==> c < |us[f].keys|;
    }
  }

  /** The keep map the handlers build before pruning notes. */
  method CollectLive(sha: Sha256, us: seq<User>) returns (keep: set<string>)
    ensures keep == LiveIds(sha, us)
  {
    hide ParseKey, ValidKey, Fingerprint;
    keep := {};
    for i := 0 to |us|
      invariant keep == LiveIds(sha, us[..i])
    {
      var u := us[i];
      for j := 0 to |u.keys|
        invariant keep == LiveIds(sha, us[..i]) + LiveIds(sha, [u.(keys := u.keys[..j])])
      {
        LiveStep(sha, u, j);
        if ValidKey(u.keys[j]) {
          keep := keep + {NoteId(u.username, Fingerprint(sha, u.keys[j]))};
        }
      }
      assert u.keys[..|u.keys|] == u.keys && u.(keys := u.keys) == u;
      LiveConcat(sha, us[..i], [u]);
      assert us[..i + 1] == us[..i] + [u];
    }
    assert us[..|us|] == us;
  }

  lemma LiveStep(sha: Sha256, u: User, j: nat)
    requires j < |u.keys|
    ensures LiveIds(sha, [u.(keys := u.keys[..j + 1])]) ==
            LiveIds(sha, [u.(keys := u.keys[..j])]) +
            if ValidKey(u.keys[j]) then {NoteId(u.username, Fingerprint(sha, u.keys[j]))} else {}
  {
    hide ParseKey;
    var short, long := u.(keys := u.keys[..j]), u.(keys := u.keys[..j + 1]);
    assert long.keys == short.keys + [u.keys[j]];
    assert short in [short] && long in [long];
    forall id | id in LiveIds(sha, [short]) ensures id in LiveIds(sha, [long]) {
      var k :| k in short.keys && ValidKey(k) && id == NoteId(u.username, Fingerprint(sha, k));
      LiveIntro(sha, [long], long, k);
    }
    if ValidKey(u.keys[j]) {
      assert u.keys[j] in long.keys;
      LiveIntro(sha, [long], long, u.keys[j]);
    }
    forall id | id in LiveIds(sha, [long])
      ensures id in LiveIds(sha, [short]) || (ValidKey(u.keys[j]) && id == NoteId(u.username, Fingerprint(sha, u.keys[j])))
    {
      var k :| k in long.keys && ValidKey(k) && id == NoteId(u.username, Fingerprint(sha, k));
      if k in short.keys {
        LiveIntro(sha, [short], short, k);
      }
    }
  }

  lemma LiveConcat(sha: Sha256, a: seq<User>, b: seq<User>)
    ensures LiveIds(sha, a + b) == LiveIds(sha, a) + LiveIds(sha, b)
  {
    hide ParseKey;
    forall id | id in LiveIds(sha, a) + LiveIds(sha, b) ensures id in LiveIds(sha, a + b) {
      var u, k :| (u in a || u in b) && k in u.keys && ValidKey(k) && id == NoteId(u.username, Fingerprint(sha, k));
      LiveIntro(sha, a + b, u, k);
    }
    forall id | id in LiveIds(sha, a + b) ensures id in LiveIds(sha, a) + LiveIds(sha, b) {
      var u, k :| u in a + b && k in u.keys && ValidKey(k) && id == NoteId(u.username, Fingerprint(sha, k));
      if u in a { LiveIntro(sha, a, u, k); } else { LiveIntro(sha, b, u, k); }
    }
  }

  /** The inner loop of RemoveInvalidKeys. */
  method KeepValid(keys: seq<string>) returns (kept: seq<string>, dropped: nat)
    ensures kept == ValidOnly(keys) && dropped == |keys| - |kept|
  {
    hide ValidKey, ValidOnly;
    kept, dropped := [], 0;
    ValidOnlyFacts(keys[..0]);
    for j := 0 to |keys|
      invariant kept == ValidOnly(keys[..j]) && dropped == j - |kept|
    {
      ValidOnlyStep(keys, j);
      if !ValidKey(keys[j]) {
        dropped := dropped + 1;
      } else {
        kept := kept + [keys[j]];
      }
    }
    assert keys[..|keys|] == keys;
  }

  /** The loops of RemoveInvalidKeys. */
  method RepairLoop(users: seq<User>) returns (us: seq<User>, rep: Report)
    ensures us == RepairUsers(users)
    ensures rep.removed == InvalidCount(users) && rep.disabled == Emptied(users)
  {
    hide ValidKey, ValidOnly;
    us := users;
    var removed, disabled := 0, [];
    for i := 0 to |users|
      invariant |us| == |users|
      invariant forall j :: 0 <= j < i ==> us[j] == RepairUser(users[j])
      invariant forall j :: i <= j < |us| ==> us[j] == users[j]
      invariant removed == InvalidCount(users[..i]) && removed >= 0
      invariant disabled == Emptied(users[..i])
    {
      var orig := us[i].keys;
      var kept, dropped := KeepValid(orig);
      removed := removed + dropped;
      assert users[..i + 1][..i] == users[..i] && users[..i + 1][i] == users[i];
      ValidOnlyFacts(orig);
      if |kept| != |orig| {
        if |orig| > 0 && |kept| == 0 {
          disabled := disabled + [us[i].username];
          us := us[i := User(us[i].username, false, kept)];
        } else {
          us := us[i := us[i].(keys := kept)];
        }
      }
    }
    assert users[..|users|] == users;
    assert us == RepairUsers(users);
    rep := Report(removed, disabled);
  }

  lemma LoadedUnique(file: ManifestFile)
    ensures LoadUsers(file).Ok? ==> UniqueNames(LoadUsers(file).value)
  {}

  class Store {
    const sha: Sha256
    var manifest: ManifestFile
    var notes: NotesFile

    constructor (sha: Sha256, manifest: ManifestFile, notes: NotesFile)
      ensures this.sha == sha && State() == AdminState(manifest, notes)
    {
      this.sha, this.manifest, this.notes := sha, manifest, notes;
    }

    function State(): AdminState
      reads this
    {
      AdminState(manifest, notes)
    }

    /** Load. */
    method Load() returns (r: Result<seq<User>>)
      ensures r == LoadUsers(manifest)
    {
      hide ParseKey, ValidKey;
      match manifest
      case Absent => r := Ok([]);
      case Unreadable => r := Err(CannotLoad);
      case Document(v, us) =>
        var ok := ValidateManifest(v, us, false);
        r := if ok then Ok(us) else Err(CannotLoad);
    }

    /** Update: nothing is written unless the closure and the strict check both succeed. */
    method Update(e: Edit, writeOk: bool) returns (err: Option<Error>)
      modifies this`manifest
      ensures (manifest, err) == UpdateFile(sha, old(manifest), e, writeOk)
    {
      hide ParseKey, ValidKey, LooseValid, KeysValid;
      if !Admissible(e) { return Some(BadInput); }
      var loaded := Load();
      if loaded.Err? { return Some(loaded.error); }
      var edited := RunClosure(sha, e, loaded.value);
      if edited.Err? { return Some(edited.error); }
      var ok := ValidateManifest(1, edited.value, true);
      if !ok { return Some(InvalidManifest); }
      if !writeOk { return Some(CannotWrite); }
      manifest := Document(1, edited.value);
      return None;
    }

    /** RemoveInvalidKeys. */
    method RemoveInvalidKeys(writeOk: bool) returns (r: Result<Report>)
      modifies this`manifest
      ensures (manifest, r) == RepairFile(old(manifest), writeOk)
    {
      hide ParseKey, ValidKey, LooseValid, KeysValid;
      var loaded := Load();
      if loaded.Err? { return Err(loaded.error); }
      var us, rep := RepairLoop(loaded.value);
      if rep.removed == 0 { return Ok(rep); }
      var ok := ValidateManifest(1, us, true);
      if !ok { return Err(InvalidManifest); }
      if !writeOk { return Err(CannotWrite); }
      manifest := Document(1, us);
      return Ok(rep);
    }

    /** SetNote. */
    method StoreNote(name: string, fp: string, note: string, writeOk: bool) returns (err: Option<Error>)
      modifies this`notes
      ensures (notes, err) == SetNote(old(notes), NoteId(name, fp), note, writeOk)
    {
      if notes.CorruptNotes? { return Some(CannotLoadNotes); }
      var text := if note == "" then notes.text - {NoteId(name, fp)} else notes.text[NoteId(name, fp) := note];
      err := WriteNotes(text, writeOk);
    }

    /** writeNotesLocked. */
    method WriteNotes(text: map<string, string>, writeOk: bool) returns (err: Option<Error>)
      modifies this`notes
      ensures (notes, err) == if writeOk then (Notes(text), None) else (old(notes), Some(CannotWrite))
    {
      if !writeOk { return Some(CannotWrite); }
      notes := Notes(text);
      return None;
    }

    /** DeleteNote: a missing entry leaves the file alone. */
    method DropNote(name: string, fp: string, writeOk: bool) returns (err: Option<Error>)
      modifies this`notes
      ensures (notes, err) == DeleteNote(old(notes), NoteId(name, fp), writeOk)
    {
      if notes.CorruptNotes? { return Some(CannotLoadNotes); }
      if NoteId(name, fp) !in notes.text { return None; }
      err := WriteNotes(notes.text - {NoteId(name, fp)}, writeOk);
    }

    /** PruneNotes: the loop visits the ids in any order, and nothing is written unless it dropped one. */
    method Prune(keep: set<string>, writeOk: bool) returns (err: Option<Error>)
      modifies this`notes
      ensures (notes, err) == PruneNotes(old(notes), keep, writeOk)
    {
      if notes.CorruptNotes? { return Some(CannotLoadNotes); }
      var all := notes.text;
      var left, todo, changed := all, all.Keys, false;
      while todo != {}
        invariant todo <= all.Keys && notes == old(notes)
        invariant left == map id | id in all && (id in keep || id in todo) :: all[id]
        invariant changed == !(all.Keys - todo <= keep)
        decreases |todo|
      {
        var id :| id in todo;
        if id !in keep {
          left := left - {id};
          changed := true;
        }
        todo := todo - {id};
      }
      assert all.Keys - todo == all.Keys;
      assert left == map id | id in all && id in keep :: all[id];
      if !changed { return None; }
      err := WriteNotes(left, writeOk);
    }

    /** One handler, start to finish; `io` says how its writes go. */
    method Serve(req: Request, io: Outcomes)
      modifies this
      ensures State() == Handle(sha, old(State()), req, io)
    {
      hide ParseKey, ValidKey, ApplyEdit, StrictValid, LooseValid;
      match req {
        case Submit(e) =>
          if Plain(e) { var _ := Update(e, io.manifestOk); }
        case Status(name, on) =>
          if on {
            var m := Load();
            if m.Err? { return; }
            var i := 0;
            while i < |m.value| && m.value[i].username != name
              invariant 0 <= i <= FirstIndex(m.value, name)
            {
              i := i + 1;
            }
            if i == |m.value| { return; }
            var usable := UsableKeys(m.value[i].keys);
            if usable == 0 { return; }
          }
          var _ := Update(SetEnabled(name, on), io.manifestOk);
        case Delete(name) =>
          var err := Update(RemoveUser(name), io.manifestOk);
          if err.None? { PruneToManifest(io.notesOk); }
        case DeleteKey(name, fp) =>
          var err := Update(RemoveKey(name, fp), io.manifestOk);
          if err.None? { var _ := DropNote(name, fp, io.notesOk); }
        case KeyNote(name, fp, note) =>
          if ValidUsername(name) && ValidFingerprint(fp) && |note| <= MAX_NOTE {
            var m := Load();
            if m.Ok? {
              var userFound, keyFound := FindKey(sha, m.value, name, fp);
              LoadedUnique(manifest);
              FoundIsFirst(sha, m.value, name, fp);
              if userFound && keyFound { var _ := StoreNote(name, fp, note, io.notesOk); }
            }
          }
        case RemoveInvalid =>
          var rep := RemoveInvalidKeys(io.manifestOk);
          if rep.Ok? { PruneToManifest(io.notesOk); }
      }
    }

    method PruneToManifest(writeOk: bool)
      modifies this`notes
      ensures State() == PruneToLive(sha, old(State()), writeOk)
    {
      hide ParseKey, ValidKey, LoadUsers;
      var m := Load();
      if m.Ok? {
        var keep := CollectLive(sha, m.value);
        var _ := Prune(keep, writeOk);
      }
    }
  }
}
