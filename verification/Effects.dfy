/**
 What each admin operation achieves, read off the resulting files: edits of the
 manifest, the repair report, and the notes.
 */
module Effects {
  import opened Text
  import opened Keys
  import opened Manifest
  import opened Admin
  import opened Reconcile
  import opened ControlPlane

  // -------------------------------------------------------------- what is valid

  /** A strictly valid list: valid, pairwise different names, and valid keys only. */
  lemma StrictIff(us: seq<User>)
    ensures StrictValid(us) <==>
      && (forall i :: 0 <= i < |us| ==> ValidUsername(us[i].username))
      && (forall i, j :: 0 <= i < j < |us| ==> us[i].username != us[j].username)
      && (forall i, k :: 0 <= i < |us| && k in us[i].keys ==> ValidKey(k))
  {
    hide ValidUsername, ValidKey;
    forall i | 0 <= i < |us| ensures AllValid(us[i].keys) <==> forall k :: k in us[i].keys ==> ValidKey(k) {
      if AllValid(us[i].keys) {
        forall k | k in us[i].keys ensures ValidKey(k) {
          var j :| 0 <= j < |us[i].keys| && us[i].keys[j] == k;
        }
      }
    }
  }

  /** What loads: no file at all, or a version-1 document with valid and different names, whatever its keys. */
  lemma LoadsIff(file: ManifestFile, us: seq<User>)
    ensures LoadUsers(file) == Ok(us) <==>
      || (file == Absent && us == [])
      || (&& file == Document(1, us)
          && (forall i :: 0 <= i < |us| ==> ValidUsername(us[i].username))
          && (forall i, j :: 0 <= i < j < |us| ==> us[i].username != us[j].username))
  {
    hide ValidUsername;
  }

  // ---------------------------------------------------------------------- edits

  predicate Lists(us: seq<User>, name: string) { exists i :: 0 <= i < |us| && us[i].username == name }

  /** The canonical text of a valid key: its first two words. */
  function Canonical(text: string): string
    requires ValidKey(text)
  {
    AcceptedParts(text);
    Fields(text)[0] + " " + Fields(text)[1]
  }

  /** `after` is `before` with one new entry behind it. */
  predicate Gains(before: seq<User>, after: seq<User>, u: User) { after == before + [u] }

  /** Nothing but the one entry at `i` differs. */
  predicate OnlyAt(before: seq<User>, after: seq<User>, i: nat) {
    |after| == |before| && i < |before| && forall j :: 0 <= j < |before| && j != i ==> after[j] == before[j]
  }

  /** `after` lacks one key of `before`, which carried `fp`; no earlier one did, and the rest keep their order. */
  predicate LosesCarrier(sha: Sha256, before: seq<string>, after: seq<string>, fp: string) {
    exists j :: 0 <= j < |before| && ValidKey(before[j]) && Fingerprint(sha, before[j]) == fp
      && (forall i :: 0 <= i < j ==> !(ValidKey(before[i]) && Fingerprint(sha, before[i]) == fp))
      && after == before[..j] + before[j + 1..]
  }

  predicate SomeValid(keys: seq<string>) { exists k :: k in keys && ValidKey(k) }

  /** What a successful edit has achieved. */
  ghost predicate Achieved(sha: Sha256, e: Edit, before: seq<User>, after: seq<User>)
    requires Admissible(e)
  {
    match e
    case Seed(name, text) => Gains(before, after, User(name, true, [Canonical(text)]))
    case CreateUser(name, text) => !Lists(before, name) && Gains(before, after, User(name, true, [Canonical(text)]))
    case AddKey(name, text) => exists i :: 0 <= i < |before| && ChangedAt(sha, e, before, after, i)
    case GenerateKey(name, text) => exists i :: 0 <= i < |before| && ChangedAt(sha, e, before, after, i)
    case SetEnabled(name, on) => exists i :: 0 <= i < |before| && ChangedAt(sha, e, before, after, i)
    case RemoveKey(name, fp) => exists i :: 0 <= i < |before| && ChangedAt(sha, e, before, after, i)
    case RemoveUser(name) =>
      exists i :: 0 <= i < |before| && before[i].username == name && !before[i].enabled && after == before[..i] + before[i + 1..]
  }

  /** The entry at `i`, the first of that name, has changed as the edit says. */
  ghost predicate ChangedAt(sha: Sha256, e: Edit, before: seq<User>, after: seq<User>, i: nat)
    requires Admissible(e) && i < |before|
  {
    && OnlyAt(before, after, i)
    && before[i].username == e.name && after[i].username == e.name
    && (forall j :: 0 <= j < i ==> before[j].username != e.name)
    && match e
       case AddKey(_, text) =>
         && after[i].enabled == before[i].enabled
         && after[i].keys == if Canonical(text) in before[i].keys then before[i].keys else before[i].keys + [Canonical(text)]
       case GenerateKey(_, text) =>
         after[i].enabled == before[i].enabled && after[i].keys == before[i].keys + [Canonical(text)]
       case SetEnabled(_, on) => after[i].enabled == on && after[i].keys == before[i].keys
       case RemoveKey(_, fp) => KeyRemoved(sha, before[i], after[i], fp)
       case _ => false
  }

  /** One carrier is gone; an enabled user left with nothing usable is disabled and emptied. */
  ghost predicate KeyRemoved(sha: Sha256, before: User, after: User, fp: string) {
    exists kept :: LosesCarrier(sha, before.keys, kept, fp) &&
      if before.enabled && !SomeValid(kept) then !after.enabled && after.keys == []
      else after.enabled == before.enabled && after.keys == kept
  }

  lemma CanonicalIs(text: string)
    requires ValidKey(text)
    ensures ParseKey(text).canonical == Canonical(text)
  {
    hide ParseKey, Fields;
    AcceptedParts(text);
  }

  lemma SomeValidIff(keys: seq<string>)
    ensures SomeValid(keys) <==> ValidOnly(keys) != []
  {
    hide ValidKey, ValidOnly;
    ValidOnlyFacts(keys);
    if SomeValid(keys) {
      var k :| k in keys && ValidKey(k);
      assert k in ValidOnly(keys);
    }
    if ValidOnly(keys) != [] {
      assert ValidOnly(keys)[0] in ValidOnly(keys);
    }
  }

  lemma DropAchieves(sha: Sha256, u: User, fp: string)
    requires DropKey(sha, u, fp).Ok?
    ensures KeyRemoved(sha, u, DropKey(sha, u, fp).value, fp)
  {
    hide ParseKey, ValidKey, ValidOnly, Fingerprint, FirstCarrier;
    var j := FirstCarrier(sha, u.keys, fp);
    var kept := u.keys[..j] + u.keys[j + 1..];
    assert Carries(sha, u.keys[j], fp);
    assert LosesCarrier(sha, u.keys, kept, fp);
    SomeValidIff(kept);
  }

  /** Every closure achieves what its request asks for. */
  lemma EditAchieves(sha: Sha256, e: Edit, us: seq<User>)
    requires Admissible(e) && ApplyEdit(sha, e, us).Ok?
    ensures Achieved(sha, e, us, ApplyEdit(sha, e, us).value)
  {
    hide ParseKey, DropKey, ValidUsername, ValidFingerprint, KeyRemoved, Canonical;
    var next, i := ApplyEdit(sha, e, us).value, FirstIndex(us, e.name);
    if e.Seed? || e.CreateUser? || e.AddKey? || e.GenerateKey? {
      CanonicalIs(e.text);
    }
    if e.AddKey? || e.GenerateKey? || e.SetEnabled? {
      assert ChangedAt(sha, e, us, next, i);
    } else if e.RemoveKey? {
      DropAchieves(sha, us[i], e.fp);
      DropName(sha, us[i], e.fp);
      assert ChangedAt(sha, e, us, next, i);
    } else if e.RemoveUser? {
      assert next == us[..i] + us[i + 1..];
    }
  }

  lemma DropName(sha: Sha256, u: User, fp: string)
    requires DropKey(sha, u, fp).Ok?
    ensures DropKey(sha, u, fp).value.username == u.username
  {
    hide ValidOnly, FirstCarrier;
  }

  // ------------------------------------------------------ when an update succeeds

  /** The request is well-formed and fits the users that were loaded. */
  predicate Fits(sha: Sha256, e: Edit, us: seq<User>) {
    match e
    case Seed(name, text) => ValidUsername(name) && ValidKey(text) && !Lists(us, name) && StrictValid(us)
    case CreateUser(name, text) => ValidUsername(name) && ValidKey(text) && !Lists(us, name) && StrictValid(us)
    case AddKey(name, text) => ValidKey(text) && Lists(us, name) && StrictValid(us)
    case GenerateKey(name, text) => ValidUsername(name) && ValidKey(text) && Lists(us, name) && StrictValid(us)
    case SetEnabled(name, _) => Lists(us, name) && StrictValid(us)
    case RemoveUser(name) =>
      ValidUsername(name) && exists i :: 0 <= i < |us| && us[i].username == name && !us[i].enabled && OthersStrict(us, i)
    case RemoveKey(name, fp) =>
      && ValidUsername(name) && ValidFingerprint(fp)
      && exists i :: 0 <= i < |us| && us[i].username == name && KeyIn(sha, us[i].keys, fp) && OthersStrict(us, i) && LeftStrict(sha, us[i], fp)
  }

  predicate OthersStrict(us: seq<User>, i: nat) {
    forall j :: 0 <= j < |us| && j != i ==> AllValid(us[j].keys)
  }

  predicate LeftStrict(sha: Sha256, u: User, fp: string)
    requires KeyIn(sha, u.keys, fp)
  {
    DropKey(sha, u, fp).Ok? && AllValid(DropKey(sha, u, fp).value.keys)
  }

  lemma FirstIsOnly(us: seq<User>, i: nat)
    requires LooseValid(us) && i < |us|
    ensures FirstIndex(us, us[i].username) == i
  {
    hide ValidUsername;
    assert FirstIndex(us, us[i].username) <= i;
  }

  lemma ListsIff(us: seq<User>, name: string)
    ensures Lists(us, name) <==> FirstIndex(us, name) < |us|
  {}

  lemma AppendStrict(us: seq<User>, u: User)
    requires LooseValid(us) && ValidUsername(u.username) && AllValid(u.keys)
    ensures StrictValid(us + [u]) <==> StrictValid(us) && !Lists(us, u.username)
  {
    hide ValidUsername, AllValid;
    var next := us + [u];
    assert forall i :: 0 <= i < |us| ==> next[i] == us[i];
    assert next[|us|] == u;
  }

  lemma ReplaceStrict(us: seq<User>, i: nat, v: User)
    requires LooseValid(us) && i < |us| && v.username == us[i].username
    ensures StrictValid(us[i := v]) <==> OthersStrict(us, i) && AllValid(v.keys)
  {
    hide ValidUsername, AllValid;
    var next := us[i := v];
    assert forall j :: 0 <= j < |us| && j != i ==> next[j] == us[j];
    assert next[i] == v;
  }

  lemma StrictSplits(us: seq<User>, i: nat)
    requires LooseValid(us) && i < |us|
    ensures StrictValid(us) <==> OthersStrict(us, i) && AllValid(us[i].keys)
  {
    hide ValidUsername, AllValid;
  }

  lemma RemoveLoose(us: seq<User>, i: nat)
    requires LooseValid(us) && i < |us|
    ensures LooseValid(RemoveAt(us, i))
  {
    hide ValidUsername;
    var left := RemoveAt(us, i);
    forall j | 0 <= j < |left| ensures ValidUsername(left[j].username) {
      assert left[j] == us[if j < i then j else j + 1];
    }
    forall j, k | 0 <= j < k < |left| ensures left[j].username != left[k].username {
      assert left[j] == us[if j < i then j else j + 1] && left[k] == us[if k < i then k else k + 1];
    }
  }

  lemma RemoveStrict(us: seq<User>, i: nat)
    requires LooseValid(us) && i < |us|
    ensures StrictValid(RemoveAt(us, i)) <==> OthersStrict(us, i)
  {
    hide LooseValid, AllValid;
    RemoveLoose(us, i);
    var left := RemoveAt(us, i);
    if KeysValid(left) {
      forall j | 0 <= j < |us| && j != i ensures AllValid(us[j].keys) {
        assert us[j] == left[if j < i then j else j - 1];
      }
    }
    if OthersStrict(us, i) {
      forall j | 0 <= j < |left| ensures AllValid(left[j].keys) {
        assert left[j] == us[if j < i then j else j + 1];
      }
    }
  }

  lemma AddedValid(keys: seq<string>, k: string)
    requires ValidKey(k)
    ensures AllValid(keys + [k]) <==> AllValid(keys)
  {
    hide ValidKey;
    assert forall i :: 0 <= i < |keys| ==> (keys + [k])[i] == keys[i];
  }

  lemma CarrierIff(sha: Sha256, u: User, fp: string)
    ensures KeyIn(sha, u.keys, fp) <==> DropKey(sha, u, fp).Ok?
  {
    hide Carries, ValidOnly;
  }

  /** What the closure makes of a well-formed request, and whether the result passes the strict check. */
  predicate Passes(sha: Sha256, e: Edit, us: seq<User>) {
    Admissible(e) && ApplyEdit(sha, e, us).Ok? && StrictValid(ApplyEdit(sha, e, us).value)
  }

  lemma AddingPasses(sha: Sha256, e: Edit, us: seq<User>)
    requires LooseValid(us) && (e.Seed? || e.CreateUser?)
    ensures Passes(sha, e, us) <==> Fits(sha, e, us)
  {
    hide ParseKey, ValidUsername, StrictValid, LooseValid, FirstIndex, Lists;
    ListsIff(us, e.name);
    if ValidUsername(e.name) && ValidKey(e.text) {
      CanonicalIdempotent(e.text);
      AppendStrict(us, User(e.name, true, [ParseKey(e.text).canonical]));
    }
  }

  lemma KeyAddingPasses(sha: Sha256, e: Edit, us: seq<User>)
    requires LooseValid(us) && (e.AddKey? || e.GenerateKey?)
    ensures Passes(sha, e, us) <==> Fits(sha, e, us)
  {
    hide ParseKey, ValidUsername, StrictValid, LooseValid, FirstIndex, Lists, OthersStrict, AllValid;
    ListsIff(us, e.name);
    var i := FirstIndex(us, e.name);
    if ValidKey(e.text) && i < |us| {
      CanonicalIdempotent(e.text);
      var canon := ParseKey(e.text).canonical;
      AddedValid(us[i].keys, canon);
      ReplaceStrict(us, i, us[i].(keys := us[i].keys + [canon]));
      StrictSplits(us, i);
    }
  }

  lemma SwitchPasses(sha: Sha256, e: Edit, us: seq<User>)
    requires LooseValid(us) && e.SetEnabled?
    ensures Passes(sha, e, us) <==> Fits(sha, e, us)
  {
    hide StrictValid, LooseValid, FirstIndex, Lists, OthersStrict, AllValid;
    ListsIff(us, e.name);
    var i := FirstIndex(us, e.name);
    if i < |us| {
      ReplaceStrict(us, i, us[i].(enabled := e.on));
      StrictSplits(us, i);
    }
  }

  lemma DeletionPasses(sha: Sha256, e: Edit, us: seq<User>)
    requires LooseValid(us) && e.RemoveUser?
    ensures Passes(sha, e, us) <==> Fits(sha, e, us)
  {
    hide StrictValid, LooseValid, OthersStrict, RemoveAt, ValidUsername, FirstIndex;
    var i := FirstIndex(us, e.name);
    if i < |us| {
      RemoveStrict(us, i);
    }
    forall j | 0 <= j < |us| && us[j].username == e.name ensures j == i {
      FirstIsOnly(us, j);
    }
  }

  lemma KeyRemovalPasses(sha: Sha256, e: Edit, us: seq<User>)
    requires LooseValid(us) && e.RemoveKey?
    ensures Passes(sha, e, us) <==> Fits(sha, e, us)
  {
    hide StrictValid, LooseValid, OthersStrict, ValidUsername, ValidFingerprint, FirstIndex, DropKey, KeyIn, AllValid;
    var i := FirstIndex(us, e.name);
    if i < |us| {
      CarrierIff(sha, us[i], e.fp);
      if DropKey(sha, us[i], e.fp).Ok? {
        DropName(sha, us[i], e.fp);
        ReplaceStrict(us, i, DropKey(sha, us[i], e.fp).value);
      }
    }
    forall j | 0 <= j < |us| && us[j].username == e.name ensures j == i {
      FirstIsOnly(us, j);
    }
  }

  /**
   * An update succeeds exactly when the file loads, the request is well-formed
   * and fits, and the write goes through; then it has achieved what was asked
   * for, and otherwise it has changed nothing.
   */
  lemma UpdateSucceedsIff(sha: Sha256, file: ManifestFile, e: Edit, writeOk: bool)
    ensures var (after, err) := UpdateFile(sha, file, e, writeOk);
      && (err.None? <==> writeOk && LoadUsers(file).Ok? && Fits(sha, e, LoadUsers(file).value))
      && (err.None? ==> after.Document? && after.version == 1 && Admissible(e) && Achieved(sha, e, LoadUsers(file).value, after.users))
      && (!err.None? ==> after == file)
  {
    if LoadUsers(file).Ok? {
      var us := LoadUsers(file).value;
      assert LooseValid(us) by { LoadedIsLoose(file); }
      hide ApplyEdit, Admissible, StrictValid, LooseValid, LoadUsers, Fits, Achieved;
      if e.Seed? || e.CreateUser? {
        AddingPasses(sha, e, us);
      } else if e.AddKey? || e.GenerateKey? {
        KeyAddingPasses(sha, e, us);
      } else if e.SetEnabled? {
        SwitchPasses(sha, e, us);
      } else if e.RemoveUser? {
        DeletionPasses(sha, e, us);
      } else {
        KeyRemovalPasses(sha, e, us);
      }
      if Passes(sha, e, us) {
        EditAchieves(sha, e, us);
      }
    }
  }

  lemma LoadedIsLoose(file: ManifestFile)
    requires LoadUsers(file).Ok?
    ensures LooseValid(LoadUsers(file).value)
  {
    assert LooseValid([]);
  }

  // ------------------------------------------------- from a disable to the key files

  /** Every entry of that name is switched off. */
  predicate SwitchedOff(us: seq<User>, name: string) {
    forall i :: 0 <= i < |us| && us[i].username == name ==> !us[i].enabled
  }

  predicate OffIn(m: ManifestFile, name: string) { m.Document? ==> SwitchedOff(m.users, name) }

  /** The section may switch the user on again. */
  predicate SwitchesOn(a: Action, name: string) {
    a.EditSection? && a.edit.name == name && (a.edit.Seed? || a.edit.CreateUser? || (a.edit.SetEnabled? && a.edit.on))
  }

  lemma EditKeepsOff(sha: Sha256, e: Edit, us: seq<User>, name: string)
    requires Admissible(e) && ApplyEdit(sha, e, us).Ok? && SwitchedOff(us, name)
    requires !(e.name == name && (e.Seed? || e.CreateUser? || (e.SetEnabled? && e.on)))
    ensures SwitchedOff(ApplyEdit(sha, e, us).value, name)
  {
    EditAchieves(sha, e, us);
    hide ApplyEdit, ParseKey, ValidKey, Canonical, LosesCarrier, SomeValid, Admissible;
    var next := ApplyEdit(sha, e, us).value;
    if e.RemoveUser? {
      var i :| 0 <= i < |us| && us[i].username == e.name && !us[i].enabled && next == us[..i] + us[i + 1..];
      assert forall j :: 0 <= j < |next| ==> next[j] == us[if j < i then j else j + 1];
    } else if !e.Seed? && !e.CreateUser? {
      var i :| 0 <= i < |us| && ChangedAt(sha, e, us, next, i);
      assert e.name == name ==> !us[i].enabled;
      assert next[i].username == name ==> !next[i].enabled;
    }
  }

  lemma RepairKeepsOff(us: seq<User>, name: string)
    requires SwitchedOff(us, name)
    ensures SwitchedOff(RepairUsers(us), name)
  {
    hide ValidOnly;
  }

  lemma SectionKeepsOff(sha: Sha256, m: ManifestFile, a: Action, name: string)
    requires OffIn(m, name) && !SwitchesOn(a, name)
    ensures OffIn(Section(sha, m, a), name)
  {
    hide ApplyEdit, Admissible, StrictValid, LooseValid, SwitchedOff, InvalidCount, Emptied, RepairUsers;
    assert SwitchedOff([], name) by { NobodyOn(name); }
    match a
    case EditSection(e, writeOk) =>
      if UpdateFile(sha, m, e, writeOk).1.None? {
        EditKeepsOff(sha, e, LoadUsers(m).value, name);
      }
    case RepairSection(writeOk) =>
      if LoadUsers(m).Ok? {
        RepairKeepsOff(LoadUsers(m).value, name);
      }
    case ReconcileRun(_) =>
  }

  lemma NobodyOn(name: string)
    ensures SwitchedOff([], name)
  {}

  /** A successful disable has switched the user off. */
  lemma DisableSwitchesOff(sha: Sha256, m: ManifestFile, name: string)
    requires UpdateFile(sha, m, SetEnabled(name, false), true).1.None?
    ensures OffIn(UpdateFile(sha, m, SetEnabled(name, false), true).0, name)
  {
    var e := SetEnabled(name, false);
    UpdateSucceedsIff(sha, m, e, true);
    UpdateOutcome(sha, m, e, true);
    hide UpdateFile, Fits, LoadUsers, KeysValid, ValidUsername;
    var us, after := LoadUsers(m).value, UpdateFile(sha, m, e, true).0;
    var i :| 0 <= i < |us| && ChangedAt(sha, e, us, after.users, i);
    assert after.users[i].username == name && !after.users[i].enabled;
  }

  lemma {:induction false} StaysOff(sha: Sha256, p: Plane, actions: seq<Action>, name: string)
    requires Sound(p.manifest) && OffIn(p.manifest, name)
    requires forall i :: 0 <= i < |actions| ==> !SwitchesOn(actions[i], name)
    ensures OffIn(RunAll(sha, p, actions).manifest, name)
  {
    hide Section, Run, OffIn, SwitchesOn, Sound;
    if actions != [] {
      var init := actions[..|actions| - 1];
      assert forall i :: 0 <= i < |init| ==> init[i] == actions[i];
      StaysOff(sha, p, init, name);
      SectionKeepsOff(sha, RunAll(sha, p, init).manifest, actions[|actions| - 1], name);
      ActManifest(sha, RunAll(sha, p, init), actions[|actions| - 1]);
    }
  }

  lemma ActManifest(sha: Sha256, p: Plane, a: Action)
    requires Sound(p.manifest)
    ensures Act(sha, p, a).manifest == Section(sha, p.manifest, a)
  {
    hide UpdateFile, RepairFile, Run, Sound;
  }

  /**
   * Disabling takes effect: after a successful disable section, and whatever
   * else happens short of switching the user on again, a run that exits 0 leaves
   * no key file for that user.
   */
  lemma DisableRevokes(sha: Sha256, p: Plane, name: string, rest: seq<Action>, fx: nat -> Effect)
    requires Sound(p.manifest) && NameShape(name)
    requires UpdateFile(sha, p.manifest, SetEnabled(name, false), true).1.None?
    requires forall i :: 0 <= i < |rest| ==> !SwitchesOn(rest[i], name)
    ensures Sound(Act(sha, p, EditSection(SetEnabled(name, false), true)).manifest)
    ensures var q := RunAll(sha, Act(sha, p, EditSection(SetEnabled(name, false), true)), rest);
      q.manifest.Document? && Run(DEFAULT_GROUP, AsInput(q.manifest), fx, q.files).1 ==>
        name !in Act(sha, q, ReconcileRun(fx)).files
  {
    var a := EditSection(SetEnabled(name, false), true);
    ActKeepsSound(sha, p, a);
    DisableSwitchesOff(sha, p.manifest, name);
    ActManifest(sha, p, a);
    SectionCases(sha, p.manifest, a);
    hide UpdateFile, Section, Run, OffIn, SwitchesOn, StrictValid, AllCanonical, NameShape, AsEntries, Matches;
    var start := Act(sha, p, a);
    StaysOff(sha, start, rest, name);
    var q := RunAll(sha, start, rest);
    if q.manifest.Document? && Run(DEFAULT_GROUP, AsInput(q.manifest), fx, q.files).1 {
      ExitZeroMatches(q.manifest.users, fx, q.files);
      OffMeansNoFile(q.manifest, Act(sha, q, ReconcileRun(fx)).files, name);
    }
  }

  lemma OffMeansNoFile(m: ManifestFile, files: KeyFiles, name: string)
    requires m.Document? && OffIn(m, name) && NameShape(name) && Matches(m.users, files)
    ensures name !in files
  {
    hide NameShape;
    assert forall keys :: !Granted(m.users, name, keys);
    GetIs(files, name);
  }

  lemma GetIs(files: KeyFiles, name: string)
    ensures name in files ==> Get(files, name) == Some(files[name])
  {}

  /** Creating takes effect: a run that exits 0 right after leaves exactly the canonical key in the new user's file. */
  lemma CreateInstalls(sha: Sha256, p: Plane, name: string, text: string, fx: nat -> Effect)
    requires Sound(p.manifest) && UpdateFile(sha, p.manifest, CreateUser(name, text), true).1.None?
    ensures ValidUsername(name) && ValidKey(text)
    ensures Sound(Act(sha, p, EditSection(CreateUser(name, text), true)).manifest)
    ensures var q := Act(sha, p, EditSection(CreateUser(name, text), true));
      Run(DEFAULT_GROUP, AsInput(q.manifest), fx, q.files).1 ==> Get(Act(sha, q, ReconcileRun(fx)).files, name) == Some([Canonical(text)])
  {
    var e := CreateUser(name, text);
    var a := EditSection(e, true);
    UpdateSucceedsIff(sha, p.manifest, e, true);
    ActKeepsSound(sha, p, a);
    ActManifest(sha, p, a);
    SectionCases(sha, p.manifest, a);
    hide UpdateFile, Section, Run, StrictValid, AllCanonical, AsEntries, Canonical, ValidKey;
    var q := Act(sha, p, a);
    assert NameShape(name);
    hide NameShape, ValidUsername;
    var us := q.manifest.users;
    assert us[|us| - 1] == User(name, true, [Canonical(text)]);
    assert Granted(us, name, [Canonical(text)]);
    if Run(DEFAULT_GROUP, AsInput(q.manifest), fx, q.files).1 {
      ExitZeroMatches(us, fx, q.files);
    }
  }

  // -------------------------------------------------------------------- handlers

  /** The edit a request asks for, if it asks for one. */
  function EditOf(req: Request): Option<Edit> {
    match req
    case Submit(e) => if e.CreateUser? || e.AddKey? || e.GenerateKey? || e.Seed? then Some(e) else None
    case Status(name, on) => Some(SetEnabled(name, on))
    case Delete(name) => Some(RemoveUser(name))
    case DeleteKey(name, fp) => Some(RemoveKey(name, fp))
    case KeyNote(_, _, _) => None
    case RemoveInvalid => None
  }

  /** The handler goes through with its edit. */
  predicate GoesThrough(sha: Sha256, st: AdminState, req: Request, io: Outcomes) {
    && io.manifestOk && EditOf(req).Some? && LoadUsers(st.manifest).Ok?
    && var us := LoadUsers(st.manifest).value;
      && Fits(sha, EditOf(req).value, us)
      && (req.Status? && req.on ==> exists i :: 0 <= i < |us| && us[i].username == req.name && SomeValid(us[i].keys))
  }

  lemma CanEnableIff(m: ManifestFile, name: string)
    requires LoadUsers(m).Ok?
    ensures var us := LoadUsers(m).value;
      CanEnable(m, name) <==> exists i :: 0 <= i < |us| && us[i].username == name && SomeValid(us[i].keys)
  {
    hide ValidOnly, SomeValid, LooseValid;
    var us := LoadUsers(m).value;
    LoadedIsLoose(m);
    var f := FirstIndex(us, name);
    if f < |us| {
      SomeValidIff(us[f].keys);
    }
    forall i | 0 <= i < |us| && us[i].username == name ensures i == f {
      FirstIsOnly(us, i);
    }
  }

  /** A handler that goes through achieves its edit; any other leaves the manifest alone, repair excepted. */
  lemma HandlerAchieves(sha: Sha256, st: AdminState, req: Request, io: Outcomes)
    requires !req.RemoveInvalid?
    ensures var after := Handle(sha, st, req, io).manifest;
      if GoesThrough(sha, st, req, io)
      then after.Document? && Admissible(EditOf(req).value) && Achieved(sha, EditOf(req).value, LoadUsers(st.manifest).value, after.users)
      else after == st.manifest
  {
    hide UpdateFile, LoadUsers, Fits, Achieved, SomeValid, LiveIds, Admissible, CanEnable, KeyFound;
    if EditOf(req).Some? {
      UpdateSucceedsIff(sha, st.manifest, EditOf(req).value, io.manifestOk);
    }
    if req.Status? {
      if LoadUsers(st.manifest).Ok? {
        CanEnableIff(st.manifest, req.name);
      } else {
        assert !CanEnable(st.manifest, req.name) by { CannotEnable(st.manifest, req.name); }
      }
    }
  }

  lemma CannotEnable(m: ManifestFile, name: string)
    requires !LoadUsers(m).Ok?
    ensures !CanEnable(m, name)
  {}

  // -------------------------------------------------------------- repair's report

  /**
   * What repair does and reports: every user keeps its valid keys in order, the
   * count of removed entries makes up the difference, the users named are exactly
   * those who had entries and no valid one, and exactly they are switched off.
   */
  lemma RepairReported(file: ManifestFile)
    requires LoadUsers(file).Ok?
    ensures var (after, r) := RepairFile(file, true);
      && r.Ok? && LoadUsers(after).Ok?
      && var us, fixed, rep := LoadUsers(file).value, LoadUsers(after).value, r.value;
        && |fixed| == |us|
        && (forall i :: 0 <= i < |us| ==>
              && fixed[i].username == us[i].username
              && fixed[i].keys == Filter(us[i].keys, (k: string) => ValidKey(k))
              && fixed[i].enabled == (us[i].enabled && !(us[i].keys != [] && !SomeValid(us[i].keys))))
        && EntryCount(us) == EntryCount(fixed) + rep.removed
        && (forall name :: name in rep.disabled <==>
              exists u :: u in us && u.username == name && u.keys != [] && !SomeValid(u.keys))
        && (rep.removed == 0 ==> after == file)
  {
    var us := LoadUsers(file).value;
    RepairTwice(file);
    RepairConserves(us);
    RepairedList(file);
    hide RepairFile, LoadUsers, ValidKey, ValidOnly, SomeValid, RepairUsers;
    var rep := RepairFile(file, true).1.value;
    var fixed := LoadUsers(RepairFile(file, true).0).value;
    forall i | 0 <= i < |us|
      ensures fixed[i].username == us[i].username
      ensures fixed[i].keys == Filter(us[i].keys, (k: string) => ValidKey(k))
      ensures fixed[i].enabled == (us[i].enabled && !(us[i].keys != [] && !SomeValid(us[i].keys)))
    {
      RepairedUser(us[i]);
      SomeValidIff(us[i].keys);
      FilterAgrees(us[i].keys);
    }
    forall name
      ensures name in rep.disabled <==> exists u :: u in us && u.username == name && u.keys != [] && !SomeValid(u.keys)
    {
      RepairNames(us, name);
      forall u | u in us ensures BecomesEmpty(u) <==> u.keys != [] && !SomeValid(u.keys) {
        SomeValidIff(u.keys);
      }
    }
  }

  lemma {:induction false} FilterAgrees(keys: seq<string>)
    ensures ValidOnly(keys) == Filter(keys, (k: string) => ValidKey(k))
  {
    hide ValidKey;
    if keys != [] {
      FilterAgrees(keys[1..]);
    }
  }

  lemma RepairedList(file: ManifestFile)
    requires LoadUsers(file).Ok?
    ensures var us := LoadUsers(file).value;
      && LoadUsers(RepairFile(file, true).0) == Ok(RepairUsers(us))
      && RepairFile(file, true).1.Ok?
      && RepairFile(file, true).1.value.removed == InvalidCount(us) && RepairFile(file, true).1.value.disabled == Emptied(us)
      && forall i :: 0 <= i < |us| ==> RepairUsers(us)[i] == RepairUser(us[i])
  {
    var us := LoadUsers(file).value;
    LoadedIsLoose(file);
    hide LooseValid, KeysValid, ValidOnly, InvalidCount, Emptied;
    RepairIsStrict(us);
    ValidOnlyCounts(us);
    if InvalidCount(us) == 0 {
      AllValidUnrepaired(us);
    } else {
      StrictIsLoose(RepairUsers(us));
    }
  }

  lemma AllValidUnrepaired(us: seq<User>)
    requires KeysValid(us)
    ensures RepairUsers(us) == us
  {
    hide ValidKey, ValidOnly;
    forall i | 0 <= i < |us| ensures RepairUser(us[i]) == us[i] {
      ValidOnlyFacts(us[i].keys);
    }
  }

  // ----------------------------------------------------------------------- notes

  lemma NoteIdText()
    ensures NoteId("alice", "SHA256:x") == "alice|SHA256:x"
  {}

  /** The request names a valid key that is there, and the note is short enough. */
  predicate NoteFits(sha: Sha256, st: AdminState, name: string, fp: string, note: string) {
    && ValidUsername(name) && ValidFingerprint(fp) && |note| <= 120 && LoadUsers(st.manifest).Ok?
    && var us := LoadUsers(st.manifest).value;
      exists i :: 0 <= i < |us| && us[i].username == name && KeyIn(sha, us[i].keys, fp)
  }

  /** Setting a note: that one is stored, or cleared when empty, and every other note stays; any refusal changes nothing. */
  lemma NoteIsSet(sha: Sha256, st: AdminState, name: string, fp: string, note: string, io: Outcomes)
    ensures var after := Handle(sha, st, KeyNote(name, fp, note), io); var id := NoteId(name, fp);
      && after.manifest == st.manifest
      && if NoteFits(sha, st, name, fp, note) && st.notes.Notes? && io.notesOk
         then
           && after.notes.Notes?
           && (if note == "" then id !in after.notes.text else id in after.notes.text && after.notes.text[id] == note)
           && SameElsewhere(st.notes.text, after.notes.text, id)
         else after.notes == st.notes
  {
    hide KeyIn, ValidUsername, ValidFingerprint, LoadUsers, SetNote, SameElsewhere, KeyFound;
    NoteStored(st.notes, NoteId(name, fp), note, io.notesOk);
    if LoadUsers(st.manifest).Ok? {
      FoundIff(sha, st.manifest, name, fp);
    }
  }

  lemma NoteStored(n: NotesFile, id: string, note: string, writeOk: bool)
    ensures var after := SetNote(n, id, note, writeOk).0;
      if n.Notes? && writeOk
      then
        && after.Notes?
        && (if note == "" then id !in after.text else id in after.text && after.text[id] == note)
        && SameElsewhere(n.text, after.text, id)
      else after == n
  {}

  predicate SameElsewhere(a: map<string, string>, b: map<string, string>, id: string) {
    && (forall x :: x in a && x != id ==> x in b && b[x] == a[x])
    && (forall x :: x in b && x != id ==> x in a)
  }

  lemma FoundIff(sha: Sha256, m: ManifestFile, name: string, fp: string)
    requires LoadUsers(m).Ok?
    ensures var us := LoadUsers(m).value;
      KeyFound(sha, us, name, fp) <==> exists i :: 0 <= i < |us| && us[i].username == name && KeyIn(sha, us[i].keys, fp)
  {
    hide Carries, LooseValid;
    var us := LoadUsers(m).value;
    LoadedIsLoose(m);
    var f := FirstIndex(us, name);
    if f < |us| {
      var c := FirstCarrier(sha, us[f].keys, fp);
      assert KeyIn(sha, us[f].keys, fp) <==> c < |us[f].keys|;
    }
    forall i | 0 <= i < |us| && us[i].username == name ensures i == f {
      FirstIsOnly(us, i);
    }
  }

  /** Pruning keeps exactly the notes of live keys, each with its text. */
  lemma PruneKeepsLive(sha: Sha256, st: AdminState)
    requires LoadUsers(st.manifest).Ok? && st.notes.Notes?
    ensures var after := PruneToLive(sha, st, true); var us := LoadUsers(st.manifest).value;
      && after.manifest == st.manifest && after.notes.Notes?
      && (forall id :: id in after.notes.text <==> id in st.notes.text && id in LiveIds(sha, us))
      && (forall id :: id in after.notes.text ==> after.notes.text[id] == st.notes.text[id])
  {
    hide LoadUsers, LiveIds;
  }

  /**
   * No handler but a key removal or a note request touches the note of a key that
   * is still live afterwards, however the writes go.
   */
  lemma LiveNotesSurvive(sha: Sha256, st: AdminState, req: Request, io: Outcomes, id: string)
    requires !req.DeleteKey? && !req.KeyNote? && st.notes.Notes? && id in st.notes.text
    ensures var after := Handle(sha, st, req, io);
      && after.notes.Notes?
      && (LoadUsers(after.manifest).Ok? && id in LiveIds(sha, LoadUsers(after.manifest).value) ==>
            id in after.notes.text && after.notes.text[id] == st.notes.text[id])
      && (forall x :: x in after.notes.text ==> x in st.notes.text && after.notes.text[x] == st.notes.text[x])
  {
    hide LoadUsers, LiveIds, UpdateFile, RepairFile, CanEnable;
  }

  /** The repair handler repairs the manifest; its write failing changes nothing. */
  lemma RepairHandled(sha: Sha256, st: AdminState, io: Outcomes)
    ensures var after := Handle(sha, st, RemoveInvalid, io).manifest;
      && (io.manifestOk ==> after == RepairFile(st.manifest, true).0)
      && (!io.manifestOk ==> after == st.manifest)
  {
    hide LooseValid, StrictValid, InvalidCount, Emptied, RepairUsers, LiveIds;
  }
}
