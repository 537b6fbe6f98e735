/**
 The two processes together: admin lock sections rewrite the manifest while
 reconcile runs, each reading one manifest version, rewrite the key files.  The
 theorems hold for every interleaving.
 */
module ControlPlane {
  import opened Text
  import opened Keys
  import opened Manifest
  import opened Reconcile
  import RS = ReconcileScript

  const DEFAULT_GROUP := "sftpusers"

  /** One lock section of the admin process, or one run of the reconciler. */
  datatype Action =
    | EditSection(edit: Edit, writeOk: bool)
    | RepairSection(writeOk: bool)
    | ReconcileRun(fx: nat -> Effect)

  datatype Plane = Plane(manifest: ManifestFile, files: KeyFiles)

  /** What the admin side leaves behind: nothing, or a strictly valid document of canonical keys. */
  predicate Sound(m: ManifestFile) {
    m.Absent? || (m.Document? && m.version == 1 && StrictValid(m.users) && AllCanonical(m.users))
  }

  /** The manifest as the script's jq calls see it. */
  function AsEntry(u: User): RawEntry
    requires ValidUsername(u.username)
  {
    NoNewline(u.username);
    Entry(u.username, u.enabled, Items(AsItems(u.keys)))
  }

  lemma NoNewline(name: string)
    requires NameShape(name)
    ensures '\n' !in name
  {
    assert !NameChar('\n');
  }

  function AsItems(keys: seq<string>): seq<Item> {
    seq(|keys|, i requires 0 <= i < |keys| => Str(keys[i]))
  }

  function AsEntries(us: seq<User>): (es: seq<RawEntry>)
    requires NamesValid(us)
    ensures |es| == |us|
    ensures forall i :: 0 <= i < |us| ==> es[i] == AsEntry(us[i])
  {
    seq(|us|, i requires 0 <= i < |us| => AsEntry(us[i]))
  }

  function AsInput(m: ManifestFile): Input
    requires Sound(m)
  {
    if m.Absent? then NoFile else Entries(AsEntries(m.users))
  }

  /** What one action makes of the manifest file; only admin sections write it. */
  function Section(sha: Sha256, m: ManifestFile, a: Action): ManifestFile {
    match a
    case EditSection(e, writeOk) => UpdateFile(sha, m, e, writeOk).0
    case RepairSection(writeOk) => RepairFile(m, writeOk).0
    case ReconcileRun(_) => m
  }

  function Sections(sha: Sha256, m: ManifestFile, actions: seq<Action>): ManifestFile {
    if actions == [] then m else Section(sha, Sections(sha, m, actions[..|actions| - 1]), actions[|actions| - 1])
  }

  predicate Strict(m: ManifestFile) { m.Document? && m.version == 1 && StrictValid(m.users) }

  /** Under every interleaving of lock sections a strictly valid manifest, whoever wrote it, stays so. */
  lemma {:induction false} StrictStays(sha: Sha256, m: ManifestFile, actions: seq<Action>)
    requires Strict(m)
    ensures Strict(Sections(sha, m, actions))
  {
    hide UpdateFile, RepairFile, StrictValid;
    if actions != [] {
      var before, a := Sections(sha, m, actions[..|actions| - 1]), actions[|actions| - 1];
      StrictStays(sha, m, actions[..|actions| - 1]);
      match a
      case EditSection(e, writeOk) => UpdateOutcome(sha, before, e, writeOk);
      case RepairSection(writeOk) => RepairOutcome(before, writeOk);
      case ReconcileRun(_) =>
    }
  }

  lemma RepairOutcome(m: ManifestFile, writeOk: bool)
    ensures var (after, r) := RepairFile(m, writeOk);
      && (r.Err? ==> after == m)
      && (r.Ok? ==> after == m || Strict(after))
  {
    hide StrictValid, InvalidCount;
  }

  predicate HasEntry(m: ManifestFile, name: string) {
    m.Document? && exists i :: 0 <= i < |m.users| && m.users[i].username == name
  }

  /** No step, in any interleaving, removes an entry that is enabled at that moment, whatever the file holds. */
  lemma EnabledEntrySurvives(sha: Sha256, m: ManifestFile, a: Action, i: nat)
    requires m.Document? && i < |m.users| && m.users[i].enabled
    ensures HasEntry(Section(sha, m, a), m.users[i].username)
  {
    hide Section, HasEntry;
    SectionCases(sha, m, a);
    match a
    case EditSection(e, writeOk) => EnabledSurvivesEdit(sha, m, e, writeOk, i);
    case RepairSection(writeOk) => EntrySurvivesRepair(m, writeOk, i);
    case ReconcileRun(_) => StillThere(m, i);
  }

  lemma SectionCases(sha: Sha256, m: ManifestFile, a: Action)
    ensures a.EditSection? ==> Section(sha, m, a) == UpdateFile(sha, m, a.edit, a.writeOk).0
    ensures a.RepairSection? ==> Section(sha, m, a) == RepairFile(m, a.writeOk).0
    ensures a.ReconcileRun? ==> Section(sha, m, a) == m
  {
    hide UpdateFile, RepairFile;
  }

  lemma StillThere(m: ManifestFile, i: nat)
    requires m.Document? && i < |m.users|
    ensures HasEntry(m, m.users[i].username)
  {
    assert m.users[i].username == m.users[i].username;
  }

  lemma EnabledSurvivesEdit(sha: Sha256, m: ManifestFile, e: Edit, writeOk: bool, i: nat)
    requires m.Document? && i < |m.users| && m.users[i].enabled
    ensures HasEntry(UpdateFile(sha, m, e, writeOk).0, m.users[i].username)
  {
    hide ApplyEdit, StrictValid, LooseValid, Admissible, ParseKey;
    StillThere(m, i);
    if UpdateFile(sha, m, e, writeOk).1.None? {
      EditKeepsEnabled(sha, e, m.users, i);
      var next := ApplyEdit(sha, e, m.users).value;
      var u :| u in next && u.username == m.users[i].username;
      var j :| 0 <= j < |next| && next[j] == u;
      StillThere(Document(1, next), j);
    }
  }

  lemma EntrySurvivesRepair(m: ManifestFile, writeOk: bool, i: nat)
    requires m.Document? && i < |m.users|
    ensures HasEntry(RepairFile(m, writeOk).0, m.users[i].username)
  {
    hide StrictValid, LooseValid, InvalidCount, Emptied, RepairUser;
    StillThere(m, i);
    RepairedUser(m.users[i]);
    StillThere(Document(1, RepairUsers(m.users)), i);
  }

  function Act(sha: Sha256, p: Plane, a: Action): (q: Plane)
    requires Sound(p.manifest)
  {
    match a
    case ReconcileRun(fx) => p.(files := Run(DEFAULT_GROUP, AsInput(p.manifest), fx, p.files).0)
    case _ => p.(manifest := Section(sha, p.manifest, a))
  }

  /** Every admin section keeps the manifest sound. */
  lemma SectionKeepsSound(sha: Sha256, m: ManifestFile, a: Action)
    requires Sound(m)
    ensures Sound(Section(sha, m, a))
  {
    hide ParseKey, ValidKey;
    match a
    case EditSection(e, writeOk) =>
      UpdateOutcome(sha, m, e, writeOk);
      if UpdateFile(sha, m, e, writeOk).1.None? {
        EditKeepsCanonical(sha, e, LoadUsers(m).value);
      }
    case RepairSection(writeOk) =>
      RepairKeepsCanonical(LoadUsers(m).value);
    case ReconcileRun(_) =>
  }

  /** Every step of either process keeps the manifest sound. */
  lemma ActKeepsSound(sha: Sha256, p: Plane, a: Action)
    requires Sound(p.manifest)
    ensures Sound(Act(sha, p, a).manifest)
  {
    hide Run, Section, Sound;
    SectionKeepsSound(sha, p.manifest, a);
  }

  function RunAll(sha: Sha256, p: Plane, actions: seq<Action>): (q: Plane)
    requires Sound(p.manifest)
    ensures Sound(q.manifest)
  {
    if actions == [] then p
    else
      var q := RunAll(sha, p, actions[..|actions| - 1]);
      ActKeepsSound(sha, q, actions[|actions| - 1]);
      Act(sha, q, actions[|actions| - 1])
  }

  // ------------------------------------------------- the reconciler accepts it

  lemma EntryItems(u: User)
    requires ValidUsername(u.username)
    ensures var items := AsEntry(u).keys.items;
      && |items| == |u.keys|
      && (forall i :: 0 <= i < |items| ==> items[i].Str?)
      && Strings(items) == u.keys
  {}

  /** Every stored name and key passes the script's own checks. */
  lemma SoundEntryAccepted(us: seq<User>, i: nat)
    requires StrictValid(us) && AllCanonical(us) && i < |us|
    ensures Judge(DEFAULT_GROUP, AsEntry(us[i])) ==
            if us[i].enabled && us[i].keys != [] then Install(us[i].keys) else Drop
  {
    var u := us[i];
    EntryItems(u);
    NameNotReserved(u.username);
    if u.keys != [] {
      CanonicalLines(u.keys);
    }
    hide ParseKey, ValidKey, NameShape, KeyLines, LinesValid;
  }

  lemma NameNotReserved(name: string)
    requires ValidUsername(name)
    ensures NameShape(name) && !ReservedName(DEFAULT_GROUP, name)
  {}

  lemma CanonicalLines(keys: seq<string>)
    requires keys != [] && forall j :: 0 <= j < |keys| ==> IsCanonical(keys[j])
    ensures KeyLines(keys) == keys && LinesValid(keys)
  {
    hide IsCanonical, ShellValidKey;
    forall j | 0 <= j < |keys| ensures ShellValidKey(keys[j]) && keys[j] != "" && '\n' !in keys[j] {
      RS.CanonicalPassesShell(keys[j]);
    }
    RS.KeyLinesAreKeys(keys);
  }

  predicate Effective(u: User) { u.enabled && u.keys != [] }

  lemma EntriesUnique(us: seq<User>)
    requires StrictValid(us)
    ensures UniqueEntries(AsEntries(us))
  {
    hide KeysValid, ValidUsername;
  }

  /** On a sound manifest only provisioning or write failures can make a run fail. */
  lemma SoundExitZeroIff(us: seq<User>, fx: nat -> Effect, files: KeyFiles)
    requires StrictValid(us) && AllCanonical(us)
    ensures Run(DEFAULT_GROUP, Entries(AsEntries(us)), fx, files).1 <==>
            forall i :: 0 <= i < |us| && Effective(us[i]) ==> fx(i).Succeeds?
  {
    hide Judge, Run, AsEntry;
    var es := AsEntries(us);
    ExitZeroIff(DEFAULT_GROUP, es, fx, files);
    forall i | 0 <= i < |us|
      ensures Clean(DEFAULT_GROUP, es[i], fx(i)) <==> (Effective(us[i]) ==> fx(i).Succeeds?)
    {
      SoundClean(us, fx, i);
    }
  }

  lemma SoundClean(us: seq<User>, fx: nat -> Effect, i: nat)
    requires StrictValid(us) && AllCanonical(us) && i < |us|
    ensures Clean(DEFAULT_GROUP, AsEntries(us)[i], fx(i)) <==> (Effective(us[i]) ==> fx(i).Succeeds?)
  {
    hide Judge;
    SoundEntryAccepted(us, i);
  }

  // ----------------------------------------------------------- exact authority

  predicate Granted(us: seq<User>, name: string, keys: seq<string>) {
    exists i :: 0 <= i < |us| && us[i].username == name && Effective(us[i]) && us[i].keys == keys
  }

  /** The login-shaped key files are exactly the enabled users with keys, key for key, in order. */
  ghost predicate Matches(us: seq<User>, files: KeyFiles) {
    forall name, keys :: NameShape(name) ==> (Get(files, name) == Some(keys) <==> Granted(us, name, keys))
  }

  lemma EntryGrants(us: seq<User>, i: nat, name: string, keys: seq<string>)
    requires StrictValid(us) && AllCanonical(us) && i < |us|
    ensures Grants(AsEntries(us)[i], name, keys) <==> us[i].username == name && Effective(us[i]) && us[i].keys == keys
  {
    hide KeyLines, IsCanonical, ValidKey;
    EntryItems(us[i]);
    if us[i].keys != [] {
      CanonicalLines(us[i].keys);
    }
  }

  lemma GrantedIff(us: seq<User>, name: string, keys: seq<string>)
    requires StrictValid(us) && AllCanonical(us)
    ensures Authorises(AsEntries(us), name, keys) <==> Granted(us, name, keys)
  {
    hide Grants, ValidUsername, KeysValid, AllCanonical;
    forall i | 0 <= i < |us|
      ensures Grants(AsEntries(us)[i], name, keys) <==> us[i].username == name && Effective(us[i]) && us[i].keys == keys
    {
      EntryGrants(us, i, name, keys);
    }
  }

  lemma ExitZeroMatches(us: seq<User>, fx: nat -> Effect, files: KeyFiles)
    requires StrictValid(us) && AllCanonical(us)
    requires Run(DEFAULT_GROUP, Entries(AsEntries(us)), fx, files).1
    ensures Matches(us, Run(DEFAULT_GROUP, Entries(AsEntries(us)), fx, files).0)
  {
    hide Run, Authorises, Granted, ValidUsername, KeysValid, AllCanonical, NameShape;
    EntriesUnique(us);
    ExitZeroIsExact(DEFAULT_GROUP, AsEntries(us), fx, files);
    forall name, keys ensures Authorises(AsEntries(us), name, keys) <==> Granted(us, name, keys) {
      GrantedIff(us, name, keys);
    }
  }

  /** The key file a user ought to have. */
  function Wanted(u: User): Option<seq<string>> { if Effective(u) then Some(u.keys) else None }

  predicate ListsUser(us: seq<User>, name: string) { exists i :: 0 <= i < |us| && us[i].username == name }

  /** Matching, user by user. */
  lemma MatchesByUser(us: seq<User>, files: KeyFiles)
    requires StrictValid(us)
    ensures Matches(us, files) <==>
      && (forall i :: 0 <= i < |us| ==> Get(files, us[i].username) == Wanted(us[i]))
      && (forall name :: name in files && NameShape(name) ==> ListsUser(us, name))
  {
    hide KeysValid, Reserved;
    assert forall i :: 0 <= i < |us| ==> NameShape(us[i].username);
    hide NameShape, ValidUsername;
    if Matches(us, files) {
      forall i | 0 <= i < |us| ensures Get(files, us[i].username) == Wanted(us[i]) {
        var u := us[i];
        if Effective(u) {
          assert Granted(us, u.username, u.keys);
        } else if u.username in files {
          assert !Granted(us, u.username, files[u.username]);
        }
      }
      forall name | name in files && NameShape(name) ensures ListsUser(us, name) {
        assert Get(files, name) == Some(files[name]);
        assert Granted(us, name, files[name]);
      }
    }
    if (forall i :: 0 <= i < |us| ==> Get(files, us[i].username) == Wanted(us[i])) &&
       (forall name :: name in files && NameShape(name) ==> ListsUser(us, name))
    {
      forall name, keys | NameShape(name) ensures Get(files, name) == Some(keys) <==> Granted(us, name, keys) {
        if ListsUser(us, name) {
          var i :| 0 <= i < |us| && us[i].username == name;
          assert Get(files, name) == Wanted(us[i]);
          assert Granted(us, name, keys) <==> Effective(us[i]) && us[i].keys == keys;
        }
      }
    }
  }

  /** Some effective user before `n` has its write fail, which ends the script. */
  predicate CutBefore(us: seq<User>, fx: nat -> Effect, n: nat)
    requires n <= |us|
  {
    exists i :: 0 <= i < n && Effective(us[i]) && fx(i).WriteFails?
  }

  lemma CutIff(us: seq<User>, fx: nat -> Effect, n: nat)
    requires StrictValid(us) && AllCanonical(us) && n <= |us|
    ensures StopsBefore(DEFAULT_GROUP, AsEntries(us), fx, n) <==> CutBefore(us, fx, n)
  {
    hide Judge, AsEntry, KeysValid, ValidUsername, AllCanonical;
    var es := AsEntries(us);
    forall i | 0 <= i < n ensures Stops(DEFAULT_GROUP, es[i], fx(i)) <==> Effective(us[i]) && fx(i).WriteFails? {
      SoundEntryAccepted(us, i);
      assert es[i].Entry? by { EntryNamed(us[i]); }
    }
  }

  lemma EntryNamed(u: User)
    requires ValidUsername(u.username)
    ensures AsEntry(u).Entry? && AsEntry(u).username == u.username
  {}

  /**
   * One user's file comes out right: if the script was cut short earlier, it was
   * right before; otherwise an effective user was provisioned and written, or
   * had exactly these keys already.
   */
  predicate ComesRight(us: seq<User>, fx: nat -> Effect, files: KeyFiles, i: nat)
    requires i < |us|
  {
    if CutBefore(us, fx, i) then Get(files, us[i].username) == Wanted(us[i])
    else Effective(us[i]) ==> fx(i).Succeeds? || Get(files, us[i].username) == Some(us[i].keys)
  }

  predicate AllComeRight(us: seq<User>, fx: nat -> Effect, files: KeyFiles) {
    && (forall i :: 0 <= i < |us| ==> ComesRight(us, fx, files, i))
    && (CutBefore(us, fx, |us|) ==> forall name :: name in files && NameShape(name) ==> ListsUser(us, name))
  }

  lemma FileAfterIs(us: seq<User>, fx: nat -> Effect, files: KeyFiles, i: nat)
    requires StrictValid(us) && AllCanonical(us) && i < |us|
    ensures Get(Run(DEFAULT_GROUP, Entries(AsEntries(us)), fx, files).0, us[i].username) == Wanted(us[i]) <==> ComesRight(us, fx, files, i)
  {
    hide Judge, Run, AsEntry, KeysValid, ValidUsername, AllCanonical, NameShape, StopsBefore;
    var es := AsEntries(us);
    EntryNamed(us[i]);
    EntriesUnique(us);
    SoundEntryAccepted(us, i);
    CutIff(us, fx, i);
    RunAt(DEFAULT_GROUP, es, fx, files, i);
  }

  /**
   * Exactly when a run on a sound manifest leaves the right key files, whatever
   * its exit status: every user's file comes out right, and a script cut short
   * had no stale file to remove.
   */
  lemma RunMatchesIff(us: seq<User>, fx: nat -> Effect, files: KeyFiles)
    requires StrictValid(us) && AllCanonical(us)
    ensures Matches(us, Run(DEFAULT_GROUP, Entries(AsEntries(us)), fx, files).0) <==> AllComeRight(us, fx, files)
  {
    hide Judge, Run, AsEntry, KeysValid, ValidUsername, AllCanonical, NameShape, StopsBefore, Matches, ComesRight, CutBefore, Wanted;
    var after := Run(DEFAULT_GROUP, Entries(AsEntries(us)), fx, files).0;
    MatchesByUser(us, after);
    forall i | 0 <= i < |us| ensures Get(after, us[i].username) == Wanted(us[i]) <==> ComesRight(us, fx, files, i) {
      FileAfterIs(us, fx, files, i);
    }
    forall name | NameShape(name) && !ListsUser(us, name)
      ensures name in after <==> name in files && CutBefore(us, fx, |us|)
    {
      UnlistedAfter(us, fx, files, name);
    }
  }

  lemma UnlistedAfter(us: seq<User>, fx: nat -> Effect, files: KeyFiles, name: string)
    requires StrictValid(us) && AllCanonical(us) && NameShape(name) && !ListsUser(us, name)
    ensures name in Run(DEFAULT_GROUP, Entries(AsEntries(us)), fx, files).0 <==> name in files && CutBefore(us, fx, |us|)
  {
    hide Judge, Run, AsEntry, KeysValid, ValidUsername, AllCanonical, NameShape, StopsBefore, CutBefore;
    var es := AsEntries(us);
    CutIff(us, fx, |us|);
    assert !Names(es, |es|, name) by {
      forall i | 0 <= i < |es| && es[i].Entry? ensures es[i].username != name {
        EntryNamed(us[i]);
      }
    }
    RunElsewhere(DEFAULT_GROUP, es, fx, files, name);
  }

  /**
   * Over every interleaving from first boot, a reconcile run fails only by
   * provisioning or writing, and one that exits 0 leaves exactly the authorised
   * key files of the manifest it read; with no manifest yet it leaves the
   * directory alone.
   */
  lemma EveryRunExact(sha: Sha256, files: KeyFiles, actions: seq<Action>, fx: nat -> Effect)
    ensures var p := RunAll(sha, Plane(Absent, files), actions);
      && Sound(p.manifest)
      && (p.manifest.Document? ==>
            (Run(DEFAULT_GROUP, AsInput(p.manifest), fx, p.files).1 <==>
             forall i :: 0 <= i < |p.manifest.users| && Effective(p.manifest.users[i]) ==> fx(i).Succeeds?))
      && (p.manifest.Document? && Run(DEFAULT_GROUP, AsInput(p.manifest), fx, p.files).1 ==>
            Matches(p.manifest.users, Act(sha, p, ReconcileRun(fx)).files))
      && (p.manifest.Absent? ==> Act(sha, p, ReconcileRun(fx)).files == p.files)
  {
    hide Run, StrictValid, AllCanonical, Matches, AsEntries;
    var p := RunAll(sha, Plane(Absent, files), actions);
    if p.manifest.Document? {
      SoundExitZeroIff(p.manifest.users, fx, p.files);
      if Run(DEFAULT_GROUP, AsInput(p.manifest), fx, p.files).1 {
        ExitZeroMatches(p.manifest.users, fx, p.files);
      }
    }
    if p.manifest.Absent? {
      NoManifestNoChange(fx, p.files);
    }
  }

  lemma NoManifestNoChange(fx: nat -> Effect, files: KeyFiles)
    ensures Run(DEFAULT_GROUP, NoFile, fx, files) == (files, true)
  {}

  // ----------------------------------------------------------------- provenance

  /** At action `k` a reconcile run read a manifest that grants `keys` to `name`. */
  predicate GrantedAt(sha: Sha256, p: Plane, actions: seq<Action>, k: nat, name: string, keys: seq<string>)
    requires Sound(p.manifest) && k < |actions|
  {
    var m := RunAll(sha, p, actions[..k]).manifest;
    actions[k].ReconcileRun? && m.Document? && Granted(m.users, name, keys)
  }

  /** Action `j` is a reconcile run that completed its loop on a manifest. */
  predicate CompletedAt(sha: Sha256, p: Plane, actions: seq<Action>, j: nat)
    requires Sound(p.manifest) && j < |actions|
  {
    var q := RunAll(sha, p, actions[..j]);
    actions[j].ReconcileRun? && q.manifest.Document? && Completes(q, actions[j].fx)
  }

  predicate Completes(q: Plane, fx: nat -> Effect)
    requires Sound(q.manifest) && q.manifest.Document?
  {
    var es := AsEntries(q.manifest.users);
    !StopsBefore(DEFAULT_GROUP, es, fx, |es|)
  }

  predicate StillEnabled(m: ManifestFile, name: string) {
    m.Document? && exists i :: 0 <= i < |m.users| && m.users[i].username == name && Effective(m.users[i])
  }

  /** `k` witnesses why `name` may have the key file `keys`. */
  predicate Justified(sha: Sha256, p: Plane, actions: seq<Action>, k: nat, name: string, keys: seq<string>)
    requires Sound(p.manifest)
  {
    && k < |actions|
    && GrantedAt(sha, p, actions, k, name, keys)
    && forall j :: k < j < |actions| && CompletedAt(sha, p, actions, j) ==>
         StillEnabled(RunAll(sha, p, actions[..j]).manifest, name)
  }

  /** One run either installs what the manifest grants now, or leaves a file it had no reason to remove. */
  lemma FileAfterRun(q: Plane, fx: nat -> Effect, name: string)
    requires Sound(q.manifest) && q.manifest.Document? && NameShape(name)
    requires name in Run(DEFAULT_GROUP, AsInput(q.manifest), fx, q.files).0
    ensures var after := Run(DEFAULT_GROUP, AsInput(q.manifest), fx, q.files).0;
      || Granted(q.manifest.users, name, after[name])
      || (name in q.files && q.files[name] == after[name] && (Completes(q, fx) ==> StillEnabled(q.manifest, name)))
  {
    hide Judge, NameShape, ValidUsername, KeysValid, AllCanonical;
    var us := q.manifest.users;
    var es := AsEntries(us);
    var after := Run(DEFAULT_GROUP, Entries(es), fx, q.files).0;
    EntriesUnique(us);
    if Completes(q, fx) {
      RunIsLocal(DEFAULT_GROUP, es, fx, q.files, name);
      assert Names(es, |es|, name);
    }
    if Names(es, |es|, name) {
      var i :| 0 <= i < |es| && es[i].Entry? && es[i].username == name;
      assert us[i].username == name;
      SoundEntryAccepted(us, i);
      HaltKeeps(DEFAULT_GROUP, es, fx, q.files, |es|, i);
      if Completes(q, fx) {
        assert Get(after, name) == FinalFile(DEFAULT_GROUP, es, fx, q.files, i);
      }
    } else {
      UntouchedName(DEFAULT_GROUP, es, fx, q.files, |es|, name);
    }
  }

  lemma JustifiedExtends(sha: Sha256, p: Plane, actions: seq<Action>, k: nat, name: string, keys: seq<string>)
    requires Sound(p.manifest) && actions != []
    requires Justified(sha, p, actions[..|actions| - 1], k, name, keys)
    requires CompletedAt(sha, p, actions, |actions| - 1) ==>
             StillEnabled(RunAll(sha, p, actions[..|actions| - 1]).manifest, name)
    ensures Justified(sha, p, actions, k, name, keys)
  {
    hide Granted, StillEnabled, RunAll, Completes, Sound;
    var init := actions[..|actions| - 1];
    assert init[..k] == actions[..k];
    forall j | k < j < |actions| && CompletedAt(sha, p, actions, j)
      ensures StillEnabled(RunAll(sha, p, actions[..j]).manifest, name)
    {
      if j < |init| {
        assert init[..j] == actions[..j];
        assert CompletedAt(sha, p, init, j);
      }
    }
  }

  /**
   * Provenance, over every interleaving from first boot with no login-shaped key
   * file: whenever a user has a key file, some earlier run read a manifest that
   * granted exactly those keys, and no run completed since then has seen the
   * user disabled, without keys, or absent.
   */
  lemma {:induction false} EveryKeyFileJustified(sha: Sha256, files: KeyFiles, actions: seq<Action>, name: string)
    requires forall b :: b in files ==> !NameShape(b)
    requires NameShape(name) && name in RunAll(sha, Plane(Absent, files), actions).files
    ensures exists k :: Justified(sha, Plane(Absent, files), actions, k, name,
                                  RunAll(sha, Plane(Absent, files), actions).files[name])
  {
    hide NameShape, Run, Granted, Completes, StillEnabled, StrictValid, AllCanonical, UpdateFile, RepairFile;
    var p := Plane(Absent, files);
    var n := |actions|;
    var end := RunAll(sha, p, actions);
    if n > 0 {
      var init, last := actions[..n - 1], actions[n - 1];
      var q := RunAll(sha, p, init);
      var keys := end.files[name];
      if last.ReconcileRun? && q.manifest.Document? {
        FileAfterRun(q, last.fx, name);
        if Granted(q.manifest.users, name, keys) {
          assert Justified(sha, p, actions, n - 1, name, keys);
          return;
        }
      } else if last.ReconcileRun? {
        NoManifestNoChange(last.fx, q.files);
      }
      EveryKeyFileJustified(sha, files, init, name);
      var k :| Justified(sha, p, init, k, name, keys);
      JustifiedExtends(sha, p, actions, k, name, keys);
    }
  }
}
