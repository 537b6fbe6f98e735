/**
 What the lock sections of the admin service keep when handlers overlap: the
 exact sections that can leave an enabled user without a usable key.
 */
module Interleaving {
  import opened Keys
  import opened Manifest
  import opened Admin
  import opened ControlPlane

  /** The write half of an enable request lands on a user without a usable key. */
  predicate EnablesKeyless(m: ManifestFile, e: Edit, writeOk: bool) {
    && writeOk && e.SetEnabled? && e.on && LoadUsers(m).Ok?
    && var us := LoadUsers(m).value; var i := FirstIndex(us, e.name);
      i < |us| && StrictValid(us) && ValidOnly(us[i].keys) == []
  }

  /** Moving a switch changes nothing that validation looks at. */
  lemma SwitchKeepsStrict(us: seq<User>, i: nat, on: bool)
    requires i < |us|
    ensures StrictValid(us[i := us[i].(enabled := on)]) <==> StrictValid(us)
  {
    hide ValidUsername, AllValid;
    var next := us[i := us[i].(enabled := on)];
    assert forall j :: 0 <= j < |us| ==> next[j].username == us[j].username && next[j].keys == us[j].keys;
  }

  lemma SwitchUsable(us: seq<User>, i: nat, on: bool)
    requires i < |us| && EnabledUsable(us)
    ensures EnabledUsable(us[i := us[i].(enabled := on)]) <==> !(on && ValidOnly(us[i].keys) == [])
  {
    hide ValidOnly;
    var next := us[i := us[i].(enabled := on)];
    assert forall j :: 0 <= j < |us| && j != i ==> next[j] == us[j];
    assert next[i] == us[i].(enabled := on);
  }

  lemma ReplacementUsable(us: seq<User>, i: nat, v: User)
    requires i < |us| && EnabledUsable(us) && (v.enabled ==> ValidOnly(v.keys) != [])
    ensures EnabledUsable(us[i := v])
  {
    hide ValidOnly;
  }

  lemma AppendUsable(us: seq<User>, v: User)
    requires EnabledUsable(us) && ValidOnly(v.keys) != []
    ensures EnabledUsable(us + [v])
  {
    hide ValidOnly;
  }

  lemma DropKeyUsable(sha: Sha256, u: User, fp: string)
    requires DropKey(sha, u, fp).Ok?
    ensures var v := DropKey(sha, u, fp).value; v.enabled ==> ValidOnly(v.keys) != []
  {
    hide ValidOnly, FirstCarrier;
  }

  /** Every closure but a switch keeps usable keys on enabled users. */
  lemma ClosureUsable(sha: Sha256, e: Edit, us: seq<User>)
    requires Admissible(e) && !e.SetEnabled? && EnabledUsable(us) && ApplyEdit(sha, e, us).Ok?
    ensures EnabledUsable(ApplyEdit(sha, e, us).value)
  {
    hide ParseKey, ValidOnly, EnabledUsable, FirstIndex, DropKey, ValidUsername, ValidFingerprint;
    var i := FirstIndex(us, e.name);
    if e.RemoveUser? {
      RemovalKeepsUsable(us, i);
    } else if e.RemoveKey? {
      DropKeyUsable(sha, us[i], e.fp);
      ReplacementUsable(us, i, DropKey(sha, us[i], e.fp).value);
    } else {
      CanonicalIdempotent(e.text);
      var canon := ParseKey(e.text).canonical;
      if e.Seed? || e.CreateUser? {
        UsableMember([canon], canon);
        AppendUsable(us, User(e.name, true, [canon]));
      } else {
        var v := us[i].(keys := us[i].keys + [canon]);
        UsableMember(v.keys, canon);
        ReplacementUsable(us, i, v);
      }
    }
  }

  /** One Update section keeps the invariant exactly when it does not switch on a keyless user. */
  lemma UpdateUsableIff(sha: Sha256, m: ManifestFile, e: Edit, writeOk: bool)
    requires UsableFile(m)
    ensures var after := UpdateFile(sha, m, e, writeOk).0;
      LoadUsers(after).Ok? && (UsableFile(after) <==> !EnablesKeyless(m, e, writeOk))
  {
    hide ParseKey, ValidOnly, EnabledUsable, FirstIndex, DropKey, StrictValid, LooseValid, ValidUsername, ValidFingerprint;
    var us := LoadUsers(m).value;
    var (after, err) := UpdateFile(sha, m, e, writeOk);
    if e.SetEnabled? && FirstIndex(us, e.name) < |us| {
      SwitchKeepsStrict(us, FirstIndex(us, e.name), e.on);
      SwitchUsable(us, FirstIndex(us, e.name), e.on);
    }
    if err.None? {
      UpdateOutcome(sha, m, e, writeOk);
      StrictIsLoose(after.users);
      if !e.SetEnabled? {
        ClosureUsable(sha, e, us);
      }
    }
  }

  /** The section of an action that breaks the invariant. */
  predicate Breaks(m: ManifestFile, a: Action) { a.EditSection? && EnablesKeyless(m, a.edit, a.writeOk) }

  /** From a manifest where enabled users have usable keys, one lock section keeps that if and only if it is not such a switch. */
  lemma SectionUsableIff(sha: Sha256, m: ManifestFile, a: Action)
    requires UsableFile(m)
    ensures LoadUsers(Section(sha, m, a)).Ok?
    ensures UsableFile(Section(sha, m, a)) <==> !Breaks(m, a)
  {
    hide UpdateFile, RepairFile, EnablesKeyless, EnabledUsable, LoadUsers;
    match a
    case EditSection(e, writeOk) => UpdateUsableIff(sha, m, e, writeOk);
    case RepairSection(writeOk) => RepairUsable(m, writeOk);
    case ReconcileRun(_) =>
  }

  /**
   * Over every interleaving of lock sections: enabled users have usable keys at
   * every point of the run if and only if no enable write ever lands on a user
   * without one.
   */
  lemma {:induction false} AlwaysUsableIff(sha: Sha256, m: ManifestFile, actions: seq<Action>)
    requires UsableFile(m)
    ensures (forall n: nat :: n <= |actions| ==> UsableFile(Sections(sha, m, actions[..n]))) <==>
            (forall n: nat :: n < |actions| ==> !Breaks(Sections(sha, m, actions[..n]), actions[n]))
  {
    hide UsableFile, Breaks, Section;
    if forall n: nat :: n <= |actions| ==> UsableFile(Sections(sha, m, actions[..n])) {
      forall n: nat | n < |actions| ensures !Breaks(Sections(sha, m, actions[..n]), actions[n]) {
        assert UsableFile(Sections(sha, m, actions[..n])) && UsableFile(Sections(sha, m, actions[..n + 1]));
        NextSection(sha, m, actions, n);
        SectionUsableIff(sha, Sections(sha, m, actions[..n]), actions[n]);
      }
    }
    if forall n: nat :: n < |actions| ==> !Breaks(Sections(sha, m, actions[..n]), actions[n]) {
      forall n: nat | n <= |actions| ensures UsableFile(Sections(sha, m, actions[..n])) {
        UsableTo(sha, m, actions, n);
      }
    }
  }

  lemma NextSection(sha: Sha256, m: ManifestFile, actions: seq<Action>, n: nat)
    requires n < |actions|
    ensures Sections(sha, m, actions[..n + 1]) == Section(sha, Sections(sha, m, actions[..n]), actions[n])
  {
    hide Section;
    assert actions[..n + 1][..n] == actions[..n];
  }

  lemma {:induction false} UsableTo(sha: Sha256, m: ManifestFile, actions: seq<Action>, n: nat)
    requires UsableFile(m) && n <= |actions|
    requires forall k: nat :: k < |actions| ==> !Breaks(Sections(sha, m, actions[..k]), actions[k])
    ensures UsableFile(Sections(sha, m, actions[..n]))
  {
    hide UsableFile, Breaks, Section;
    if n > 0 {
      UsableTo(sha, m, actions, n - 1);
      NextSection(sha, m, actions, n - 1);
      SectionUsableIff(sha, Sections(sha, m, actions[..n - 1]), actions[n - 1]);
    }
  }

  /** The check of the enable handler rules the breaking write out, as long as nothing comes between them. */
  lemma CheckedEnableIsSafe(m: ManifestFile, name: string, writeOk: bool)
    requires CanEnable(m, name)
    ensures !Breaks(m, EditSection(SetEnabled(name, true), writeOk))
  {
    hide ValidOnly, StrictValid;
  }

  // --------------------------------------------------- between check and write

  /** Every entry of that name, if there is one, has a usable key. */
  predicate NamedUsable(us: seq<User>, name: string) {
    forall i :: 0 <= i < |us| && us[i].username == name ==> ValidOnly(us[i].keys) != []
  }

  predicate SafeToEnable(m: ManifestFile, name: string) { LoadUsers(m).Ok? && NamedUsable(LoadUsers(m).value, name) }

  /** The section takes the last usable key of the user away. */
  predicate TakesLastKey(sha: Sha256, m: ManifestFile, a: Action, name: string) {
    && a.EditSection? && a.writeOk && a.edit.RemoveKey? && a.edit.name == name
    && SafeToEnable(m, name) && !SafeToEnable(Section(sha, m, a), name)
  }

  /** No closure but a key removal of that very user takes its usable keys away. */
  lemma ClosureNamedUsable(sha: Sha256, e: Edit, us: seq<User>, name: string)
    requires Admissible(e) && NamedUsable(us, name) && ApplyEdit(sha, e, us).Ok?
    requires !(e.RemoveKey? && e.name == name)
    ensures NamedUsable(ApplyEdit(sha, e, us).value, name)
  {
    hide ParseKey, ValidOnly, DropKey, ValidUsername, ValidFingerprint;
    var next, i := ApplyEdit(sha, e, us).value, FirstIndex(us, e.name);
    if e.RemoveUser? {
      assert forall j :: 0 <= j < |next| ==> next[j] == us[if j < i then j else j + 1];
    } else if e.RemoveKey? {
      DropKeyName(sha, us[i], e.fp);
    } else if !e.SetEnabled? {
      CanonicalIdempotent(e.text);
      var canon := ParseKey(e.text).canonical;
      if e.Seed? || e.CreateUser? {
        UsableMember([canon], canon);
      } else {
        UsableMember(us[i].keys + [canon], canon);
      }
    }
  }

  lemma DropKeyName(sha: Sha256, u: User, fp: string)
    requires DropKey(sha, u, fp).Ok?
    ensures DropKey(sha, u, fp).value.username == u.username
  {
    hide ValidOnly, FirstCarrier;
  }

  lemma RepairNamedUsable(us: seq<User>, name: string)
    requires NamedUsable(us, name)
    ensures NamedUsable(RepairUsers(us), name)
  {
    hide ValidKey, ValidOnly, RepairUser;
    var r := RepairUsers(us);
    forall i | 0 <= i < |r| && r[i].username == name ensures ValidOnly(r[i].keys) != [] {
      RepairedUser(us[i]);
      ValidOnlyFacts(RepairUser(us[i]).keys);
    }
  }

  lemma RepairSafe(m: ManifestFile, writeOk: bool, name: string)
    requires SafeToEnable(m, name)
    ensures SafeToEnable(RepairFile(m, writeOk).0, name)
  {
    hide StrictValid, LooseValid, NamedUsable, InvalidCount, Emptied, RepairUsers;
    var us := LoadUsers(m).value;
    if RepairFile(m, writeOk).0 != m {
      StrictIsLoose(RepairUsers(us));
      RepairNamedUsable(us, name);
    }
  }

  lemma UpdateSafe(sha: Sha256, m: ManifestFile, e: Edit, writeOk: bool, name: string)
    requires SafeToEnable(m, name) && !(e.RemoveKey? && e.name == name && writeOk)
    ensures SafeToEnable(UpdateFile(sha, m, e, writeOk).0, name)
  {
    hide ParseKey, StrictValid, LooseValid, NamedUsable, ApplyEdit, Admissible;
    if UpdateFile(sha, m, e, writeOk).1.None? {
      UpdateOutcome(sha, m, e, writeOk);
      StrictIsLoose(UpdateFile(sha, m, e, writeOk).0.users);
      ClosureNamedUsable(sha, e, LoadUsers(m).value, name);
    }
  }

  /** A section that ends the safety of enabling is a successful key removal of that user. */
  lemma OnlyRemovalEndsSafety(sha: Sha256, m: ManifestFile, a: Action, name: string)
    requires SafeToEnable(m, name)
    ensures SafeToEnable(Section(sha, m, a), name) <==> !TakesLastKey(sha, m, a, name)
  {
    hide SafeToEnable, UpdateFile, RepairFile;
    match a
    case EditSection(e, writeOk) =>
      if !(e.RemoveKey? && e.name == name && writeOk) {
        UpdateSafe(sha, m, e, writeOk, name);
      }
    case RepairSection(writeOk) => RepairSafe(m, writeOk, name);
    case ReconcileRun(_) =>
  }

  lemma CheckMakesSafe(m: ManifestFile, name: string)
    requires CanEnable(m, name)
    ensures SafeToEnable(m, name)
  {
    hide ValidOnly, ValidUsername;
    var us := LoadUsers(m).value;
    assert UniqueNames(us);
  }

  lemma SafeDoesNotBreak(m: ManifestFile, name: string, writeOk: bool)
    requires SafeToEnable(m, name)
    ensures !Breaks(m, EditSection(SetEnabled(name, true), writeOk))
  {
    hide ValidOnly, StrictValid;
  }

  lemma {:induction false} SafeUntilTaken(sha: Sha256, m: ManifestFile, between: seq<Action>, name: string)
    requires SafeToEnable(m, name)
    requires forall j: nat :: j < |between| ==> !TakesLastKey(sha, Sections(sha, m, between[..j]), between[j], name)
    ensures SafeToEnable(Sections(sha, m, between), name)
  {
    hide SafeToEnable, TakesLastKey, Section;
    if between != [] {
      var n := |between| - 1;
      var init := between[..n];
      forall j: nat | j < n ensures !TakesLastKey(sha, Sections(sha, m, init[..j]), init[j], name) {
        assert init[..j] == between[..j] && init[j] == between[j];
      }
      SafeUntilTaken(sha, m, init, name);
      assert !TakesLastKey(sha, Sections(sha, m, between[..n]), between[n], name);
      OnlyRemovalEndsSafety(sha, Sections(sha, m, init), between[n], name);
    }
  }

  /**
   * The race is the only way: if the check of an enable request passed and its
   * write breaks the invariant, some section in between took the last usable key
   * of that very user away.
   */
  lemma OnlyRaceBreaks(sha: Sha256, m: ManifestFile, between: seq<Action>, name: string, writeOk: bool)
    requires CanEnable(m, name) && Breaks(Sections(sha, m, between), EditSection(SetEnabled(name, true), writeOk))
    ensures exists j: nat :: j < |between| && TakesLastKey(sha, Sections(sha, m, between[..j]), between[j], name)
  {
    hide SafeToEnable, TakesLastKey, Section, CanEnable, Breaks;
    CheckMakesSafe(m, name);
    if forall j: nat :: j < |between| ==> !TakesLastKey(sha, Sections(sha, m, between[..j]), between[j], name) {
      SafeUntilTaken(sha, m, between, name);
      SafeDoesNotBreak(Sections(sha, m, between), name, writeOk);
    }
  }
}
