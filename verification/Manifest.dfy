/**
 The users.json document and what the admin service does to it: the load and
 write checks of internal/sftpadmin/store.go and the mutation closures of
 internal/sftpadmin/server.go, as functions on documents.
 */
module Manifest {
  import opened Text
  import opened Keys

  datatype User = User(username: string, enabled: bool, keys: seq<string>)

  /** What the manifest path holds; Unreadable is an I/O error or text that is not a manifest. */
  datatype ManifestFile = Absent | Unreadable | Document(version: int, users: seq<User>)

  datatype Error =
    | BadInput | CannotLoad | UserExists | NoSuchUser | NoSuchKey | DeleteEnabled
    | NoUsableKey | InvalidManifest | CannotWrite | CannotLoadNotes

  datatype Result<+T> = Ok(value: T) | Err(error: Error)

  predicate UniqueNames(us: seq<User>) {
    forall i, j :: 0 <= i < j < |us| ==> us[i].username != us[j].username
  }

  predicate NamesValid(us: seq<User>) {
    forall i :: 0 <= i < |us| ==> ValidUsername(us[i].username)
  }

  predicate AllValid(keys: seq<string>) {
    forall i :: 0 <= i < |keys| ==> ValidKey(keys[i])
  }

  predicate KeysValid(us: seq<User>) {
    forall i :: 0 <= i < |us| ==> AllValid(us[i].keys)
  }

  /** validateManifest(m, false) on a version-1 document. */
  predicate LooseValid(us: seq<User>) { NamesValid(us) && UniqueNames(us) }

  /** validateManifest(m, true) on a version-1 document. */
  predicate StrictValid(us: seq<User>) { LooseValid(us) && KeysValid(us) }

  /** loadLocked. */
  function LoadUsers(file: ManifestFile): Result<seq<User>> {
    match file
    case Absent => Ok([])
    case Unreadable => Err(CannotLoad)
    case Document(v, us) => if v == 1 && LooseValid(us) then Ok(us) else Err(CannotLoad)
  }

  function FirstIndex(us: seq<User>, name: string): (i: nat)
    ensures i <= |us|
    ensures forall j :: 0 <= j < i ==> us[j].username != name
    ensures i < |us| ==> us[i].username == name
  {
    if us == [] || us[0].username == name then 0 else 1 + FirstIndex(us[1..], name)
  }

  /** The entries that pass canonical validation, in order. */
  function ValidOnly(keys: seq<string>): seq<string> { Filter(keys, Usable()) }

  function Usable(): string -> bool { (k: string) => ValidKey(k) }

  predicate Carries(sha: Sha256, key: string, fp: string) {
    ValidKey(key) && Fingerprint(sha, key) == fp
  }

  function CarriesOne(sha: Sha256, fp: string): string -> bool { (k: string) => Carries(sha, k, fp) }

  /** Position of the first valid key with fingerprint `fp`, or `|keys|`. */
  function FirstCarrier(sha: Sha256, keys: seq<string>, fp: string): (i: nat)
    ensures i <= |keys|
    ensures forall j :: 0 <= j < i ==> !Carries(sha, keys[j], fp)
    ensures i < |keys| ==> Carries(sha, keys[i], fp)
  {
    var i := FirstWhere(keys, CarriesOne(sha, fp));
    assert forall j :: 0 <= j < i ==> !CarriesOne(sha, fp)(keys[j]);
    i
  }

  function RemoveAt<T>(s: seq<T>, i: nat): seq<T>
    requires i < |s|
  {
    s[..i] + s[i + 1..]
  }

  /** One mutation closure; `text` is the public key as submitted or generated. */
  datatype Edit =
    | Seed(name: string, text: string)
    | CreateUser(name: string, text: string)
    | AddKey(name: string, text: string)
    | GenerateKey(name: string, text: string)
    | SetEnabled(name: string, on: bool)
    | RemoveUser(name: string)
    | RemoveKey(name: string, fp: string)

  /** The checks on the request itself, made before the store is locked. */
  predicate Admissible(e: Edit) {
    match e
    case Seed(name, text) => ValidUsername(name) && ValidKey(text)
    case CreateUser(name, text) => ValidUsername(name) && ValidKey(text)
    case AddKey(_, text) => ValidKey(text)
    case GenerateKey(name, text) => ValidUsername(name) && ValidKey(text)
    case SetEnabled(_, _) => true
    case RemoveUser(name) => ValidUsername(name)
    case RemoveKey(name, fp) => ValidUsername(name) && ValidFingerprint(fp)
  }

  /** deleteKey on the entry it found. */
  function DropKey(sha: Sha256, u: User, fp: string): Result<User> {
    var j := FirstCarrier(sha, u.keys, fp);
    if j == |u.keys| then Err(NoSuchKey)
    else
      var kept := RemoveAt(u.keys, j);
      if u.enabled && ValidOnly(kept) == [] then Ok(u.(enabled := false, keys := []))
      else Ok(u.(keys := kept))
  }

  /** The closure of each handler, applied to the loaded users. */
  function ApplyEdit(sha: Sha256, e: Edit, us: seq<User>): Result<seq<User>>
    requires Admissible(e)
  {
    var i := FirstIndex(us, e.name);
    match e
    case Seed(name, text) => Ok(us + [User(name, true, [ParseKey(text).canonical])])
    case CreateUser(name, text) =>
      if i < |us| then Err(UserExists) else Ok(us + [User(name, true, [ParseKey(text).canonical])])
    case AddKey(name, text) =>
      if i == |us| then Err(NoSuchUser)
      else if ParseKey(text).canonical in us[i].keys then Ok(us)
      else Ok(us[i := us[i].(keys := us[i].keys + [ParseKey(text).canonical])])
    case GenerateKey(name, text) =>
      if i == |us| then Err(NoSuchUser)
      else Ok(us[i := us[i].(keys := us[i].keys + [ParseKey(text).canonical])])
    case SetEnabled(name, on) =>
      if i == |us| then Err(NoSuchUser) else Ok(us[i := us[i].(enabled := on)])
    case RemoveUser(name) =>
      if i == |us| then Err(NoSuchUser)
      else if us[i].enabled then Err(DeleteEnabled)
      else Ok(RemoveAt(us, i))
    case RemoveKey(name, fp) =>
      if i == |us| then Err(NoSuchUser)
      else
        match DropKey(sha, us[i], fp)
        case Err(x) => Err(x)
        case Ok(u) => Ok(us[i := u])
  }

  /** Store.Update with one closure: the file afterwards and the error, if any. */
  function UpdateFile(sha: Sha256, file: ManifestFile, e: Edit, writeOk: bool): (ManifestFile, Option<Error>) {
    if !Admissible(e) then (file, Some(BadInput))
    else
      match LoadUsers(file)
      case Err(x) => (file, Some(x))
      case Ok(us) =>
        match ApplyEdit(sha, e, us)
        case Err(x) => (file, Some(x))
        case Ok(next) =>
          if !StrictValid(next) then (file, Some(InvalidManifest))
          else if !writeOk then (file, Some(CannotWrite))
          else (Document(1, next), None)
  }

  datatype Report = Report(removed: nat, disabled: seq<string>)

  function RepairUser(u: User): User {
    var kept := ValidOnly(u.keys);
    if |kept| == |u.keys| then u
    else User(u.username, u.enabled && kept != [], kept)
  }

  function RepairUsers(us: seq<User>): (r: seq<User>)
    ensures |r| == |us|
    ensures forall i :: 0 <= i < |us| ==> r[i] == RepairUser(us[i])
  {
    if us == [] then [] else [RepairUser(us[0])] + RepairUsers(us[1..])
  }

  function InvalidCount(us: seq<User>): int {
    if us == [] then 0 else InvalidCount(us[..|us| - 1]) + |us[|us| - 1].keys| - |ValidOnly(us[|us| - 1].keys)|
  }

  /** Users who had entries and have no valid one, in order. */
  function Emptied(us: seq<User>): seq<string> {
    if us == [] then []
    else
      var u := us[|us| - 1];
      Emptied(us[..|us| - 1]) + if u.keys != [] && ValidOnly(u.keys) == [] then [u.username] else []
  }

  function EntryCount(us: seq<User>): nat {
    if us == [] then 0 else EntryCount(us[..|us| - 1]) + |us[|us| - 1].keys|
  }

  /** RemoveInvalidKeys: the file afterwards and the report or error. */
  function RepairFile(file: ManifestFile, writeOk: bool): (ManifestFile, Result<Report>) {
    match LoadUsers(file)
    case Err(x) => (file, Err(x))
    case Ok(us) =>
      ValidOnlyCounts(us);
      var rep := Report(InvalidCount(us), Emptied(us));
      if rep.removed == 0 then (file, Ok(rep))
      else if !StrictValid(RepairUsers(us)) then (file, Err(InvalidManifest))
      else if !writeOk then (file, Err(CannotWrite))
      else (Document(1, RepairUsers(us)), Ok(rep))
  }

  // ---------------------------------------------------------------- filtering

  lemma ValidOnlyFacts(keys: seq<string>)
    ensures |ValidOnly(keys)| <= |keys|
    ensures AllValid(ValidOnly(keys))
    ensures forall k :: k in ValidOnly(keys) <==> k in keys && ValidKey(k)
    ensures |ValidOnly(keys)| == |keys| <==> AllValid(keys)
    ensures AllValid(keys) ==> ValidOnly(keys) == keys
  {
    hide ValidKey;
    FilterSize(keys, Usable());
    var kept := ValidOnly(keys);
    forall i | 0 <= i < |kept| ensures ValidKey(kept[i]) {
      assert kept[i] in kept;
    }
  }

  lemma {:induction false} ValidOnlyCounts(us: seq<User>)
    ensures InvalidCount(us) >= 0
    ensures InvalidCount(us) == 0 <==> KeysValid(us)
  {
    hide ParseKey;
    if us != [] {
      var rest, last := us[..|us| - 1], us[|us| - 1];
      ValidOnlyCounts(rest);
      ValidOnlyFacts(last.keys);
      assert forall i :: 0 <= i < |rest| ==> us[i] == rest[i];
    }
  }

  // ------------------------------------------------------------------- repair

  lemma RepairedUser(u: User)
    ensures RepairUser(u).username == u.username
    ensures RepairUser(u).keys == ValidOnly(u.keys) && AllValid(RepairUser(u).keys)
    ensures RepairUser(u).enabled == (u.enabled && !(u.keys != [] && RepairUser(u).keys == []))
  {
    hide ValidKey;
    ValidOnlyFacts(u.keys);
  }

  /** Repair keeps exactly the valid keys, in order, and makes the document strictly valid. */
  lemma RepairIsStrict(us: seq<User>)
    requires LooseValid(us)
    ensures StrictValid(RepairUsers(us))
    ensures forall i :: 0 <= i < |us| ==>
      RepairUsers(us)[i].username == us[i].username && RepairUsers(us)[i].keys == ValidOnly(us[i].keys)
  {
    hide ValidKey, ValidUsername, ValidOnly, AllValid, RepairUser, RepairUsers;
    var r := RepairUsers(us);
    forall i | 0 <= i < |us|
      ensures r[i].username == us[i].username && r[i].keys == ValidOnly(us[i].keys) && AllValid(r[i].keys)
    {
      RepairedUser(us[i]);
    }
    assert NamesValid(r) && UniqueNames(r) && KeysValid(r);
  }

  /** Conservation: entries before are the entries after plus the removed ones. */
  lemma {:induction false} RepairConserves(us: seq<User>)
    ensures EntryCount(us) == EntryCount(RepairUsers(us)) + InvalidCount(us)
  {
    if us != [] {
      var rest, last := us[..|us| - 1], us[|us| - 1];
      RepairConserves(rest);
      ValidOnlyFacts(last.keys);
      assert RepairUsers(us)[..|us| - 1] == RepairUsers(rest);
    }
  }

  predicate BecomesEmpty(u: User) { u.keys != [] && ValidOnly(u.keys) == [] }

  /** The report names exactly the users who had entries and now have none. */
  lemma {:induction false} RepairNames(us: seq<User>, name: string)
    ensures name in Emptied(us) <==> exists u :: u in us && u.username == name && BecomesEmpty(u)
  {
    hide ValidKey;
    if us != [] {
      var rest, last := us[..|us| - 1], us[|us| - 1];
      RepairNames(rest, name);
      assert us == rest + [last];
    }
  }

  /** Those users are disabled and no other switch moves. */
  lemma RepairSwitches(us: seq<User>, i: nat)
    requires i < |us|
    ensures RepairUsers(us)[i].enabled == (us[i].enabled && !BecomesEmpty(us[i]))
  {
    hide ValidKey;
    RepairedUser(us[i]);
  }

  /** Repair of any loadable manifest succeeds unless the write fails, and a second repair does nothing. */
  lemma RepairTwice(file: ManifestFile)
    requires LoadUsers(file).Ok?
    ensures var (after, rep) := RepairFile(file, true);
      && rep.Ok? && LoadUsers(after).Ok?
      && KeysValid(LoadUsers(after).value)
      && (forall ok :: RepairFile(after, ok) == (after, Ok(Report(0, []))))
      && (rep.value.removed == 0 ==> after == file)
  {
    var us := LoadUsers(file).value;
    RepairIsStrict(us);
    ValidOnlyCounts(us);
    var after := RepairFile(file, true).0;
    var next := LoadUsers(after).value;
    ValidOnlyCounts(next);
    NothingEmptied(next);
  }

  lemma {:induction false} NothingEmptied(us: seq<User>)
    requires KeysValid(us)
    ensures Emptied(us) == []
  {
    if us != [] {
      var rest := us[..|us| - 1];
      assert forall i :: 0 <= i < |rest| ==> us[i] == rest[i];
      NothingEmptied(rest);
      ValidOnlyFacts(us[|us| - 1].keys);
    }
  }

  // ------------------------------------------------- what every update keeps

  /** A failed update leaves the file alone; a successful one leaves a strictly valid version-1 document. */
  lemma UpdateOutcome(sha: Sha256, file: ManifestFile, e: Edit, writeOk: bool)
    ensures var (after, err) := UpdateFile(sha, file, e, writeOk);
      && (err.Some? ==> after == file)
      && (err.None? ==> after.Document? && after.version == 1 && StrictValid(after.users))
  {}

  /** No closure removes an entry that is enabled when it runs. */
  lemma EditKeepsEnabled(sha: Sha256, e: Edit, us: seq<User>, i: nat)
    requires Admissible(e) && i < |us| && us[i].enabled
    requires ApplyEdit(sha, e, us).Ok?
    ensures exists u :: u in ApplyEdit(sha, e, us).value && u.username == us[i].username
  {
    var next := ApplyEdit(sha, e, us).value;
    var k := FirstIndex(us, e.name);
    if e.RemoveUser? {
      assert next[if i < k then i else i - 1] == us[i];
    } else {
      assert next[i].username == us[i].username;
    }
  }

  function NotNamed(name: string): User -> bool { (u: User) => u.username != name }

  lemma ReplacedInFilter(us: seq<User>, i: nat, with: seq<User>, name: string)
    requires i < |us| && us[i].username == name && forall u :: u in with ==> u.username == name
    ensures Filter(us[..i] + with + us[i + 1..], NotNamed(name)) == Filter(us, NotNamed(name))
  {
    var p, a, b := NotNamed(name), us[..i], us[i + 1..];
    FilterCat(a + with, b, p);
    FilterCat(a, with, p);
    FilterAll(with, p);
    assert us == a + [us[i]] + b;
    FilterCat(a + [us[i]], b, p);
    FilterCat(a, [us[i]], p);
    FilterAll([us[i]], p);
  }

  /** A closure touches no entry but those of the user it names; the others stay, in order. */
  lemma EditIsLocal(sha: Sha256, e: Edit, us: seq<User>)
    requires Admissible(e) && ApplyEdit(sha, e, us).Ok?
    ensures Filter(ApplyEdit(sha, e, us).value, NotNamed(e.name)) == Filter(us, NotNamed(e.name))
  {
    hide ParseKey, ValidKey, ValidUsername, Filter, DropKey, FirstIndex;
    var next, i := ApplyEdit(sha, e, us).value, FirstIndex(us, e.name);
    if e.Seed? || e.CreateUser? {
      AppendedInFilter(us, next[|us|], e.name);
    } else if e.RemoveUser? {
      ReplacedInFilter(us, i, [], e.name);
      assert us[..i] + [] == us[..i];
    } else if next != us {
      assert next[i].username == e.name by { hide *; EditKeepsName(sha, e, us); }
      UpdatedInFilter(us, i, next[i], e.name);
      assert next == us[i := next[i]];
    }
  }

  lemma EditKeepsName(sha: Sha256, e: Edit, us: seq<User>)
    requires Admissible(e) && ApplyEdit(sha, e, us).Ok? && !e.Seed? && !e.CreateUser? && !e.RemoveUser?
    ensures var i := FirstIndex(us, e.name);
      i < |us| == |ApplyEdit(sha, e, us).value| && ApplyEdit(sha, e, us).value[i].username == us[i].username == e.name
  {
    hide ParseKey, ValidUsername, FirstIndex, FirstCarrier, ValidOnly;
  }

  lemma AppendedInFilter(us: seq<User>, v: User, name: string)
    requires v.username == name
    ensures Filter(us + [v], NotNamed(name)) == Filter(us, NotNamed(name))
  {
    FilterCat(us, [v], NotNamed(name));
    FilterAll([v], NotNamed(name));
  }

  lemma UpdatedInFilter(us: seq<User>, i: nat, v: User, name: string)
    requires i < |us| && us[i].username == name && v.username == name
    ensures Filter(us[i := v], NotNamed(name)) == Filter(us, NotNamed(name))
  {
    ReplacedInFilter(us, i, [v], name);
    assert us[i := v] == us[..i] + [v] + us[i + 1..];
  }

  predicate AllCanonical(us: seq<User>) {
    forall i, j :: 0 <= i < |us| && 0 <= j < |us[i].keys| ==> IsCanonical(us[i].keys[j])
  }

  predicate KeysCanonical(keys: seq<string>) { forall j :: 0 <= j < |keys| ==> IsCanonical(keys[j]) }

  lemma ReplaceCanonical(us: seq<User>, i: nat, v: User)
    requires AllCanonical(us) && i < |us| && KeysCanonical(v.keys)
    ensures AllCanonical(us[i := v])
  {
    hide IsCanonical;
  }

  lemma AppendCanonical(us: seq<User>, v: User)
    requires AllCanonical(us) && KeysCanonical(v.keys)
    ensures AllCanonical(us + [v])
  {
    hide IsCanonical;
  }

  lemma RemoveCanonical(us: seq<User>, i: nat)
    requires AllCanonical(us) && i < |us|
    ensures AllCanonical(RemoveAt(us, i))
  {
    hide IsCanonical;
    var left := RemoveAt(us, i);
    assert forall j :: 0 <= j < |left| ==> left[j] == us[if j < i then j else j + 1];
  }

  lemma DropKeyCanonical(sha: Sha256, u: User, fp: string)
    requires KeysCanonical(u.keys) && DropKey(sha, u, fp).Ok?
    ensures KeysCanonical(DropKey(sha, u, fp).value.keys)
  {
    hide IsCanonical, ValidOnly, Carries;
    var c := FirstCarrier(sha, u.keys, fp);
    var kept := RemoveAt(u.keys, c);
    assert forall j :: 0 <= j < |kept| ==> kept[j] == u.keys[if j < c then j else j + 1];
  }

  /** Every closure stores keys in canonical form only. */
  lemma EditKeepsCanonical(sha: Sha256, e: Edit, us: seq<User>)
    requires Admissible(e) && AllCanonical(us) && ApplyEdit(sha, e, us).Ok?
    ensures AllCanonical(ApplyEdit(sha, e, us).value)
  {
    hide ParseKey, ValidUsername, ValidFingerprint, FirstIndex, DropKey, AllCanonical, RemoveAt, IsCanonical;
    var i := FirstIndex(us, e.name);
    if i < |us| {
      assert KeysCanonical(us[i].keys) by { EntryCanonical(us, i); }
    }
    if e.RemoveUser? {
      RemoveCanonical(us, i);
    } else if e.RemoveKey? {
      DropKeyCanonical(sha, us[i], e.fp);
      ReplaceCanonical(us, i, DropKey(sha, us[i], e.fp).value);
    } else if e.SetEnabled? {
      ReplaceCanonical(us, i, us[i].(enabled := e.on));
    } else {
      CanonicalIdempotent(e.text);
      var canon := ParseKey(e.text).canonical;
      if e.Seed? || e.CreateUser? {
        AppendCanonical(us, User(e.name, true, [canon]));
      } else {
        ReplaceCanonical(us, i, us[i].(keys := us[i].keys + [canon]));
      }
    }
  }

  lemma EntryCanonical(us: seq<User>, i: nat)
    requires AllCanonical(us) && i < |us|
    ensures KeysCanonical(us[i].keys)
  {
    hide IsCanonical;
  }

  lemma RepairKeepsCanonical(us: seq<User>)
    requires AllCanonical(us)
    ensures RepairUsers(us) == us
  {
    forall i | 0 <= i < |us| ensures RepairUser(us[i]) == us[i] {
      forall j | 0 <= j < |us[i].keys| ensures ValidKey(us[i].keys[j]) {
        assert IsCanonical(us[i].keys[j]);
      }
      ValidOnlyFacts(us[i].keys);
    }
  }

  /** A stored valid key can always be found and removed by its own fingerprint. */
  lemma StoredKeyIsAddressable(sha: Sha256, us: seq<User>, i: nat, j: nat)
    requires UniqueNames(us) && i < |us| && j < |us[i].keys| && ValidKey(us[i].keys[j])
    ensures var fp := Fingerprint(sha, us[i].keys[j]);
      && ValidFingerprint(fp)
      && FirstIndex(us, us[i].username) == i
      && FirstCarrier(sha, us[i].keys, fp) <= j
      && DropKey(sha, us[i], fp).Ok?
      && |DropKey(sha, us[i], fp).value.keys| < |us[i].keys|
  {
    FingerprintShape(sha, us[i].keys[j]);
    var fp := Fingerprint(sha, us[i].keys[j]);
    assert Carries(sha, us[i].keys[j], fp);
    var f := FirstIndex(us, us[i].username);
    assert f <= i;
  }
}
