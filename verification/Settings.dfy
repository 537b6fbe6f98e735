/**
 The settings transaction: ApplySettings of internal/sftpadmin/settings.go over
 the shared document of internal/config/shared.go.
 */
module Settings {
  import opened Text

  datatype SharedConfig = SharedConfig(
    hashAlgorithm: string, hashTarget: string, publicUrl: string, adminToken: string, sftpAdminPassword: string)

  datatype Problem = BadTarget(value: string) | BadAlgorithm(value: string) | NoPublicUrl | NoAdminToken | NoPassword | Unknown(key: string)

  /** SharedConfig.Validate: the first problem, in the order of the checks. */
  function Validate(c: SharedConfig): Option<Problem> {
    if c.hashTarget != "file" && c.hashTarget != "filename" then Some(BadTarget(c.hashTarget))
    else if c.hashAlgorithm != "md5" && c.hashAlgorithm != "sha256" then Some(BadAlgorithm(c.hashAlgorithm))
    else if c.publicUrl == "" then Some(NoPublicUrl)
    else if c.adminToken == "" then Some(NoAdminToken)
    else if c.sftpAdminPassword == "" then Some(NoPassword)
    else None
  }

  predicate ValidConfig(c: SharedConfig) { Validate(c).None? }

  datatype Key = HashAlgorithm | HashTarget | PublicUrl | AdminToken | SftpAdminPassword | Other(name: string)

  predicate IsSecret(k: Key) { k.AdminToken? || k.SftpAdminPassword? }

  /** The assignment the switch makes for a known key. */
  function Assign(c: SharedConfig, k: Key, v: string): SharedConfig {
    match k
    case HashAlgorithm => c.(hashAlgorithm := v)
    case HashTarget => c.(hashTarget := v)
    case PublicUrl => c.(publicUrl := v)
    case AdminToken => c.(adminToken := v)
    case SftpAdminPassword => c.(sftpAdminPassword := v)
    case Other(_) => c
  }

  /** What is wrong with one submitted value on its own, whatever the rest of the document says. */
  function Complaint(k: Key, v: string): Option<Problem> {
    match k
    case HashAlgorithm => if v == "md5" || v == "sha256" then None else Some(BadAlgorithm(v))
    case HashTarget => if v == "file" || v == "filename" then None else Some(BadTarget(v))
    case PublicUrl => if v == "" then Some(NoPublicUrl) else None
    case AdminToken => None
    case SftpAdminPassword => None
    case Other(name) => Some(Unknown(name))
  }

  /** Secrets submitted blank keep their value. */
  predicate Ignored(k: Key, v: string) { IsSecret(k) && TrimSpace(v) == "" }

  /** One round of the loop. */
  function Round(c: SharedConfig, k: Key, v: string): (SharedConfig, Option<Problem>) {
    if Ignored(k, v) then (c, None)
    else if k.Other? then (c, Some(Unknown(k.name)))
    else
      var trial := Assign(c, k, v);
      match Validate(trial)
      case Some(p) => (c, Some(p))
      case None => (trial, None)
  }

  /** From a valid document a round fails exactly for the value's own sake. */
  lemma RoundOnValid(c: SharedConfig, k: Key, v: string)
    requires ValidConfig(c)
    ensures Round(c, k, v).1 == Complaint(k, v)
    ensures Round(c, k, v).0 == if Ignored(k, v) || Complaint(k, v).Some? then c else Assign(c, k, v)
    ensures ValidConfig(Round(c, k, v).0)
  {
    if IsSecret(k) && !Ignored(k, v) {
      assert TrimSpace("") == "";
    }
  }

  /** The value a field ends up with. */
  function Chosen(vals: map<Key, string>, k: Key, current: string): string {
    if k in vals && !Ignored(k, vals[k]) && Complaint(k, vals[k]).None? then vals[k] else current
  }

  /** The document after all good values are taken, whatever the order. */
  function Merged(c: SharedConfig, vals: map<Key, string>): SharedConfig {
    SharedConfig(
      Chosen(vals, HashAlgorithm, c.hashAlgorithm), Chosen(vals, HashTarget, c.hashTarget),
      Chosen(vals, PublicUrl, c.publicUrl), Chosen(vals, AdminToken, c.adminToken),
      Chosen(vals, SftpAdminPassword, c.sftpAdminPassword))
  }

  function Complaints(vals: map<Key, string>): map<Key, Problem> {
    map k | k in vals && Complaint(k, vals[k]).Some? :: Complaint(k, vals[k]).value
  }

  lemma MergedStep(c: SharedConfig, vals: map<Key, string>, done: set<Key>, k: Key)
    requires k in vals && k !in done && ValidConfig(Merged(c, Restrict(vals, done)))
    ensures Merged(c, Restrict(vals, done + {k})) == Round(Merged(c, Restrict(vals, done)), k, vals[k]).0
  {
    RoundOnValid(Merged(c, Restrict(vals, done)), k, vals[k]);
  }

  lemma ComplaintsStep(vals: map<Key, string>, done: set<Key>, k: Key)
    requires k in vals && k !in done
    ensures var before := Complaints(Restrict(vals, done));
      Complaints(Restrict(vals, done + {k})) ==
        if Complaint(k, vals[k]).Some? then before[k := Complaint(k, vals[k]).value] else before
  {}

  lemma RestrictNothing(c: SharedConfig, vals: map<Key, string>)
    ensures Merged(c, Restrict(vals, {})) == c && Complaints(Restrict(vals, {})) == map[]
  {}

  lemma RestrictAll(vals: map<Key, string>)
    ensures Restrict(vals, vals.Keys) == vals
  {}

  function Restrict(vals: map<Key, string>, keys: set<Key>): map<Key, string> {
    map k | k in vals && k in keys :: vals[k]
  }

  /** The shared file: readable settings, or anything LoadShared refuses. */
  datatype SharedFile = Config(c: SharedConfig) | Unloadable

  /** How Save goes; the last step, a chmod after the rename, can still fail. */
  datatype SaveOutcome = Saved | FailsBefore | FailsAfter

  datatype Reply = FieldErrors(errs: map<Key, Problem>) | Failed | Applied

  function Load(f: SharedFile): Option<SharedConfig> {
    if f.Config? && ValidConfig(f.c) then Some(f.c) else None
  }

  function Apply(f: SharedFile, vals: map<Key, string>, save: SaveOutcome): (SharedFile, Reply) {
    var c := Load(f);
    if c.None? then (f, Failed)
    else if |Complaints(vals)| > 0 then (f, FieldErrors(Complaints(vals)))
    else
      match save
      case Saved => (Config(Merged(c.value, vals)), Applied)
      case FailsBefore => (f, Failed)
      case FailsAfter => (Config(Merged(c.value, vals)), Failed)
  }

  /** The body of the loop of ApplySettings. */
  method TryOne(c: SharedConfig, key: Key, value: string) returns (next: SharedConfig, problem: Option<Problem>)
    ensures (next, problem) == Round(c, key, value)
  {
    hide Validate, Assign, Ignored;
    if Ignored(key, value) {
      return c, None;
    }
    if key.Other? {
      return c, Some(Unknown(key.name));
    }
    var trial := Assign(c, key, value);
    problem := Validate(trial);
    next := if problem.Some? then c else trial;
  }

  class SettingsFile {
    var file: SharedFile

    constructor (f: SharedFile)
      ensures file == f
    {
      file := f;
    }

    /** ApplySettings; the keys come in any order, and the outcome is the same for every one. */
    method ApplySettings(vals: map<Key, string>, save: SaveOutcome) returns (r: Reply)
      modifies this
      ensures (file, r) == Apply(old(file), vals, save)
    {
      hide Merged, Complaints, Restrict, Validate, Complaint, Ignored, Assign, Round;
      var loaded := Load(file);
      if loaded.None? {
        return Failed;
      }
      var c := loaded.value;
      var next, errs := c, map[];
      var todo := vals.Keys;
      ghost var done: set<Key> := {};
      RestrictNothing(c, vals);
      while todo != {}
        invariant todo + done == vals.Keys && todo !! done && file == old(file)
        invariant ValidConfig(next) && next == Merged(c, Restrict(vals, done))
        invariant errs == Complaints(Restrict(vals, done))
        decreases |todo|
      {
        var key :| key in todo;
        MergedStep(c, vals, done, key);
        ComplaintsStep(vals, done, key);
        RoundOnValid(next, key, vals[key]);
        todo := todo - {key};
        done := done + {key};
        var problem;
        next, problem := TryOne(next, key, vals[key]);
        if problem.Some? {
          errs := errs[key := problem.value];
        }
      }
      assert done == vals.Keys;
      RestrictAll(vals);
      assert errs == Complaints(vals) && next == Merged(c, vals);
      if |errs| > 0 {
        return FieldErrors(errs);
      }
      match save {
        case Saved => file := Config(next); return Applied;
        case FailsBefore => return Failed;
        case FailsAfter => file := Config(next); return Failed;
      }
    }
  }

  /** The merged document of acceptable values is always valid. */
  lemma MergedValid(c: SharedConfig, vals: map<Key, string>)
    requires ValidConfig(c)
    ensures ValidConfig(Merged(c, vals))
  {
    assert TrimSpace("") == "";
  }

  /** All or nothing: the file afterwards is the old one or the complete, valid new one; any field error means the old one. */
  lemma AllOrNothing(f: SharedFile, vals: map<Key, string>, save: SaveOutcome)
    ensures var (after, r) := Apply(f, vals, save);
      && (after == f || (Load(f).Some? && after == Config(Merged(f.c, vals)) && Load(after).Some?))
      && ((exists k :: k in vals && Complaint(k, vals[k]).Some?) ==> after == f && !r.Applied?)
      && (r.Applied? <==> Load(f).Some? && save.Saved? && forall k :: k in vals ==> Complaint(k, vals[k]).None?)
  {
    if Load(f).Some? {
      MergedValid(f.c, vals);
    }
    if |Complaints(vals)| == 0 {
      assert forall k :: k in vals && Complaint(k, vals[k]).Some? ==> k in Complaints(vals);
    } else {
      var k :| k in Complaints(vals);
    }
  }

  predicate Acceptable(vals: map<Key, string>) { forall k :: k in vals ==> Complaint(k, vals[k]).None? }

  lemma AppliedMeans(f: SharedFile, vals: map<Key, string>)
    ensures Apply(f, vals, Saved).1.Applied? <==> Load(f).Some? && Acceptable(vals)
    ensures Load(f).Some? && Acceptable(vals) ==>
      Apply(f, vals, Saved) == (Config(Merged(f.c, vals)), Applied) && Load(Config(Merged(f.c, vals))).Some?
  {
    AllOrNothing(f, vals, Saved);
    hide Complaints, Complaint, Validate, Merged;
    if Load(f).Some? {
      MergedValid(f.c, vals);
    }
  }

  /** Two successful transactions on disjoint fields commute, and equal one transaction with both. */
  lemma DisjointCommute(f: SharedFile, v: map<Key, string>, w: map<Key, string>)
    requires v.Keys !! w.Keys
    requires Apply(f, v, Saved).1.Applied? && Apply(f, w, Saved).1.Applied?
    ensures Apply(Apply(f, v, Saved).0, w, Saved) == Apply(Apply(f, w, Saved).0, v, Saved)
    ensures Apply(Apply(f, v, Saved).0, w, Saved) == Apply(f, v + w, Saved)
    ensures Apply(f, v + w, Saved).1.Applied?
  {
    hide Apply, Merged, Validate;
    AppliedMeans(f, v);
    AppliedMeans(f, w);
    AppliedMeans(f, v + w);
    AppliedMeans(Config(Merged(f.c, v)), w);
    AppliedMeans(Config(Merged(f.c, w)), v);
    MergedTwice(f.c, v, w);
    MergedTwice(f.c, w, v);
    assert v + w == w + v;
  }

  lemma MergedTwice(c: SharedConfig, v: map<Key, string>, w: map<Key, string>)
    requires v.Keys !! w.Keys
    ensures Merged(Merged(c, v), w) == Merged(c, v + w)
  {}

  // ------------------------------------------------------------- field by field

  /** The document LoadShared accepts. */
  predicate Loads(f: SharedFile) {
    && f.Config?
    && (f.c.hashAlgorithm == "md5" || f.c.hashAlgorithm == "sha256")
    && (f.c.hashTarget == "file" || f.c.hashTarget == "filename")
    && f.c.publicUrl != "" && f.c.adminToken != "" && f.c.sftpAdminPassword != ""
  }

  /** The value submitted under the key is refused. */
  predicate Refused(vals: map<Key, string>, k: Key) {
    && k in vals
    && match k
       case HashAlgorithm => vals[k] != "md5" && vals[k] != "sha256"
       case HashTarget => vals[k] != "file" && vals[k] != "filename"
       case PublicUrl => vals[k] == ""
       case AdminToken => false
       case SftpAdminPassword => false
       case Other(_) => true
  }

  /**
   * A submission is applied exactly when the file loads, no submitted value is
   * refused and the save goes through; then each field holds the value submitted
   * under its own key, blank secrets excepted, and otherwise its old value.
   */
  lemma AppliedFields(f: SharedFile, vals: map<Key, string>, save: SaveOutcome)
    ensures var (after, r) := Apply(f, vals, save);
      && (r.Applied? <==> Loads(f) && save.Saved? && forall k :: !Refused(vals, k))
      && (r.Applied? ==>
            && after.Config?
            && after.c.hashAlgorithm == (if HashAlgorithm in vals then vals[HashAlgorithm] else f.c.hashAlgorithm)
            && after.c.hashTarget == (if HashTarget in vals then vals[HashTarget] else f.c.hashTarget)
            && after.c.publicUrl == (if PublicUrl in vals then vals[PublicUrl] else f.c.publicUrl)
            && after.c.adminToken ==
                 (if AdminToken in vals && TrimSpace(vals[AdminToken]) != "" then vals[AdminToken] else f.c.adminToken)
            && after.c.sftpAdminPassword ==
                 (if SftpAdminPassword in vals && TrimSpace(vals[SftpAdminPassword]) != "" then vals[SftpAdminPassword]
                  else f.c.sftpAdminPassword))
  {
    hide TrimSpace;
    AllOrNothing(f, vals, save);
    RefusedIff(vals);
    hide Complaints;
    assert Load(f).Some? <==> Loads(f);
  }

  lemma RefusedIff(vals: map<Key, string>)
    ensures forall k :: Refused(vals, k) <==> k in vals && Complaint(k, vals[k]).Some?
  {}

  /** Field errors are reported for exactly the refused values, and mean that nothing was saved. */
  lemma FieldErrorsIff(f: SharedFile, vals: map<Key, string>, save: SaveOutcome)
    ensures var (after, r) := Apply(f, vals, save);
      && (r.FieldErrors? <==> Loads(f) && exists k :: Refused(vals, k))
      && (r.FieldErrors? ==> after == f && forall k :: k in r.errs <==> Refused(vals, k))
  {
    hide TrimSpace;
    RefusedIff(vals);
    hide Refused;
    assert forall k :: k in Complaints(vals) <==> Refused(vals, k);
    if |Complaints(vals)| > 0 {
      var k :| k in Complaints(vals);
      assert Refused(vals, k);
    }
    hide Complaints;
    assert Load(f).Some? <==> Loads(f);
  }
}
