/**
 reconcile_loop of sftp/entrypoint.sh: each round takes a digest of the manifest,
 runs the reconciler when the digest differs from the previous round's, and
 sleeps.  The digest and the reconciler read the file at different moments.
 */
module Poll {
  import opened Text
  import opened Keys
  import opened Manifest
  import opened Reconcile
  import opened ControlPlane
  import RS = ReconcileScript

  /** Which rounds run the reconciler, given the digest text each round saw; `last` starts empty. */
  predicate RunsAt(cur: nat -> string, k: nat) {
    if k == 0 then cur(0) != "" else cur(k) != cur(k - 1)
  }

  /** The loop itself, for any number of rounds. */
  method PollRounds(cur: nat -> string, rounds: nat) returns (ran: seq<bool>)
    ensures |ran| == rounds
    ensures forall k :: 0 <= k < rounds ==> ran[k] == RunsAt(cur, k)
  {
    ran := [];
    var last := "";
    for k := 0 to rounds
      invariant |ran| == k
      invariant last == if k == 0 then "" else cur(k - 1)
      invariant forall j :: 0 <= j < k ==> ran[j] == RunsAt(cur, j)
    {
      if cur(k) != last {
        ran := ran + [true];
        last := cur(k);
      } else {
        ran := ran + [false];
      }
    }
  }

  /** The manifest over time, and when each round digests and when it would read. */
  datatype Timeline = Timeline(
    content: nat -> ManifestFile, digest: ManifestFile -> string, digestAt: nat -> nat, readAt: nat -> nat)
  {
    function Seen(k: nat): string { digest(content(digestAt(k))) }

    ghost predicate Valid() {
      && (forall k: nat :: digestAt(k) <= readAt(k) <= digestAt(k + 1))
      && (forall t: nat :: digest(content(t)) != "")
      && (forall s: nat, t: nat :: digest(content(s)) == digest(content(t)) ==> content(s) == content(t))
    }

    /** Within round `k` the content does not leave a value and come back to it. */
    ghost predicate NoReturn(k: nat) {
      forall s: nat :: digestAt(k) <= s <= digestAt(k + 1) && content(digestAt(k)) == content(digestAt(k + 1)) ==>
        content(s) == content(digestAt(k))
    }

    /** Every version is one the admin side can leave behind. */
    ghost predicate AllSound() { forall t: nat :: Sound(content(t)) }

    predicate Runs(k: nat) { RunsAt(Seen, k) }

    /** The last round up to `n` that ran the reconciler. */
    function LastRun(n: nat): (j: nat)
      ensures j <= n
    {
      if n == 0 || Runs(n) then n else LastRun(n - 1)
    }
  }

  lemma LastRunRuns(tl: Timeline, n: nat)
    requires tl.Valid()
    ensures tl.Runs(tl.LastRun(n))
  {
    if n > 0 && !tl.Runs(n) {
      LastRunRuns(tl, n - 1);
    }
  }

  /** Since the last run every round has seen the same content. */
  lemma {:induction false} SameSinceLastRun(tl: Timeline, n: nat, k: nat)
    requires tl.Valid() && tl.LastRun(n) <= k <= n
    ensures tl.content(tl.digestAt(k)) == tl.content(tl.digestAt(n))
  {
    if k < n {
      assert !tl.Runs(n);
      SameSinceLastRun(tl, n - 1, k);
      assert tl.Seen(n) == tl.Seen(n - 1);
    }
  }

  /** From time `rest` on the manifest does not change, and round `n` has digested it. */
  ghost predicate AtRest(tl: Timeline, rest: nat, n: nat) {
    tl.digestAt(n) >= rest && forall t: nat :: t >= rest ==> tl.content(t) == tl.content(rest)
  }

  /**
   * Exactly when the last run to start has read the final content: when it read
   * what its own round had digested.
   */
  lemma LastRunReadsFinalIff(tl: Timeline, rest: nat, n: nat)
    requires tl.Valid() && AtRest(tl, rest, n)
    ensures var j := tl.LastRun(n);
      tl.content(tl.readAt(j)) == tl.content(rest) <==> tl.content(tl.readAt(j)) == tl.content(tl.digestAt(j))
  {
    SameSinceLastRun(tl, n, tl.LastRun(n));
  }

  /**
   * So it has when the content did not leave a value and return to it within
   * that one round, even when an update fell between its digest and its read.
   */
  lemma LastRunReadsFinal(tl: Timeline, rest: nat, n: nat)
    requires tl.Valid() && AtRest(tl, rest, n)
    requires tl.LastRun(n) < n ==> tl.NoReturn(tl.LastRun(n))
    ensures tl.content(tl.readAt(tl.LastRun(n))) == tl.content(rest)
  {
    var j := tl.LastRun(n);
    LastRunReadsFinalIff(tl, rest, n);
    if j < n {
      SameSinceLastRun(tl, n, j);
      SameSinceLastRun(tl, n, j + 1);
      ReadsDigested(tl, j);
    } else {
      assert tl.digestAt(j) <= tl.readAt(j);
    }
  }

  /** A round that ends on the content it digested has also read that content. */
  lemma ReadsDigested(tl: Timeline, j: nat)
    requires tl.Valid() && tl.NoReturn(j) && tl.content(tl.digestAt(j)) == tl.content(tl.digestAt(j + 1))
    ensures tl.content(tl.readAt(j)) == tl.content(tl.digestAt(j))
  {
    assert tl.digestAt(j) <= tl.readAt(j) <= tl.digestAt(j + 1);
  }

  /** The key files after the first `n` rounds; `fx(k)` is how provisioning goes in round `k`. */
  ghost function FilesAfter(tl: Timeline, fx: nat -> nat -> Effect, files: KeyFiles, n: nat): KeyFiles
    requires tl.AllSound()
  {
    if n == 0 then files
    else
      var before := FilesAfter(tl, fx, files, n - 1);
      if tl.Runs(n - 1) then Run(DEFAULT_GROUP, AsInput(tl.content(tl.readAt(n - 1))), fx(n - 1), before).0 else before
  }

  lemma {:induction false} FilesSinceLastRun(tl: Timeline, fx: nat -> nat -> Effect, files: KeyFiles, n: nat, k: nat)
    requires tl.LastRun(n) <= k <= n
    requires tl.AllSound()
    ensures FilesAfter(tl, fx, files, n + 1) == FilesAfter(tl, fx, files, k + 1)
  {
    hide Run, Sound;
    if k < n {
      FilesSinceLastRun(tl, fx, files, n - 1, k);
      assert !tl.Runs(n);
    }
  }

  lemma {:induction false} DigestsInOrder(tl: Timeline, n: nat, m: nat)
    requires tl.Valid() && n <= m
    ensures tl.digestAt(n) <= tl.digestAt(m)
  {
    if n < m {
      DigestsInOrder(tl, n, m - 1);
      assert tl.digestAt(m - 1) <= tl.readAt(m - 1) <= tl.digestAt(m - 1 + 1);
    }
  }

  /** No run starts once a resting manifest has been digested: a failed last run is never retried. */
  lemma {:induction false} NeverRetried(tl: Timeline, rest: nat, n: nat, m: nat)
    requires tl.Valid() && AtRest(tl, rest, n) && n <= m
    ensures tl.LastRun(m) == tl.LastRun(n)
  {
    if n < m {
      NeverRetried(tl, rest, n, m - 1);
      DigestsInOrder(tl, n, m - 1);
      DigestsInOrder(tl, n, m);
      assert !tl.Runs(m);
    }
  }

  /** The versions are what admin lock sections make of a file that was absent at first. */
  ghost predicate Driven(tl: Timeline, sha: Sha256, acts: nat -> Action) {
    tl.content(0) == Absent && forall t: nat :: tl.content(t + 1) == Section(sha, tl.content(t), acts(t))
  }

  lemma DrivenIsSound(tl: Timeline, sha: Sha256, acts: nat -> Action)
    requires Driven(tl, sha, acts)
    ensures tl.AllSound()
  {
    forall t: nat ensures Sound(tl.content(t)) {
      DrivenTo(tl, sha, acts, t);
    }
  }

  lemma {:induction false} DrivenTo(tl: Timeline, sha: Sha256, acts: nat -> Action, t: nat)
    requires Driven(tl, sha, acts)
    ensures Sound(tl.content(t))
  {
    hide Section, StrictValid, AllCanonical;
    if t > 0 {
      DrivenTo(tl, sha, acts, t - 1);
      assert tl.content(t - 1 + 1) == Section(sha, tl.content(t - 1), acts(t - 1));
      SectionKeepsSound(sha, tl.content(t - 1), acts(t - 1));
    }
  }

  /**
   * Exactly when the key files match a manifest at rest, now and for ever after:
   * when in the last run, which read it, every user's file came out right.
   */
  lemma KeyFilesConvergeIff(tl: Timeline, fx: nat -> nat -> Effect, files: KeyFiles, rest: nat, n: nat, m: nat)
    requires tl.Valid() && tl.AllSound() && AtRest(tl, rest, n) && n <= m && tl.content(rest).Document?
    requires var j := tl.LastRun(n); tl.content(tl.readAt(j)) == tl.content(tl.digestAt(j))
    ensures var j := tl.LastRun(n);
      Matches(tl.content(rest).users, FilesAfter(tl, fx, files, m + 1)) <==>
      AllComeRight(tl.content(rest).users, fx(j), FilesAfter(tl, fx, files, j))
  {
    hide Run, StrictValid, AllCanonical, Matches, AsEntries, AllComeRight;
    var j := tl.LastRun(n);
    LastRunReadsFinalIff(tl, rest, n);
    LastRunRuns(tl, n);
    NeverRetried(tl, rest, n, m);
    FilesSinceLastRun(tl, fx, files, m, j);
    assert Sound(tl.content(rest));
    RunMatchesIff(tl.content(rest).users, fx(j), FilesAfter(tl, fx, files, j));
  }

  lemma SuccessComesRight(us: seq<User>, fx: nat -> Effect, files: KeyFiles)
    requires forall i :: 0 <= i < |us| && Effective(us[i]) ==> fx(i).Succeeds?
    ensures AllComeRight(us, fx, files)
  {
    hide NameShape, Effective;
    assert forall n: nat :: n <= |us| ==> !CutBefore(us, fx, n);
  }

  /**
   * Convergence: once a manifest written by the admin side is at rest, the key
   * files match it from the round that has digested it, provided provisioning
   * and writing succeeded for every effective user in the last run.
   */
  lemma KeyFilesConverge(tl: Timeline, sha: Sha256, acts: nat -> Action, fx: nat -> nat -> Effect, files: KeyFiles, rest: nat, n: nat, m: nat)
    requires tl.Valid() && Driven(tl, sha, acts) && AtRest(tl, rest, n) && n <= m && tl.content(rest).Document?
    requires tl.LastRun(n) < n ==> tl.NoReturn(tl.LastRun(n))
    requires forall i :: 0 <= i < |tl.content(rest).users| && Effective(tl.content(rest).users[i]) ==>
               fx(tl.LastRun(n))(i).Succeeds?
    ensures tl.AllSound() && Matches(tl.content(rest).users, FilesAfter(tl, fx, files, m + 1))
  {
    hide Matches, FilesAfter, AllComeRight, Sound;
    DrivenIsSound(tl, sha, acts);
    LastRunReadsFinal(tl, rest, n);
    LastRunReadsFinalIff(tl, rest, n);
    var j := tl.LastRun(n);
    SuccessComesRight(tl.content(rest).users, fx(j), FilesAfter(tl, fx, files, j));
    KeyFilesConvergeIff(tl, fx, files, rest, n, m);
  }

  /** One transient failure in the last run leaves a user without its keys for good, until the manifest changes again. */
  lemma FailureStays(tl: Timeline, fx: nat -> nat -> Effect, files: KeyFiles, rest: nat, n: nat, m: nat, i: nat)
    requires tl.Valid() && tl.AllSound() && AtRest(tl, rest, n) && n <= m && tl.content(rest).Document?
    requires var j := tl.LastRun(n); tl.content(tl.readAt(j)) == tl.content(tl.digestAt(j))
    requires var us := tl.content(rest).users; var j := tl.LastRun(n);
      && i < |us| && Effective(us[i]) && !fx(j)(i).Succeeds?
      && Get(FilesAfter(tl, fx, files, j), us[i].username) != Some(us[i].keys)
    ensures !Matches(tl.content(rest).users, FilesAfter(tl, fx, files, m + 1))
  {
    hide Matches, FilesAfter, Sound, CutBefore;
    var us, j := tl.content(rest).users, tl.LastRun(n);
    KeyFilesConvergeIff(tl, fx, files, rest, n, m);
    assert !ComesRight(us, fx(j), FilesAfter(tl, fx, files, j), i);
  }

  /** The manifest never changes: one enabled user with one key. */
  function OneUser(): ManifestFile { Document(1, [User("u", true, [RS.SampleKey()])]) }

  function StillTimeline(): Timeline { Timeline(t => OneUser(), m => "d", k => k, k => k) }

  lemma OneEntrySound(name: string, key: string)
    requires ValidUsername(name) && IsCanonical(key)
    ensures StrictValid([User(name, true, [key])]) && AllCanonical([User(name, true, [key])])
    ensures Sound(Document(1, [User(name, true, [key])]))
  {
    CanonicalIsValid(key);
    hide IsCanonical, ValidUsername, ValidKey;
    var us := [User(name, true, [key])];
    assert AllValid(us[0].keys);
    assert StrictValid(us) && AllCanonical(us);
  }

  lemma OneUserSound()
    ensures Sound(OneUser())
  {
    assert ValidUsername("u");
    hide Sound, IsCanonical, RS.SampleKey, ValidUsername;
    RS.SampleKeyCanonical();
    OneEntrySound("u", RS.SampleKey());
  }

  lemma CanonicalIsValid(key: string)
    requires IsCanonical(key)
    ensures ValidKey(key)
  {}

  /** Creating the account fails in the first round only; the user never gets its key file. */
  lemma FailureExample(fx: nat -> nat -> Effect, m: nat)
    requires fx(0)(0) == AccountFails
    ensures StillTimeline().AllSound()
    ensures !Matches(OneUser().users, FilesAfter(StillTimeline(), fx, map[], m + 1))
  {
    hide RS.SampleKey, Matches, Sound;
    var tl := StillTimeline();
    OneUserSound();
    assert tl.Valid() && AtRest(tl, 0, 0) && tl.LastRun(0) == 0;
    FailureStays(tl, fx, map[], 0, 0, m, 0);
  }

  /** Without that proviso the claim fails: content that leaves and returns within one round is missed. */
  lemma MissedReturn(a: ManifestFile, b: ManifestFile, digest: ManifestFile -> string)
    requires a != b && digest(a) != digest(b) && digest(a) != "" && digest(b) != ""
    ensures var tl := Timeline(t => if t == 1 then b else a, digest, k => 2 * k, k => 2 * k + 1);
      && tl.Valid() && tl.LastRun(1) == 0
      && (forall t: nat :: t >= 2 ==> tl.content(t) == a)
      && tl.content(tl.readAt(tl.LastRun(1))) == b
  {
    var tl := Timeline(t => if t == 1 then b else a, digest, k => 2 * k, k => 2 * k + 1);
    assert tl.Seen(0) == tl.Seen(1);
    assert !tl.Runs(1);
  }
}
