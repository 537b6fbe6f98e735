/**
 What sftp/reconcile.sh does with one entry, read off the entry's own fields: the
 verdicts, and what each means for the user's key file and the exit status.
 */
module Verdicts {
  import opened Text
  import opened Keys
  import opened Reconcile

  /** The script accepts the name. */
  predicate GoodName(group: string, e: RawEntry)
    requires e.Entry?
  {
    NameShape(e.username) && e.username != "root" && e.username != "admin" && e.username != "sshd" && e.username != group
  }

  /** Nothing is authorised: the switch is off, or the key list is empty. */
  predicate NoAuthority(e: RawEntry)
    requires e.Entry?
  {
    !e.enabled || (e.keys.Items? && |e.keys.items| == 0)
  }

  /** The key field is missing, no array, or holds something that is no string. */
  predicate BadField(e: RawEntry)
    requires e.Entry?
  {
    e.keys.Malformed? || NonString in e.keys.items
  }

  function LinesOf(e: RawEntry): seq<string>
    requires e.Entry? && !BadField(e)
  {
    assert forall i :: 0 <= i < |e.keys.items| ==> e.keys.items[i].Str? by {
      forall i | 0 <= i < |e.keys.items| ensures e.keys.items[i].Str? {
        assert e.keys.items[i] in e.keys.items;
      }
    }
    KeyLines(Strings(e.keys.items))
  }

  /** The keys are there but cannot be used. */
  predicate Unusable(e: RawEntry)
    requires e.Entry?
  {
    BadField(e) || (|e.keys.items| > 0 && exists l :: l in LinesOf(e) && !ShellValidKey(l))
  }

  predicate Usable(e: RawEntry)
    requires e.Entry?
  {
    !BadField(e) && |e.keys.items| > 0 && forall l :: l in LinesOf(e) ==> ShellValidKey(l)
  }

  /** The entry ends the script. */
  predicate Fatal(group: string, e: RawEntry, x: Effect) {
    e.NotAnObject? || (GoodName(group, e) && e.enabled && Usable(e) && x.WriteFails?)
  }

  predicate FatalBefore(group: string, es: seq<RawEntry>, fx: nat -> Effect, n: nat)
    requires n <= |es|
  {
    exists i :: 0 <= i < n && Fatal(group, es[i], fx(i))
  }

  // ------------------------------------------------------------------- verdicts

  lemma ItemsAre(e: RawEntry)
    requires e.Entry? && e.keys.Items?
    ensures NonString in e.keys.items <==> exists i :: 0 <= i < |e.keys.items| && e.keys.items[i].NonString?
  {}

  lemma LinesAre(lines: seq<string>)
    ensures LinesValid(lines) <==> forall l :: l in lines ==> ShellValidKey(l)
  {
    hide ShellValidKey;
    if LinesValid(lines) {
      forall l | l in lines ensures ShellValidKey(l) {
        var i :| 0 <= i < |lines| && lines[i] == l;
      }
    }
  }

  /** Which entries get which verdict. */
  lemma VerdictIs(group: string, e: RawEntry)
    requires e.Entry?
    ensures Judge(group, e) ==
      if !GoodName(group, e) then Skip
      else if NoAuthority(e) then Drop
      else if Usable(e) then Install(LinesOf(e))
      else Preserve
    ensures GoodName(group, e) && !NoAuthority(e) ==> (Usable(e) <==> !Unusable(e))
  {
    hide NameShape, KeyLines, ShellValidKey, LinesValid;
    if e.keys.Items? {
      ItemsAre(e);
      if !BadField(e) {
        LinesAre(LinesOf(e));
      }
    }
  }

  lemma FatalIs(group: string, e: RawEntry, x: Effect)
    ensures Stops(group, e, x) <==> Fatal(group, e, x)
  {
    hide Judge, NameShape, KeyLines, ShellValidKey, LinesValid;
    if e.Entry? {
      VerdictIs(group, e);
    }
  }

  lemma FatalBeforeIs(group: string, es: seq<RawEntry>, fx: nat -> Effect, n: nat)
    requires n <= |es|
    ensures StopsBefore(group, es, fx, n) <==> FatalBefore(group, es, fx, n)
  {
    hide Stops, Fatal;
    forall i | 0 <= i < n ensures Stops(group, es[i], fx(i)) <==> Fatal(group, es[i], fx(i)) {
      FatalIs(group, es[i], fx(i));
    }
  }

  // -------------------------------------------------- what each entry leads to

  /**
   * An enabled user whose keys cannot be used keeps exactly the key file it had,
   * in every run, and the run does not exit 0.
   */
  lemma UnusableKeepsFile(group: string, es: seq<RawEntry>, fx: nat -> Effect, files: KeyFiles, i: nat)
    requires UniqueEntries(es) && i < |es| && es[i].Entry?
    requires GoodName(group, es[i]) && es[i].enabled && Unusable(es[i])
    ensures Get(Run(group, Entries(es), fx, files).0, es[i].username) == Get(files, es[i].username)
    ensures !Run(group, Entries(es), fx, files).1
  {
    hide Judge, Run, NameShape, KeyLines, ShellValidKey, LinesOf;
    VerdictIs(group, es[i]);
    MalformedPreserves(group, es, fx, files, i);
    ExitZeroIff(group, es, fx, files);
    assert !Clean(group, es[i], fx(i));
  }

  /** A user without authority has no key file afterwards, exactly unless it had one and an earlier entry ended the script. */
  lemma NoAuthorityRevokes(group: string, es: seq<RawEntry>, fx: nat -> Effect, files: KeyFiles, i: nat)
    requires UniqueEntries(es) && i < |es| && es[i].Entry? && GoodName(group, es[i]) && NoAuthority(es[i])
    ensures es[i].username in Run(group, Entries(es), fx, files).0 <==>
            es[i].username in files && FatalBefore(group, es, fx, i)
  {
    hide Judge, Run, NameShape, StopsBefore, FatalBefore;
    VerdictIs(group, es[i]);
    RevokedIff(group, es, fx, files, i);
    FatalBeforeIs(group, es, fx, i);
  }

  /** A usable user has its lines installed when provisioning and writing succeed and nothing ended the script before; otherwise its file stays. */
  lemma UsableInstalls(group: string, es: seq<RawEntry>, fx: nat -> Effect, files: KeyFiles, i: nat)
    requires UniqueEntries(es) && i < |es| && es[i].Entry? && GoodName(group, es[i]) && es[i].enabled && Usable(es[i])
    ensures Get(Run(group, Entries(es), fx, files).0, es[i].username) ==
            if fx(i).Succeeds? && !FatalBefore(group, es, fx, i) then Some(LinesOf(es[i])) else Get(files, es[i].username)
  {
    hide Judge, Run, NameShape, StopsBefore, FatalBefore, LinesOf;
    VerdictIs(group, es[i]);
    RunAt(group, es, fx, files, i);
    FatalBeforeIs(group, es, fx, i);
  }

  /** A refused name never gains or changes a key file, and the run does not exit 0. */
  lemma BadNameSkipped(group: string, es: seq<RawEntry>, fx: nat -> Effect, files: KeyFiles, i: nat)
    requires UniqueEntries(es) && i < |es| && es[i].Entry? && !GoodName(group, es[i])
    ensures !Run(group, Entries(es), fx, files).1
    ensures var after := Get(Run(group, Entries(es), fx, files).0, es[i].username);
      after == if NameShape(es[i].username) && !FatalBefore(group, es, fx, |es|) then None else Get(files, es[i].username)
  {
    hide Judge, Run, NameShape, StopsBefore, FatalBefore;
    VerdictIs(group, es[i]);
    RunAt(group, es, fx, files, i);
    FatalBeforeIs(group, es, fx, i);
    FatalBeforeIs(group, es, fx, |es|);
    ExitZeroIff(group, es, fx, files);
    assert !Clean(group, es[i], fx(i));
    if StopsBefore(group, es, fx, i) {
      StopsLater(group, es, fx, i);
    }
  }

  lemma StopsLater(group: string, es: seq<RawEntry>, fx: nat -> Effect, i: nat)
    requires i <= |es| && StopsBefore(group, es, fx, i)
    ensures StopsBefore(group, es, fx, |es|)
  {
    hide Stops;
  }

  /** Exit 0 exactly when every entry has an accepted name and either no authority or usable keys that were installed. */
  lemma ExitZeroMeans(group: string, es: seq<RawEntry>, fx: nat -> Effect, files: KeyFiles)
    ensures Run(group, Entries(es), fx, files).1 <==>
      forall i :: 0 <= i < |es| ==> Fulfilled(group, es[i], fx(i))
  {
    hide Judge, Run, NameShape, Usable, NoAuthority;
    ExitZeroIff(group, es, fx, files);
    forall i | 0 <= i < |es| ensures Clean(group, es[i], fx(i)) <==> Fulfilled(group, es[i], fx(i)) {
      if es[i].Entry? {
        VerdictIs(group, es[i]);
      }
    }
  }

  predicate Fulfilled(group: string, e: RawEntry, x: Effect) {
    e.Entry? && GoodName(group, e) && (NoAuthority(e) || (Usable(e) && x.Succeeds?))
  }

  /** Without a manifest the script has nothing to do and succeeds; one of the wrong shape changes nothing and fails. */
  lemma NothingToRead(group: string, fx: nat -> Effect, files: KeyFiles)
    ensures Run(group, NoFile, fx, files) == (files, true) && Run(group, BadShape, fx, files) == (files, false)
  {}
}
