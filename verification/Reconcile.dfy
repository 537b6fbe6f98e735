/**
 One run of sftp/reconcile.sh: what it reads from the manifest, the verdict on
 each entry, the effect on the key-file directory, and the exit status.
 */
module Reconcile {
  import opened Text
  import opened Keys
  import Base64

  /** A username as `jq -r` prints it; names spanning lines are not modelled. */
  type Line = s: string | '\n' !in s

  datatype Item = Str(s: string) | NonString

  /** The authorized_keys field; Malformed is a missing field or a value that is no array. */
  datatype KeyField = Malformed | Items(items: seq<Item>)

  /** One element of the users array; jq aborts the script on an element it cannot index by name. */
  datatype RawEntry = NotAnObject | Entry(username: Line, enabled: bool, keys: KeyField)

  datatype Input = NoFile | BadShape | Entries(entries: seq<RawEntry>)

  /** The visible files of AUTH_KEYS_DIR, as lines. */
  type KeyFiles = map<string, seq<string>>

  /** How provisioning and writing go for one entry.  A failed write ends the script (set -e). */
  datatype Effect = Succeeds | AccountFails | DirectoryFails | WriteFails

  predicate IsB64(c: char) { Base64.InAlphabet(Base64.Std, c) || c == '=' }
  predicate IsCntrl(c: char) { c < ' ' || c == '\U{7f}' }

  /** valid_key: "type base64", optionally a space and a comment without control characters. */
  predicate ShellValidKey(k: string) {
    var i := IndexOf(k, ' ');
    i < |k| && AllowedType(k[..i]) && ShellRest(k[i + 1..])
  }

  predicate ShellRest(rest: string) {
    var j := IndexOf(rest, ' ');
    && j > 0
    && (forall x :: 0 <= x < j ==> IsB64(rest[x]))
    && (forall x :: j < x < |rest| ==> !IsCntrl(rest[x]))
  }

  /** reserved_name. */
  predicate ReservedName(group: string, name: string) {
    name == "root" || name == "admin" || name == "sshd" || name == group
  }

  function StripNewlines(s: string): string {
    if s != "" && s[|s| - 1] == '\n' then StripNewlines(s[..|s| - 1]) else s
  }

  /** The lines of `keys="$(jq -r '...authorized_keys[]')"`. */
  function KeyLines(keys: seq<string>): seq<string> {
    Split(StripNewlines(Join(keys, '\n')), '\n')
  }

  predicate LinesValid(lines: seq<string>) {
    forall i :: 0 <= i < |lines| ==> ShellValidKey(lines[i])
  }

  function Strings(items: seq<Item>): (r: seq<string>)
    requires forall i :: 0 <= i < |items| ==> items[i].Str?
    ensures |r| == |items|
  {
    seq(|items|, i requires 0 <= i < |items| => items[i].s)
  }

  datatype Verdict = Skip | Drop | Preserve | Install(lines: seq<string>)

  /** The decision the script makes from one entry alone. */
  function Judge(group: string, e: RawEntry): Verdict
    requires e.Entry?
  {
    if !NameShape(e.username) || ReservedName(group, e.username) then Skip
    else if !e.enabled then Drop
    else if e.keys.Malformed? then Preserve
    else if exists i :: 0 <= i < |e.keys.items| && e.keys.items[i].NonString? then Preserve
    else if e.keys.items == [] then Drop
    else
      var lines := KeyLines(Strings(e.keys.items));
      if LinesValid(lines) then Install(lines) else Preserve
  }

  /** State of the loop over the users array. */
  datatype Sweep = Sweep(files: KeyFiles, keep: set<string>, failures: nat, halted: bool)

  function Step(group: string, s: Sweep, e: RawEntry, x: Effect): Sweep {
    if s.halted then s
    else if e.NotAnObject? then s.(halted := true)
    else
      match Judge(group, e)
      case Skip => s.(failures := s.failures + 1)
      case Drop => s.(files := s.files - {e.username})
      case Preserve => s.(keep := s.keep + {e.username}, failures := s.failures + 1)
      case Install(lines) =>
        var t := s.(keep := s.keep + {e.username});
        match x
        case Succeeds => t.(files := s.files[e.username := lines])
        case WriteFails => t.(halted := true)
        case _ => t.(failures := s.failures + 1)
  }

  function SweepTo(group: string, entries: seq<RawEntry>, fx: nat -> Effect, files: KeyFiles, n: nat): Sweep
    requires n <= |entries|
  {
    if n == 0 then Sweep(files, {}, 0, false)
    else Step(group, SweepTo(group, entries, fx, files, n - 1), entries[n - 1], fx(n - 1))
  }

  /** Stale cleanup. */
  function Cleanup(files: KeyFiles, keep: set<string>): KeyFiles {
    map b | b in files && (!NameShape(b) || b in keep) :: files[b]
  }

  /** The whole run: the key files afterwards, and whether the exit status is 0. */
  function Run(group: string, input: Input, fx: nat -> Effect, files: KeyFiles): (KeyFiles, bool) {
    match input
    case NoFile => (files, true)
    case BadShape => (files, false)
    case Entries(es) =>
      var s := SweepTo(group, es, fx, files, |es|);
      if s.halted then (s.files, false) else (Cleanup(s.files, s.keep), s.failures == 0)
  }

  predicate UniqueEntries(es: seq<RawEntry>) {
    forall i, j :: 0 <= i < j < |es| && es[i].Entry? && es[j].Entry? ==> es[i].username != es[j].username
  }

  function Get(files: KeyFiles, name: string): Option<seq<string>> {
    if name in files then Some(files[name]) else None
  }

  predicate Names(es: seq<RawEntry>, n: nat, name: string)
    requires n <= |es|
  {
    exists i :: 0 <= i < n && es[i].Entry? && es[i].username == name
  }

  // ------------------------------------------------------------ per-user facts

  lemma {:induction false} HaltedStays(group: string, es: seq<RawEntry>, fx: nat -> Effect, files: KeyFiles, m: nat, n: nat)
    requires m <= n <= |es|
    requires SweepTo(group, es, fx, files, m).halted
    ensures SweepTo(group, es, fx, files, n) == SweepTo(group, es, fx, files, m)
  {
    if m < n {
      HaltedStays(group, es, fx, files, m, n - 1);
    }
  }

  /** The entry ends the script: it is no object, or writing its keys fails. */
  predicate Stops(group: string, e: RawEntry, x: Effect) {
    e.NotAnObject? || (Judge(group, e).Install? && x.WriteFails?)
  }

  predicate StopsBefore(group: string, es: seq<RawEntry>, fx: nat -> Effect, n: nat)
    requires n <= |es|
  {
    exists i :: 0 <= i < n && Stops(group, es[i], fx(i))
  }

  /** The loop is cut short exactly when some entry ends the script. */
  lemma {:induction false} HaltedIff(group: string, es: seq<RawEntry>, fx: nat -> Effect, files: KeyFiles, n: nat)
    requires n <= |es|
    ensures SweepTo(group, es, fx, files, n).halted <==> StopsBefore(group, es, fx, n)
  {
    hide Judge;
    if n > 0 {
      HaltedIff(group, es, fx, files, n - 1);
      if Stops(group, es[n - 1], fx(n - 1)) {
        assert StopsBefore(group, es, fx, n);
      }
    }
  }

  /** The loop does not touch a name before it meets an entry for it. */
  lemma {:induction false} UntouchedName(group: string, es: seq<RawEntry>, fx: nat -> Effect, files: KeyFiles, n: nat, name: string)
    requires n <= |es| && !Names(es, n, name)
    ensures var s := SweepTo(group, es, fx, files, n);
      Get(s.files, name) == Get(files, name) && name !in s.keep
  {
    hide Judge;
    if n > 0 {
      assert !Names(es, n - 1, name);
      UntouchedName(group, es, fx, files, n - 1, name);
    }
  }

  /** What one entry makes of its user's previous key file. */
  function UserFile(group: string, e: RawEntry, x: Effect, before: Option<seq<string>>): Option<seq<string>>
    requires e.Entry?
  {
    match Judge(group, e)
    case Skip => before
    case Drop => None
    case Preserve => before
    case Install(lines) => if x.Succeeds? then Some(lines) else before
  }

  predicate Keeps(group: string, e: RawEntry)
    requires e.Entry?
  {
    Judge(group, e).Preserve? || Judge(group, e).Install?
  }

  /** After its entry, a user's file depends on that entry, its effect and the previous file only. */
  lemma {:induction false} EntryDecides(group: string, es: seq<RawEntry>, fx: nat -> Effect, files: KeyFiles, n: nat, i: nat)
    requires i < n <= |es| && UniqueEntries(es) && es[i].Entry?
    requires !StopsBefore(group, es, fx, i)
    ensures var s := SweepTo(group, es, fx, files, n);
      && Get(s.files, es[i].username) == UserFile(group, es[i], fx(i), Get(files, es[i].username))
      && (es[i].username in s.keep <==> Keeps(group, es[i]))
  {
    hide Judge, StopsBefore;
    if i < n - 1 {
      EntryDecides(group, es, fx, files, n - 1, i);
    } else {
      HaltedIff(group, es, fx, files, i);
      assert !Names(es, i, es[i].username);
      UntouchedName(group, es, fx, files, i, es[i].username);
    }
  }

  /** Effect of a whole completed run on one name. */
  function FinalFile(group: string, es: seq<RawEntry>, fx: nat -> Effect, files: KeyFiles, i: nat): Option<seq<string>>
    requires i < |es| && es[i].Entry?
  {
    if NameShape(es[i].username) && !Keeps(group, es[i]) then None
    else UserFile(group, es[i], fx(i), Get(files, es[i].username))
  }

  lemma CleanupAt(files: KeyFiles, keep: set<string>, name: string)
    ensures Get(Cleanup(files, keep), name) == if NameShape(name) && name !in keep then None else Get(files, name)
  {}

  /**
   * What a run makes of one listed user's key file, whether or not it completes:
   * nothing if an earlier entry ended the script, otherwise a function of that
   * user's entry, provisioning outcome and previous file.
   */
  lemma RunAt(group: string, es: seq<RawEntry>, fx: nat -> Effect, files: KeyFiles, i: nat)
    requires UniqueEntries(es) && i < |es| && es[i].Entry?
    ensures Get(Run(group, Entries(es), fx, files).0, es[i].username) ==
            if StopsBefore(group, es, fx, i) then Get(files, es[i].username)
            else if StopsBefore(group, es, fx, |es|) then UserFile(group, es[i], fx(i), Get(files, es[i].username))
            else FinalFile(group, es, fx, files, i)
  {
    hide Judge, NameShape;
    var s := SweepTo(group, es, fx, files, |es|);
    HaltedIff(group, es, fx, files, |es|);
    hide StopsBefore;
    CleanupAt(s.files, s.keep, es[i].username);
    if StopsBefore(group, es, fx, i) {
      HaltedIff(group, es, fx, files, i);
      HaltedStays(group, es, fx, files, i, |es|);
      assert !Names(es, i, es[i].username);
      UntouchedName(group, es, fx, files, i, es[i].username);
    } else {
      EntryDecides(group, es, fx, files, |es|, i);
    }
  }

  /** What a run makes of an unlisted name: a login name loses its file exactly when nothing ended the script. */
  lemma RunElsewhere(group: string, es: seq<RawEntry>, fx: nat -> Effect, files: KeyFiles, name: string)
    requires !Names(es, |es|, name)
    ensures Get(Run(group, Entries(es), fx, files).0, name) ==
            if NameShape(name) && !StopsBefore(group, es, fx, |es|) then None else Get(files, name)
  {
    hide Judge, NameShape, StopsBefore;
    var s := SweepTo(group, es, fx, files, |es|);
    HaltedIff(group, es, fx, files, |es|);
    CleanupAt(s.files, s.keep, name);
    UntouchedName(group, es, fx, files, |es|, name);
  }

  /** If the very first entry ends the script, nothing changes for anybody. */
  lemma StopAtOnce(group: string, es: seq<RawEntry>, fx: nat -> Effect, files: KeyFiles)
    requires es != [] && Stops(group, es[0], fx(0))
    ensures Run(group, Entries(es), fx, files) == (files, false)
  {
    hide Judge;
    assert SweepTo(group, es, fx, files, 0) == Sweep(files, {}, 0, false);
    assert SweepTo(group, es, fx, files, 1).halted && SweepTo(group, es, fx, files, 1).files == files;
    HaltedStays(group, es, fx, files, 1, |es|);
  }

  /** Revocation: a user to be dropped has no file afterwards exactly when it had none or no earlier entry ends the script. */
  lemma RevokedIff(group: string, es: seq<RawEntry>, fx: nat -> Effect, files: KeyFiles, i: nat)
    requires UniqueEntries(es) && i < |es| && es[i].Entry? && Judge(group, es[i]).Drop?
    ensures es[i].username !in Run(group, Entries(es), fx, files).0 <==>
            es[i].username !in files || !StopsBefore(group, es, fx, i)
  {
    hide Judge, NameShape, StopsBefore, Run;
    RunAt(group, es, fx, files, i);
  }

  /**
   * Locality: in a run that no entry ends, on unique names, each user's key file
   * is a function of that user's entry, provisioning outcome and previous file;
   * unlisted login names lose their file; other files are not touched.
   */
  lemma RunIsLocal(group: string, es: seq<RawEntry>, fx: nat -> Effect, files: KeyFiles, name: string)
    requires UniqueEntries(es) && !StopsBefore(group, es, fx, |es|)
    ensures var after := Run(group, Entries(es), fx, files).0;
      && (forall i :: 0 <= i < |es| && es[i].Entry? && es[i].username == name ==>
            Get(after, name) == FinalFile(group, es, fx, files, i))
      && (!Names(es, |es|, name) ==> Get(after, name) == if NameShape(name) then None else Get(files, name))
  {
    hide Judge, NameShape, Run, Stops, FinalFile;
    forall i | 0 <= i < |es| && es[i].Entry? && es[i].username == name
      ensures Get(Run(group, Entries(es), fx, files).0, name) == FinalFile(group, es, fx, files, i)
    {
      RunAt(group, es, fx, files, i);
    }
    if !Names(es, |es|, name) {
      RunElsewhere(group, es, fx, files, name);
    }
  }

  /** Malformed input never creates, changes or removes its user's file, whether or not the run completes. */
  lemma MalformedPreserves(group: string, es: seq<RawEntry>, fx: nat -> Effect, files: KeyFiles, i: nat)
    requires UniqueEntries(es) && i < |es| && es[i].Entry? && Judge(group, es[i]).Preserve?
    ensures Get(Run(group, Entries(es), fx, files).0, es[i].username) == Get(files, es[i].username)
  {
    hide Judge, NameShape, Run, StopsBefore;
    RunAt(group, es, fx, files, i);
  }

  /** In an aborted run every user's file is either the one before or the one its entry installs or removes. */
  lemma {:induction false} HaltKeeps(group: string, es: seq<RawEntry>, fx: nat -> Effect, files: KeyFiles, n: nat, i: nat)
    requires n <= |es| && i < |es| && UniqueEntries(es) && es[i].Entry?
    ensures var after := Get(SweepTo(group, es, fx, files, n).files, es[i].username);
      after == Get(files, es[i].username) || after == UserFile(group, es[i], fx(i), Get(files, es[i].username))
  {
    hide Judge;
    if n > 0 {
      if n - 1 == i {
        assert !Names(es, i, es[i].username);
        UntouchedName(group, es, fx, files, i, es[i].username);
      } else {
        HaltKeeps(group, es, fx, files, n - 1, i);
      }
    }
  }

  // ------------------------------------------------------------------ exit status

  /** The entry gives the script no reason to fail. */
  predicate Clean(group: string, e: RawEntry, x: Effect) {
    e.Entry? && (Judge(group, e).Drop? || (Judge(group, e).Install? && x.Succeeds?))
  }

  lemma {:induction false} SweepClean(group: string, es: seq<RawEntry>, fx: nat -> Effect, files: KeyFiles, n: nat)
    requires n <= |es|
    ensures var s := SweepTo(group, es, fx, files, n);
      (!s.halted && s.failures == 0) <==> forall i :: 0 <= i < n ==> Clean(group, es[i], fx(i))
  {
    hide Judge;
    if n > 0 {
      SweepClean(group, es, fx, files, n - 1);
    }
  }

  /** Exit 0 exactly when every entry is either to be dropped or installed successfully. */
  lemma ExitZeroIff(group: string, es: seq<RawEntry>, fx: nat -> Effect, files: KeyFiles)
    ensures Run(group, Entries(es), fx, files).1 <==> forall i :: 0 <= i < |es| ==> Clean(group, es[i], fx(i))
  {
    hide Judge;
    SweepClean(group, es, fx, files, |es|);
  }

  lemma ExitZeroNoStop(group: string, es: seq<RawEntry>, fx: nat -> Effect, files: KeyFiles, n: nat)
    requires Run(group, Entries(es), fx, files).1 && n <= |es|
    ensures !StopsBefore(group, es, fx, n)
  {
    hide Judge;
    ExitZeroIff(group, es, fx, files);
    hide Run;
    assert forall i :: 0 <= i < n ==> Clean(group, es[i], fx(i));
  }

  /** `name` is an enabled user with a non-empty key list whose lines are `lines`. */
  predicate Authorises(es: seq<RawEntry>, name: string, lines: seq<string>) {
    exists i :: 0 <= i < |es| && Grants(es[i], name, lines)
  }

  predicate Grants(e: RawEntry, name: string, lines: seq<string>) {
    && e.Entry? && e.username == name && e.enabled && e.keys.Items? && e.keys.items != []
    && (forall j :: 0 <= j < |e.keys.items| ==> e.keys.items[j].Str?)
    && lines == KeyLines(Strings(e.keys.items))
  }

  lemma InstallGrants(group: string, e: RawEntry)
    requires e.Entry? && Judge(group, e).Install?
    ensures Grants(e, e.username, Judge(group, e).lines) && NameShape(e.username)
  {
    hide KeyLines, LinesValid;
  }

  lemma DropGrantsNothing(group: string, e: RawEntry, lines: seq<string>)
    requires e.Entry? && Judge(group, e).Drop?
    ensures !Grants(e, e.username, lines)
  {
    hide KeyLines, LinesValid;
  }

  /** The login-shaped key files are exactly the authorised ones, line for line. */
  ghost predicate Exact(es: seq<RawEntry>, files: KeyFiles) {
    forall name, lines :: NameShape(name) ==>
      (Get(files, name) == Some(lines) <==> Authorises(es, name, lines))
  }

  /** After exit 0 the effective keys are exactly those the manifest authorises. */
  lemma ExitZeroIsExact(group: string, es: seq<RawEntry>, fx: nat -> Effect, files: KeyFiles)
    requires UniqueEntries(es) && Run(group, Entries(es), fx, files).1
    ensures Exact(es, Run(group, Entries(es), fx, files).0)
  {
    hide Judge, NameShape, Grants;
    ExitZeroIff(group, es, fx, files);
    var after := Run(group, Entries(es), fx, files).0;
    forall name, lines | NameShape(name)
      ensures Get(after, name) == Some(lines) <==> Authorises(es, name, lines)
    {
      ExactAt(group, es, fx, files, name, lines);
    }
  }

  lemma ExactAt(group: string, es: seq<RawEntry>, fx: nat -> Effect, files: KeyFiles, name: string, lines: seq<string>)
    requires UniqueEntries(es) && Run(group, Entries(es), fx, files).1 && NameShape(name)
    ensures Get(Run(group, Entries(es), fx, files).0, name) == Some(lines) <==> Authorises(es, name, lines)
  {
    hide Judge, NameShape;
    ExitZeroIff(group, es, fx, files);
    ExitZeroNoStop(group, es, fx, files, |es|);
    RunIsLocal(group, es, fx, files, name);
    if Names(es, |es|, name) {
      var i :| 0 <= i < |es| && es[i].Entry? && es[i].username == name;
      assert Clean(group, es[i], fx(i));
      assert Authorises(es, name, lines) <==> Grants(es[i], name, lines);
      if Judge(group, es[i]).Install? {
        InstallGrants(group, es[i]);
      } else {
        DropGrantsNothing(group, es[i], lines);
      }
    }
  }

  // ------------------------------------------------------------------ repetition

  /** After an exit-0 run every entry's user has exactly what the entry asks for. */
  lemma SettledAt(group: string, es: seq<RawEntry>, fx: nat -> Effect, files: KeyFiles, i: nat)
    requires UniqueEntries(es) && Run(group, Entries(es), fx, files).1 && i < |es|
    ensures es[i].Entry?
    ensures Judge(group, es[i]).Drop? || Judge(group, es[i]).Install?
    ensures Get(Run(group, Entries(es), fx, files).0, es[i].username) ==
            if Judge(group, es[i]).Install? then Some(Judge(group, es[i]).lines) else None
  {
    hide Judge, NameShape;
    ExitZeroIff(group, es, fx, files);
    assert Clean(group, es[i], fx(i));
    ExitZeroNoStop(group, es, fx, files, |es|);
    RunIsLocal(group, es, fx, files, es[i].username);
  }

  /** After an exit-0 run, sweeping the same manifest again changes nothing, however provisioning goes. */
  lemma {:induction false} RepeatSweep(group: string, es: seq<RawEntry>, fx: nat -> Effect, files: KeyFiles, fx2: nat -> Effect, n: nat)
    requires UniqueEntries(es) && Run(group, Entries(es), fx, files).1 && n <= |es|
    ensures var after := Run(group, Entries(es), fx, files).0;
      SweepTo(group, es, fx2, after, n).files == after
  {
    hide Judge, NameShape, Run;
    if n > 0 {
      RepeatSweep(group, es, fx, files, fx2, n - 1);
      SettledAt(group, es, fx, files, n - 1);
      var after, u := Run(group, Entries(es), fx, files).0, es[n - 1].username;
      if u in after {
        assert after[u := after[u]] == after;
      } else {
        assert after - {u} == after;
      }
    }
  }

  lemma RepeatIsNoOp(group: string, es: seq<RawEntry>, fx: nat -> Effect, files: KeyFiles, fx2: nat -> Effect)
    requires UniqueEntries(es) && Run(group, Entries(es), fx, files).1
    ensures var after := Run(group, Entries(es), fx, files).0;
      Run(group, Entries(es), fx2, after).0 == after
  {
    hide Judge, NameShape;
    var after := Run(group, Entries(es), fx, files).0;
    RepeatSweep(group, es, fx, files, fx2, |es|);
    var s := SweepTo(group, es, fx2, after, |es|);
    if !s.halted {
      forall b | b in after ensures !NameShape(b) || b in s.keep {
        ExitZeroNoStop(group, es, fx, files, |es|);
        RunIsLocal(group, es, fx, files, b);
        if NameShape(b) {
          assert Names(es, |es|, b);
          var i :| 0 <= i < |es| && es[i].Entry? && es[i].username == b;
          HaltedIff(group, es, fx2, after, |es|);
          EntryDecides(group, es, fx2, after, |es|, i);
        }
      }
      assert Cleanup(after, s.keep) == after;
    }
  }
}
