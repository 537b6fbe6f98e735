/**
 sftp/reconcile.sh as it runs: the loop over the users array with its counters
 and its space-separated keep list, and the stale cleanup, proved to compute
 Reconcile.Run.  Also the text facts the script rests on.
 */
module ReconcileScript {
  import opened Text
  import opened Keys
  import opened Reconcile
  import Base64
  import Wire

  // ------------------------------------------------------------------ keep_list

  /** keep_list after appending each name in turn. */
  function KeepText(names: seq<string>): string {
    if names == [] then "" else KeepText(names[..|names| - 1]) + " " + names[|names| - 1]
  }

  /** The shell pattern *needle*. */
  predicate OccursAt(hay: string, needle: string, i: nat) {
    i + |needle| <= |hay| && hay[i..i + |needle|] == needle
  }

  predicate Contains(hay: string, needle: string) {
    exists i :: 0 <= i <= |hay| && OccursAt(hay, needle, i)
  }

  /** case " $keep_list " in *" $base "* */
  predicate Listed(keepList: string, base: string) {
    Contains(" " + keepList + " ", " " + base + " ")
  }

  predicate SpaceFree(s: string) { ' ' !in s }

  /** A padded word found in `hay + last + " "` either ends inside `hay` or is `last`. */
  lemma WordAtEnd(hay: string, last: string, base: string, i: nat)
    requires hay != "" && hay[|hay| - 1] == ' ' && SpaceFree(last) && SpaceFree(base)
    requires OccursAt(hay + last + " ", " " + base + " ", i)
    ensures OccursAt(hay, " " + base + " ", i) || base == last
  {
    var all, word := hay + last + " ", " " + base + " ";
    var end := i + |base| + 1;
    assert forall x :: 0 <= x < |word| ==> all[i + x] == word[x];
    if end < |hay| {
      assert hay[i..i + |word|] == word;
    } else {
      assert all[end] == ' ';
      assert forall x :: |hay| <= x < |hay| + |last| ==> all[x] == last[x - |hay|];
      assert end == |hay| + |last|;
      assert all[|hay| - 1] == ' ' && all[i] == ' ';
      assert forall x :: i < x < end ==> all[x] == base[x - i - 1];
      assert i == |hay| - 1 && |base| == |last|;
      assert forall x :: 0 <= x < |base| ==> base[x] == all[i + 1 + x] == last[x];
    }
  }

  lemma OccursLonger(hay: string, tail: string, word: string)
    requires Contains(hay, word)
    ensures Contains(hay + tail, word)
  {
    var i :| 0 <= i <= |hay| && OccursAt(hay, word, i);
    assert (hay + tail)[i..i + |word|] == hay[i..i + |word|];
    assert OccursAt(hay + tail, word, i);
  }

  lemma LastOccurs(hay: string, last: string)
    requires hay != "" && hay[|hay| - 1] == ' '
    ensures Contains(hay + last + " ", " " + last + " ")
  {
    var all, word := hay + last + " ", " " + last + " ";
    assert all[|hay| - 1..|hay| - 1 + |word|] == word;
    assert OccursAt(all, word, |hay| - 1);
  }

  lemma NothingListed(base: string)
    requires base != ""
    ensures !Listed("", base)
  {
    assert " " + "" + " " == "  ";
    assert |" " + base + " "| > |"  "|;
  }

  /** The keep_list test is set membership. */
  lemma {:induction false} ListedIff(names: seq<string>, base: string)
    requires base != "" && SpaceFree(base)
    requires forall n :: n in names ==> SpaceFree(n)
    ensures Listed(KeepText(names), base) <==> base in names
  {
    if names == [] {
      NothingListed(base);
    } else {
      var word := " " + base + " ";
      var init, last := names[..|names| - 1], names[|names| - 1];
      var hay := " " + KeepText(init) + " ";
      var all := " " + KeepText(names) + " ";
      ListedIff(init, base);
      assert all == hay + last + " " by { Regroup5(" ", KeepText(init), " ", last, " "); }
      hide OccursAt, KeepText, SpaceFree;
      LastOfSeq(names);
      if Contains(all, word) {
        var i :| 0 <= i <= |all| && OccursAt(all, word, i);
        WordAtEnd(hay, last, base, i);
        OccursWithin(hay, word, i);
      }
      if base == last {
        LastOccurs(hay, last);
      } else if base in init {
        OccursLonger(hay, last, word);
        OccursLonger(hay + last, " ", word);
      }
    }
  }

  lemma Regroup5<T>(a: seq<T>, b: seq<T>, c: seq<T>, d: seq<T>, e: seq<T>)
    ensures a + (b + c + d) + e == a + b + c + d + e
  {}

  lemma LastOfSeq<T>(s: seq<T>)
    requires s != []
    ensures forall x :: x in s <==> x in s[..|s| - 1] || x == s[|s| - 1]
  {
    assert s == s[..|s| - 1] + [s[|s| - 1]];
  }

  lemma OccursWithin(hay: string, word: string, i: nat)
    ensures OccursAt(hay, word, i) ==> Contains(hay, word)
  {}

  lemma NameIsSpaceFree(s: string)
    requires NameShape(s)
    ensures SpaceFree(s) && s != ""
  {
    assert !NameChar(' ');
  }

  // ----------------------------------------------------------------- key lines

  lemma {:induction false} JoinLastChar(keys: seq<string>)
    requires keys != [] && keys[|keys| - 1] != ""
    ensures var t := Join(keys, '\n'); t != "" && t[|t| - 1] == keys[|keys| - 1][|keys[|keys| - 1]| - 1]
  {
    if |keys| > 1 {
      JoinLastChar(keys[1..]);
    }
  }

  /** For single-line, non-empty keys the lines the script reads are the keys. */
  lemma KeyLinesAreKeys(keys: seq<string>)
    requires keys != [] && forall k :: k in keys ==> k != "" && '\n' !in k
    ensures KeyLines(keys) == keys
  {
    assert keys[|keys| - 1] in keys;
    JoinLastChar(keys);
    SplitJoin(keys, '\n');
  }

  /** A newline inside a key makes two lines; newlines at the end make none. */
  lemma NewlinesInKeys(a: string, b: string)
    requires a != "" && '\n' !in a && b != "" && '\n' !in b
    ensures KeyLines([a + "\n" + b]) == [a, b] && KeyLines([a + "\n"]) == [a] && KeyLines([a, "", ""]) == [a]
  {
    var two := a + "\n" + b;
    KeyLinesAreKeys([a, b]);
    KeyLinesAreKeys([a]);
    assert Join([a, b], '\n') == two by { assert [a, b][1..] == [b]; }
    assert Join([two], '\n') == two;
    assert (a + "\n")[..|a|] == a;
    assert Join([a, "", ""], '\n') == a + "\n" + "\n" by {
      assert [a, "", ""][1..] == ["", ""] && ["", ""][1..] == [""];
    }
    assert (a + "\n" + "\n")[..|a| + 1] == a + "\n";
  }

  predicate CommentTail(tail: string) {
    tail == "" || (tail[0] == ' ' && forall x :: 0 < x < |tail| ==> !IsCntrl(tail[x]))
  }

  lemma SpaceAfter(w: string, tail: string)
    requires ' ' !in w && (tail == "" || tail[0] == ' ')
    ensures IndexOf(w + tail, ' ') == |w|
  {
    if tail == "" {
      assert w + tail == w;
    } else {
      assert w + tail == w + [' '] + tail[1..];
      IndexOfConcat(w, ' ', tail[1..]);
    }
  }

  lemma RestShape(b64: string, tail: string)
    requires b64 != "" && Base64.TextOf(Base64.Std, b64) && (tail == "" || tail[0] == ' ')
    ensures ShellRest(b64 + tail) <==> CommentTail(tail)
  {
    assert ' ' !in b64;
    SpaceAfter(b64, tail);
    hide IsCntrl, IndexOf;
    var rest := b64 + tail;
    assert forall x :: 0 <= x < |b64| ==> rest[x] == b64[x];
    assert forall x :: 0 <= x < |tail| ==> tail[x] == rest[|b64| + x];
    assert forall x :: |b64| < x < |rest| ==> rest[x] == tail[x - |b64|];
  }

  /** The shape the pattern describes. */
  lemma ShellShape(typ: string, b64: string, tail: string)
    requires AllowedType(typ) && b64 != "" && Base64.TextOf(Base64.Std, b64)
    requires tail == "" || tail[0] == ' '
    ensures ShellValidKey(typ + " " + b64 + tail) <==> CommentTail(tail)
  {
    RestShape(b64, tail);
    hide AllowedType, Base64.TextOf, CommentTail, ShellRest;
    var rest := b64 + tail;
    assert ' ' !in typ by { AllowedTypeText(typ); }
    Regroup4(typ, [' '], b64, tail);
    IndexOfConcat(typ, ' ', rest);
    CutAt(typ, ' ', rest);
  }

  /** Every canonical key passes the shell pattern. */
  lemma CanonicalPassesShell(key: string)
    requires IsCanonical(key)
    ensures ShellValidKey(key) && key != "" && '\n' !in key
  {
    AcceptedParts(key);
    var typ, b64 := Fields(key)[0], Fields(key)[1];
    hide ParseKey, ParseFields, AllowedType, ShellValidKey;
    ShellShape(typ, b64, "");
    assert key == typ + " " + b64 + "";
  }

  /**
   * A key that passes the strict check need not pass the shell pattern: it does
   * exactly when the text is its canonical form, followed by nothing or by a
   * space and a comment without control characters.
   */
  lemma ValidKeyPassesShellIff(key: string)
    requires ValidKey(key)
    ensures ShellValidKey(key) <==>
      HasPrefix(key, ParseKey(key).canonical) && CommentTail(key[|ParseKey(key).canonical|..])
  {
    AcceptedParts(key);
    var c := ParseKey(key).canonical;
    var typ, b64 := Fields(key)[0], Fields(key)[1];
    hide ParseKey, ParseFields, AllowedType, ShellValidKey;
    if ShellValidKey(key) {
      ShellFields(key);
    }
    if HasPrefix(key, c) {
      var tail := key[|c|..];
      assert key == typ + " " + b64 + tail;
      if tail == "" || tail[0] == ' ' {
        ShellShape(typ, b64, tail);
      }
    }
  }

  /** What the pattern matched: type, base64 and the rest. */
  lemma ShellParts(key: string) returns (typ: string, b64: string, tail: string)
    requires ShellValidKey(key)
    ensures key == typ + " " + b64 + tail
    ensures AllowedType(typ) && b64 != "" && Base64.TextOf(Base64.Std, b64) && (tail == "" || tail[0] == ' ')
  {
    hide AllowedType, IndexOf;
    var i := IndexOf(key, ' ');
    var rest := key[i + 1..];
    var j := IndexOf(rest, ' ');
    typ, b64, tail := key[..i], rest[..j], rest[j..];
    RestText(rest);
    hide ShellRest, Base64.TextOf;
    CutTwice(key, i, j);
    assert [key[i]] == " ";
  }

  lemma RestText(rest: string)
    requires ShellRest(rest)
    ensures var j := IndexOf(rest, ' ');
      j > 0 && Base64.TextOf(Base64.Std, rest[..j]) && (j == |rest| || rest[j..][0] == ' ')
  {
    hide IndexOf;
  }

  /** The words the pattern sees are the first two fields. */
  lemma ShellFields(key: string)
    requires ShellValidKey(key)
    ensures |Fields(key)| >= 2
    ensures HasPrefix(key, Fields(key)[0] + " " + Fields(key)[1])
    ensures var tail := key[|Fields(key)[0] + " " + Fields(key)[1]|..]; tail == "" || tail[0] == ' '
  {
    var typ, b64, tail := ShellParts(key);
    hide ShellValidKey, AllowedType, Graphic;
    AllowedTypeText(typ);
    assert NoSpace(b64);
    FieldsOfTwo(typ, b64, tail);
    hide Fields, NoSpace;
    var c := typ + " " + b64;
    assert key[..|c|] == c && key[|c|..] == tail;
  }

  /** The pattern in full: one of the six types, a space, base64 text, and perhaps a space and a comment. */
  lemma ShellGrammar(key: string)
    ensures ShellValidKey(key) <==> exists typ, b64, tail :: ShellForm(key, typ, b64, tail)
  {
    hide ShellValidKey, AllowedType;
    if ShellValidKey(key) {
      var typ, b64, tail := ShellParts(key);
      ShellShape(typ, b64, tail);
      SixTypes(typ);
      assert ShellForm(key, typ, b64, tail);
    }
    if typ, b64, tail :| ShellForm(key, typ, b64, tail) {
      SixTypes(typ);
      ShellShape(typ, b64, tail);
    }
  }

  predicate ShellForm(key: string, typ: string, b64: string, tail: string) {
    && key == typ + " " + b64 + tail
    && typ in {"ssh-rsa", "ssh-ed25519", "sk-ssh-ed25519@openssh.com", "ecdsa-sha2-nistp256", "ecdsa-sha2-nistp384", "ecdsa-sha2-nistp521"}
    && b64 != "" && Base64.TextOf(Base64.Std, b64)
    && (tail == "" || (tail[0] == ' ' && forall i :: 0 < i < |tail| ==> tail[i] >= ' ' && tail[i] != '\U{7f}'))
  }

  // ------------------------------------------------- what the script leaves open

  function SampleFields(): seq<seq<byte>> { [seq(32, i => 0 as byte)] }

  lemma SampleLayout()
    ensures AllowedType("ssh-ed25519") && Wire.IsAscii("ssh-ed25519") && Wire.Layout("ssh-ed25519", SampleFields())
    ensures |KeyBlob("ssh-ed25519", SampleFields())| < Wire.TWO32
  {
    AllowedTypeText("ssh-ed25519");
    assert Wire.Layout("ssh-ed25519", SampleFields());
    Wire.EncodedOne(SampleFields()[0]);
  }

  /** The Ed25519 key of thirty-two zero bytes. */
  function SampleKey(): string {
    SampleLayout();
    "ssh-ed25519" + " " + Base64.Encode(Base64.Std, KeyBlob("ssh-ed25519", SampleFields()))
  }

  lemma SampleKeyCanonical()
    ensures IsCanonical(SampleKey())
  {
    hide Wire.Layout, KeyBlob, Base64.Encode, AllowedType, ParseKey, SampleFields, Wire.IsAscii;
    SampleLayout();
    WrittenKeyAccepted("ssh-ed25519", SampleFields(), "");
  }

  /** A comment changes neither validity nor the blob. */
  lemma SampleWithComment(comment: string)
    requires comment == "" || (IsSpace(comment[0]) && SingleLine(comment))
    ensures ValidKey(SampleKey()) && ValidKey(SampleKey() + comment)
    ensures ParseKey(SampleKey() + comment).blob == ParseKey(SampleKey()).blob
  {
    hide Wire.Layout, KeyBlob, Base64.Encode, AllowedType, ParseKey, SampleFields, Wire.IsAscii, IsSpace, SingleLine;
    SampleLayout();
    WrittenKeyAccepted("ssh-ed25519", SampleFields(), comment);
    WrittenKeyAccepted("ssh-ed25519", SampleFields(), "");
    hide SampleKey;
    CanonicalIdempotent(SampleKey() + comment);
  }

  lemma SampleKeyPasses()
    ensures ShellValidKey(SampleKey()) && SampleKey() != "" && '\n' !in SampleKey()
  {
    hide SampleKey, IsCanonical, ShellValidKey;
    SampleKeyCanonical();
    CanonicalPassesShell(SampleKey());
  }

  /** An enabled user with one key, and a disabled user behind it. */
  function TwoUsers(): seq<RawEntry> {
    [Entry("a", true, Items([Str(SampleKey())])), Entry("b", false, Items([]))]
  }

  lemma OneKeyInstalled(group: string, user: Line, k: string)
    requires NameShape(user) && !ReservedName(group, user) && ShellValidKey(k) && k != "" && '\n' !in k
    ensures Judge(group, Entry(user, true, Items([Str(k)]))) == Install([k])
  {
    hide NameShape, ShellValidKey, KeyLines, ReservedName;
    assert Strings([Str(k)]) == [k];
    KeyLinesAreKeys([k]);
  }

  lemma DisabledDropped(group: string, user: Line, keys: KeyField)
    requires NameShape(user) && !ReservedName(group, user)
    ensures Judge(group, Entry(user, false, keys)) == Drop
  {
    hide NameShape, ReservedName, KeyLines, LinesValid;
  }

  lemma ShortNames()
    ensures NameShape("a") && NameShape("b") && !ReservedName("sftpusers", "a") && !ReservedName("sftpusers", "b")
  {}

  lemma FirstIsInstalled()
    ensures Judge("sftpusers", TwoUsers()[0]).Install? && Judge("sftpusers", TwoUsers()[1]).Drop?
  {
    hide *;
    TwoUsersAre();
    SampleKeyPasses();
    ShortNames();
    OneKeyInstalled("sftpusers", "a", SampleKey());
    DisabledDropped("sftpusers", "b", Items([]));
  }

  lemma TwoUsersAre()
    ensures |TwoUsers()| == 2
    ensures TwoUsers()[0] == Entry("a", true, Items([Str(SampleKey())])) && TwoUsers()[1] == Entry("b", false, Items([]))
  {}

  function AllWritesFail(): nat -> Effect { (i: nat) => WriteFails }

  /** One failed write strands another user: the disabled one keeps its key file. */
  lemma FailedWriteStrands(lines: seq<string>)
    ensures Judge("sftpusers", TwoUsers()[1]).Drop? && TwoUsers()[1].username == "b"
    ensures Run("sftpusers", Entries(TwoUsers()), AllWritesFail(), map["b" := lines]) == (map["b" := lines], false)
  {
    TwoUsersAre();
    hide Judge, Run, TwoUsers;
    FirstIsInstalled();
    StopAtOnce("sftpusers", TwoUsers(), AllWritesFail(), map["b" := lines]);
  }

  /** A valid key whose comment starts with a tab: the strict check takes it, the shell pattern does not. */
  lemma TabCommentRefused()
    ensures ValidKey(SampleKey() + "\t") && !ShellValidKey(SampleKey() + "\t")
  {
    assert IsSpace('\t') && IsCntrl('\t') && !CommentTail("\t");
    hide Wire.Layout, KeyBlob, Base64.Encode, AllowedType, ParseKey, ShellValidKey, SampleFields, Wire.IsAscii, CommentTail, IsSpace;
    SampleLayout();
    WrittenKeyAccepted("ssh-ed25519", SampleFields(), "\t");
    ValidKeyPassesShellIff(SampleKey() + "\t");
    hide SampleKey;
    assert (SampleKey() + "\t")[|SampleKey()|..] == "\t";
  }

  // -------------------------------------------------------------------- the run

  /** The inner loop over the lines of one user. */
  method BadKey(lines: seq<string>) returns (bad: bool)
    ensures bad == !LinesValid(lines)
  {
    hide ShellValidKey;
    bad := false;
    var i := 0;
    while i < |lines|
      invariant 0 <= i <= |lines| && !bad
      invariant LinesValid(lines[..i])
    {
      if !ShellValidKey(lines[i]) {
        bad := true;
        return;
      }
      assert lines[..i + 1] == lines[..i] + [lines[i]];
      i := i + 1;
    }
    assert lines[..i] == lines;
  }

  class Reconciler {
    const group: string
    var files: KeyFiles

    constructor (group: string, files: KeyFiles)
      ensures this.group == group && this.files == files
    {
      this.group, this.files := group, files;
    }

    /** The stale cleanup: directory order does not matter. */
    method RemoveStale(keepList: string, ghost names: seq<string>)
      requires keepList == KeepText(names) && forall n :: n in names ==> SpaceFree(n)
      modifies this
      ensures files == Cleanup(old(files), set n | n in names)
    {
      hide NameShape, Listed, KeepText;
      ghost var keep := set n | n in names;
      var all := files;
      var todo := all.Keys;
      while todo != {}
        invariant todo <= all.Keys
        invariant files == map b | b in all && (b in todo || !NameShape(b) || b in keep) :: all[b]
        decreases |todo|
      {
        var base :| base in todo;
        if NameShape(base) {
          NameIsSpaceFree(base);
          ListedIff(names, base);
          if !Listed(keepList, base) {
            files := files - {base};
          }
        }
        todo := todo - {base};
      }
    }

    /** One pass of the loop body, in the script's order of tests. */
    method Visit(e: RawEntry, x: Effect, ghost s: Sweep) returns (halt: bool, fail: bool, keeps: bool)
      requires s.files == files && !s.halted
      modifies this
      ensures keeps ==> e.Entry? && NameShape(e.username)
      ensures Step(group, s, e, x) ==
        Sweep(files, if keeps then s.keep + {e.username} else s.keep, if fail then s.failures + 1 else s.failures, halt)
    {
      hide NameShape, LinesValid, KeyLines;
      halt, fail, keeps := false, false, false;
      if e.NotAnObject? {
        halt := true;
        return;
      }
      var user := e.username;
      if !NameShape(user) || ReservedName(group, user) {
        fail := true;
        return;
      }
      if !e.enabled {
        files := files - {user};
        return;
      }
      if e.keys.Malformed? || exists i :: 0 <= i < |e.keys.items| && e.keys.items[i].NonString? {
        keeps, fail := true, true;
        return;
      }
      if |e.keys.items| == 0 {
        files := files - {user};
        return;
      }
      keeps := true;
      var lines := KeyLines(Strings(e.keys.items));
      var bad := BadKey(lines);
      if bad || x.AccountFails? || x.DirectoryFails? {
        fail := true;
        return;
      }
      if x.WriteFails? {
        halt := true;
        return;
      }
      files := files[user := lines];
    }

    /** The script. */
    method Reconcile(input: Input, fx: nat -> Effect) returns (ok: bool)
      modifies this
      ensures (files, ok) == Run(group, input, fx, old(files))
    {
      hide NameShape, Judge;
      match input {
        case NoFile => return true;
        case BadShape => return false;
        case Entries(es) =>
          var failures, keepList, i := 0, "", 0;
          ghost var names: seq<string> := [];
          ghost var start := files;
          while i < |es|
            invariant 0 <= i <= |es| && failures >= 0
            invariant keepList == KeepText(names) && forall n :: n in names ==> SpaceFree(n)
            invariant SweepTo(group, es, fx, start, i) == Sweep(files, (set n | n in names), failures, false)
          {
            var halt, fail, keeps := Visit(es[i], fx(i), SweepTo(group, es, fx, start, i));
            if halt {
              HaltedStays(group, es, fx, start, i + 1, |es|);
              return false;
            }
            if keeps {
              NameIsSpaceFree(es[i].username);
              assert (names + [es[i].username])[..|names|] == names;
              keepList := keepList + " " + es[i].username;
              names := names + [es[i].username];
            }
            if fail {
              failures := failures + 1;
            }
            i := i + 1;
          }
          RemoveStale(keepList, names);
          return failures == 0;
      }
    }
  }
}
