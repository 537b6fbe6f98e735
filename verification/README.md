# Verified model of the file-sharing and SFTP control plane

The repository serves files under hash URLs and runs an SFTP service whose users
are managed from a small admin web application. This project models the parts in
which several steps or several programs have to agree, and proves what they agree
on.

- **Control plane.** The admin service rewrites `users.json` in locked sections
  (`Manifest`, `Admin`, `AdminStore`, `KeyNotes`,
  `Effects`, `Interleaving`); a polling loop (`Poll`) starts
  `reconcile.sh`, which turns the manifest into one key file per user
  (`Reconcile`, `ReconcileScript`, `Verdicts`). `ControlPlane` interleaves both processes
  step by step and relates the key files to the manifest over every run.
- **Key text.** The public-key parser, from the text line down to the
  length-prefixed binary fields (`Text`, `Base64`, `Wire`, `Keys`).
- **Hash-URL store.** The scan of a file tree into logical entries, the
  size-and-mtime hash cache, live configuration swaps, and the way back from a
  pair of hashes to a file (`Config`, `Listing`, `HashCache`, `StoreRuns`,
  `Resolve`, `HashStore`), plus what a share link may see (`Scope`).
- **Share-link sessions** (`LinkSession`), **one-time key downloads** (`Pending`),
  the **login limiter** (`Login`) and the **settings transaction** (`Settings`).

Code that changes state is a class or a method here, proved equal to a function
of the old state; the theorems are lemmas about those functions. Digests, MACs,
the clock, provisioning and write outcomes are parameters, so every statement
holds for all of them. Verify with `dafny verify dfyconfig.toml`.

Where a promise fails, a lemma gives the input and another the exact condition:

- An enable request checks and writes in two lock sections, so a key deletion in
  between leaves an enabled user without keys (`Admin.EnableRace`).
  `Interleaving.AlwaysUsableIff` names the writes that break the invariant over
  every interleaving, and `Interleaving.OnlyRaceBreaks` shows that such a write,
  once checked, needs a section in between that took the user's last usable key.
- A failed notes write after a key or user is removed leaves a note without a key
  (`Admin.OrphanNote`); `KeyNotes.HandlerGoodIff` and `KeyNotes.AlwaysGoodIff`
  give the exact requests.
- Two keys of one user can share a fingerprint. Removing one of them takes the
  note of the other along (`KeyNotes.TwinStripped`), against the comment at
  `internal/sftpadmin/store.go:160-162`; `KeyNotes.StrippedIff` is the exact
  condition.
- Comments and the final message of `sftp/reconcile.sh` (lines 218-219 and 279)
  speak of one user failing while the others are reconciled, but a failed
  `write_keys` ends the whole script under `set -e`. The model follows the code: a
  disabled user can keep its key file (`ReconcileScript.FailedWriteStrands`), and
  `Reconcile.RevokedIff`, `Reconcile.RunAt` and `ControlPlane.RunMatchesIff` say
  exactly when a run revokes, what it does to each file, and when it leaves the
  right ones.
- A strictly valid key is not always accepted by the shell pattern of the
  reconciler (`ReconcileScript.TabCommentRefused`,
  `ReconcileScript.ValidKeyPassesShellIff`); canonical keys, the only ones the
  admin service writes, always are.
- The polling loop can miss a change that is undone within one round
  (`Poll.MissedReturn`); the last run has read the final content exactly when it
  read what its round had digested (`Poll.LastRunReadsFinalIff`). It also never
  retries a failed run until the manifest changes (`Poll.NeverRetried`,
  `Poll.FailureStays`, `Poll.KeyFilesConvergeIff`).
- The hash cache answers for a file that can no longer be read, as long as size
  and mtime stay (`StoreRuns.ChmodShows`); as long as path, size and mtime never
  name two contents, `StoreRuns.CacheInvisibleIff` says exactly when this shows,
  failing scans included.
- `readWireBytes` adds 4 to a 32-bit length without a check; the slice goes wrong
  for exactly the lengths in `Wire.PanicsExactly`, which need a blob of 4 GiB
  (`Wire.PanicExample`).

## Model

| member | source | states |
|---|---|---|
| `ControlPlane.EveryRunExact` | sftp/reconcile.sh:168-276 | Over every interleaving of admin lock sections and reconcile runs from first boot (empty or seeded): the manifest is accepted in full, a run exits 0 exactly when provisioning and writing succeed for every enabled user with keys, and then the login-shaped key files are exactly those users, line for line in order. |
| `ControlPlane.EveryKeyFileJustified` | sftp/reconcile.sh:168-276 | Provenance over every interleaving: any key file a user has was granted, key for key, by a manifest some earlier run read, and no run completed since saw that user disabled, keyless or absent. |
| `ControlPlane.StrictStays` | internal/sftpadmin/store.go:66-84 | Under every sequence of lock sections a strictly valid manifest stays strictly valid, whoever wrote it and however writes fail. |
| `ControlPlane.EnabledEntrySurvives` | internal/sftpadmin/server.go:740-752 | No lock section removes an entry that is enabled at that moment. |
| `Interleaving.SectionUsableIff` | internal/sftpadmin/server.go:663-692 | From a manifest where enabled users have usable keys, one lock section keeps that if and only if it is not a successful enable write on a user without one. |
| `Interleaving.AlwaysUsableIff` | internal/sftpadmin/server.go:663-692 | Over every interleaving of lock sections, enabled users have usable keys at every point if and only if no enable write ever lands on a user without one. |
| `Interleaving.CheckedEnableIsSafe` | internal/sftpadmin/server.go:663-683 | The handler's check rules that write out as long as nothing comes between. |
| `Interleaving.OnlyRaceBreaks` | internal/sftpadmin/server.go:663-692 | If the handler's check passed and its write breaks the invariant, some lock section in between was a successful key removal that took that user's last usable key. |
| `Interleaving.OnlyRemovalEndsSafety` | internal/sftpadmin/server.go:442-467 | A lock section ends the safety of enabling a user if and only if it takes that user's last usable key away. |
| `ControlPlane.SectionKeepsSound` | internal/sftpadmin/store.go:66-84 | Each lock section keeps the manifest absent or strictly valid with canonical keys only. |
| `ControlPlane.SoundEntryAccepted` | sftp/reconcile.sh:173-235 | Every entry the admin side can write is judged as intended: install exactly its keys when enabled with keys, drop otherwise; never skipped, never malformed. |
| `ControlPlane.SoundExitZeroIff` | sftp/reconcile.sh:278-282 | On such a manifest only provisioning or write failures of effective users can make the run fail. |
| `ControlPlane.ExitZeroMatches` | sftp/reconcile.sh:168-282 | Exit 0 on such a manifest means the key files are the enabled users with keys, in order. |
| `ControlPlane.RunMatchesIff` | sftp/reconcile.sh:168-276 | Whatever its exit status, a run leaves the right key files if and only if each user before a failed write was provisioned, written or already right, each behind it was right before, and a run cut short had no stale file to remove. |
| `ControlPlane.FileAfterRun` | sftp/reconcile.sh:168-276 | Even a failed or aborted run leaves each user with keys granted now or with the previous file, the latter in a completed run only if the user is still enabled with keys. |
| `Reconcile.RunIsLocal` | sftp/reconcile.sh:168-276 | On unique names, when no entry ends the script, each user's file depends only on that user's entry, provisioning outcome and previous file; unlisted login names lose theirs, other files are untouched. |
| `Reconcile.HaltedIff` | sftp/reconcile.sh:168-259 | The loop is cut short exactly when some entry is no object or has its keys fail to be written. |
| `Reconcile.RunAt` | sftp/reconcile.sh:168-276 | What any run, completed or cut short, makes of a listed user's file: nothing if an earlier entry ended the script, otherwise a function of the user's own entry, outcome and previous file. |
| `Reconcile.RunElsewhere` | sftp/reconcile.sh:261-276 | An unlisted login name loses its file exactly when nothing ended the script; other names never do. |
| `Reconcile.RevokedIff` | sftp/reconcile.sh:180-185 | A user to be dropped has no key file afterwards if and only if it had none or no earlier entry ends the script. |
| `Verdicts.UnusableKeepsFile` | sftp/reconcile.sh:187-235 | An enabled user with an accepted name whose key field is missing, no array, holds a non-string, or has a line the pattern refuses keeps exactly the key file it had, in every run, and the run does not exit 0. |
| `Verdicts.NoAuthorityRevokes` | sftp/reconcile.sh:180-216 | A disabled user, or one with an empty key list, has a key file afterwards exactly when it had one and an earlier entry ended the script. |
| `Verdicts.UsableInstalls` | sftp/reconcile.sh:218-258 | A user with usable keys gets exactly its lines when provisioning and writing succeed and nothing ended the script before; otherwise its file stays. |
| `Verdicts.BadNameSkipped` | sftp/reconcile.sh:173-178 | A refused or reserved name never gains or changes a key file, and the run does not exit 0. |
| `Verdicts.ExitZeroMeans` | sftp/reconcile.sh:278-282 | Exit 0 exactly when every entry is an object with an accepted name and has no authority or usable keys that were installed. |
| `Verdicts.VerdictIs` | sftp/reconcile.sh:169-235 | The verdict on an entry, from its name, switch and key field alone. |
| `Verdicts.NothingToRead` | sftp/reconcile.sh:143-154 | No manifest: nothing changes and exit 0; a manifest of the wrong shape: nothing changes and exit 1. |
| `Reconcile.HaltKeeps` | sftp/reconcile.sh:121-136 | At every point of the loop, so also when a failed write aborts it, a user's file is the previous one or what its own entry makes of it. |
| `Reconcile.ExitZeroIff` | sftp/reconcile.sh:278-282 | Exit 0 exactly when every entry is dropped by intent or installed successfully. |
| `Reconcile.ExitZeroIsExact` | sftp/reconcile.sh:168-276 | For any manifest with unique names, exit 0 leaves exactly the authorised key files, both directions. |
| `Reconcile.RepeatIsNoOp` | sftp/reconcile.sh:168-276 | After an exit-0 run, running again on the same manifest changes no key file, whatever provisioning and writing do. |
| `ReconcileScript.Reconciler.Reconcile` | sftp/reconcile.sh:143-282 | The script as it runs, with counters, text keep list and cleanup, computes the specified files and exit status. |
| `ReconcileScript.Reconciler.Visit` | sftp/reconcile.sh:169-258 | One pass of the loop body, in the script's order of tests, is one specified step. |
| `ReconcileScript.Reconciler.RemoveStale` | sftp/reconcile.sh:261-276 | Cleanup in any directory order keeps exactly the non-login names and the kept users. |
| `ReconcileScript.ListedIff` | sftp/reconcile.sh:268-269 | The space-delimited substring test on the keep list is set membership. |
| `ReconcileScript.BadKey` | sftp/reconcile.sh:224-229 | The inner loop reports a bad key exactly when some line fails the pattern. |
| `ReconcileScript.KeyLinesAreKeys` | sftp/reconcile.sh:222-229 | For single-line non-empty keys, the lines read back after printing and trimming are the keys. |
| `ReconcileScript.NewlinesInKeys` | sftp/reconcile.sh:222-229 | A newline inside a key makes two lines; newlines at the end of the list make none. |
| `ReconcileScript.ShellGrammar` | sftp/reconcile.sh:55-58 | The pattern in full: one of the six types, a space, base64 text, and perhaps a space and a comment without control characters. |
| `ReconcileScript.CanonicalPassesShell` | sftp/reconcile.sh:55-58 | Every canonical key of the Go parser passes the shell pattern. |
| `ReconcileScript.ValidKeyPassesShellIff` | sftp/reconcile.sh:55-58 | A valid key passes the pattern exactly when its text is its canonical form, optionally followed by a space and a comment without control characters. |
| `ReconcileScript.TabCommentRefused` | sftp/reconcile.sh:55-58 | A concrete valid key, with a comment that starts with a tab, that the pattern refuses. |
| `ReconcileScript.FailedWriteStrands` | sftp/reconcile.sh:255-258 | A concrete two-user run in which one failed write leaves a disabled user's key file in place. |
| `Poll.PollRounds` | sftp/entrypoint.sh:127-144 | The loop runs the reconciler in exactly the rounds whose digest differs from the previous round's. |
| `Poll.LastRunReadsFinalIff` | sftp/entrypoint.sh:127-144 | Once the manifest rests, the last run to start has read the final content if and only if it read what its own round had digested. |
| `Poll.LastRunReadsFinal` | sftp/entrypoint.sh:127-144 | It has read the final content when, in that one round, the content did not leave a value and return to it, even if an update fell between digest and read. |
| `Poll.KeyFilesConverge` | sftp/entrypoint.sh:127-144 | For a manifest driven by admin lock sections from first boot, the key files then match it for ever after, provided provisioning and writing succeeded in the last run. |
| `Poll.KeyFilesConvergeIff` | sftp/entrypoint.sh:138-141 | The key files match a manifest at rest, then and ever after, if and only if every user's file came out right in the last run. |
| `Poll.NeverRetried` | sftp/entrypoint.sh:138-141 | Once a resting manifest has been digested no further run starts, even if the last one failed. |
| `Poll.FailureStays` | sftp/entrypoint.sh:138-141 | One provisioning failure in the last run leaves the files wrong in every later round. |
| `Poll.FailureExample` | sftp/entrypoint.sh:138-141 | A concrete timeline: one user whose account creation fails once never gets its key file. |
| `Poll.MissedReturn` | sftp/entrypoint.sh:127-144 | A concrete timeline in which the last run read a superseded content. |
| `Manifest.UpdateOutcome` | internal/sftpadmin/store.go:66-84 | A failed update leaves the file unchanged; a successful one leaves a strictly valid version-1 document. |
| `Effects.EditAchieves` | internal/sftpadmin/server.go:357-371 | What each closure achieves, read off the list: create and seed append one enabled user with the canonical key; add-key and generate-key append it to the first entry of the name and leave the switch; status sets exactly the switch; delete removes a disabled entry; delete-key removes the first carrier, keeps the order, and empties and disables an enabled user left without a usable key. |
| `Effects.UpdateSucceedsIff` | internal/sftpadmin/store.go:66-84 | An update succeeds exactly when the file loads, the request is well-formed and fits, and the write goes through; then the edit is achieved, otherwise nothing changes. |
| `Effects.HandlerAchieves` | internal/sftpadmin/server.go:663-692 | A handler that goes through achieves the edit its request asks for; any other leaves the manifest alone. |
| `Effects.DisableRevokes` | internal/sftpadmin/server.go:684-692 | After a successful disable, and whatever else happens short of switching the user on again, a run that exits 0 leaves no key file for that user. |
| `Effects.CreateInstalls` | internal/sftpadmin/server.go:237-245 | After a successful create, a run that exits 0 leaves exactly the canonical key in the user's file. |
| `Effects.StrictIff` | internal/sftpadmin/store.go:328-355 | Strictly valid means valid, different names and valid keys only. |
| `Effects.LoadsIff` | internal/sftpadmin/store.go:269-287 | What loads: no file, or a version-1 document with valid and different names, whatever its keys. |
| `Manifest.EditIsLocal` | internal/sftpadmin/server.go:442-467 | No mutation closure touches, drops or reorders the entries of other users. |
| `Manifest.EditKeepsEnabled` | internal/sftpadmin/server.go:740-752 | No closure removes an enabled entry. |
| `Manifest.EditKeepsCanonical` | internal/sftpadmin/server.go:357-371 | Closures store canonical key text only. |
| `Manifest.RepairIsStrict` | internal/sftpadmin/store.go:229-267 | Repair keeps exactly the valid keys of every user, in order, and its final strict validation never fails. |
| `Manifest.RepairConserves` | internal/sftpadmin/store.go:237-255 | Entries before equal entries after plus the reported removals. |
| `Manifest.RepairNames` | internal/sftpadmin/store.go:251-254 | The report names exactly the users who had entries and now have none. |
| `Manifest.RepairSwitches` | internal/sftpadmin/store.go:250-254 | Exactly those users are disabled; no other switch moves. |
| `Manifest.RepairTwice` | internal/sftpadmin/store.go:229-267 | Repair of any loadable manifest succeeds, leaves valid keys only, touches nothing when nothing is invalid, and a second repair is a no-op. |
| `Effects.RepairReported` | internal/sftpadmin/store.go:229-267 | On the report that is returned: every user keeps its valid keys in order, the removed count makes up the difference, the users named are exactly those who had entries and no valid one, and exactly they are switched off. |
| `Effects.RepairHandled` | internal/sftpadmin/server.go:553-573 | The repair handler writes the repaired manifest, or changes nothing when the write fails. |
| `Manifest.ValidOnlyFacts` | internal/sftpadmin/store.go:240-249 | The kept keys are the valid ones, and the lengths agree exactly when all were valid. |
| `Manifest.StoredKeyIsAddressable` | internal/sftpadmin/server.go:424-467 | Every valid stored key has a fingerprint of the demanded shape under which it is found and something is removed. |
| `AdminStore.ValidateManifest` | internal/sftpadmin/store.go:328-355 | The loop with its seen map decides version 1, valid and unique names and, when strict, valid keys. |
| `AdminStore.RepairLoop` | internal/sftpadmin/store.go:236-255 | The in-place loops compute the repaired users and both report fields. |
| `AdminStore.KeepValid` | internal/sftpadmin/store.go:239-246 | The inner loop keeps the valid keys in order and counts the others. |
| `AdminStore.DropFirst` | internal/sftpadmin/server.go:447-455 | The loop of `deleteKey` removes the first key with the fingerprint and keeps the rest in order. |
| `AdminStore.UsableKeys` | internal/sftpadmin/server.go:460-463 | The count is the number of keys that pass canonical validation. |
| `AdminStore.FindKey` | internal/sftpadmin/server.go:424-437 | The two flags say whether an entry of that name exists and whether one of them has a valid key with the fingerprint. |
| `AdminStore.RunClosure` | internal/sftpadmin/server.go:237-245 | The closures of create, add-key, generate-key, status, delete, delete-key and seeding compute the specified edit or error. |
| `AdminStore.CollectLive` | internal/sftpadmin/server.go:564-571 | The nested loops collect the note ids of all valid keys. |
| `AdminStore.Store.Load` | internal/sftpadmin/store.go:269-287 | A missing file is an empty manifest, unreadable or loosely invalid ones are errors. |
| `AdminStore.Store.Update` | internal/sftpadmin/store.go:66-84 | The new file and error are those of the specified transaction; nothing is written unless closure and strict check succeed. |
| `AdminStore.Store.RemoveInvalidKeys` | internal/sftpadmin/store.go:229-267 | The new file and report are those of the specified repair. |
| `AdminStore.Store.StoreNote` | internal/sftpadmin/store.go:128-141 | Sets one note, or clears it when empty; a corrupt file and a failed write are errors that leave the file alone. |
| `AdminStore.Store.DropNote` | internal/sftpadmin/store.go:145-158 | Removes exactly that note; a missing one writes nothing, a corrupt file and a failed write are errors that leave the file alone. |
| `AdminStore.Store.Prune` | internal/sftpadmin/store.go:163-181 | In any map order, keeps exactly the notes in the keep set; writes only if one was dropped, with the same two errors. |
| `AdminStore.Store.Serve` | internal/sftpadmin/server.go:663-692 | Every handler, run alone, changes manifest and notes as specified, however each of its writes goes. |
| `Admin.EveryRunIsGood` | internal/sftpadmin/server.go:442-467 | With one handler at a time, every run from first boot keeps "an enabled user has a usable key" however writes go, and "every note belongs to a live valid key" as long as notes can be written. |
| `Admin.HandlerKeepsGood` | internal/sftpadmin/server.go:553-579 | Each single handler keeps both invariants, whether or not its manifest write succeeds. |
| `KeyNotes.HandlerGoodIff` | internal/sftpadmin/server.go:415-417 | From a good state a handler leaves a good state if and only if the request is not one that, with the manifest written and the notes not, deletes a user with a noted key or removes the last key of a user carrying a noted fingerprint. |
| `KeyNotes.AlwaysGoodIff` | internal/sftpadmin/server.go:409-417 | Over every run of handlers, both invariants hold at every point if and only if no request ever orphans a note. |
| `KeyNotes.LiveIff` | internal/sftpadmin/store.go:93-95 | A note id is live exactly when a valid key of that very user carries that fingerprint. |
| `KeyNotes.StrippedIff` | internal/sftpadmin/server.go:409-417 | Removing a key strips a surviving key of its note if and only if the note is that of the removed fingerprint, both writes succeed, and another key of the user carries it too. |
| `KeyNotes.TwinStripped` | internal/sftpadmin/server.go:409-417 | A concrete user with one key stored with and without a comment, where removing one strips the other of its note. |
| `Admin.OrphanNote` | internal/sftpadmin/server.go:415-417 | A concrete key removal with a failed notes write that leaves a note without a key. |
| `Admin.StatusKeepsGood` | internal/sftpadmin/server.go:663-692 | Enabling is refused without a usable key, so both invariants survive a status change. |
| `Admin.DeleteKeyKeepsGood` | internal/sftpadmin/server.go:409-417 | Removing the last usable key disables the user and takes its note along. |
| `Admin.DeleteKeepsGood` | internal/sftpadmin/server.go:740-772 | Deleting a user leaves no note behind. |
| `Admin.RepairKeepsGood` | internal/sftpadmin/server.go:558-573 | Repair never leaves an enabled user without a usable key, nor a dangling note. |
| `Admin.KeyNoteKeepsGood` | internal/sftpadmin/server.go:472-510 | A note is only attached to a key that is there. |
| `Effects.NoteIsSet` | internal/sftpadmin/server.go:472-510 | A note request for a key that is there stores that note, or clears it when empty, and leaves every other note; any refusal, such as more than 120 characters, changes nothing. |
| `Effects.PruneKeepsLive` | internal/sftpadmin/store.go:163-181 | Pruning keeps exactly the notes of live keys, each with its text. |
| `Effects.LiveNotesSurvive` | internal/sftpadmin/server.go:762-772 | No handler but a key removal or a note request touches the note of a key that is still live. |
| `Admin.NoteIdInjective` | internal/sftpadmin/store.go:93-95 | Note ids of valid users are distinct for distinct user or fingerprint. |
| `Admin.OtherNotesStay` | internal/sftpadmin/store.go:145-158 | Removing a key never touches a note under another user or another fingerprint. |
| `Admin.EnableRace` | internal/sftpadmin/server.go:663-692 | Interleaving a key deletion between check and write of an enable request yields an enabled user without keys. |
| `Keys.ParseByFields` | internal/sftpadmin/validate.go:52-79 | On one line the result depends on the white-space separated fields alone. |
| `Keys.FirstTwoFieldsDecide` | internal/sftpadmin/validate.go:52-79 | Two single-line texts with the same first two fields parse alike. |
| `Keys.AcceptedParts` | internal/sftpadmin/validate.go:52-79 | An accepted text is single-line, its first field an allowed type, its second base64 text, and the canonical form those two joined by a space. |
| `Keys.CanonicalIdempotent` | internal/sftpadmin/validate.go:52-79 | Canonicalising a canonical key gives the same text and the same blob. |
| `Keys.KeyGrammar` | internal/sftpadmin/validate.go:52-152 | A line is accepted exactly when its first two fields are an allowed type and base64 of a blob that decomposes into that type's fields. |
| `Keys.WrittenKeyAccepted` | internal/sftpadmin/validate.go:52-152 | Round trip: every key of an allowed type, written out with any comment, is accepted with its own blob and its own text as canonical form. |
| `Keys.FingerprintShape` | internal/sftpadmin/validate.go:156-159 | Every fingerprint has the 43-character shape the handlers check, and survives their trimming. |
| `Keys.FingerprintIff` | internal/sftpadmin/validate.go:85-95 | Two valid keys share a fingerprint exactly when the digests of their blobs agree. |
| `Keys.FingerprintDecodes` | internal/sftpadmin/validate.go:156-159 | A fingerprint is "SHA256:" and unpadded base64 that decodes to the digest of the blob. |
| `Keys.ValidFingerprintIff` | internal/sftpadmin/validate.go:95-102 | What the handlers take for a fingerprint, character by character. |
| `Keys.UsernameIff` | internal/sftpadmin/validate.go:27-35 | A login name in plain letters, not one of the four reserved ones. |
| `Keys.SixTypes` | internal/sftpadmin/validate.go:52-79 | The six key types. |
| `Wire.CheckKeyBlobIff` | internal/sftpadmin/validate.go:106-152 | The check accepts exactly the encodings of the type name followed by fields of the required sizes, with nothing behind; the decomposition is unique; no slice goes out of range below 4 GiB. |
| `Wire.ReadWireIff` | internal/sftpadmin/validate.go:143-152 | Reading a field is the inverse of writing it, both ways. |
| `Wire.LengthBytes` | internal/sftpadmin/validate.go:143-152 | Lengths are read most significant byte first. |
| `Wire.Ed25519Layout` | internal/sftpadmin/validate.go:115-119 | An ed25519 key, plain or on a security key, is accepted exactly with thirty-two bytes. |
| `Wire.RsaLayout` | internal/sftpadmin/validate.go:106-140 | An RSA key is accepted exactly with an exponent of one to eight bytes and a modulus of at least thirty-two. |
| `Wire.EcdsaLayout` | internal/sftpadmin/validate.go:106-140 | An ECDSA key is accepted exactly with the curve of its type and a point that is not empty. |
| `Wire.TypeAnnounced` | internal/sftpadmin/validate.go:106-114 | A blob that announces another type is refused. |
| `Wire.PanicsExactly` | internal/sftpadmin/validate.go:143-152 | The slice bounds go wrong exactly when the announced length makes 4+n wrap and the blob is that long. |
| `Wire.PanicExample` | internal/sftpadmin/validate.go:143-152 | A concrete 4 GiB blob on which the slice bounds go wrong. |
| `Base64.DecodeEncode` | internal/server/links.go:304-341 | Decoding undoes encoding for every byte string, in the padded standard and the unpadded URL alphabet. |
| `Base64.Alphabets` | internal/server/links.go:304-341 | The standard and the URL alphabet, character by character. |
| `Base64.Vectors` | internal/sftpadmin/validate.go:156-159 | The test vectors of section 10 of RFC 4648, padded and unpadded. |
| `Base64.DecodableText` | internal/sftpadmin/validate.go:52-79 | What decodes, once CR and LF are dropped, consists of alphabet and padding characters. |
| `LinkSession.SignVerifyIff` | internal/server/links.go:304-341 | A signed token verifies for an id under a key exactly when the key is not empty, the id is the signed one and dot-free, the expiry is not past, and both keys give the same MAC. |
| `LinkSession.VerifyIff` | internal/server/links.go:313-341 | For every cookie, acceptance means it decodes to the id, a dot and a decimal expiry not yet past, under a matching MAC; nothing else is accepted. |
| `LinkSession.ParseFormat` | internal/server/links.go:304-341 | Printing and parsing an expiry round-trips over all of int64. |
| `LinkSession.ParseIntIff` | internal/server/links.go:313-341 | An expiry parses exactly when it is an optional sign and digits within int64, to the number they write. |
| `LinkSession.TokenText` | internal/server/links.go:304-311 | The token is base64 of the id, a dot and the decimal expiry, then a dot, then base64 of the MAC of those bytes. |
| `LinkSession.FormatExample` | internal/server/links.go:304-311 | The decimal text of -120. |
| `Pending.PendingKeys.Put` | internal/sftpadmin/server.go:638-638 | A generated key waits under its token with an expiry ten minutes ahead. |
| `Pending.PendingKeys.Take` | internal/sftpadmin/server.go:899-918 | A request removes the entry and gets it only if present, not expired and the token is not empty. |
| `Pending.DeliveryHasOneSource` | internal/sftpadmin/server.go:899-918 | Every key handed out was put there under that token at most ten minutes before, with no request for it in between. |
| `Pending.NeverTwice` | internal/sftpadmin/server.go:899-918 | Two deliveries never come from the same stored key. |
| `Pending.DeliveriesBounded` | internal/sftpadmin/server.go:899-918 | Over every run, deliveries plus what still waits never exceed what was stored. |
| `Pending.DeliveredIff` | internal/sftpadmin/server.go:899-918 | A request gets a user's private key exactly when that key was the last thing stored under its token, nobody has asked since, and no more than 600 seconds have passed. |
| `Login.Compact` | internal/sftpadmin/session.go:98-112 | The in-place compaction of the shared slice is a filter, and leaves the rest of the array alone. |
| `Login.AuthState.RecentFailures` | internal/sftpadmin/session.go:98-112 | Returns and stores the recent failures; an empty list leaves no entry. |
| `Login.AuthState.LoginAllowed` | internal/sftpadmin/session.go:76-80 | Allowed exactly when fewer than five failures are recent. |
| `Login.AuthState.RecordFailure` | internal/sftpadmin/session.go:83-87 | Appends one stamp to the recent failures. |
| `Login.AuthState.RecordSuccess` | internal/sftpadmin/session.go:90-94 | Forgets the address, and only it. |
| `Login.AuthState.Login` | internal/sftpadmin/server.go:159-178 | One login request, with its three clock readings, is one specified step. |
| `Login.StoredIsRecentHistory` | internal/sftpadmin/session.go:98-112 | At any later time the stored failures and the full history since the last success have the same recent part. |
| `Login.BlockedByHistory` | internal/sftpadmin/session.go:76-80 | The limiter blocks exactly when five failures of the full history are recent. |
| `Login.FivePerMinute` | internal/sftpadmin/server.go:159-178 | With one login at a time, no span of 60 seconds between successes holds more than five failures of an address. |
| `Login.RefusedIff` | internal/sftpadmin/session.go:76-112 | An attempt is refused exactly when at least five failures of its address lie in the 60 seconds before it. |
| `Login.BurstBlocks` | internal/sftpadmin/session.go:76-112 | Five failures at one moment block the address until exactly 60 seconds later and no longer; four never do. |
| `Login.SuccessForgets` | internal/sftpadmin/session.go:90-94 | A good login that is let through forgets the failures of its address, and only those. |
| `Settings.SettingsFile.ApplySettings` | internal/sftpadmin/settings.go:105-144 | For every iteration order of the submitted map the saved document and the error map are the same, order-free ones. |
| `Settings.AppliedFields` | internal/sftpadmin/settings.go:112-143 | Applied exactly when the file loads, no value is refused and the save goes through; then each of the five fields holds the value submitted under its own key, blank secrets excepted, and otherwise its old value. |
| `Settings.FieldErrorsIff` | internal/sftpadmin/settings.go:130-142 | Field errors are reported for exactly the refused values and mean that nothing was saved. |
| `Settings.TryOne` | internal/sftpadmin/settings.go:115-138 | The loop body takes one submitted value or reports its problem, as specified. |
| `Settings.RoundOnValid` | internal/config/shared.go:28-45 | From a valid document one round fails exactly for the submitted value's own sake, and leaves a valid document. |
| `Settings.MergedValid` | internal/config/shared.go:28-45 | The document to be saved is always valid. |
| `Settings.AllOrNothing` | internal/sftpadmin/settings.go:140-143 | The file afterwards is the old one or the complete valid new one; any field error means the old one. |
| `Settings.DisjointCommute` | internal/sftpadmin/settings.go:105-144 | Two successful transactions on disjoint fields commute and equal one transaction with both. |
| `Config.CheckPrefix` | internal/config/config.go:204-225 | The loop with early return computes the specified prefix or refusal. |
| `Config.PrefixIsClean` | internal/config/config.go:204-225 | An accepted prefix is the trimmed text itself, made of proper segments only, so cleaning never changes it. |
| `Config.SharedTopEligible` | internal/config/config.go:76-86 | The first segment of an accepted prefix is a servable namespace. |
| `Config.PrefixIff` | internal/config/config.go:204-225 | A prefix is accepted exactly when its trimmed text is proper segments joined by slashes, without a backslash, perhaps followed by slashes. |
| `Config.EligibleIff` | internal/config/config.go:76-86 | A namespace is a login name or the first segment of an accepted shared prefix, and nothing else. |
| `Config.SharedTopIs` | internal/server/links.go:273-279 | The shared top directory is the first segment of the prefix. |
| `Config.CleanLaws` | internal/store/store.go:278-278 | Cleaning drops empty and dot segments, a double dot undoes one segment, and nothing climbs above the root. |
| `Config.DigestIff` | internal/hash/hash.go:31-55 | A well-formed digest: 32 or 64 characters out of 0-9 and a-f, by algorithm. |
| `Config.WithinRootIff` | internal/store/store.go:330-341 | The relative-path test accepts exactly the paths strictly below the root. |
| `Config.CleanJoined` | internal/store/store.go:278-278 | Cleaning the rooted text of proper segments gives the segments back. |
| `Config.ValidHex` | internal/hash/hash.go:43-55 | Accepts exactly lower-case hex text of the algorithm's length. |
| `Listing.ListingExact` | internal/store/store.go:152-248 | The listing is strictly increasing, each entry describes a regular file in an eligible namespace with its own path, size and hashes, and every shareable file has exactly one entry. |
| `Listing.ListedTells` | internal/store/store.go:205-245 | Each listed entry's path, directory and size are those of the file, its directory hash is the digest of the directory text, and its file hash the digest of the contents, or of the last segment when hashing by name. |
| `Listing.ShareableIff` | internal/store/store.go:182-248 | A file is shareable exactly when it lies in an eligible namespace behind open directories, the algorithm is md5 or sha256, and it is readable or hashed by name. |
| `Listing.LessIff` | internal/store/store.go:175-175 | The order is by proper prefix or the smaller character where two paths first differ. |
| `Listing.RootTrouble` | internal/store/store.go:152-162 | A missing or unreadable root serves nothing; any other trouble with it is an error. |
| `Listing.WalkSound` | internal/store/store.go:182-248 | Each entry of a namespace walk describes a file the walk reaches. |
| `Listing.WalkComplete` | internal/store/store.go:182-248 | Each file the walk reaches is listed unless its hash is omitted. |
| `Listing.WalkDistinct` | internal/store/store.go:205-217 | Distinct files get distinct logical paths. |
| `Listing.ListedHashes` | internal/hash/hash.go:82-95 | Every listed pair of hashes is well-formed for the algorithm. |
| `Listing.SortSorted` | internal/store/store.go:175-175 | With distinct paths, sorting gives a strictly increasing listing. |
| `HashCache.CacheKeyInjective` | internal/store/store.go:254-254 | Equal NUL-joined cache keys mean the same absolute path, algorithm and target, even across configurations. |
| `HashCache.ScanAgrees` | internal/store/store.go:253-269 | Over a cache of true hashes, a cached scan is the fresh scan of the tree it sees, and leaves a cache of true hashes. |
| `HashCache.ScanKeepsSeen` | internal/store/store.go:253-269 | A scan leaves a cache under which the same tree is seen the same way, so scanning again lists the same. |
| `StoreRuns.CachedScanMeans` | internal/store/store.go:93-107 | Over every run of edits, listings, resolves and configuration swaps in which path, size and mtime never name two contents, each scan equals the fresh scan of the tree in which files the cache answers for count as readable. |
| `HashStore.CachedListingTells` | internal/store/store.go:205-269 | In every such run each listed entry names a served file, with the digest of its directory text and the digest of the contents that its path, size and mtime name. |
| `StoreRuns.CacheInvisible` | internal/store/store.go:253-269 | If moreover no cached file has become unreadable, the scan equals one that hashes every file afresh. |
| `StoreRuns.CacheInvisibleIff` | internal/store/store.go:253-269 | Over every such run and for every configuration and root, a scan equals the fresh one, failures included, if and only if, under content hashing of an open root, what halts the fresh scan halts the cached one, and where nothing does, no served file is unreadable while cached under its size and mtime. |
| `StoreRuns.TopFailsIff` | internal/store/store.go:183-237 | A content-hashing scan fails exactly when it meets, in an eligible namespace, a broken directory or an I/O error on a file the cache does not answer for. |
| `StoreRuns.ChmodShows` | internal/store/store.go:255-261 | A concrete run in which a file turning unreadable makes the cached scan list what the fresh one omits or fails on. |
| `StoreRuns.RootDoesNotMatter` | internal/store/store.go:205-217 | The same tree under two container roots is listed identically by any two stores, after any sane runs, whose caches are harmless at that moment. |
| `HashStore.Store.constructor` | internal/store/store.go:56-58 | A new store has the configuration and an empty cache. |
| `HashStore.Store.Swap` | internal/store/store.go:93-98 | A changed configuration empties the cache, an equal one keeps it. |
| `HashStore.Store.ContentHash` | internal/store/store.go:253-269 | Hash and new cache are those of the cached lookup. |
| `HashStore.Store.VisitFile` | internal/store/store.go:198-246 | The walk callback appends the file's entry, skips it, or ends the walk. |
| `HashStore.Store.ScanNamespace` | internal/store/store.go:182-248 | The recursive walk appends the entries of one namespace and updates the cache as specified. |
| `HashStore.Store.ScanAll` | internal/store/store.go:152-177 | The whole scan, with its loop over top-level directories and its sort. |
| `HashStore.Store.List` | internal/store/store.go:82-86 | A listing is a scan under the live configuration and one step of the run model. |
| `HashStore.Store.ListWith` | internal/store/store.go:102-107 | Swap and scan under one configuration. |
| `HashStore.Matching` | internal/store/store.go:133-138 | The loop collects the entries that carry the pair, in order. |
| `HashStore.Store.ResolveLocked` | internal/store/store.go:125-150 | Malformed pairs are refused without a scan; otherwise the outcome is that of the scanned entries. |
| `HashStore.Store.Resolve` | internal/store/store.go:110-114 | Resolving under the live configuration is one step of the run model. |
| `HashStore.Store.ResolveWith` | internal/store/store.go:118-123 | Swap and resolve under one configuration. |
| `HashStore.ResolveOverRuns` | internal/store/store.go:116-150 | In every such run, whatever has become unreadable: a malformed pair is Invalid, a failing scan an Error, and otherwise the outcome is NotFound, the entry at its path, or Conflict exactly as the store's own listing of that moment has none, one, or several carriers. |
| `HashStore.ListedLinkWorks` | internal/store/store.go:100-150 | Resolving the pair of an entry the store has just listed opens that entry at its own path, unless another listed entry carries the pair. |
| `Resolve.ResolveExact` | internal/store/store.go:125-150 | On a quiet tree the outcome is NotFound, the entry, or Conflict exactly when zero, one or several entries carry the pair, and a found path is the regular file that entry describes. |
| `Resolve.ListedPairResolves` | internal/store/store.go:125-150 | The pair of a listed entry opens that entry unless another entry carries it too. |
| `Resolve.OpenInvertsScan` | internal/store/store.go:273-328 | An entry of the scan opens at the root plus its own path, the very regular file the scan saw, wherever links elsewhere lead. |
| `Resolve.OpenPathIff` | internal/store/store.go:273-341 | For every file system and every entry: a path is opened exactly when following links leads to a regular file strictly below the root in an eligible namespace. |
| `Resolve.OpenTroubleIff` | internal/store/store.go:293-323 | A server error instead of NotFound comes only from a file system that fails to follow or stat an allowed path. |
| `Scope.FilterByScope` | internal/server/links.go:283-296 | Admin links see everything; user links see exactly the entries of the shared top directory and their own, in order. |
| `Scope.ScopeIsRestriction` | internal/server/links.go:283-296 | Filtering a listing by a user equals listing the tree restricted to the shared top directory and that user's: nothing else appears, nothing is lost. |
| `Scope.ScopeShows` | internal/server/links.go:283-296 | A user link shows a file exactly when it is shareable and lies in the shared top directory or the user's own. |

## Left out

- HTTP routing, templates, cookies, CSRF and response codes around the modelled operations: plumbing.
- Real file I/O, fsync, modes and owners: a rename is one atomic replacement, writes succeed or fail as a parameter.
- Account, group and directory creation in `reconcile.sh`: an outcome per entry. `rm -f` is taken to succeed.
- `reconcile.sh` reads the manifest with several `jq` calls; one run is taken to read one version of the file.
- Usernames and key-file names that span several lines, and locale variants of `[:cntrl:]`: the admin side never writes them.
- The `stat` fallback of the polling loop, whose digest need not separate contents.
- SHA-256, MD5, HMAC, bcrypt, token generation and constant-time comparison: arbitrary functions of the right shape.
- Text is a sequence of Unicode code points; invalid UTF-8 in names and keys is not represented.
- Concurrent handlers for the notes invariant and for the five-failure bound: check and write are separate lock sections, so these are stated for one handler at a time.
- Relative container roots and Windows path separators.
- File trees that change during a scan: a scan sees one tree. Where links lead is arbitrary in `Resolve`, not computed.
- Settings keys are an enumeration plus "any other name", and error texts are the problem they report.
- The "Saved" notice and log loop after a settings submission, which does not consult the outcome of the transaction.
- `internal/links` (a map behind a mutex, shared by two processes with process-local locks), link passwords and expiry pages: only easy single-process claims hold.
- `CheckFilesystem`, environment loading, install and upgrade scripts, container files: deployment glue.
