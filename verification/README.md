# LukePanel, verified models

Dafny models of the parts of LukePanel that do more than pass data on, and proofs of what
they are relied on for. `dafny verify dfyconfig.toml` checks everything. Where the source
changes things in place, the model does too: a class with the fields of the Go type, arrays
for its buffers and slices, loops with invariants, and each method proved against a
specification that has lemmas of its own.

| module | what it models |
|---|---|
| `LineDiff`, `LineDiffOrder` | the diff of a file and its backup: `uint16` table of longest common subsequences, backtrace, fallback for large inputs. The result is a sequence of tagged lines |
| `Blake2b`, `Rfc7693`, `Blake2bMixing` | the streaming digest with its held-back block and two-word counter, for any compression function; section 3 of RFC 7693 over indexed words; and the compression function against it |
| `Splitting`, `AuditTail`, `AuditFiles`, `AuditIndex` | the audit log: reading a file backwards, rotation and queries over the chain of files, and the index worker interleaved with writers |
| `Octets`, `Cbor`, `CborRoundTrip`, `CborValues`, `CborInputs` | the CBOR decoder against the encoding of section 3 of RFC 8949, both ways, where its values differ, and what it makes of input that is no encoding |
| `LoginAttempts`, `LoginBound`, `LoginLimiter` | lock-out after failed logins: the entry of one key, how many failures it lets through when logins overlap, and the limiter with all its keys |
| `FileTree`, `TreeCopy`, `TreeRollback`, `SnapshotItems`, `SnapshotRestore`, `Snapshots` | a file system in which every operation can fail, the recursive copy, why a rollback path by path works, creating and restoring snapshots |
| `ConfigRuns`, `StagedRestore` | runs of the requests that replace the configuration, in use and on file; the swap of staged panel data with commit and rollback, and the import that uses it |
| `ContainerRecreate` | replacing a Docker container when any call can be refused, or take effect and be reported as failed |
| `Text`, `SecondFactor` | second factor, recovery codes and configuration transactions; slices are arrays, so that sharing would show |
| `Pbkdf2` | the loops against section 5.2 of RFC 8018 |
| `StreamDemux` | the Docker log stream |
| `Fstab` | adding and removing the swap entry |

## How failure is modelled

File operations and API calls fail by nondeterministic choice. Ghost counters tell how many
failed, so that a rollback can be specified by what went wrong: for instance, "if the
operation that stopped it was the only one to fail, everything is as before". A fault is a
failure for which the state gives no reason. A removal or a copy that fails leaves anything
at its path.

## Findings

Where the code does less than one would expect, the model follows the code, and a lemma says
exactly when it does what is expected.

- A failure recorded while a key is locked ends the lock if and only if it comes more than 15
  minutes after the window began, in every run: `LoginAttempts.FailureKeepsLockIff`
  (`internal/auth/ratelimit.go:41-43`). It takes a login that was checked before the lock, as in
  the run of `LoginAttempts.FailureCanEndLock`.
- The check of a login and the failure it records are separate calls, with the password
  verified in between (`internal/server/server.go:251`, `:270`, `:277`, `:284`). So the number of
  failures that the limiter lets through depends on how many logins are in flight at once: with
  at most `c` of them, at most `2 * c + 6` in any half-open 15 minutes, `LoginBound.AtMost`, and
  that many for every `c`, `LoginBound.BoundIsReached`. Logins that do not overlap fail at most
  eight times rather than five, `LoginBound.AtMostEight`; without a limit on those in flight
  there is no bound, `LoginBound.BurstIsUnbounded`. The two slots for password hashing
  (`internal/auth/password.go:154-158`) are no such limit: who waits for one has been let in.
- `Query` loads the ready flag and the pending counter one after the other. If both loads pass,
  the index is complete if and only if no insert has failed before the second:
  `AuditIndex.TwoLoadsIff`; `AuditIndex.TwoLoadsCanMiss` is a run in which one has
  (`internal/server/audit.go:127`).
- An import saves the configuration without the lock that every other request holds from clone
  to assignment, and takes it only to assign (`internal/server/backup.go:449-455`). If another
  request saves between the two, the file and the configuration in use differ until the next
  save: `ConfigRuns.ImportInStepIff` says exactly when, and `ConfigRuns.LoginDuringImport` is the
  login with a recovery code that does it.
- An import also brings back the recovery codes of the archive, used ones included:
  `SecondFactor.ImportBringsCodesBack`.
- CBOR integers are decoded exactly if and only if their argument is below 2^63. A valid item is
  decoded to the value RFC 8949 gives it if and only if all its integers are, it has no tag and
  no undefined, and it does not panic: `CborValues.ExactIffRepresentable`
  (`internal/auth/webauthn.go:269-271`, `:311-313`, `:320-321`). `CborValues.UndefinedIsLost`,
  `CborValues.TagIsLost` and `CborValues.EntryIsLost` are the shortest items that are not; the
  last loses one of two entries of a map.
- Decoding panics if and only if a list is longer than an allocation can be or a map key is,
  through tags, an array, map or byte string: `CborValues.PanicsIff`;
  `CborValues.ByteStringKeyPanics` does it in three octets (`internal/auth/webauthn.go:285`,
  `:308`).
- Removing the swap entry undoes adding it if and only if the file has no line that is a
  LukePanel marker (`internal/hostadmin/settings.go:366-376`).
- Copies drop the set-user, set-group and sticky bits (`internal/snapshots/manager.go:247`,
  `:291`), so a snapshot, and also a rollback, gives back the exact tree if and only if no file
  has any: `FileTree.PlainIffNoSpecialBits`.
- Restoring an item that was missing makes the directory it would be in
  (`internal/snapshots/manager.go:207`). A successful restore of a snapshot of one tree gives
  back every path if and only if each such directory that was missing, and lies in the path of
  an earlier item, is itself in the path of a later one: `TreeRollback.UndoneIffHarmless`, and
  for the whole round trip `Snapshots.RoundTrip`; `TreeRollback.SecondTurnIsHarmless` has both
  cases. A rollback works wherever the paths lie. The callers' constant lists of paths are not
  nested (`internal/agent/server.go:1174-1834`, `internal/aptadmin/manager.go:143-144`, `:190`),
  and a Compose project names files (`internal/agent/server.go:1584`), of which none lies in
  another: `SnapshotRestore.ScatteredIsHarmless`.
- A rollback of `Restore` removes the copies it works from even if one of them was not put back
  (`internal/snapshots/manager.go:130`). If one more operation fails, in the rollback, the content
  of the path is then nowhere: `Snapshots.Manager.RestoreItems`. An import of a backup does the
  same with the data it has set aside (`internal/server/backup.go:584-594`): if the rename that
  puts it back is the one operation that fails in a rollback, the root has no content any more,
  in neither place: `StagedRestore.Installation.Rollback`.
- An identifier made from a kind of more than 54 characters is refused by `Restore`:
  `Snapshots.Manager.Restore` with `SnapshotItems.ValidIdIff` (`internal/snapshots/manager.go:55`,
  `:317`). No caller makes one: outside tests every kind is a constant of at most 11 characters
  (`internal/agent/server.go:1174-1834`, `internal/aptadmin/manager.go:144`, `:190`).
- A container rename or creation that takes effect though its answer is lost is not undone,
  and after such a creation under the old name the old container keeps its backup name,
  although the error says it was restored (`internal/dockerapi/client.go:1083`, `:1108`).

## Model

| member | source | states |
|---|---|---|
| `LineDiff.UnifiedLineDiff` | internal/files/versions.go:179-235 | the diff's old and new sides are the two clipped texts; below the size limit no script has fewer changes, and it is the first of those with as few; above it no single-block script has fewer; the flag tells exactly when lines were cut or the fallback was used |
| `LineDiff.TableDiff` | internal/files/versions.go:197-234 | table and backtrace together give a script with the fewest changes of all scripts |
| `LineDiff.FillTable` | internal/files/versions.go:197-211 | every `uint16` cell is the LCS length of the two suffixes, so none wraps |
| `LineDiff.FillRow` | internal/files/versions.go:202-210 | one pass of the outer loop fills its row and leaves the others |
| `LineDiff.Backtrace` | internal/files/versions.go:214-233 | the lines emitted are a script of both texts with exactly LCS unchanged lines, the first such script |
| `LineDiffOrder.FirstPrecedes` | internal/files/versions.go:214-227 | that script comes before every other script that keeps as many lines: at their first difference it has the unchanged line before the removed one before the added one |
| `LineDiffOrder.TableDiffIsFirst` | internal/files/versions.go:192-233 | so it is the first of all scripts with the fewest changes |
| `LineDiff.LcsIsUpperBound` | internal/files/versions.go:201-211 | no script keeps more lines than the LCS, so none has fewer changes |
| `LineDiff.OptimalIffLcs` | internal/files/versions.go:192-193 | a script has the fewest changes if and only if it keeps LCS many lines |
| `LineDiff.LcsScript` | internal/files/versions.go:203-209 | a script that keeps LCS many lines exists for every pair of suffixes |
| `LineDiff.LcsStep` | internal/files/versions.go:203-209 | neighbouring cells differ by at most one, which makes the greedy choice safe |
| `LineDiff.PrefixBound` | internal/files/versions.go:215-227 | what a script has kept so far plus the cell it has reached never exceeds the whole |
| `LineDiff.SimpleChangedBlock` | internal/files/versions.go:237-261 | the fallback is a script of both texts, one changed block between maximal common ends, and no single-block script has fewer changes |
| `LineDiff.CommonEnds` | internal/files/versions.go:238-245 | prefix and suffix are common to both texts, do not overlap and cannot be extended |
| `LineDiff.EmitBlock` | internal/files/versions.go:248-259 | the four loops emit exactly the block between the ends |
| `LineDiff.MaximalCoversMost` | internal/files/versions.go:238-245 | taking the longest prefix first is never worse: no other pair of common ends covers more |
| `LineDiff.MaximalIsBlockOptimal` | internal/files/versions.go:237-261 | so the single block is the smallest possible |
| `LineDiff.BlockIsAffix` | internal/files/versions.go:248-259 | every single-block script comes from a pair of common ends |
| `LineDiff.BlockIsScript` | internal/files/versions.go:248-259 | every pair of common ends gives a script of both texts |
| `Blake2b.DigestOfChunks` | internal/crypto/blake2b/blake2b.go:54-109 | for every way of splitting a message, with or without key, the digest is the one of the whole message (RFC 7693, section 3.3) |
| `Blake2b.DigestOctet` | internal/crypto/blake2b/blake2b.go:106-108 | octet i of a digest is octet i modulo 8 of word i / 8 of the last chain value, the lowest octet first |
| `Blake2b.Digest.Write` | internal/crypto/blake2b/blake2b.go:63-88 | the message grows by the data and the last block stays in the buffer |
| `Blake2b.Digest.WriteRest` | internal/crypto/blake2b/blake2b.go:76-86 | all full blocks but the last are compressed, and a block is held back even when the length is a multiple |
| `Blake2b.Digest.FillBlock` | internal/crypto/blake2b/blake2b.go:71-74 | the buffered block is completed and compressed as the next block of the message |
| `Blake2b.Digest.Buffer` | internal/crypto/blake2b/blake2b.go:66-70 | what fits is appended to the buffer and nothing is compressed |
| `Blake2b.Digest.Reset` | internal/crypto/blake2b/blake2b.go:54-62 | the digest is again the one of the empty message, with the key block waiting if there is a key |
| `Blake2b.Digest.constructor` | internal/crypto/blake2b/blake2b.go:29-40 | a new digest has its key and no message |
| `Blake2b.Digest.New` | internal/crypto/blake2b/blake2b.go:29-40 | refuses exactly the sizes and keys that are out of range, the size first; otherwise a new digest |
| `Blake2b.Digest.Sum` | internal/crypto/blake2b/blake2b.go:89-93 | appends the RFC's digest of the message so far and leaves the state as it was |
| `Blake2b.Digest.Finalize` | internal/crypto/blake2b/blake2b.go:94-108 | works on copies, and the padded last block with the wound-back counter gives the RFC's final chain value |
| `Blake2b.Digest.WindBackTo` | internal/crypto/blake2b/blake2b.go:98-102 | the copied counter is the wound-back one and the digest's own stays |
| `Blake2b.FinalCounter` | internal/crypto/blake2b/blake2b.go:97-102 | borrow and carry cancel: the last block is compressed with the total byte count modulo 2^128, for every buffered length |
| `Blake2b.BumpAdds` | internal/crypto/blake2b/blake2b.go:129-132 | the two words with carry add one block modulo 2^128 |
| `Blake2b.HashBlocks` | internal/crypto/blake2b/blake2b.go:125-251 | the loop folds the compression function over the blocks, each with its own counter |
| `Blake2b.HashBlock` | internal/crypto/blake2b/blake2b.go:129-249 | one pass compresses one block with the counter already moved on |
| `Blake2b.RunIsChain` | internal/crypto/blake2b/blake2b.go:125-251 | from a fresh state, any number of blocks gives the RFC's chain value and counter |
| `Blake2b.RunRun` | internal/crypto/blake2b/blake2b.go:72-81 | blocks may be compressed in any number of calls |
| `Blake2b.HashWaiting` | internal/crypto/blake2b/blake2b.go:72-82 | compressing waiting blocks keeps the relation between state, message and buffer |
| `Blake2b.LastStep` | internal/crypto/blake2b/blake2b.go:94-104 | padding and the final flag give the RFC's last step |
| `Blake2b.ParameterWord` | internal/crypto/blake2b/blake2b.go:56 | the first word that `Reset` computes is the one of section 3.3 |
| `Blake2bMixing.Compress` | internal/crypto/blake2b/blake2b.go:133-248 | twelve interleaved rounds on sixteen variables, with the additions in the order of the source and the permuted schedule, and the feed-forward are the function F that section 3.2 defines over indexed words |
| `Blake2bMixing.HashOfChunks` | internal/crypto/blake2b/blake2b.go:26-108 | end to end: the digest of a message in any number of writes is its hash by RFC 7693, with the compression function of section 3.2 |
| `Blake2bMixing.MixRounds` | internal/crypto/blake2b/blake2b.go:142-240 | the loop over the stored schedule is the RFC's twelve rounds |
| `Blake2bMixing.MixRound` | internal/crypto/blake2b/blake2b.go:143-239 | all first halves before all second halves give the RFC's round, for any two halves of G |
| `Blake2bMixing.SourceHalves` | internal/crypto/blake2b/blake2b.go:144-173 | both halves of G as the source writes them are those of the RFC |
| `Blake2bMixing.RoundsAreMixed` | internal/crypto/blake2b/blake2b.go:142-240 | rounds over sixteen variables are rounds over sixteen indexed words if one round is |
| `Blake2bMixing.RoundIsMixed` | internal/crypto/blake2b/blake2b.go:143-239 | four columns and four diagonals, each computed from the words before it, are the eight assignments of G one after the other |
| `Blake2bMixing.WordIsLoaded` | internal/crypto/blake2b/blake2b.go:138-141 | the eight bytes or-ed together are the little-endian number they stand for |
| `Blake2bMixing.StartIsInitial` | internal/crypto/blake2b/blake2b.go:133-137 | chain value, IV, low counter word, high counter word and flag are where section 3.2 has them |
| `Blake2bMixing.FeedForwardIs` | internal/crypto/blake2b/blake2b.go:241-248 | the feed-forward is that of section 3.2 |
| `Blake2bMixing.ScheduleRow` | internal/crypto/blake2b/blake2b.go:110-123 | each stored row is the RFC's schedule row in interleaved order, rounds ten and eleven included |
| `Blake2bMixing.LoadStore` | internal/crypto/blake2b/blake2b.go:106-139 | message words are read in the byte order in which the digest is written |
| `AuditTail.ReadAuditTail` | internal/server/audit.go:457-505 | without an error the result is the first `limit` events of the whole file, newest first; each error has its cause |
| `AuditTail.ScanLines` | internal/server/audit.go:490-499 | the inner loop adds the events of a block's complete lines, newest first, up to the limit |
| `AuditTail.BlockLines` | internal/server/audit.go:481-489 | joining a block with the carried piece gives exactly the lines of the longer tail, however they straddle the edge |
| `AuditTail.NewestBehind` | internal/server/audit.go:471-503 | what has been read so far is always the newest part of the file |
| `AuditTail.StraddlingIsInALine` | internal/server/audit.go:500-502 | the length error can only come from a line that is too long |
| `Splitting.SplitAppend` | internal/server/audit.go:481-482 | what precedes a text changes only its first part |
| `AuditFiles.AuditLog.Write` | internal/server/audit.go:85-95 | with failing renames too, the files stay a newest-first prefix of the history, and an appended event is the newest; without failures the line is added to the live file, or, if that was full, to a new one, the full one being file 1 and every other one suffix up |
| `AuditFiles.AuditLog.Append` | internal/server/audit.go:89-94 | the event becomes the newest of the live file and of the chain |
| `AuditFiles.AuditLog.RotateIfNeeded` | internal/server/audit.go:439-455 | below the size limit nothing changes; else at most the oldest file's events are lost, and without failures every file moves up by one |
| `AuditFiles.AuditLog.Rotate` | internal/server/audit.go:447-454 | wherever a rename fails, only the oldest file's events can be lost |
| `AuditFiles.AuditLog.ShiftRotated` | internal/server/audit.go:448-453 | the loop moves files up without overwriting one, or stops with all of them |
| `AuditFiles.AuditLog.MoveUp` | internal/server/audit.go:449-452 | one rename keeps the events and their order, unless the removal before it had failed |
| `AuditFiles.AuditLog.QueryFiles` | internal/server/audit.go:374-409 | with the places of exactly the matching ones among the newest 50000 events in their order: the total is their number, and the page shows the events at those from the offset on, as many as the limit and the total allow; an error only if a block of a file cannot be read or a file has a line that is too long |
| `AuditFiles.Matching` | internal/server/audit.go:393-398 | the loop selects exactly the matching events, in their order |
| `AuditFiles.Paged` | internal/server/audit.go:393-408 | filter and page together |
| `AuditFiles.AuditLog.ReadNewest` | internal/server/audit.go:381-392 | reading file after file gives the newest events of the whole chain, or an error with its cause |
| `AuditFiles.KeptMove` | internal/server/audit.go:449-450 | moving a file up to a free place leaves the chain's events alone |
| `AuditFiles.KeptDrop` | internal/server/audit.go:447 | removing the last file drops exactly the oldest events |
| `AuditFiles.AppendEvent` | internal/server/audit.go:91-92 | a line added at the end of a terminated file is its newest event |
| `AuditFiles.TidyShift` | internal/server/audit.go:439-455 | without failures, every rotated file is full and the chain fills up to six |
| `AuditFiles.Normalize` | internal/server/audit.go:136-143 | a limit out of range becomes 300 and an offset out of range 0, others are kept |
| `AuditIndex.IndexIsComplete` | internal/server/audit.go:85-110 | after every interleaving the pending counter is the number of events in flight, no event is indexed twice, and ready with nothing pending means every returned write is indexed exactly once |
| `AuditIndex.StepKeepsInv` | internal/server/audit.go:174-204 | every step of writers and worker keeps the invariant, and the flag never comes back |
| `AuditIndex.RunKeepsInv` | internal/server/audit.go:85-204 | so does every run |
| `AuditIndex.ReadyMeansComplete` | internal/server/audit.go:124-127 | what the guard of an indexed query is for, in a single state |
| `AuditIndex.RunBalances` | internal/server/audit.go:85-204 | in every run each event past its increment is indexed, lost by a failed insert, or still to be inserted |
| `AuditIndex.CompleteIffNoneFails` | internal/server/audit.go:85-204 | with nothing pending, index and lost events together are the returned writes, so the index is complete if and only if no insert has ever failed |
| `AuditIndex.TwoLoadsIff` | internal/server/audit.go:127 | if both loads of `Query` pass, at any two points of any run, the index is complete if and only if no insert has failed before the second |
| `AuditIndex.TwoLoadsCanMiss` | internal/server/audit.go:127 | a run of seven steps in which the flag is set after four, nothing is pending after all, and a returned write is not in the index |
| `CborRoundTrip.RoundTrip` | internal/auth/webauthn.go:254-327 | decoding the RFC encoding of any item, with anything around it, gives its Go value and the exact end, or a panic exactly when there is no such value |
| `CborRoundTrip.DecodeEncoded` | internal/auth/webauthn.go:254-327 | the same at any offset, by recursion over the item |
| `CborRoundTrip.DecodedIsEncoded` | internal/auth/webauthn.go:254-327 | conversely, whatever is decoded was the encoding of an item with that value and end |
| `Cbor.Decode` | internal/auth/webauthn.go:254-327 | on arbitrary input the decoder ends, and a successful end lies behind the start and within the data |
| `CborInputs.PanicHasCause` | internal/auth/webauthn.go:254-327 | on any input at any offset: if decoding panics, there stands from that offset on the head of a list that is too long, or a key that Go cannot use with a value behind it |
| `CborInputs.CutOffFails` | internal/auth/webauthn.go:254-266 | where the input ends within the encoding of an item that would not panic, decoding fails, and does not panic |
| `CborInputs.PrefixFails` | internal/auth/webauthn.go:254-266 | so does every proper prefix of such an encoding, the empty one included |
| `CborInputs.NumberExamples` | internal/auth/webauthn.go:267-271 | 17 is 23, 18 64 is 100 and 20 is -1, as in appendix A of RFC 8949 |
| `CborInputs.ThousandExamples` | internal/auth/webauthn.go:338-343 | the octets 19 03 e8 are 1000 and 39 03 e7 are -1000 |
| `CborInputs.MillionExample` | internal/auth/webauthn.go:344-347 | 1a 00 0f 42 40 is 1000000 |
| `CborInputs.StringExamples` | internal/auth/webauthn.go:272-283 | a byte string and a text string of that appendix |
| `CborInputs.ListExample` | internal/auth/webauthn.go:284-294 | 82 01 02 is the list of 1 and 2 |
| `Cbor.DecodeCBOR` | internal/auth/webauthn.go:254-327 | the recursive procedure with its two loops computes the specification, failure and panic included |
| `Cbor.ReadItems` | internal/auth/webauthn.go:284-294 | the array loop |
| `Cbor.ReadPairs` | internal/auth/webauthn.go:295-310 | the map loop; a later value for a key replaces an earlier one |
| `CborRoundTrip.ReadHead` | internal/auth/webauthn.go:258-266 | an encoded head is read as its major type and argument, in every width |
| `CborRoundTrip.HeadRead` | internal/auth/webauthn.go:328-355 | whatever argument is read was encoded in one of the five widths |
| `CborValues.RepresentableIsExact` | internal/auth/webauthn.go:267-326 | an item without huge integers, tags and undefined that does not panic has the value RFC 8949 gives it, whatever its keys |
| `CborValues.PanicsIff` | internal/auth/webauthn.go:284-308 | an item has no Go value if and only if a list in it is too long or a key, through tags, is a byte string, list or map |
| `CborValues.EncodedPanicsIff` | internal/auth/webauthn.go:254-327 | so decoding the encoding of an item panics if and only if it is such an item |
| `CborValues.ByteStringKeyPanics` | internal/auth/webauthn.go:295-308 | three octets that panic |
| `CborValues.LongListPanics` | internal/auth/webauthn.go:284-285 | the head of a list that is too long is enough, whatever comes behind it |
| `CborValues.ExactIffRepresentable` | internal/auth/webauthn.go:267-326 | for items that are valid by RFC 8949, with distinct keys, the condition is exact: the decoded value says what the item says if and only if every integer fits, there is no tag and no undefined, and decoding does not panic |
| `CborValues.UndefinedIsLost` | internal/auth/webauthn.go:320-321 | undefined and null, two values of RFC 8949, decode to the same nil |
| `CborValues.TagIsLost` | internal/auth/webauthn.go:311-313 | a tagged zero decodes to zero |
| `CborValues.EntryIsLost` | internal/auth/webauthn.go:295-321 | five octets that are a valid map of two entries, under null and undefined, decode to a map of one |
| `CborValues.IntegerIsExactIff` | internal/auth/webauthn.go:268-271 | an integer is exact if and only if its argument is below 2^63 |
| `CborValues.IntegersWrap` | internal/auth/webauthn.go:268-271 | every integer is decoded to the one in the range of `int64` that differs from it by a multiple of 2^64 |
| `Octets.ReadBigEndian` | internal/auth/webauthn.go:338-352 | big-endian octets are read as the number they encode |
| `Octets.BigEndianRead` | internal/auth/webauthn.go:338-352 | and every octet string is the encoding of the number read |
| `Octets.FirstWeighsMost` | internal/auth/webauthn.go:338-352 | the first octet has the greatest weight |
| `LoginBound.AtMost` | internal/auth/ratelimit.go:24-50 | in every run in which each failure belongs to a check that let it in, at most 2c + 6 failures fall into any half-open 15 minutes, c being the most logins in flight at once that will fail |
| `LoginBound.BoundIsReached` | internal/auth/ratelimit.go:24-50 | for every c a run with c in flight and 2c + 6 failures, each with an allowed check of its own, shows that the bound is exact |
| `LoginBound.BurstIsUnbounded` | internal/server/server.go:251-270 | n logins that are let in before the first fails are n failures at one moment, for every n |
| `LoginBound.OneAtATime` | internal/server/server.go:251-270 | if each failure follows an allowed check with no failure in between, one login is in flight at a time |
| `LoginBound.AtMostEight` | internal/auth/ratelimit.go:24-50 | then no half-open 15 minutes hold more than eight |
| `LoginBound.EightIsReached` | internal/auth/ratelimit.go:41-47 | such a run with eight |
| `LoginBound.LetInBeforeLock` | internal/auth/ratelimit.go:30-47 | what fails within 15 minutes of a locking failure, and within its window, was let in before that failure |
| `LoginBound.WindowBound` | internal/auth/ratelimit.go:41-47 | of the failures of one window at most four do not lock, and those that do, with what follows them, were all in flight at the first of them |
| `LoginBound.OneRestart` | internal/auth/ratelimit.go:41-43 | no two failures less than 15 minutes apart both begin a window |
| `LoginAttempts.LockHolds` | internal/auth/ratelimit.go:30-32 | checks and clean-ups never end a lock early |
| `LoginAttempts.FailureKeepsLockIff` | internal/auth/ratelimit.go:41-47 | in every run, a failure during a lock prolongs it if the window is at most 15 minutes old, and ends it otherwise |
| `LoginAttempts.FailureCanEndLock` | internal/auth/ratelimit.go:30-47 | a run of checks and failures in which it ends one: every login is allowed by its check, the sixth before the fifth failure locks the key |
| `LoginLimiter.Limiter.KeyIsLimited` | internal/auth/ratelimit.go:24-56 | the bound of 2c + 6 for each key of the limiter, in every reachable state, since its last success or eviction; logins let in before that count as in flight |
| `LoginLimiter.Limiter.Allowed` | internal/auth/ratelimit.go:24-34 | refused exactly while the pruned entry is locked, with the time that is left |
| `LoginLimiter.Limiter.Fail` | internal/auth/ratelimit.go:36-50 | records the failure, after which at most 4096 keys remain, those with the latest last-seen times |
| `LoginLimiter.Limiter.Record` | internal/auth/ratelimit.go:40-48 | one key gets a failure and the others stay |
| `LoginLimiter.Limiter.Success` | internal/auth/ratelimit.go:52-56 | forgets the key and nothing else |
| `LoginLimiter.Limiter.Prune` | internal/auth/ratelimit.go:58-83 | drops what is stale, then the oldest keys above the limit |
| `LoginLimiter.Limiter.DropStale` | internal/auth/ratelimit.go:59-63 | keeps exactly the entries that are not stale |
| `LoginLimiter.Limiter.EvictOldest` | internal/auth/ratelimit.go:64-82 | no evicted key has a window that began, or a lock that ends, later than both of a kept one, and none is evicted without need |
| `LoginLimiter.Limiter.Candidates` | internal/auth/ratelimit.go:71-78 | every key once, with its window start or lock end, whichever is later |
| `LoginLimiter.SortBySeen` | internal/auth/ratelimit.go:79 | the same candidates in order of last-seen time |
| `LoginLimiter.OldestGone` | internal/auth/ratelimit.go:79-82 | deleting a prefix of the sorted candidates evicts the oldest |
| `FileTree.PlainIffNoSpecialBits` | internal/snapshots/manager.go:241-292 | a copy equals the original if and only if no special bit is set in it |
| `FileTree.PlainTwice` | internal/snapshots/manager.go:138-166 | copying a copy changes nothing, and a copy can always be copied |
| `FileTree.SizeOfOneMore` | internal/snapshots/manager.go:252-264 | the size of a directory does not depend on the order of its entries |
| `FileTree.SizeOfCopy` | internal/snapshots/manager.go:225-293 | a copy has the size of its original |
| `FileTree.ConfinedToKid` | internal/snapshots/manager.go:253-263 | a change inside an entry of a directory touches no other entry |
| `FileTree.SetElsewhere` | internal/snapshots/manager.go:225-293 | an edit at one path leaves paths beside it alone and keeps the directories above |
| `TreeCopy.CopyEntry` | internal/snapshots/manager.go:225-293 | into a free place: an exact copy but for special bits, and the sum of the file sizes; it fails only by a fault or for a special file, and touches nothing else |
| `TreeCopy.CopyDirectory` | internal/snapshots/manager.go:241-252 | the same for a directory, entry by entry |
| `TreeCopy.CopyKids` | internal/snapshots/manager.go:252-264 | the loop over the entries, with the sum of the sizes |
| `TreeCopy.CopyRegular` | internal/snapshots/manager.go:269-292 | the same for a file |
| `TreeCopy.CopyLink` | internal/snapshots/manager.go:226-240 | the same for a link |
| `TreeCopy.CopyKid` | internal/snapshots/manager.go:253-263 | one pass of the loop adds one entry to the partial copy |
| `TreeCopy.Disk.MkdirAll` | internal/snapshots/manager.go:231-242 | makes the path and what is missing above it, even when it stops half way |
| `TreeCopy.CopyOneMore` | internal/snapshots/manager.go:253-263 | a partial copy grows by exactly the copied entry |
| `Snapshots.Manager.Restore` | internal/snapshots/manager.go:121-168 | success: every item is as in the snapshot where no later one meets it, and every path is as in the tree the snapshot was taken of if and only if the paths are harmless; error: every path is as before but for special bits, wherever the paths lie, if nothing failed after the first error or if there was no fault at all; with one more failure the kept copies are gone too; paths that do not meet are restored, without a fault, if and only if stored copies and present contents allow it; nothing else changes |
| `Snapshots.Manager.RestoreItems` | internal/snapshots/manager.go:126-168 | the same by way of the temporary directory, which never meets the snapshot |
| `SnapshotRestore.RestoreAll` | internal/snapshots/manager.go:137-167 | capture, apply and roll back together |
| `Snapshots.Manager.Create` | internal/snapshots/manager.go:42-97 | the snapshot tells for each path whether it existed and holds a copy of it, with the sum of the sizes; without a fault it succeeds exactly for one to 32 paths that can be copied; an error leaves no snapshot |
| `Snapshots.Manager.Fill` | internal/snapshots/manager.go:61-94 | the items and the record of a snapshot |
| `Snapshots.RoundTrip` | internal/snapshots/manager.go:42-168 | whatever happens in between, a successful restore gives back every path as it was at creation, but for special bits, if and only if no directory that was missing then was made inside one for good; and what is given back is exact if and only if there were no special bits |
| `SnapshotRestore.ScatteredIsHarmless` | internal/snapshots/manager.go:152-157 | no such directory is made inside a path if the paths do not meet |
| `TreeRollback.MissingDirectoryAppears` | internal/snapshots/manager.go:206-215 | a directory that was missing, was made, and lies in no later item's path is in the end in every path that holds it |
| `Snapshots.CreatedIsTaken` | internal/snapshots/manager.go:61-94 | a snapshot is one of the tree at its creation |
| `SnapshotRestore.Capture` | internal/snapshots/manager.go:138-150 | everything a rollback needs is copied, before anything is changed |
| `SnapshotRestore.Apply` | internal/snapshots/manager.go:151-157 | restores item by item until one fails, and only at the items' paths; what is left of each, and exactly when all are as in the tree of the snapshot |
| `SnapshotRestore.ApplyOne` | internal/snapshots/manager.go:152-157 | one pass of it keeps what holds of the items restored so far |
| `SnapshotRestore.RestoreItem` | internal/snapshots/manager.go:206-223 | one path becomes the stored copy, or empty |
| `SnapshotRestore.PutBack` | internal/snapshots/manager.go:161-166 | the rollback puts every path back, even inside one another and with restored items in the way; if no path is inside another it meets no error but by a fault |
| `TreeRollback.StepProgress` | internal/snapshots/manager.go:161-166 | after each step of the rollback every path that no later step touches is undone, whether or not it is inside another |
| `TreeRollback.SameAbove` | internal/snapshots/manager.go:161-166 | putting the same content at a path leaves everything above it as it was |
| `TreeRollback.UndoneIffHarmless` | internal/snapshots/manager.go:152-157 | behind the last step every path is as in the tree of the snapshot if and only if each missing directory that was made inside an earlier path is in a later one |
| `TreeRollback.StepAdvances` | internal/snapshots/manager.go:152-157 | if so, after each step everything in a path that has had its turn, and in no later one, is there, in kind, permissions and data |
| `TreeRollback.MadeIsReplaced` | internal/snapshots/manager.go:206-215 | and so is every directory above one that was made, up to the path that holds it |
| `TreeRollback.StepMakes` | internal/snapshots/manager.go:206-208 | whether or not, after each step the directories made so far are there, but those in the path of a step since |
| `TreeRollback.SecondTurnIsHarmless` | internal/snapshots/manager.go:152-157 | a missing directory made inside a path does no harm if the path comes again, and does if it does not |
| `TreeRollback.Reachable` | internal/snapshots/manager.go:161-166 | when the turn of a path comes that no later step covers, nothing above it is in the way |
| `SnapshotItems.StoreAll` | internal/snapshots/manager.go:62-90 | the loop over the paths |
| `SnapshotItems.StoreOne` | internal/snapshots/manager.go:63-89 | one pass of it, the invalid path included |
| `SnapshotItems.WriteRecord` | internal/snapshots/manager.go:91-94 | writing the record leaves the items alone |
| `SnapshotItems.NumbersDiffer` | internal/snapshots/manager.go:68 | no two items are stored under one name |
| `SnapshotItems.ValidIdIff` | internal/snapshots/manager.go:316-321 | an identifier made by `Create` is accepted by `Restore` if and only if the kind has at most 54 characters |
| `SnapshotItems.ValidIdIsOneElement` | internal/snapshots/manager.go:316-321 | an accepted identifier is one path element, with no separator and no double dot in it |
| `StagedRestore.Panel.BackupImport` | internal/server/backup.go:438-463 | success means new data, the new configuration in use, and a file as the run with the steps of others between save and assignment leaves it; an error leaves the configuration, and the data too if nothing failed after the first error, or all of it but one root if one more did |
| `ConfigRuns.FileAfter` | internal/server/backup.go:449-455 | after any run the file is what was written last |
| `ConfigRuns.ImportInStepIff` | internal/server/backup.go:449-455 | in any run, the file is what is in use after an import if and only if nobody else wrote the file between its two steps, or wrote the very same last |
| `ConfigRuns.ImportCanDiverge` | internal/server/backup.go:449-455 | any transaction that saves something else between the two steps is in the file, and the import in use |
| `ConfigRuns.LoginDuringImport` | internal/server/backup.go:449-455 | a login with a recovery code between the two steps: the old configuration without the code in the file, the imported one in use |
| `ConfigRuns.TransactionsMend` | internal/server/totp.go:216-240 | requests under the lock keep configuration and file the same, and the next one that saves makes them so |
| `StagedRestore.InstallRestoredData` | internal/server/backup.go:566-641 | success swaps in every staged root and keeps the old ones aside; after a failure anywhere every root is as before, if nothing failed after it, and all but one, whose content is gone, if one more did |
| `StagedRestore.Installation.InstallRoot` | internal/server/backup.go:608-639 | one pass of the loop; wherever it stops, its move is recorded so that it can be undone |
| `StagedRestore.Installation.Undo` | internal/server/backup.go:579-591 | takes back one move, whether or not it was completed; if the rename fails the old content is still aside and, if nothing else fails, nothing is in its place |
| `StagedRestore.Installation.Rollback` | internal/server/backup.go:573-596 | every root is as before except where putting it back failed; one failure costs the content of at most one root, which is then in neither place; nothing happens the second time or after a commit |
| `StagedRestore.Installation.Commit` | internal/server/backup.go:597-603 | keeps every root and removes what was set aside; nothing happens the second time or after a rollback |
| `ContainerRecreate.RecreateContainer` | internal/dockerapi/client.go:1029-1128 | after every call the old container or the finished new one exists and others are untouched; success gives the new one, running if asked; without a failed call it succeeds unless the container is managed by Compose, removes itself or the request is invalid; after an error with working rollback calls all is as before if and only if the failed call was not a rename or creation that took effect |
| `ContainerRecreate.Rollback` | internal/dockerapi/client.go:1087-1097 | removes the new container and gives the old one its name and state back; without an error nothing is left over |
| `ContainerRecreate.StopOld` | internal/dockerapi/client.go:1098-1103 | stops the renamed container, or undoes the rename |
| `ContainerRecreate.CreateNew` | internal/dockerapi/client.go:1104-1111 | creates the new container, or brings the old one back if the creation did not take effect |
| `ContainerRecreate.StartNew` | internal/dockerapi/client.go:1112-1117 | starts the new container, or removes it and brings the old one back |
| `ContainerRecreate.DeleteOld` | internal/dockerapi/client.go:1119-1127 | deletes the old container, or leaves it over, stopped |
| `ContainerRecreate.Replace` | internal/dockerapi/client.go:1104-1127 | creation, start and removal of the old container, with all their failures |
| `ContainerRecreate.Daemon.Delete` | internal/dockerapi/client.go:1119 | a running container is only deleted by force |
| `ContainerRecreate.NothingLeft` | internal/dockerapi/client.go:1087-1097 | undoing the rename and the creation gives the containers of before |
| `ContainerRecreate.CoveredAppend` | internal/dockerapi/client.go:1081-1128 | safety of a run and its lost answers, call by call |
| `SecondFactor.Server.VerifySecondFactor` | internal/server/totp.go:185-209 | from any configuration in use, also one that an import has made differ from the file, answer and new configuration are those of the transaction on values; a code is used up only if the file was saved, and a saved file is the configuration in use |
| `SecondFactor.Server.SaveConfigWithSecondFactor` | internal/server/totp.go:214-242 | the same with a mutation that may write anywhere in its copy before it fails: nothing leaks into the configuration in use |
| `SecondFactor.Server.TakeFactor` | internal/server/totp.go:221-233 | which factor the code is, on the copy |
| `SecondFactor.Server.EnableSecondFactor` | internal/server/totp.go:101-112 | new secret and new hashes together, or neither |
| `SecondFactor.Server.DisableSecondFactor` | internal/server/totp.go:132-140 | no secret and no hashes, or nothing changed |
| `SecondFactor.Server.RegenerateRecovery` | internal/server/totp.go:163-173 | new hashes, or nothing changed |
| `SecondFactor.Server.ImportConfig` | internal/server/backup.go:415-455 | if accepted, administrator, password hash, second-factor secret, allowed roots, recovery codes, passkeys, allowlist and the other portable settings are the archive's, a missing refresh interval is 5, and endpoints and secrets of the machine, the key of the hashes among them, are as before; else nothing changed; if nothing comes between its two steps |
| `SecondFactor.Config.Clone` | internal/config/config.go:72-79 | the copy says the same and shares no slice |
| `SecondFactor.ConsumeRecoveryCode` | internal/auth/totp.go:87-99 | used if and only if a stored hash is the code's in either form; then exactly the first one is gone, in new storage |
| `SecondFactor.OneTimeOnly` | internal/server/totp.go:183-242 | over every run, imports included, a code, however spelled, is accepted at most as often as it was stored or issued |
| `SecondFactor.ImportBringsCodesBack` | internal/server/backup.go:449-455 | an import of a configuration with a used code lets it be used again |
| `SecondFactor.AcceptedIffEntitled` | internal/server/totp.go:183-242 | accepted if and only if no factor is set up, or the one-time code is right, or a stored recovery code is given, unless saving or the mutation fails or a transaction gets no code |
| `SecondFactor.NewCodeIsAccepted` | internal/server/totp.go:101-112 | every newly issued recovery code is accepted, white space around it or not |
| `SecondFactor.SpaceIsIgnored` | internal/server/totp.go:185-186 | white space around a code makes no difference to the answer or the configuration |
| `Text.TrimmedParts` | internal/server/totp.go:185-186 | what is trimmed off is white space, and what is left has none at its ends |
| `SecondFactor.RunBalance` | internal/server/totp.go:183-242 | hashes there or issued are those left, used up or replaced |
| `SecondFactor.StepBalance` | internal/server/totp.go:183-242 | the same for one event |
| `SecondFactor.UsesAreTaken` | internal/auth/totp.go:87-99 | every accepted use takes a hash of that code away |
| `SecondFactor.WorthWithout` | internal/auth/totp.go:92-94 | removing one hash changes the count by that hash alone |
| `SecondFactor.OnlyAcceptedChanges` | internal/server/totp.go:211-213 | whatever is not accepted and saved changes nothing |
| `SecondFactor.CallersKeepCodes` | internal/server/server.go:410-416 | the mutation for a new password, like the one for a new name, leaves recovery codes and their key alone |
| `SecondFactor.CallersChangeOneField` | internal/server/server.go:410-416 | an accepted change of the password or the name replaces the expected value and nothing else but a used recovery code |
| `Pbkdf2.DeriveKey` | internal/auth/password.go:288-309 | the loops compute section 5.2 of RFC 8018 for all lengths and at least one iteration, and as for one iteration below that |
| `Pbkdf2.DeriveBlock` | internal/auth/password.go:293-305 | one block is the exclusive or of its iterates |
| `Pbkdf2.XorInto` | internal/auth/password.go:302-304 | in place, byte by byte |
| `Pbkdf2.KeyByte` | internal/auth/password.go:292-306 | each byte of the key by its block and its iterates |
| `Pbkdf2.ShorterKeyIsPrefix` | internal/auth/password.go:308 | a shorter key is a prefix of a longer one |
| `Pbkdf2.BlockCount` | internal/auth/password.go:290 | enough blocks and not one too many, so the final slice is in range |
| `Pbkdf2.BlockIndexValue` | internal/auth/password.go:295 | the four octets behind the salt are the block index modulo 2^32 in network byte order |
| `Pbkdf2.FirstBlock` | internal/auth/password.go:295-296 | the first block begins with the function of the salt and the octets 0, 0, 0, 1 |
| `StreamDemux.DecodeStream` | internal/dockerapi/client.go:1440-1462 | the loop computes the walk over the frames, or the raw data |
| `StreamDemux.Demultiplex` | internal/dockerapi/client.go:1446-1461 | for any frames with an incomplete one, or none, behind them: their payloads; with an oversized one behind them: the data itself |
| `StreamDemux.EveryInput` | internal/dockerapi/client.go:1446-1461 | every input is frames followed by an incomplete or an oversized one, which decides the result |
| `StreamDemux.WalkFrames` | internal/dockerapi/client.go:1446-1460 | well-formed frames are taken off one by one |
| `Fstab.RemoveLine` | internal/hostadmin/settings.go:357-381 | the loop over the lines computes the specified text |
| `Fstab.KeptExactly` | internal/hostadmin/settings.go:364-379 | the lines kept are, in order, exactly those that are no marker, no entry for the path, and no empty line with nothing but entries between it and a marker before it |
| `Fstab.RoundTripIff` | internal/hostadmin/settings.go:346-381 | without a mention of the swap file, removing undoes adding, up to final newlines, if and only if there is no marker line |
| `Fstab.EntryRemoved` | internal/hostadmin/settings.go:346-381 | the one direction: every other line stays, in order |
| `Fstab.AddedOnce` | internal/hostadmin/settings.go:346-355 | a text that mentions the swap file is left alone, and adding the entry twice adds it once |
| `Fstab.RemovalHasNoMarker` | internal/hostadmin/settings.go:366-369 | the other: no marker line survives a removal |
| `Fstab.KeepAll` | internal/hostadmin/settings.go:364-379 | lines that are neither markers nor entries stay |
| `Fstab.JoinSplit` | internal/hostadmin/settings.go:364-380 | splitting and joining lines loses nothing |
| `Fstab.SplitJoin` | internal/hostadmin/settings.go:364-380 | and joining and splitting neither |

## Left out

- HTTP handlers, routing, sessions, CSRF, cookies, the agent proxy and the web front end: they pass data through.
- `systemctl`, `ufw`, `apt`, `sshd`, the GitHub and Telegram APIs: not part of any modelled transaction.
- LineDiff.UnifiedLineDiff: starts from lines, so it does not model `splitLines`, the two header lines and the final text.
- Blake2b.DigestOfChunks: holds for any compression function; that the one of the source is the RFC's is `Blake2bMixing.Compress`.
- AuditTail.ReadAuditTail: trimming and JSON decoding of a line are one parameter; memory and partial reads are not modelled.
- AuditFiles.AuditLog.Write: a line is appended whole or not at all; a partial write to a full disk is not modelled. JSON is a pair of functions that undo each other.
- AuditFiles.AuditLog.QueryFiles: the matching rule of `auditMatches` is a parameter, since it is a conjunction of comparisons.
- AuditIndex.IndexIsComplete: the index is a multiset with all-or-nothing batches; SQL, `ResetIndex`, rebuilding at start-up and `Close` are not modelled.
- Cbor.DecodeCBOR: recursion depth, the memory of a size hint for maps and the offset in an error return are not modelled; the array length at which allocation panics is a parameter.
- CborValues.ExactIffRepresentable: a text is its octets, which the decoder does not check to be UTF-8; floating-point numbers and items of indefinite length, which it refuses, are not items of the model.
- LoginLimiter.Limiter.Allowed: reads the clock once, where the source reads it again for the time that is left; times are whole numbers.
- Snapshots.Manager.Create: labels, notes, the list of snapshots and the pruning to 80 are not modelled; the identifier is assumed to be new, and no path to hold its directory: the copy would not end.
- Snapshots.Manager.Restore: no item's path is assumed to hold the snapshot directory or to lie in it: a copy into itself would not end. What a successful restore leaves of an item that a later one meets is only said for snapshots of one tree. JSON is a parameter, and unreadable JSON is one that decodes to nothing.
- Snapshots.Manager.RestoreItems: assumes the same of the items.
- SnapshotRestore.RestoreAll: assumes the same of the items.
- SnapshotRestore.Capture: assumes the same of the items.
- SnapshotRestore.Apply: assumes the same of the items.
- TreeCopy.CopyEntry: ownership is not modelled, `chmod` is assumed to work (its error is ignored in the source), paths are not resolved through links, and nothing else changes the tree meanwhile.
- StagedRestore.Panel.BackupImport: unpacking and checking the archive, sessions and the reloads after the commit are not modelled; saving the configuration replaces the file or fails, as the rename at its end makes it. Requests that use the data while it is swapped are not modelled.
- SecondFactor.Server.ImportConfig: is one step; what can come between its save and its assignment is in `ConfigRuns`. Checking the merged configuration (`Validate`) comes before it and is not modelled.
- StagedRestore.Installation.Rollback: a root is one value, so that a failed recursive removal may leave any value, and a rename onto it may succeed or fail.
- ContainerRecreate.RecreateContainer: the merge of the edited settings into the new container's is one value, validation of the request is one parameter, and the daemon changes nothing of its own accord during the run.
- SecondFactor.Server.EnableSecondFactor: the pending set-up with its ten minutes, and the confirming code, come before it and are not modelled.
- SecondFactor.ConsumeRecoveryCode: the keyed hashes and the time-based code check are parameters; timing of comparisons is not modelled.
- SecondFactor.OneTimeOnly: a code may be used again after an import that holds it, which counts as issuing. It is stated for mutations that leave the recovery codes and their key alone, as those of both callers do; without that a mutation could put codes back.
- Pbkdf2.DeriveKey: the pseudorandom function is a parameter of fixed output length; strength is not a subject here.
- StreamDemux.DecodeStream: decodes octets; the text is not checked to be UTF-8.
- Fstab.RemoveLine: works on the text; reading and writing the file can fail and are not modelled.
- Argon2, TOTP codes, password rules, the SSH port switch, statistics and sysctl presets: short or single-branch, or their source is not part of this model.
