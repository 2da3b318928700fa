# go-smb2 in Dafny

A model of the parts of go-smb2 whose correctness is a statement about whole runs or all inputs,
and proofs of those statements. `dafny verify dfyconfig.toml` checks everything.

## What is modelled

**The bulk journal** (`bulk/`). A relay uploads packages of file operations; the backend decodes a
package, admits it against a durable receipt, applies it unit by unit with a durable checkpoint
after each unit, writes the receipt and removes the package.

- `Writes`, `Share`, `Journal`: what one operation does to a share, what a journal means, and why
  every unit absorbs whatever part of it has already reached the disk.
- `Effects`: the same operations path by path: when each succeeds and what it leaves at every name.
- `Package`: the package format.
- `Recovery`: the backend as a state machine over its durable steps, with a stop possible between
  any two, and the receipt's safety over every run.
- `Relay`: a relay that retries and repeats packages, and the end-to-end theorem: the share is the
  sequential meaning of the journal up to the receipt.
- `Replay`, `Overlap`: what happens when acknowledged operations are sent again at the head of a
  longer batch, which operations make that harmless, and how the others lose data.
- `Mismatch`: packages that are taken for each other when a commit resumes, and exactly when that
  cannot happen.
- `Backend`: the code itself, as a class with a power budget that may run out before any durable
  step. Its ghost trace is a run of `Recovery`, so the two levels are one result.

**Directory enumeration** (`Listing`, `Pages`): the chunked stream, the pager that keeps what did
not fit, and the encoded page.

**Server state machines** (`Opens`, `Oplocks`, `Trees`, `Packets`, `Compound`): delete-pending
nodes, oplock breaks, tree-connect reference counts, compounded requests and replies.

**Codecs** (`Utf16`, `ShareEnum`, `Descriptors`, `AvPairs`, `CbcMac`): encoders that write buffers
at a moving offset, against decoders or block definitions written independently of them.

`Bytes`, `Buffers` and `Wrappers` hold integer layouts, buffer overlays and `Option`/`Result`.

## What is assumed

- Distinct resolved paths name distinct files: no hard links, and a link at the end of a path
  dangles. Journal operations do not touch the control directory.
- Calls to `CommitReady` are serial, an upload does not race one, and a receipt that exists can be
  read.
- Permissions, umask, storage limits and timestamps set by the kernel are ignored. A system call
  fails only for the reasons `Share` gives; any other failure ends the attempt, as a stop does.
- JSON, SHA-256, path resolution, native attribute names, the spare capacity behind a file's bytes
  when it is read, and the wildcard match are parameters.
  The manifest codec is assumed to invert itself only where a theorem says so.
- Server handlers are atomic; handle and tree ids are fresh. A create that finds a name opens the
  inode it found, and one that does not gets an inode no live handle holds.
- Reading attributes through an open handle, and the next chunk of a directory, succeeds. An entry
  of the chunk whose attributes cannot be read is carried as such.

## Where the code and its promise differ

- A batch that begins at or below the receipt is admitted and applied from its first operation
  (`Overlap.OverlapStartsOver`). `Replay.ReplayConverges` shows that this changes nothing when none
  of the acknowledged operations is a rename, a remove or a symlink. Each of those three can
  diverge: `Overlap.RenameDiverges`, `Overlap.RemoveDiverges`, `Overlap.SymlinkDiverges`.
  `Overlap.LoseBytes` runs the backend on two valid batches of one relay and loses a file's bytes.
- A progress record is matched by relay, batch and the hash of the body, which leaves out the header
  that says where the manifest ends. A package with the same body and another split can replace one
  that stopped, and is then resumed behind operations that were never applied, and acknowledged.
  `Mismatch.UnconfusedIff` gives the exact condition on the packages sent under one name for every
  commit of every run to skip only what was applied, and with it `Recovery.ReceiptCoverage` says that
  what a receipt covers was applied. Packages made by the encoder meet it
  (`Mismatch.EncodedUnconfused`). `Mismatch.SealedUnapplied` is a family of failing runs, and
  `Mismatch.LoseLetter` an input: one body whose manifest may or may not include a space behind it.
- A package whose two header lengths wrap in 64 bits passes the length check. It then panics if the
  declared manifest reaches past the slice's capacity, or if the spare bytes complete a manifest;
  otherwise it is refused. `Package.DecodePanicsIff` gives the exact condition and
  `Package.WrappedHeaderPanics` an input that panics whatever the digest.
- A chunk of a directory that holds an entry whose attributes cannot be read is consumed whole and
  answered with ACCESS_DENIED, so up to 127 readable entries with it are never returned.
  `Listing.DirHandle.QueryDirectory` says exactly when, `Listing.PagesConserve` accounts for them,
  and `Listing.LoseReadable` is an input.
- A restarted scan forgets pending entries at once, but an empty buffer or a plain name does not
  reach the loop that rewinds the stream: `Listing.DirHandle.Restart` says what is left due, and
  `Listing.ForgetPending` is an input.
- A related command that is the last in its buffer, without a chain before it, dereferences a
  missing context. An SMB1 negotiate may be too short for the flags and the offset read from it, for
  the tree and session ids read when it opens a chain, or for the message id read when its offset
  cuts off fewer than four bytes. `Compound.FaultIff` gives the exact condition for the receive loop
  on an unencrypted packet before a session is set up; `Compound.LoneRelatedFaults`,
  `Compound.ShortSmb1Faults` and `Compound.Smb1HeaderFaults` are inputs.
- A compound whose last command is not related is taken apart and handled, but the replies kept for
  it are never sent. `Compound.AnsweredIff` says which commands are answered,
  `Compound.UnrelatedPairUnanswered` is a family of inputs.
- A client's security descriptor can lead the walk over its DACL out of the buffer, and a cut-off ACE
  is read on into what follows it in the packet. `Descriptors.OutOfRangeIff` gives the exact
  condition, `Descriptors.BareHeaderStrays` an input; `Descriptors.SpareMattersOnlyBeyond` says when
  the bytes that follow cannot matter, and in `Descriptors.SpareSetsMode` they set the mode.
- The share list counts UTF-8 bytes but carries UTF-16, so a name outside ASCII arrives with NULs
  behind it. `ShareEnum.ReplyFaithfulIff` gives the exact condition and
  `ShareEnum.AccentedNameGrows` an input.
- UTF-16 decoding loses one trailing NUL: `Utf16.RoundTripIff`.

## Model

| member | source | states |
|---|---|---|
| Writes.WriteAtBytes | bulk/backend.go:310-313 | one write at an offset: the new length, and every byte of the result, with zeros in a gap |
| Writes.WriteListBytes | bulk/backend.go:310-319 | after any list of writes each byte is the latest write covering it, else the old byte, else zero; the length is the furthest end |
| Writes.AbsorbTorn | bulk/backend.go:310-319 | replaying a list of writes over any torn result of it gives what running it once gives |
| Writes.TornStep | bulk/backend.go:310-319 | one more write of the list, in any order, keeps a torn state torn |
| Writes.AnySelectionIsTorn | bulk/backend.go:129-142 | any selection of the writes, in any order and with repeats, leaves a torn state |
| Writes.TornTransitive | bulk/backend.go:129-142 | a torn replay of a torn state is torn with respect to the original |
| Share.Resize | bulk/backend.go:183-189 | truncation keeps the bytes that remain and fills with zeros |
| Share.MoveKeys | bulk/backend.go:206-226 | a rename empties the old name and everything below it, puts the moved node at the new name, brings every old descendant and nothing else below it, and leaves the rest alone |
| Share.RenameAbsorbs | bulk/backend.go:206-226 | a rename that succeeded is passed over when it is applied again |
| Share.SymlinkAbsorbs | bulk/backend.go:234-241 | a symlink operation gives the same tree from before it, from between its two halves, and from after it |
| Share.RenameKeeps | bulk/backend.go:206-226 | a rename keeps every node inside a directory |
| Share.SymlinkKeeps | bulk/backend.go:234-241 | so does replacing a name by a link |
| Journal.StepKeepsTree | bulk/backend.go:145-275 | every operation that succeeds leaves a rooted tree with each node in a directory |
| Journal.SequentialKeepsTree | bulk/backend.go:128-277 | so does every journal |
| Effects.LaterSymlinkIff | bulk/backend.go:279-287 | a link at the name passes a create exactly when the next operation on that name is a symlink |
| Effects.RenameIff | bulk/backend.go:206-226 | a rename succeeds exactly when both parents are directories and the old name can be moved (neither name below the other, the new one free or both no directories), or it is a file or link renamed to itself, or it has been done before |
| Effects.RenameShows | bulk/backend.go:206-226 | after a rename nothing is at or below the old name, at or below the new one stands what stood in the same place under the old, directories included, and elsewhere nothing changed |
| Effects.SymlinkIff | bulk/backend.go:234-241 | a symlink succeeds exactly when the target is not empty and the name can be cleared, and leaves that link at the name and nothing else changed |
| Effects.SuccessIff | bulk/backend.go:145-275 | for every operation, the exact condition on the tree for it to succeed |
| Effects.StepIff | bulk/backend.go:145-275 | every operation, on every tree, succeeds with a given result exactly when its path resolves, its condition holds, and the result has at each name the node it should: a new file or directory has the operation's mode and is empty |
| Journal.UnitEnd | bulk/backend.go:129-145 | a unit is a maximal run of writes or one other operation, and ends at the next boundary |
| Journal.UnitsResume | bulk/backend.go:70-80 | resuming at any boundary meets exactly the units a fresh start still has before it |
| Journal.UnitStartsAreBoundaries | bulk/backend.go:128-145 | the boundaries are exactly the unit starts and the end |
| Journal.UnitsMeanSequential | bulk/backend.go:128-277 | running unit by unit means what running operation by operation means, failures included |
| Journal.WritesByFile | bulk/backend.go:289-329 | applying each file's own writes in journal order gives the tree of the whole run in order, and it fails exactly when some write cannot be made |
| Journal.TornRunAbsorbs | bulk/backend.go:129-142 | a whole write run absorbs any torn state of it, file by file |
| Journal.SetAttrAbsorbs | bulk/backend.go:190-205 | mode and times: the whole operation gives the same tree after either half or all of it |
| Journal.StepTwice | bulk/backend.go:145-275 | every operation other than a write, having succeeded, changes nothing when applied again |
| Journal.UnitAbsorbs | bulk/backend.go:128-277 | every unit absorbs its own partial execution, and fails from a torn state exactly when it fails from the start |
| Journal.UnitTwice | bulk/backend.go:128-277 | a finished unit changes nothing when applied again, as after a stop before its checkpoint |
| Package.WireRanges | bulk/protocol.go:75-83 | each data range starts at the prefix sum of the data before it and has its data's length |
| Package.RangesTile | bulk/protocol.go:75-83 | consecutive non-empty ranges meet, so the ranges tile the payload |
| Package.Encode | bulk/protocol.go:72-100 | fails exactly when the manifest is too large, else writes the layout and the body's digest |
| Package.DecodeOperations | bulk/protocol.go:122-134 | attaches every operation's data from the payload, or fails when a range leaves it; every slice is in bounds |
| Package.WiresAttach | bulk/protocol.go:72-136 | attaching the encoder's ranges to its payload gives back the operations |
| Package.RoundTrip | bulk/protocol.go:72-136 | decoding an encoded batch gives the batch and its hash, whatever the spare bytes |
| Package.DecodeIff | bulk/protocol.go:102-136 | any bytes decode to a batch exactly when they have the format's name, two lengths that make up the body, the body's digest, a manifest, and a payload whose ranges are the operations' data, byte by byte |
| Package.DamageRefused | bulk/protocol.go:114-117 | bytes that do not have the digest they carry are refused |
| Package.DecodePanicsIff | bulk/protocol.go:107-122 | decoding panics exactly when an accepted header's lengths wrap and its manifest reaches past the capacity, or is a manifest only with the spare bytes; any other wrapped header is refused |
| Package.SpareHoldsNoBatch | bulk/protocol.go:107-136 | whether a package holds a batch, and which, does not depend on the spare bytes |
| Package.WrappedHeaderPanics | bulk/protocol.go:107-122 | a concrete header that panics whatever the digest and the manifest codec |
| Recovery.OutcomeConserved | bulk/backend.go:66-91 | partial effects and checkpoints never change where the commit in flight ends |
| Recovery.ResumesIff | bulk/backend.go:35-69 | exactly when a commit goes on, and where: a genuine valid package within the limit, the relay's receipt below the batch and without a gap, and matching progress or none |
| Recovery.CoversIff | bulk/backend.go:54-61 | exactly when a commit gives the standing receipt back |
| Recovery.ReceiptAcknowledges | bulk/backend.go:84 | a receipt has the protocol, relay, batch and last number of the batch and the digest of the package's body |
| Recovery.SuccessorDoesNotWrap | bulk/backend.go:58-64 | the receipt's successor does not wrap where it is computed |
| Recovery.NextKeepsReceiptInv | bulk/backend.go:54-91 | every step keeps: receipts chain over the sealed batches of their file, each admitted commit extends its receipt, and each uploaded package is in the inbox or covered; no receipt goes back |
| Recovery.RunKeepsReceiptInv | bulk/backend.go:27-91 | so it holds in every state of every run that starts without receipts |
| Recovery.ReceiptsNeverDecrease | bulk/backend.go:54-65 | a receipt's last sequence number never decreases along any run, and no receipt disappears |
| Recovery.ReceiptNamesPackage | bulk/backend.go:84-88 | at every point of every run a receipt names the last batch sealed into its file and carries the body digest of an uploaded package, which is a genuine package of that batch |
| Recovery.ChainCovers | bulk/backend.go:54-65 | a chain of admitted batches leaves no sequence number out |
| Recovery.BeginIsSound | bulk/backend.go:66-69 | when no two packages sent under one name can be confused, a commit skips only units applied and checkpointed for the operations it holds |
| Recovery.RunKeepsProgress | bulk/backend.go:66-91 | over every run of such packages each progress record was written by a package sent, the units below it were applied and checkpointed for that package's operations, and every sealed batch was applied to its end |
| Recovery.ReceiptCoverage | bulk/backend.go:54-91 | every number from the first sealed batch to the receipt lies in some sealed batch of that relay; when no two packages of the run can be confused, each unit of that batch was applied and checkpointed before |
| Recovery.PackageOrReceipt | bulk/backend.go:35-37 | at every point of every run each package ever uploaded is still there, or a receipt covers it, or the relay has since replaced it under its name |
| Relay.EncodedPackage | bulk/protocol.go:72-136 | an encoded batch is a package the backend reads as that batch |
| Relay.LogAscends | bulk/backend.go:62-64 | contiguous batches have disjoint ascending ranges |
| Relay.NextKeeps | bulk/backend.go:27-91 | every step of a disciplined relay and the backend keeps the share on its way to the next batch, and only sealing moves it on by one batch |
| Relay.RunKeeps | bulk/backend.go:27-91 | over every run with repeats and stops |
| Relay.ShareIsJournal | bulk/backend.go:54-91 | unless the next batch is waiting, the share equals the sequential fold of the journal up to the receipt: each acknowledged batch took effect once |
| Relay.CrashConvergence | bulk/backend.go:66-91 | after any stops, finishing the batch in flight from its recorded progress gives what one uninterrupted sequential run gives, or fails exactly when that fails; the progress is a unit boundary |
| Mismatch.ConfusedRun | bulk/backend.go:27-117 | a package that stops after its first unit and one confusable with it: the second is resumed behind that unit |
| Mismatch.UnconfusedIff | bulk/backend.go:66-117 | every run over a set of packages skips only what was applied for the operations at hand, exactly when no two of them under one name agree in relay, batch and body hash, differ in operations, and have a first unit that some share takes and that is no longer than the other |
| Mismatch.EncodedUnconfused | bulk/protocol.go:72-117 | packages made by the encoder are never confused, as long as the digest does not collide on them and no manifest is the beginning of another |
| Mismatch.SealedUnapplied | bulk/backend.go:27-117 | any two confusable packages, on any share that takes the first's first unit and then the second's remaining ones, give a run in which the second is acknowledged and its first unit never applied |
| Mismatch.LoseLetter | bulk/protocol.go:107-122 | one body split in two ways: a run that acknowledges a letter and leaves a space in the file |
| Overlap.OverlapStartsOver | bulk/backend.go:54-69 | a batch without progress that begins at or below the receipt and ends above it is resumed at its first operation |
| Overlap.MoveAndMake | bulk/backend.go:151-226 | moving a file away and making a new one, whatever the batch holds behind that |
| Overlap.RenameDiverges | bulk/backend.go:62-69 | a rename and a create, acknowledged once and then sent again at the head of any longer batch, empty the moved file |
| Overlap.RemoveDiverges | bulk/backend.go:62-69 | a removed name makes the operations before the removal fail when they are sent again |
| Overlap.SymlinkDiverges | bulk/backend.go:62-69 | so does a name replaced by a link |
| Overlap.OverlapConverges | bulk/backend.go:54-81 | an overlapping batch whose acknowledged head has no rename, remove or symlink ends where its new operations alone lead |
| Overlap.LoseBytes | bulk/backend.go:27-91 | the backend acknowledges batches 1 to 2 and 1 to 3 of one relay and ends with an empty file, where one run of 1 to 3 keeps its byte |
| Replay.EffectOnPart | bulk/backend.go:145-270 | each byte, mode, pair of times and extended attribute is decided by the operation alone or left as it was |
| Replay.EffectOnLength | bulk/backend.go:183-189 | a length is cut to the truncation's or extended to the write's end |
| Replay.JournalSettles | bulk/backend.go:128-277 | every node a name-keeping journal passes through will be made into what the journal leaves, and what it leaves already is |
| Replay.ReplayConverges | bulk/backend.go:128-277 | a name-keeping journal applied again to its own result, at the head of any longer batch, changes nothing |
| Backend.ValidateBatch | bulk/backend.go:331-349 | accepts exactly the batches with names, operations, ordered sequence numbers in bounds and matching write lengths |
| Backend.GroupWrites | bulk/backend.go:293-304 | lists each resolved path once in first-seen order with its own writes in journal order; fails exactly when a path does not resolve |
| Backend.Machine.constructor | bulk/backend.go:17-25 | starts with no package, progress or receipt |
| Backend.Machine.Receive | bulk/backend.go:35-41 | an upload puts the package in the inbox and is recorded |
| Backend.Machine.Checkpoint | bulk/backend.go:70-80 | records the end of a finished unit, or loses power and records nothing |
| Backend.Machine.WriteOneFile | bulk/backend.go:305-327 | applies one file's writes in order; power lost between two leaves a torn unit that still leads to the same result |
| Backend.Machine.ApplyWriteRun | bulk/backend.go:292-329 | when it finishes, the share is the whole run in order; when it fails, so does that; when it stops, the unit still has the same result |
| Backend.Machine.ApplySetAttr | bulk/backend.go:190-205 | mode then times, with a stop between them absorbed |
| Backend.Machine.ApplySymlink | bulk/backend.go:234-241 | remove then link, with a stop between them absorbed |
| Backend.Machine.ApplyOperation | bulk/backend.go:145-275 | any other operation does its step of the reference meaning, fails exactly with it, or stops with the result unchanged |
| Backend.Machine.RunUnit | bulk/backend.go:129-150 | one pass of the loop: the unit and its end |
| Backend.Machine.Apply | bulk/backend.go:128-277 | finishes where a crash-free run from the same start finishes, fails only if that fails, and wherever it stops the rest leads to the same place; it terminates, within one step per write, two per other operation and one per unit |
| Backend.Machine.WriteReceipt | bulk/backend.go:84-88 | writes the batch's receipt or loses power with the old one in place |
| Backend.Machine.RemoveArtifacts | bulk/backend.go:119-126 | drops the package and then its progress, unless power is lost first |
| Backend.Machine.Recommit | bulk/backend.go:58-61 | a covered package gets the standing receipt back |
| Backend.Machine.CommitBatch | bulk/backend.go:66-91 | applies from the recorded progress and acknowledges; a loss of power leaves the package admitted where it stopped, or finished |
| Backend.Machine.AdmitPackage | bulk/backend.go:41-69 | rejects, recognises as covered or resumes a package exactly as the specification of admission says |
| Backend.Machine.CommitReady | bulk/backend.go:27-91 | one attempt, by what admission decided: refused without a change, the standing receipt, or the batch's outcome and receipt; a receipt is returned only once package and progress are gone, and nothing is returned only when power ran out below the batch's cost; only a genuine package is receipted, and the receipt on file has its batch id and body digest |
| Backend.Machine.Deliver | bulk/backend.go:27-91 | over any number of attempts each with any number of durable steps, an acknowledged package was sealed once and left the share exactly where one sequential run leads, a refused one is one whose sequential run fails, and an attempt with three steps per operation and three more is one or the other; a receipt implies that the uploaded bytes were a genuine package, and has its batch id and body digest |
| Listing.ItemSize | server/info_fs.go:674-676 | the encoded size of an entry is a positive multiple of eight |
| Listing.ItemFits | server/info_fs.go:674-690 | that size holds the fixed part and the name, with less than eight bytes behind them |
| Listing.TakeEntries | server/file_tree.go:1395-1414 | takes matching entries in order while they fit; what is left is exactly the entries from the first that was not taken; unless one entry was asked for, the next match would not fit |
| Listing.PageReply | server/file_tree.go:1416-1424 | what an appended page says about the entries due: success, buffer too small, or nothing yet |
| Listing.FilledIsLongest | server/file_tree.go:1386-1414 | a filled page is the longest run of the entries at hand that fits |
| Listing.ListAtOnce | server/file_tree.go:1395-1470 | a readable directory of at most 128 entries with room for all its matches is listed, dots first, in one reply |
| Listing.StatEntries | fs_impl.go:341-348 | a chunk is usable exactly when every entry in it can be read |
| Listing.DirHandle.ReadDir | fs_impl.go:310-352 | each chunk is the next part of the stream, "." and ".." first; end of stream exactly when nothing is ahead |
| Listing.DirHandle.AppendDirectoryEntries | server/file_tree.go:1395-1414 | what was not taken goes behind the pending entries |
| Listing.DirHandle.ReadRound | server/file_tree.go:1442-1469 | one pass of the read loop is denied exactly when its chunk cannot be read, else answers, or consumes a chunk without a match |
| Listing.DirHandle.ReadPage | server/file_tree.go:1442-1470 | the loop ends with a reply, or exactly when an unreadable chunk blocks it with a denial that loses that chunk; the NO_SUCH_FILE exit is never taken |
| Listing.DirHandle.QueryDirectoryWildcard | server/file_tree.go:1426-1470 | pending entries first, then the stream; page and remaining entries together are the entries due and the page fits, or the loop was blocked and the chunk is lost |
| Listing.DirHandle.QueryDirectoryName | server/file_tree.go:1533-1548 | a plain name is found once and fits, is missing, does not fit, or was just returned |
| Listing.DirHandle.QueryDirectory | server/file_tree.go:1511-1566 | a request for a pattern or a plain name, for every stream: which status, what is returned, what is left due and what is lost, with restart and the empty buffer as the code treats them; a page is filled from the pending entries or from the chunk the loop stopped at, as far as it goes |
| Listing.DirHandle.Restart | server/file_tree.go:1519-1530 | a restarted request that reads leaves the whole stream due less its page; one that does not loses exactly the matching pending entries |
| Listing.DirHandle.Enumerate | server/file_tree.go:1426-1470 | any sequence of queries with one pattern and no restart, over any stream, yields a sequence of replies and denials, each losing at most one chunk; none is denied exactly when every entry consumed is readable, so a readable directory is enumerated whole |
| Listing.ConsumedReadable | fs_impl.go:336-348 | what the loop consumes is readable exactly when it is not blocked |
| Listing.BlockedDue | fs_impl.go:336-346 | a blocked loop loses the matching entries of one chunk, and "." and ".." are still due if it is the first |
| Listing.PagesConserve | server/file_tree.go:1426-1470 | pages returned so far followed by the matching entries still due stand in order in the matching stream, and with the lost ones make it up exactly |
| Listing.UndeniedConserve | server/file_tree.go:1426-1470 | while no query is denied they are the matching stream |
| Listing.EnumerationComplete | server/file_tree.go:1426-1470 | when NO_MORE_FILES is returned every matching entry has been returned or lost, once, and none lost if no query was denied |
| Listing.EnumerationEnds | server/file_tree.go:1426-1470 | if every entry fits every buffer, NO_MORE_FILES comes within as many queries as there are matching entries and denials |
| Listing.LoseReadable | fs_impl.go:336-346 | a directory with one unreadable entry whose other entry is never due again |
| Listing.ForgetPending | server/file_tree.go:1519-1530 | a handle on which a restart with an empty buffer leaves nothing due |
| Pages.Encode | server/info_fs.go:1033-1044 | the buffer holds the items end to end, each with the link to the next, zero in the last |
| Pages.WalkVisitsEntries | server/info_fs.go:1033-1044 | following the links of an encoded page visits exactly the item starts and ends at a zero link |
| Pages.WalkRecoversEntries | server/info_fs.go:1033-1044 | everything of an item behind its link is found at its start |
| Pages.PageLength | server/info_fs.go:1025-1031 | the encoded page has the size the pager counted |
| Pages.NameReadsBack | server/info_fs.go:678-690 | in every information class the length and the name of each entry are found at its start on the page |
| Pages.WalkReadsNames | server/info_fs.go:1025-1044 | a client that follows the links reads the names of the page's entries in order |
| Opens.StepKeeps | server/server.go:1098-1141 | every request keeps: a pending node has a live open, no open is added to a pending node, and each episode is open exactly while its node is pending |
| Opens.RunKeeps | server/server.go:1098-1141 | over every run |
| Opens.EpisodesBalance | server/server.go:1098-1141 | over any run each episode of a node was cancelled or ended in one unlink, except the one it may be in; with no handle open, none is left |
| Opens.StepMarks | server/server.go:1098-1141 | what each request adds to a node's history: a beginning exactly when deletion is asked for, a cancellation exactly when a disposition clears it, an unlink exactly at the last close of a node that is pending or asked for |
| Opens.EpisodeEnds | server/server.go:1116-1141 | over every run a pending node that no disposition clears and that has no open in the end was unlinked by its last close, and until then neither unlinked nor cancelled |
| Opens.UnlinkIsLastClose | server/file_tree.go:586-595 | every unlink of any run was made by its own close, the last one on that node, which was pending or asked for |
| Opens.Server.SetDeletePending | server/server.go:1098-1107 | sets or clears one node, opening or cancelling its episode |
| Opens.Server.CloseOpen | server/server.go:1116-1141 | removes the open; true exactly when the node was pending or the open deletes on close, and no other open has that node |
| Opens.Server.HandleCreate | server/file_tree.go:96-101 | a create on a pending node is refused and changes nothing |
| Opens.Server.SetDisposition | server/file_tree.go:2244-2307 | which status, and the node set or cleared exactly when it is accepted |
| Opens.Server.HandleClose | server/file_tree.go:530-610 | the close step; it unlinks exactly when the handle is open, its node pending or deleted on close, and no other handle has that node |
| Oplocks.RunAccounted | server/server.go:1165-1206 | over any run, level NONE is the same as holding nothing, and breaks that need an acknowledgment exceed those accepted by one exactly while breaking |
| Oplocks.BreakEffect | server/server.go:1165-1206 | what a break does at every point of every run, level by level |
| Oplocks.AckEffect | server/file_tree.go:2499-2530 | what an acknowledgment does at every point of every run |
| Oplocks.ExclusiveWaits | server/server.go:1180-1206 | an exclusive lock stays exclusive until its acknowledgment, however often it is broken |
| Oplocks.Open.constructor | server/file_tree.go:188-201 | what a create grants |
| Oplocks.Open.BreakOpen | server/server.go:1165-1178 | a break is sent exactly when the open changes |
| Oplocks.Open.SendOplockBreak | server/server.go:1180-1206 | level II is dropped at once, an exclusive lock waits for its acknowledgment, and a second break is not sent |
| Oplocks.Open.OplockBreakAck | server/file_tree.go:2499-2530 | an acknowledgment is accepted exactly while breaking |
| Trees.LastComponent | server/server.go:560-565 | the share name is what follows the last backslash |
| Trees.PipeKeyIsReserved | server/server.go:527-565 | the key of the pipe share is taken by pipe paths only |
| Trees.Connection.TreeConnect | server/server.go:505-622 | a served name is connected, an unknown one changes nothing |
| Trees.Connection.Connect | server/server.go:585-616 | both tables hold the same trees, each count equals its outstanding connects and is positive, and the id is the tree's |
| Trees.Connection.TreeDisconnect | server/server.go:624-651 | takes one connect back; the tree leaves both tables exactly when its count reaches zero |
| Compound.SplitPacket | server/conn.go:308-352 | the receive loop, for any unencrypted buffer before a session is set up: it terminates with the specified pieces and ending |
| Compound.SplitConserves | server/conn.go:308-352 | the pieces and what is left concatenate to the buffer, and what is left begins at the first invalid header |
| Compound.FaultIff | server/conn.go:308-352 | the loop faults exactly when an SMB1 negotiate too short for what is read of it stands on its walk, or it reaches a last command with every command before it related too |
| Compound.LoneRelatedFaults | server/conn.go:308-352 | a lone related command does fault |
| Compound.ShortSmb1Faults | internal/smb2/packet.go:67-74 | so do five bytes that pass as an SMB1 negotiate |
| Compound.Smb1HeaderFaults | server/conn.go:316-344 | so do twenty-four, whatever their flags, that cut off three bytes: as first command for want of a session id, as related one for want of a message id |
| Compound.SplitInvertsChain | server/conn.go:308-352 | splitting a well-formed chain gives back its commands |
| Compound.StampFields | server/conn.go:535-565 | stamping a reply sets its flags and link and leaves its status and message id |
| Compound.CompoundContext.Size | server/compound.go:25-35 | the size of the padded layout |
| Compound.CompoundContext.Encode | server/compound.go:37-45 | the buffer holds the replies, all but the last padded to eight bytes |
| Compound.CompoundContext.SendPacket | server/conn.go:535-565 | keeps each stamped reply and sends them all with the reply to the last command |
| Compound.CompoundContext.ServeChain | server/server.go:397-403 | serving a related chain sends one linked reply per command |
| Compound.WalkRecoversReplies | server/compound.go:25-45 | walking NextCommand through the sent buffer gives the replies in order |
| Compound.PieceAt | server/compound.go:25-45 | each as it was, padded unless it is last |
| Compound.RepliesLink | server/conn.go:535-565 | each reply's link is its padded length, zero in the last |
| Compound.FailureIsSticky | server/server.go:397-403 | after the first failure every later command is refused with that status and no handler is asked |
| Compound.SuccessContinues | server/server.go:397-403 | while nothing failed every command is handled |
| Compound.ChainAnswered | server/server.go:397-403 | for every number of commands and every handlers' answers, the client's walk finds one reply per command in order, with that reply's status and message id and nothing changed but its link and, after the first, the related flag |
| Compound.RequestsAnswered | server/conn.go:308-352 | from the packet that carries a chain to the packet that answers it: one piece of the reply per command, with that command's message id and the status of the first failure before it, else its handler's |
| Compound.CompletePacket | server/conn.go:308-352 | a packet that splits completely has one command per piece, and only the last has none behind it |
| Compound.AnsweredIff | server/conn.go:553-565 | a command of a packet is answered exactly when it has no context, or shares the context that the packet's last command closes |
| Compound.UnrelatedPairUnanswered | server/conn.go:316-327 | of two linked commands neither of which is related, neither is answered |
| Utf16.EncodedStringLen | internal/utf16le/utf16le.go:12-22 | the length computed ahead is the encoder's |
| Utf16.EncodeString | internal/utf16le/utf16le.go:24-30 | writes the string's units at the offset and nothing else |
| Utf16.DecodeToString | internal/utf16le/utf16le.go:44-56 | the loop computes the specified decoding for any bytes |
| Utf16.BytesRoundTrip | internal/utf16le/utf16le.go:24-56 | units survive their byte layout |
| Utf16.UnitsMean | internal/utf16le/utf16le.go:24-30 | a scalar beyond the first plane is a high surrogate followed by a low one, any other its own unit |
| Utf16.UnitsRoundTrip | internal/utf16le/utf16le.go:24-56 | decoding encoded scalars gives them back, whatever follows |
| Utf16.RoundTrip | internal/utf16le/utf16le.go:24-56 | decode inverts encode, except that one trailing NUL is lost |
| Utf16.RoundTripIff | internal/utf16le/utf16le.go:24-56 | so exactly on strings not ending in NUL |
| ShareEnum.UnitsVersusBytes | internal/smb2/dcerpc.go:418-427 | UTF-16 units never outnumber UTF-8 bytes, and equal them exactly for ASCII |
| ShareEnum.EncodeStr | internal/smb2/dcerpc.go:333-342 | a counted string and its padding, behind what was written before |
| ShareEnum.EncodeTable | internal/smb2/dcerpc.go:355-363 | two reference ids for each share, drawn in order |
| ShareEnum.EncodeStrings | internal/smb2/dcerpc.go:365-370 | a name and an empty comment for each share |
| ShareEnum.EncodeRpcHeader | internal/smb2/dcerpc.go:292-310 | the response header, with a fragment length of two bytes |
| ShareEnum.EncodeReply | internal/smb2/dcerpc.go:373-408 | the whole reply fills its buffer, and draws two reference ids per share and three more |
| ShareEnum.IsIncomplete | internal/msrpc/msrpc.go:278-348 | true exactly when the level is unknown or some string reaches past the end |
| ShareEnum.ShareNameList | internal/msrpc/msrpc.go:354-396 | on any complete reply, every read is in range and the list is the specified one |
| ShareEnum.ReplyReads | internal/msrpc/msrpc.go:278-396 | any server's reply is complete and lists its names, each followed by the NULs its count added |
| ShareEnum.ReplyFields | internal/smb2/dcerpc.go:292-409 | every other field of the reply where a client finds it: version, type, flags, fragment length, call id, counts, and reference ids in the order drawn |
| ShareEnum.Level0Reads | internal/msrpc/msrpc.go:278-396 | any level 0 reply with a table and then the names lists those names |
| ShareEnum.ReplyFaithfulIff | internal/smb2/dcerpc.go:418-456 | the client's list equals the server's exactly when every name is ASCII |
| ShareEnum.AccentedNameGrows | internal/smb2/dcerpc.go:418-427 | a concrete name that comes back longer |
| Descriptors.EncodeSid | server/acl.go:115-122 | writes the SID's layout at its offset and nothing else |
| Descriptors.EncodeAce | server/acl.go:134-140 | the same for an ACE |
| Descriptors.EncodeAcl | server/acl.go:152-162 | the same for a list, at a moving offset |
| Descriptors.EncodeDescriptor | server/acl.go:46-83 | header, then each part that is present where its offset field says |
| Descriptors.SidRoundTrip | server/acl.go:111-122 | a SID reads back, whatever follows it, and begins with revision one |
| Descriptors.AceRoundTrip | server/acl.go:257-277 | an ACE reads back and its size leads to what follows it |
| Descriptors.VisitRoundTrip | server/acl.go:152-162 | walking an encoded list visits its ACEs in order |
| Descriptors.AclFields | server/acl.go:152-156 | an encoded list's revision, size and count are in its header, and its ACEs behind it |
| Descriptors.AclDelimits | server/acl.go:152-162 | a list whose size fits its field is found whole by that field |
| Descriptors.DescriptorRoundTrip | server/acl.go:46-83 | owner, group and both lists read back through the offset fields, the lists up to what their count can say |
| Descriptors.ControlBits | server/acl.go:46-57 | revision one, the self-relative bit, and a bit for each list exactly when it is present |
| Descriptors.OwnerBits | server/file_tree.go:2397 | the owner's read and write bits are set and no other changes |
| Descriptors.SetSecInfo | server/file_tree.go:2376-2408 | the walk computes the mode to set, from the first mode SID of any buffer with any bytes behind it, or that there is none, or that a read leaves it |
| Descriptors.OutOfRangeIff | server/file_tree.go:2376-2408 | a read leaves the buffer and what lies behind it exactly when it is too short for a header or some ACE the walk reaches is cut off or leads past the end |
| Descriptors.BareHeaderStrays | server/acl.go:231-237 | twenty bytes that do that |
| Descriptors.SpareMattersOnlyBeyond | internal/smb2/dtyp.go:140-150 | unless the buffer alone is left, the bytes behind it change nothing |
| Descriptors.SpareSetsMode | internal/smb2/dtyp.go:140-150 | a cut-off ACE whose mode is read from the bytes behind the buffer |
| Descriptors.ModeFound | server/file_tree.go:2384-2408 | on any encoded descriptor, whatever follows it, the walk finds the first mode SID of the list or that there is none, and reads nothing out of range |
| AvPairs.Encode | internal/ntlm/ntlm.go:410-418 | the buffer holds the pairs end to end |
| AvPairs.CheckEol | internal/ntlm/ntlm.go:346-355 | the check for four zero bytes at the end |
| AvPairs.ParseAvPairs | internal/ntlm/ntlm.go:340-378 | the loop computes the specified table for any bytes |
| AvPairs.SplitInverts | internal/ntlm/ntlm.go:340-418 | splitting an encoded block gives back the pairs |
| AvPairs.ParseAccepts | internal/ntlm/ntlm.go:340-378 | accepted are exactly the blocks that are a list of pairs and end in four zero bytes, with that list's table |
| AvPairs.TerminatedRoundTrip | internal/ntlm/ntlm.go:340-418 | a list that ends in the terminator parses to its table |
| AvPairs.CollectHolds | internal/ntlm/ntlm.go:357-378 | with distinct ids the table holds every pair and nothing else |
| AvPairs.LastPairWins | internal/ntlm/ntlm.go:374-376 | when an id repeats the table holds its last value |
| CbcMac.ChainPrefix | internal/crypto/ccm/cbc_mac.go:28-38 | the chaining value after some blocks does not depend on what follows |
| CbcMac.PadUnique | internal/crypto/ccm/cbc_mac.go:41-46 | zero padding to the block size is determined by the input |
| CbcMac.PadFromBoundary | internal/crypto/ccm/cbc_mac.go:41-46 | padding after a field that began on a boundary pads that field |
| CbcMac.Mac.constructor | internal/crypto/ccm/cbc_mac.go:14-19 | nothing absorbed |
| CbcMac.Mac.Reset | internal/crypto/ccm/cbc_mac.go:21-26 | back to nothing absorbed |
| CbcMac.Mac.Write | internal/crypto/ccm/cbc_mac.go:28-38 | the state is that of everything absorbed so far, however it was cut into calls |
| CbcMac.Mac.PadZero | internal/crypto/ccm/cbc_mac.go:41-46 | fewer than a block of zeros is absorbed and the chaining value is the block definition's |
| CbcMac.Mac.WriteField | internal/crypto/ccm/cbc_mac.go:28-46 | a field written in any pieces and padded absorbs its padding |
| CbcMac.Mac.TagOfFields | internal/crypto/ccm/cbc_mac.go:28-50 | the tag of several padded fields is the CBC-MAC of their padded concatenation (section 2.2 of RFC 3610) |

## Left out

- Overlap.OverlapConverges: names the operations that make a repeated head harmless; a journal that does rename, remove or link may converge too, depending on what its later operations undo. The end-to-end refinement is for contiguous batches.
- Mismatch.UnconfusedIff: exact for what commits skip. For receipts the condition is sufficient (Recovery.ReceiptCoverage); whether a wrongly resumed batch reaches its receipt depends on whether its remaining operations apply to the share it meets, as in Mismatch.SealedUnapplied.
- Relay.ShareIsJournal: holds at states where the next package is not waiting; while it is, Relay.CrashConvergence says where its completion leads.
- Path cleaning in `resolve`, JSON, SHA-256 and fsync: library behaviour, taken as parameters and step boundaries.
- Share.RenameKeeps: `os.Rename` onto an existing empty directory is refused in the model, as the Go library refuses it on Unix.
- Durable handles and the table of opens by GUID: the table is never created, so opens are modelled as non-durable.
- Leases, and acknowledgments that find an open by lease key: each open holds its own copy.
- Oplocks.RunAccounted: opens without a lease.
- POSIX opens, which unlink at once instead of becoming pending.
- The directory read inside the delete disposition, which consumes the same stream as an enumeration; whether the directory is empty is a parameter.
- The wildcard translation itself, and the lookup of a plain name: a regular expression and a system call.
- Pages.NameReadsBack: the fields of an entry other than its link, its name and the length of its name are arbitrary bytes; names that are not empty and do not end in NUL.
- Compound.FaultIff: what the dispatcher and the handlers read of a piece later, and the checks made once a session is set up, are not part of the receive loop and are not modelled.
- Compound.AnsweredIff: commands whose handlers reply through the context, with message ids that are not zero and a last one that is its own.
- Compound.RequestsAnswered: chains whose last message id is not that of an earlier command.
- Compound.ChainAnswered: related chains of tree commands without CHANGE_NOTIFY, unencrypted and unsigned.
- Descriptors.SidRoundTrip: SIDs of at most 255 sub-authorities, which is what the one-byte count can say.
- Descriptors.SetSecInfo: computes the mode; the call that sets it and its failure are not modelled.
- AvPairs.TerminatedRoundTrip: values shorter than 64 KiB, which is what the two-byte length can say.
- ShareEnum.ReplyReads: names shorter than a gigabyte, so that the doubled count fits its field.
- `Sid.Encode` in internal/smb2/dtyp.go, whose authority bytes do not round trip with its decoder.
- CCM formatting, signing, encryption, key derivation, SPNEGO and the NTLM exchange: they rest on foreign cryptography.
- Credits, configuration, transport, notification, logging, attribute getters and setters: plumbing or easy members.
