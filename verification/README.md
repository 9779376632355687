# ALRIOS: verified models of durable and shared state

ALRIOS runs signed application packages, records what happens in an append-only audit log and
forwards that log to a collector. This project models the parts of it that keep durable or
shared state, and proves what they guarantee over whole files, whole runs and all
interleavings:

- **Audit log** (`Bytes`, `FileIo`, `AuditBlock`, `AuditChain`, `AuditAppend`, `TipBinding`). A file
  is a byte sequence behind system calls that come up short, are interrupted or fail. The record
  verifier accepts exactly the canonical encodings; the scanner accepts exactly the concatenated,
  linked records; recovery undoes every torn write; every run of appends, recoveries and crashes
  keeps a chain that only grows; and two files with the same tip are the same bytes, or a hash
  collision is handed over.
- **Forwarder** (`ForwarderWire`, `Forwarder`, `ForwarderSocket`, `AuditDaemon`). A ring of checkpoints
  is a queue; one authenticated exchange per flush moves the oldest one to the acknowledged
  side; the daemon's loop never sees a rollback over a log that others only append to.
- **Delta install** (`PackageIndex`, `FileTree`, `Transfer`, `Layering`). A file system maps names to
  inodes, and hard links share them between the running slot and the staging directory. No
  outcome changes the content or permissions of a file that was there, and the target appears
  complete or not at all.
- **SHA-512** (`Sha512`). The streaming context equals the hash of FIPS 180-4 on the whole message,
  for every way of cutting it up.
- **Drain tracker** (`Drain`). Threads are interleaved at every atomic access and every store to a
  modelled field; the counters agree whenever the lock is free.
- **ZIP writer and reader** (`ZipFormat`, `ZipArchive`). What is packed, in any chunks, comes back name
  for name and byte for byte, also when the archive is moved behind a prefix.
- **Banned-API scanners** (`BannedApis`). The C and the Python scanner report exactly the banned
  names in code, as a definition by single characters finds them.
- **Hot reload and build cleanup** (`HotReload`, `BuildCleanup`). An application that serves keeps
  serving through every failed deploy; cleanup never deletes what the snapshot recorded.

SHA-256, HMAC-SHA256 and the CRC table are parameters, so every result holds for every such
function; nothing is assumed to be injective. Failures of the environment are nondeterministic
choices. An object marked `reliable` (a file, a file system, a forwarder) or `smooth` (a socket)
has none, and the contracts then fix the result completely: no operation may blame the
environment for a failure of its own. C strings are sequences, 64-bit counters wrap where the
code lets them.

Some properties that comments or messages suggest do not hold of the code as it is. The code is
then modelled as it is, a concrete case shows the property failing, and a theorem says when it
holds:

| property | fails in | holds exactly when |
|---|---|---|
| a log that only grew passes the startup check | `AuditDaemon.ProgressIsRefused` | `AuditDaemon.CheckRejectsProgress` |
| the files of the old slot keep their whole mode | `Layering.HighBitsCanBeLost` | `Layering.ModeKeptIff`, `Layering.LinkedModeKeptIff` |
| a completed drain stays completed | `Drain.CompletedCanBeOverwritten` | `Drain.CompletedFinalIff`, `Drain.CompletedLeftIff` |
| the reported line is the line in the file | `BannedApis.ContinuedLiteralShiftsLines` | `BannedApis.LineIsTrueIff` |
| an application has one entry | `HotReload.LongNameTwice` | `HotReload.Supervisor.DeployTwice` |
| an entry belongs to one application | `HotReload.ShortNameTakesOver` | `HotReload.Supervisor.DeployBoth` |
| a cleanup right after the snapshot removes nothing | `BuildCleanup.OldOutputIsRemoved`, `BuildCleanup.CutSnapshotLosesSource` | `BuildCleanup.NothingAddedIff` |

## Model

| member | source | states |
|---|---|---|
| Bytes.FromToBE | src/libraries/audit/hash_chain.c:37-75 | reading back a stored big-endian integer gives it again, for every width it fits |
| Bytes.ToFromBE | src/libraries/audit/hash_chain.c:37-75 | storing what was loaded gives the same bytes, so an integer field has one encoding |
| Bytes.StoreBE | src/libraries/audit/hash_chain.c:56-75 | writes exactly the bytes of the value and touches nothing else in the buffer |
| Bytes.LoadBE | src/libraries/audit/hash_chain.c:37-55 | the loop computes the big-endian value of the slice |
| AuditBlock.DecodeHeader | src/libraries/audit/hash_chain.c:132-169 | each defect of a header gets its own code, in the order the checks are made; an accepted length is within the limit |
| AuditBlock.BlockEncode | src/libraries/audit/hash_chain.c:171-255 | which arguments are refused and with which code, the buffer untouched; on success the canonical record stands at the front of the buffer and the rest is untouched; only a failing hash library can interfere, and leaves the buffer as it was or the record zeroed |
| AuditBlock.BlockVerify | src/libraries/audit/hash_chain.c:257-323 | the verdict on every byte string, and the metadata of the block it spells out |
| AuditBlock.EncodeVerifies | src/libraries/audit/hash_chain.c:171-323 | completeness: every encoded block verifies and decodes to itself |
| AuditBlock.VerifiedIsCanonical | src/libraries/audit/hash_chain.c:257-323 | soundness: accepted bytes are the encoding of the block they decode to |
| AuditBlock.VerifyExact | src/libraries/audit/hash_chain.c:257-323 | the verifier accepts exactly the canonical encodings |
| FileIo.ReadExactAt | src/libraries/audit/hash_chain.c:410-440 | all bytes asked for, however the reads are cut up or interrupted; an error only for a real failure or the end of the file |
| FileIo.WriteExactAt | src/libraries/audit/hash_chain.c:442-472 | all of the data is written, or some first part of it and an error |
| FileIo.Sync | src/libraries/audit/hash_chain.c:474-483 | retries after signals and fails only when the call fails |
| FileIo.Truncate | src/libraries/audit/hash_chain.c:485-497 | cuts to the length exactly when it reports success |
| AuditChain.ReadRecord | src/libraries/audit/hash_chain.c:536-592 | tells a whole verified record, an unfinished one and a defective one apart, from the bytes alone |
| AuditChain.ScanBlock | src/libraries/audit/hash_chain.c:518-643 | one encoded block at the front is consumed, whatever follows |
| AuditChain.ScanChain | src/libraries/audit/hash_chain.c:518-643 | a chain of any length is read through and what follows is judged next |
| AuditChain.ScanSound | src/libraries/audit/hash_chain.c:518-643 | whatever is reported as blocks is linked, and its encoding is what was read |
| AuditChain.CleanIff | src/libraries/audit/hash_chain.c:518-643 | a file is clean exactly when it is the concatenation of the encodings of blocks 1..n linked from the zero hash |
| AuditChain.TornIff | src/libraries/audit/hash_chain.c:541-577 | a file is torn exactly when a valid chain is followed by an unfinished record |
| AuditChain.PrefixIsIncomplete | src/libraries/audit/hash_chain.c:499-502 | every proper non-empty prefix of every record is recognised as unfinished |
| AuditChain.RecoveryRestoresChain | src/libraries/audit/hash_chain.c:619-636 | recovery after a cut anywhere in a record gives back exactly the chain |
| AuditChain.RecoveryIdempotent | src/libraries/audit/hash_chain.c:619-636 | recovery twice is recovery once, and nothing happens to a clean file |
| AuditChain.ScanLocked | src/libraries/audit/hash_chain.c:518-643 | the loop over the file, with its counters and rolling hash, computes the specified scan; count, size and tip are those of the chain |
| AuditChain.PartialTail | src/libraries/audit/hash_chain.c:619-636 | the unfinished record is cut off and synced, or reported, or the failure is |
| AuditChain.ChainOperation | src/libraries/audit/hash_chain.c:645-681 | verification never changes the file; recovery changes it only to the recovered content, and needs write access |
| AuditChain.AppendKeepsChain | src/libraries/audit/hash_chain.c:683-755 | the chain with the next block is valid, its encoding is the old one followed by one record |
| AuditAppend.WriteRecord | src/libraries/audit/hash_chain.c:730-743 | the file ends up with the whole record, or rolled back, or, when the rollback fails, with a first part of the record |
| AuditAppend.AppendFd | src/libraries/audit/hash_chain.c:683-755 | the state of the file and the result for every combination of failures; without failures success depends on the sizes alone |
| AuditAppend.AppendLocked | src/libraries/audit/hash_chain.c:710-744 | the appended record carries the next number and the hash of the scanned tip |
| AuditAppend.AppendAddsAtMostOne | src/libraries/audit/hash_chain.c:683-755 | success adds exactly the one block; an error adds none, unless only the unlock failed; a failed rollback leaves a recoverable file |
| AuditAppend.CutRecord | src/libraries/audit/hash_chain.c:730-743 | a chain followed by any first part of a record is clean or torn, with the same blocks |
| AuditAppend.StepKeepsChain | src/libraries/audit/hash_chain.c:518-755 | each append, recovery, verification or crash keeps a recoverable chain that extends the one before |
| AuditAppend.RunExtendsChain | src/libraries/audit/hash_chain.c:518-755 | over every run, the blocks of each state extend those of every earlier state |
| AuditAppend.RunStaysClean | src/libraries/audit/hash_chain.c:683-755 | without crashes and failed rollbacks no state is ever torn |
| AuditAppend.SuccessesAreKept | src/libraries/audit/hash_chain.c:683-755 | after an append that reported success, every later state holds its block at the place it was appended, behind the blocks of before |
| AuditAppend.SuccessesAreCounted | src/libraries/audit/hash_chain.c:683-755 | the log grows by at least the number of successes |
| TipBinding.PreimageInjective | src/libraries/audit/hash_chain.c:210-238 | the bytes a block hash is taken over determine the block |
| TipBinding.LinkedLast | src/libraries/audit/hash_chain.c:593-614 | the last block holds the hash of the chain before it, and its own hash is the tip |
| TipBinding.ChainsBound | src/libraries/audit/hash_chain.c:285-307 | two chains of one length and one tip are equal, or the proof returns two strings with one digest |
| TipBinding.TipBindsFile | src/libraries/audit/hash_chain.c:587-643 | two files that verify with the same last sequence and hash are byte-identical, or a collision is returned |
| TipBinding.HashAloneBinds | src/libraries/audit/hash_chain.c:587-643 | with equal hashes only: equal, a collision, or a block whose hash is all zeros |
| ForwarderWire.SealInto | src/libraries/audit/forwarder.c:185-390 | the fields stored one by one are the sealed record; the whole record is zeroed when the MAC cannot be computed |
| ForwarderWire.SealedOpens | src/libraries/audit/forwarder.c:185-359 | every sealed record passes the checks and gives back its sequence and fields |
| ForwarderWire.OpenedIsSealed | src/libraries/audit/forwarder.c:213-359 | a record that passes the checks is the sealed form of what it holds: no second encoding |
| ForwarderWire.CheckpointRoundTrip | src/libraries/audit/forwarder.c:185-247 | a wire checkpoint decodes to a checkpoint exactly when it is its encoding and the sequence is not zero |
| ForwarderWire.ReceiptRoundTrip | src/libraries/audit/forwarder.c:249-310 | a wire receipt decodes to an acknowledgement exactly when it is its encoding under some nonce |
| ForwarderWire.StateRoundTrip | src/libraries/audit/forwarder.c:312-390 | the state file reads back as an acknowledgement exactly when it is its encoding, or is empty and it is none |
| ForwarderWire.CheckpointEncode | src/libraries/audit/forwarder.c:185-211 | fills the record, refuses sequence zero untouched, zeroes the record when the MAC library fails |
| ForwarderWire.ReceiptDecodeAndVerify | src/libraries/audit/forwarder.c:276-310 | accepts exactly the authentic receipts and returns acknowledgement, nonce and MAC that encode to the record; all zero on failure |
| ForwarderWire.StateRead | src/libraries/audit/forwarder.c:312-359 | the acknowledgement on disk, or the error, for every content |
| ForwarderWire.StateWrite | src/libraries/audit/forwarder.c:361-390 | on success the file is exactly the encoded state; on failure a first part of it stands over the old content, or all of it is there; the unretried calls fail on a signal |
| ForwarderWire.StateAfterCut | src/libraries/audit/forwarder.c:312-390 | what is read back after a write cut off anywhere: nothing, the old acknowledgement or the new one; or the proof returns two messages with one MAC |
| Forwarder.RingPush | src/libraries/audit/forwarder.c:553-575 | storing at the tail slot, with wrap-around, adds at the back of the queue |
| Forwarder.RingPop | src/libraries/audit/forwarder.c:629-632 | clearing the head slot and moving on removes the front of the queue |
| Forwarder.Init | src/libraries/audit/forwarder.c:519-551 | starts empty with the acknowledgement on disk; which sizes and state files are refused |
| Forwarder.AuditForwarder.Enqueue | src/libraries/audit/forwarder.c:553-575 | adds at the back exactly when the sequence is not zero and there is room, and nothing else changes |
| Forwarder.AuditForwarder.Flush | src/libraries/audit/forwarder.c:577-641 | sends the oldest checkpoint; accepts exactly an authentic receipt for it that does not go back; then memory, state file and queue all move on; a failed flush changes neither queue nor acknowledgement and leaves the state file as it was or partly overwritten with that one acknowledgement; the acknowledgement never decreases; acknowledged followed by queued is always what was accepted |
| ForwarderSocket.SendAll | src/libraries/audit/forwarder.c:444-474 | all of the frame goes out, in pieces of any size, or a first part of it |
| ForwarderSocket.ReceiveResponse | src/libraries/audit/forwarder.c:475-506 | exactly a length of 100 and that many bytes are taken from the stream, however they arrive |
| ForwarderSocket.SocketSend | src/libraries/audit/forwarder.c:416-517 | success means exactly one frame went out and the returned receipt is exactly the frame that came in |
| ForwarderSocket.FrameInjective | src/libraries/audit/forwarder.c:444-445 | a stream of frames determines the bodies |
| AuditDaemon.VerifyNotRolledBack | src/libraries/audit/forwarder.c:392-414 | passes exactly when the log is a valid chain whose tip is the acknowledged one, or nothing was acknowledged |
| AuditDaemon.CheckRejectsProgress | src/libraries/audit/forwarder.c:402-412 | for a log, torn or not, that holds the acknowledged block, the check passes exactly when that block is the last one and nothing unfinished follows it |
| AuditDaemon.ProgressIsRefused | src/libraries/audit/forwarder.c:402-412 | two logs that only grew, one by a block and one by the first byte of a record, and are refused |
| AuditDaemon.StartupBindsFile | src/libraries/audit/forwarder.c:392-414 | if the check passes, the log is byte for byte any log with the acknowledged tip, or a collision is returned |
| AuditDaemon.OrderedExtends | src/daemons/ar_auditd/main.c:207-216 | appends by others keep acknowledged and queued checkpoints naming blocks in order |
| AuditDaemon.OrderedGrows | src/daemons/ar_auditd/main.c:207-216 | queueing the tip keeps that order |
| AuditDaemon.OrderedAdvances | src/daemons/ar_auditd/main.c:207-216 | acknowledging the oldest keeps that order |
| AuditDaemon.ForwardTip | src/daemons/ar_auditd/main.c:193-204 | enqueues the tip seen, flushes only then, and cannot meet a rollback |
| AuditDaemon.Round | src/daemons/ar_auditd/main.c:207-226 | one look at a log others append to: forwards exactly when there is something newer than the acknowledgement; keeps the invariant |
| AuditDaemon.Startup | src/daemons/ar_auditd/main.c:167-187 | the loop starts only with an acknowledgement that is the tip of the log |
| AuditDaemon.Run | src/daemons/ar_auditd/main.c:167-226 | over any number of rounds no flush reports a rollback, and the acknowledged numbers never go down |
| PackageIndex.CompareIsOrder | src/libraries/deploy/layering.c:70-73 | string comparison is zero exactly for equal strings and antisymmetric |
| PackageIndex.CompareIsTransitive | src/libraries/deploy/layering.c:70-73 | string comparison is transitive |
| PackageIndex.JoinedComponents | src/libraries/deploy/layering.c:128-151 | a path is recovered from its components, so distinct paths name distinct files |
| PackageIndex.ValidPath | src/libraries/package/index.c:75-101 | the single pass accepts exactly the paths made of plain names between single separators |
| PackageIndex.PathIsMutable | src/libraries/package/index.c:125-143 | exactly the malformed paths and those with a mutable extension, in any letter case |
| PackageIndex.ValidIndex | src/libraries/deploy/layering.c:59-76 | comparing neighbours decides whether the whole index is strictly sorted and holds no mutable path |
| PackageIndex.FindEntry | src/libraries/deploy/layering.c:78-106 | the binary search finds an entry with the same path, size and digest exactly when there is one |
| PackageIndex.ComponentsApart | src/libraries/deploy/layering.c:59-76 | two entries of a valid index never name the same file |
| FileTree.NothingBelow | src/libraries/deploy/layering.c:141-146 | what stands above a name is a directory |
| FileTree.FileSystem.Remove | src/libraries/deploy/layering.c:543-547 | removes one name and keeps a well-formed tree |
| FileTree.FileSystem.Rename | src/libraries/deploy/layering.c:740-744 | carries a whole directory to a free name and nothing else |
| FileTree.MoveKeepsTree | src/libraries/deploy/layering.c:740-744 | after the rename every name still has a directory above it |
| FileTree.RemoveTreeContents | src/libraries/deploy/layering.c:503-557 | empties the directory, children first; touches nothing outside it, also when it fails part way |
| FileTree.MakeDirectoriesReadonly | src/libraries/deploy/layering.c:452-501 | every directory below, at any depth, gets 0555; no file and no name changes |
| FileTree.SiblingKept | src/libraries/deploy/layering.c:467-495 | making one child read-only leaves what was done for its siblings |
| Transfer.OpenParentDirectory | src/libraries/deploy/layering.c:108-161 | adds only directories on the way to the file, never follows a link, and reaches the parent whenever nothing else stands in the way |
| Transfer.HashFile | src/libraries/deploy/layering.c:191-235 | the digest of exactly the expected number of bytes, in chunks of any size |
| Transfer.VerifyOpenFile | src/libraries/deploy/layering.c:237-254 | accepts only a regular file of the indexed size and digest, and does so unless a call fails |
| Transfer.BufferedCopy | src/libraries/deploy/layering.c:256-298 | the copy equals the source, however reads and writes are cut up; no other inode is touched |
| Transfer.LinkFile | src/libraries/deploy/layering.c:339-355 | one new name for an inode that already has the read-only permissions, verified after linking |
| Transfer.CopyFile | src/libraries/deploy/layering.c:356-389 | one new name for one new inode with the verified content; taken back when the verification fails |
| Transfer.TransferFile | src/libraries/deploy/layering.c:300-407 | adds at most the file and directories on the way to it; old inodes keep content and mode; a success means the indexed file has arrived, by a link only if permissions and index allow it |
| Layering.ChooseSource | src/libraries/deploy/layering.c:698-703 | the old slot is the source exactly for unchanged files, and a link is tried exactly when both indexes agree on the mode |
| Layering.StaysInPlace | src/libraries/deploy/layering.c:695-722 | a later transfer never disturbs a file that has arrived, in particular never gives a new inode a second name |
| Layering.NowInPlace | src/libraries/deploy/layering.c:695-722 | an arrived file shares an inode of the old tree exactly when it was linked |
| Layering.StagingStep | src/libraries/deploy/layering.c:695-722 | the staging directory holds exactly the files transferred so far and directories on the way to them |
| Layering.RoomFor | src/libraries/deploy/layering.c:695-722 | the way to the next file is free unless one path of the package runs through another |
| Layering.TransferOne | src/libraries/deploy/layering.c:696-709 | one file more is staged, from the right source; linked if it can be shared; on a reliable file system only an unavailable source or a path conflict stops it |
| Layering.TransferAll | src/libraries/deploy/layering.c:695-722 | the loop with its counters; it goes through whenever every source is available, paths do not conflict and the sizes fit 64 bits; on one reliable device every unchanged read-only file is linked |
| Layering.VerifyDirectoryContents | src/libraries/deploy/layering.c:409-426 | passes only if every indexed file is there with its size and digest |
| Layering.SealKeeps | src/libraries/deploy/layering.c:428-450 | setting the mode of a staged file changes no permissions of any old inode, though the old slot may share it |
| Layering.SealsApart | src/libraries/deploy/layering.c:428-450 | nor does it disturb another file of the package that shares the inode |
| Layering.SealSets | src/libraries/deploy/layering.c:428-450 | setting the mode of one more staged file changes no old inode but the one it shares, and there only the bits above 0777 |
| Layering.EnforceFilePermissions | src/libraries/deploy/layering.c:428-450 | afterwards every file has exactly its read-only mode; also when it fails part way, the old inodes whose modes were set are those of the files up to there |
| Layering.Seal | src/libraries/deploy/layering.c:723-739 | verification, file modes, directory modes and sync; on success the staging directory is in its final state |
| Layering.RenamePublishes | src/libraries/deploy/layering.c:740-744 | a sealed staging directory becomes the complete target, and all else stays |
| Layering.CleanupStaging | src/libraries/deploy/layering.c:559-573 | removes the staging directory and nothing outside it; one that is gone already is no failure |
| Layering.CleanupRestores | src/libraries/deploy/layering.c:755-763 | after a successful cleanup the tree has exactly the names it had |
| Layering.Install | src/libraries/deploy/layering.c:619-782 | in every outcome all old names, contents and 0777 bits stand, and the whole mode of every old inode but those that were set, which had the permissions of an indexed file; the target is published complete, and then the set ones are those it shares, or its name stays free; only a failed final sync reports an error after publication; counts and size total on success, none on error; the rollback code is never returned; on a reliable file system it succeeds whenever the sources are available, and links every unchanged read-only file on one device |
| Layering.InstalledExactly | src/libraries/deploy/layering.c:619-753 | the files of a published target are the indexed ones, no more and no fewer, and every directory has mode 0555 |
| Layering.CountsSum | src/libraries/deploy/layering.c:710-716 | the three transfer counts add up to the number of files |
| Layering.ModeKeptIff | src/libraries/deploy/layering.c:428-450 | in every outcome, also a failed one, an old inode keeps its whole mode exactly when its mode was not set or had no bits above 0777 |
| Layering.LinkedModeKeptIff | src/libraries/deploy/layering.c:428-450 | a linked file keeps its whole mode exactly when it had no bits above 0777 |
| Layering.HighBitsCanBeLost | src/libraries/deploy/layering.c:428-450 | an installation that succeeds and clears the set-user-ID bit of the file in the old slot |
| Sha512.CodeSigma0 | src/libraries/crypto/sha512.c:17-28 | the shifts and ors of the code are the rotations of FIPS 180-4 section 4.1.3 |
| Sha512.CodeSigma1 | src/libraries/crypto/sha512.c:17-28 | the same for the second function |
| Sha512.CodeSmallSigma0 | src/libraries/crypto/sha512.c:17-28 | the same for the first schedule function |
| Sha512.CodeSmallSigma1 | src/libraries/crypto/sha512.c:17-28 | the same for the second schedule function |
| Sha512.WordRoundTrip | src/libraries/crypto/sha512.c:69-78 | no byte of a word is lost or moved between its two forms |
| Sha512.ExpandSchedule | src/libraries/crypto/sha512.c:66-82 | the filled array is the message schedule of section 6.4.2 |
| Sha512.RunRounds | src/libraries/crypto/sha512.c:84-104 | eighty updates of eight variables in place are the eighty rounds |
| Sha512.Transform | src/libraries/crypto/sha512.c:65-117 | one block compressed into the state |
| Sha512.Context.AbsorbBlocks | src/libraries/crypto/sha512.c:163-167 | the whole blocks in the middle of an update leave the state of the message up to there, and less than a block over |
| Sha512.PadZerosIsLeast | src/libraries/crypto/sha512.c:179-222 | the padding is the least that leaves room for the length (section 5.1.2) |
| Sha512.BitCount | src/libraries/crypto/sha512.c:179-222 | two counter words with carry give the bit length of every message below 2^125 bytes |
| Sha512.PaddedIsDigest | src/libraries/crypto/sha512.c:179-222 | the blocks the code makes are those of the padded message |
| Sha512.Context.constructor | src/libraries/crypto/sha512.c:119-131 | the empty message, with the initial value of section 5.3.5 |
| Sha512.Context.Update | src/libraries/crypto/sha512.c:133-177 | absorbs exactly the input, whatever the buffer held; a null pointer absorbs nothing |
| Sha512.Context.Final | src/libraries/crypto/sha512.c:179-222 | the digest of everything absorbed, with one or two last blocks, and a wiped context |
| Sha512.Sha512 | src/libraries/crypto/sha512.c:224-245 | the one-shot form equals the streaming one and refuses a null pointer with a length |
| Sha512.Chunked | src/libraries/crypto/sha512.c:119-222 | for every way of cutting a message into updates the digest is that of the whole message, also when it overwrites a piece |
| Drain.ScanForRegister | src/libraries/deploy/drain.c:151-163 | one pass finds a duplicate, or else the first free slot |
| Drain.ScanForComplete | src/libraries/deploy/drain.c:192-199 | the first open stream with the id |
| Drain.OpenCountUpdate | src/libraries/deploy/drain.c:165-211 | changing one slot changes the number of open streams by that slot alone |
| Drain.HolderStep | src/libraries/deploy/drain.c:143-334 | each single store of the lock holder hands the invariant to its next store |
| Drain.OutsiderStep | src/libraries/deploy/drain.c:139-144 | a thread without the lock changes nothing but a free lock |
| Drain.StepInvariant | src/libraries/deploy/drain.c:131-338 | every step of every thread keeps the invariant, and a stream is accepted only while active and before any begin |
| Drain.FreeLockMeansConsistent | src/libraries/deploy/drain.c:131-338 | in every interleaving, with the lock free: active count is the open slots, ids are distinct, accepted is completed plus active, draining has open streams and completed has none |
| Drain.MutualExclusion | src/libraries/deploy/drain.c:143-144 | at most one thread is inside the lock |
| Drain.NothingAcceptedAfterBegin | src/libraries/deploy/drain.c:240-264 | after a begin the number of accepted streams never grows |
| Drain.LateRegistrationRefused | src/libraries/deploy/drain.c:139-149 | both the unlocked and the locked check turn a late registration away |
| Drain.CompletedLeftIff | src/libraries/deploy/drain.c:131-338 | in every interleaving a completed drain changes its phase at a step exactly if that step is the timeout store of a wait |
| Drain.CompletedStays | src/libraries/deploy/drain.c:303-338 | with no wait past its poll, a completed drain stays completed and no such wait can arise |
| Drain.LateWaiterStores | src/libraries/deploy/drain.c:326-333 | a wait past its poll can always go on to store its timeout, whoever holds the lock |
| Drain.CompletedFinalIff | src/libraries/deploy/drain.c:303-338 | a completed drain stays completed in every continuation exactly if no wait has polled before and is still to look at the clock or to store its timeout |
| Drain.CompletedCanBeOverwritten | src/libraries/deploy/drain.c:303-338 | an interleaving, with a clock that runs forward, in which a completed drain ends as timed out with nothing open |
| ZipFormat.CrcConcat | src/libraries/archive/zip.c:67-72 | the checksum of a concatenation is the checksum continued over the second part, for any table |
| ZipFormat.ComputeCrc | src/libraries/archive/zip.c:67-72 | the loop continues a checksum over a chunk |
| ZipFormat.RowRoundTrip | src/libraries/archive/zip.c:210-480 | a central directory record reads back as its entry, with the offset moved by the base |
| ZipFormat.DirectoryRoundTrip | src/libraries/archive/zip.c:210-480 | the directory reads back as one row for each entry, in order |
| ZipFormat.EndRoundTrip | src/libraries/archive/zip.c:234-428 | the last end record is found whatever bytes come before, and gives count, size and base |
| ZipFormat.LocalRoundTrip | src/libraries/archive/zip.c:133-566 | extraction passes the local header and yields the data |
| ZipFormat.RoundTrip | src/libraries/archive/zip.c:193-566 | for 1 to 65535 entries, names of at most 255 bytes, any prefix and less than 2^31 bytes: every name, checksum and content comes back in order |
| ZipArchive.MixedSplits | src/libraries/archive/zip.c:196-204 | a body whose first k headers are patched differs from the next one in header k alone |
| ZipArchive.PatchRecord | src/libraries/archive/zip.c:196-204 | twelve bytes written fourteen bytes into a record close it and change nothing else |
| ZipArchive.ZipWriter.AddEntry | src/libraries/archive/zip.c:133-181 | a new empty entry at the end of file and tables; when a table cannot grow, the header is in the file and the tables are as before |
| ZipArchive.ZipWriter.Write | src/libraries/archive/zip.c:183-191 | the data of the last entry grows; refused when there is none |
| ZipArchive.ZipWriter.PatchHeaders | src/libraries/archive/zip.c:196-208 | seeking back over all headers leaves the body with final sizes and checksums |
| ZipArchive.ZipWriter.WriteDirectory | src/libraries/archive/zip.c:210-232 | the directory of all entries behind the body |
| ZipArchive.ZipWriter.Close | src/libraries/archive/zip.c:193-262 | the file is the archive of the entries |
| ZipArchive.FindEnd | src/libraries/archive/zip.c:406-413 | the backward search gives the last end record |
| ZipArchive.ReadDirectory | src/libraries/archive/zip.c:449-480 | the loop fills the rows of the directory, or fails on a row without a name |
| ZipArchive.ReaderOpen | src/libraries/archive/zip.c:384-483 | opens exactly what the specification opens, for every byte string |
| ZipArchive.Extract | src/libraries/archive/zip.c:521-580 | the content in chunks, or the error, for every row |
| ZipArchive.PackAndUnpack | src/libraries/archive/zip.c:118-580 | what is packed, in any chunks, is listed and extracted again behind any prefix |
| BannedApis.CapIsHarmless | src/commands/arcc/main.c:157-170 | cutting an identifier at 127 characters never changes whether it is banned |
| BannedApis.CheckIdentifier | src/commands/arcc/main.c:156-187 | the end of an identifier and the report for it |
| BannedApis.ScanSourceBuffer | src/commands/arcc/main.c:121-237 | the C loop reports, in order, every banned name that begins in code, with its place, and nothing else |
| BannedApis.ScanCSource | scripts/gates/banned_apis.py:36-128 | so does the Python loop, with its own bookkeeping of lines and columns |
| BannedApis.ScannersAgree | scripts/gates/banned_apis.py:36-128 | both report the same lines, columns and names for every source |
| BannedApis.NextWellPlaced | src/commands/arcc/main.c:121-237 | after every step the mode is the region of a reader who takes one character at a time, line and column are those of the position, and no name is entered in the middle |
| BannedApis.NothingBetween | src/commands/arcc/main.c:142-222 | no banned name begins at a character that a step jumps over |
| BannedApis.ReportsAreExact | src/commands/arcc/main.c:121-237 | the findings of the common lexer are exactly the banned names in code by position: regions, names, lines and columns defined character by character, independently of the scanners |
| BannedApis.FindingsAreReal | src/commands/arcc/main.c:156-187 | each finding is a banned name that begins in code, in full length, with the report of that position; digits may stand before it |
| BannedApis.BannedWordsAreFound | src/commands/arcc/main.c:156-187 | no banned name that begins in code is missed |
| BannedApis.LineIsTrueIff | src/commands/arcc/main.c:205-223 | the reported line is the line in the file exactly if no literal before it is continued by a backslash; otherwise it is too small |
| BannedApis.ColumnIsTrueIff | src/commands/arcc/main.c:205-223 | the reported column is the column in the file exactly if its line does not begin behind such a newline |
| BannedApis.DigitBeforeName | src/commands/arcc/main.c:156-187 | a banned name right behind a digit is reported |
| BannedApis.ContinuedLiteralShiftsLines | src/commands/arcc/main.c:205-223 | a source whose reported line is wrong |
| HotReload.HotApp.Prepare | src/daemons/supervisor/context.c:332-448 | fills the slot that does not serve; the other slot and the active slot stay as they are at every point |
| HotReload.HotApp.Probe | src/daemons/supervisor/context.c:430-448 | a process that exits during the probes leaves an aborted slot without a process |
| HotReload.HotApp.SwitchTo | src/daemons/supervisor/context.c:450-470 | at no point does the active slot name one that does not serve |
| HotReload.HotApp.Deploy | src/daemons/supervisor/context.c:325-487 | settled before means settled after; a failed deploy leaves the serving slot untouched; one that starts serving serves throughout |
| HotReload.Supervisor.FindOrCreate | src/daemons/supervisor/context.c:56-75 | the first entry of the name, whether or not the table is full; else a new one, up to 64; names that do not fit the buffer are never found |
| HotReload.Supervisor.Deploy | src/daemons/supervisor/context.c:266-488 | the result for everything the deploy may find outside; all other applications are unchanged, and a serving one serves at every recorded moment |
| HotReload.Supervisor.DeployTwice | src/daemons/supervisor/context.c:56-75 | two deploys of one name that both succeed share an entry exactly if the name fits its buffer; otherwise both entries serve |
| HotReload.LongNameTwice | src/daemons/supervisor/context.c:56-75 | a run in which both deploys of a name of 64 characters succeed, with two entries of one name serving |
| HotReload.Supervisor.DeployBoth | src/daemons/supervisor/context.c:56-75 | deploys of two names that both succeed end in one entry exactly if the second name is the first cut to the buffer and, unless the two are the same, had no entry before |
| HotReload.ShortNameTakesOver | src/daemons/supervisor/context.c:56-75 | a run in which the first 63 characters of a name of 64 are deployed as another application and take its entry over, the first process being drained |
| HotReload.ServesForEver | src/daemons/supervisor/context.c:325-487 | over any run of deploys a serving application serves, from the slot told by the parity of the successes |
| BuildCleanup.SnapDir | src/commands/armake/armake.c:533-572 | what is recorded is recorded with all its parents, and with the kind, size and hash of what stands there, also when the walk is cut short; a complete walk records everything but version control data and build output |
| BuildCleanup.TakenIsRecord | src/commands/armake/armake.c:552-569 | an entry is the record of what the tree has at its path |
| BuildCleanup.ChangedIsSince | src/commands/armake/armake.c:632-642 | the files counted as changed are the recorded ones that differ from the tree the snapshot was taken of |
| BuildCleanup.InSnapshot | src/commands/armake/armake.c:574-582 | the first entry with the path, if there is one |
| BuildCleanup.ScanForAdded | src/commands/armake/armake.c:613-652 | the table gets the top-most unrecorded paths, up to 16384, and changed files are counted |
| BuildCleanup.Tree.Cleanup | src/commands/armake/armake.c:654-677 | the tree without every subtree on the table |
| BuildCleanup.RemoveOneMore | src/commands/armake/armake.c:660-672 | removing paths one by one is removing them all |
| BuildCleanup.CleanupSparesRecorded | src/commands/armake/armake.c:613-677 | nothing recorded is deleted, and its content stays, whatever the build did |
| BuildCleanup.CleanupIsComplete | src/commands/armake/armake.c:613-677 | unless nothing was recorded or the table overflowed, everything left is recorded, or lies at or below version control data or the snapshot file of a recorded directory |
| BuildCleanup.SurvivesIff | src/commands/armake/armake.c:654-677 | exactly the paths with no removed path at or above them survive |
| BuildCleanup.SurvivorsExact | src/commands/armake/armake.c:613-677 | unless nothing was recorded or the table overflowed, a path survives exactly when it is recorded or the scan never judges it |
| BuildCleanup.EmptySnapshotCleansNothing | src/commands/armake/armake.c:654-658 | with nothing recorded the cleanup leaves everything, also what the build added |
| BuildCleanup.AddedNothingIff | src/commands/armake/armake.c:613-652 | with no build output in the snapshot, the scan of any subtree adds nothing exactly when the subtree has no directory named like build output and all else that is judged is in the snapshot |
| BuildCleanup.SnapshotHasNoArtifact | src/commands/armake/armake.c:533-572 | a snapshot, also one cut short, never holds a directory named like build output |
| BuildCleanup.NothingAddedIff | src/commands/armake/armake.c:523-677 | a cleanup right after any snapshot, complete or cut short, removes nothing exactly when no directory is named like build output and all else is in the snapshot, or the snapshot is empty |
| BuildCleanup.CompleteNothingAddedIff | src/commands/armake/armake.c:523-677 | after a complete walk: exactly when no directory is named like build output, or nothing was recorded |
| BuildCleanup.OldOutputIsRemoved | src/commands/armake/armake.c:523-677 | a directory that was there before the build and is deleted |
| BuildCleanup.CutSnapshotLosesSource | src/commands/armake/armake.c:533-677 | a file that was there before the build and is deleted because the walk was cut short before it |
| BuildCleanup.CleanAfterBuild | src/commands/armake/armake.c:533-677 | snapshot, any build, cleanup: a path survives exactly when no path on the table is at or above it; unless nothing was recorded or the table overflowed, exactly when it is recorded or never judged; recorded files keep the content the build left; the counts are the removed subtrees and the recorded files that differ from before |

## Left out

- OpenSSL itself: SHA-256, HMAC and the CRC table are arbitrary functions, so the equality of the table with the CRC-32 polynomial is not claimed.
- AuditBlock.BlockEncode: null pointers and overlapping buffers, which the code refuses, cannot occur in the model.
- FileIo.ReadExactAt: the cap of one call at SSIZE_MAX; a bounded but arbitrary number of interruptions instead of an unbounded one.
- AuditDaemon.Run: signals and the sleep between rounds are the number of rounds; the key file and the loopback collector are left out, the transport may answer anything.
- Forward progress of the daemon: it flushes only after a successful enqueue, so a full queue never drains; nothing is claimed.
- ForwarderSocket.SocketSend: the clock and poll are a number of waits that end before the deadline.
- Crash consistency of the state file: it is overwritten in place, so a cut-off write may leave a file that reads back as nothing; that the system stores the parts of one write in order is taken for granted.
- Layering.Install: splitting the target string into parent and name, descriptor exhaustion and time stamps; the made-up part of the staging name is a parameter, and link attempts may fail at will.
- FileTree.FileSystem: access rights of the caller and symbolic links in parents of the slots are not modelled; failures stand for them.
- Transfer.HashFile: the incremental hash context is the text absorbed so far.
- Drain: the notify pipe, the descriptor, user data and clock value stored with a stream, statistics, destroy and waiting for processes; total_timed_out has no conservation law, because a wait may add to it twice.
- ZipArchive.ZipWriter.AddEntry: a copy of the name that cannot be allocated is not noticed by the code and leaves a row without a name for the close to read; the model always has the name.
- ZipArchive.ZipWriter.Write: failing writes, and signed overflow of sizes above 2^31; what further calls do after a failed entry is not modelled.
- ZipArchive.Extract: output paths, directories and the executable bit of what is written.
- BannedApis.ScanSourceBuffer: bytes above 127, quoting of the line in the message, the exit code.
- HotReload.HotApp.Prepare: manifest parsing, ports, policy, sending signals and waiting are given by their outcomes.
- BuildCleanup.Tree.Remove: links, failing deletions and paths longer than the buffers; saving and loading the snapshot file.
- Windows variants of all files, the installer, the graphical front ends, package signing, the event broker, guest router, PKI, vault and sandbox.
