# Model of the NFS compound-lookup kernel patch and of the tar file systems

The repository carries full copies of Linux VFS and NFSv4 client files, patched so that
path lookups which miss the dentry cache are queued and sent to the server as one COMPOUND,
and small file systems that read tar archives. This project models the parts of that code
whose correctness depends on whole runs, on interleavings or on unbounded inputs, and
proves what they promise.

The components, one or a few modules each:

* **Directory tree and rename** (`DirTree`, `RenameLocks`, `RenameSafety`, `RenameDeadlock`,
  `RenameOps`). Any number of tasks rename, exchange, remove and create. A step takes one
  mutex, makes the checks under the mutexes held, or makes the change. The tree stays a
  tree and the tasks never deadlock, although every rename moves the ground under the
  ranking that lock_rename uses.
* **Batched path walk** (`BatchedWalk`, `WalkState`). The walk that queues names and cancels
  ".." lexically, against the walk that resolves one component at a time.
* **Directory reading** (`Readdir`, `ReaddirFile`). nfs_readdir over a page cache that may
  lose any page at any moment, against the plain listing.
* **Open state, seqids, state manager, reclaim, session slots** (`OpenState`,
  `OpenStateRuns`, `OpenRecovery`, `OpenStateObject`, `SeqidQueue`, `StateManager`, `Reclaim`,
  `SessionSlot`), each as steps that are atomic under the lock the code holds.
* **Client caches** (`AccessTree`, `AccessCache`, `AccessRcu`, `AccessLru`, `AttrCache`, `AttrRuns`,
  `AttrInode`, `Invalidation`).
* **Loops against simple forms** (`NameHash`, `SymlinkWalk`, `TarReader`, `TarWalk`).

State that the source updates in place is a class, or an array, whose methods are proved
against a function of the old state; what the source promises is then proved about that
function and about runs of it. `Common` holds shared types and `Lists` what is needed about
kernel lists.

## Where the code does not do what it is meant to

Each is stated with the exact condition under which the promise holds.

* Cancelling ".." and "." inside the queue skips the checks the ordinary walk makes:
  "missing/.." and "file/." succeed (`BatchedWalk.LexicalCancelDiffers`; exact condition in
  `BatchedWalk.BatchedAgrees`). Whenever the ordinary walk succeeds, both agree.
* A delegated open updates the stateid under the seqlock and the counters under so_lock.
  When the last opener closes in between, the delegated bit is cleared and the new opener
  is left without cover (`OpenStateRuns.RaceUncovers`; `OpenStateRuns.StepKeepsIff` shows
  that nothing else breaks the invariant).
* An OPEN that brings a delegation has the same two halves: a last close in between leaves
  the opener with the delegation's stateid and without the delegated bit
  (`OpenStateRuns.StateidKeptIff`, `OpenStateRuns.DelegationIsLost`).
* nfs4_close_prepare does not give up an idle read-write open while one of its halves is in
  use under its own flag, although __nfs4_close asks for it
  (`OpenStateRuns.ReadWriteIsKept`; `OpenStateRuns.RunsLeakNothing` shows that nothing else
  is left open).
* When the server changes the stateid's "other" part, nfs_set_open_stateid_locked sets the
  flag of the new open and then clears all flags (`OpenState.FlagKeptIff`). It may do so
  after a CLOSE, whose answer nevertheless sets NFS_OPEN_STATE again
  (`OpenState.FlagAfterCloseIff`).
* Recovery clears the delegated bit without asking whether a delegated open is between its
  halves (`OpenRecovery.RecoveryRaceUncovers`; exact condition in `OpenRecovery.StepKeepsIff`).
* sr_status is written by a new slot and by a decoded reply only. A call that was told DELAY
  and ends without another answer gives its slot back with the number the server has already
  accepted and without the interrupted mark (`SessionSlot.StepKeepsIff`,
  `SessionSlot.AbandonIsReachable`; the next answer mends it).
* After an error of the SEQUENCE operation other than those it knows, the client goes on to
  the next number although the server has not (`SessionSlot.RefusedInStepIff`).
* When the reply to a counted request of an open owner is lost, the client's seqid stays one
  behind and its next request is refused (`SeqidQueue.StepKeepsIff`).
* The lock-free access lookup can hit an entry that a zap is removing, and one added after an
  invalidation that it did not see (`AccessRcu.RcuHitIsRightIff`,
  `AccessRcu.RcuHitIsLockedIff`).
* The state manager's error exit and a failed thread creation clear MANAGER_RUNNING without
  looking for new work (`StateManager.StrandedIff`).
* nfs_fileid_valid joins its two tests by "or", so a reply with another fileid is accepted
  when it carries no mounted-on fileid (`AttrCache.OtherFileAppliedIff`).
* A forced-WCC reply does throw the client's own pages away when writes are still queued
  and the file is longer than cached (`AttrCache.OwnWritesKeepDataIff`).
* get_blocks_count takes an int: from 2 GiB on the two tar walks part
  (`TarWalk.SameSkipIff`). The block walk then goes back to an earlier block, leaves the
  device, or stays at the header for ever (`TarWalk.BackwardSkip`, `TarWalk.NegativeSkipIff`).
* tfs_read_block with size 0 at the start of a block copies a whole block
  (`TarReader.FirstCopyFitsIff`); its one caller asks for 512 bytes.

## Model

| member | source | states |
|---|---|---|
| `RenameDeadlock.NoWaitCycle` | nfs_open_compounds_fix/fs/namei.c:2736-2773 | in every state that satisfies the invariant, no cycle of tasks waits for one another's mutexes (a task waiting for itself included), whatever mix of cross-directory renames, same-directory renames, exchanges, rmdir, unlink and create they are in |
| `RenameDeadlock.RunsNeverDeadlock` | nfs_open_compounds_fix/fs/namei.c:4302-4421 | the same for every state of every interleaving, while the renames of the run keep changing the ancestry that the lock order was computed from |
| `RenameDeadlock.Progress` | nfs_open_compounds_fix/fs/namei.c:4497-4556 | as long as some task is under way, some task under way can take a step |
| `RenameDeadlock.WaitsGoUp` | nfs_open_compounds_fix/fs/namei.c:4275-4292 | a rank of tasks (directories by depth, everything below a directory awaited by the one cross-directory rename above that, files last by address) strictly increases along every wait; this is the comment's "ancestors first, non-directories after them" made exact for a tree that moves |
| `RenameDeadlock.CrossTopDown` | nfs_open_compounds_fix/fs/namei.c:2747-2763 | the cross-directory rename never holds a directory at or below the one it waits for |
| `RenameDeadlock.SingleGoesDown` | nfs_open_compounds_fix/fs/namei.c:3799-3834 | a task working in one directory that waits for another directory waits for a child of the one it holds |
| `RenameDeadlock.FilesComeLast` | nfs_open_compounds_fix/fs/namei.c:4366-4369 | a task waiting for a non-directory holds only directories and non-directories with lower addresses |
| `RenameSafety.RunsAreSafe` | nfs_open_compounds_fix/fs/namei.c:4302-4421 | every state of every run: the directories form one rooted acyclic tree, no live object lies in a removed directory, no mutex has two holders, and what each task concluded under its mutexes is still true |
| `RenameSafety.StepKeeps` | nfs_open_compounds_fix/fs/namei.c:4497-4556 | every step of every task keeps that invariant |
| `RenameSafety.CommitNoOrphans` | nfs_open_compounds_fix/fs/namei.c:4366-4410 | removing or replacing a directory leaves no live child behind, because the emptiness test and the removal happen under the victim's mutex |
| `RenameSafety.DeathIsLocked` | nfs_open_compounds_fix/fs/namei.c:3799-3834 | a directory is marked dead only by a task that holds that directory's own mutex |
| `RenameSafety.AllowedExact` | nfs_open_compounds_fix/fs/namei.c:4534-4542 | the checks against the trap let through exactly the operations on live objects of live directories that put nothing under itself |
| `RenameSafety.ChangesAreLocked` | nfs_open_compounds_fix/fs/namei.c:4366-4369 | at the change itself the task holds both parents' mutexes, that of every object removed or replaced, and that of every file that moves |
| `RenameSafety.CommitDoes` | nfs_open_compounds_fix/fs/namei.c:4407-4416 | object by object, who has which parent and who is dead after the change |
| `RenameSafety.CreateDoes` | nfs_open_compounds_fix/fs/namei.c:2722-2732 | a new object appears under the locked, living directory and nothing else changes |
| `DirTree.TrapMeaning` | nfs_open_compounds_fix/fs/namei.c:2747-2763 | without reference to how it is found: a child of either parent is the trap exactly when it is above the other parent |
| `DirTree.LockOrderTopDown` | nfs_open_compounds_fix/fs/namei.c:2736-2764 | lock_rename locks both directories and the second one locked is never above the first |
| `DirTree.LockRename` | nfs_open_compounds_fix/fs/namei.c:2736-2764 | the branches of lock_rename, as code, give that order and that trap |
| `DirTree.ChildTowardMeaning` | nfs_open_compounds_fix/fs/namei.c:2749-2759 | d_ancestor's answer is the only child of a that is above b, and there is one exactly when a is a proper ancestor of b |
| `DirTree.ReparentExact` | nfs_open_compounds_fix/fs/namei.c:4411-4413 | d_move of x under p gives a tree if and only if x is not above p |
| `DirTree.ExchangeExact` | nfs_open_compounds_fix/fs/namei.c:4411-4416 | d_exchange gives a tree if and only if neither object is above the other's parent |
| `RenameOps.Namespace.Precheck` | nfs_open_compounds_fix/fs/namei.c:4447-4542 | each answer of renameat2's own checks if and only if it is due, from the request and the tree alone: flags that exclude each other, a missing source or exchange target, a target not to be replaced, a slash after a file, an object above the directory it is to go to |
| `RenameOps.Namespace.RenameAt2` | nfs_open_compounds_fix/fs/namei.c:4302-4421 | the whole call succeeds if and only if it passes those checks and either names the same object twice or replaces like by like in a living directory with the file system's consent; each error if and only if it is due; success makes exactly the requested re-parenting and removes exactly the replaced target, failure changes nothing |
| `BatchedWalk.BatchedAgrees` | nfs_open_compounds_fix/fs/namei.c:1874-1971 | for every file system, path, cache content and flush position: the component-by-component walk succeeds if and only if the batched walk does and every "." and ".." taken back from the queue stood behind a directory; then both reach the same node |
| `WalkState.Nameidata.BatchedLookup` | nfs_open_compounds_fix/fs/namei.c:2180-2250 | the same promise for the imperative walk: same node whenever the ordinary walk succeeds, and exactly when the two can differ |
| `WalkState.Nameidata.PathLookup` | nfs_open_compounds_fix/fs/namei.c:2157-2177 | link_path_walk and lookup_last resolve exactly the cancelled path, and leave no queue and no mutex behind |
| `WalkState.Nameidata.LinkPathWalk` | nfs_open_compounds_fix/fs/namei.c:1981-2064 | component by component: what is queued plus what is left always resolves to the same result; an error empties the queue |
| `WalkState.Nameidata.WalkChain` | nfs_open_compounds_fix/fs/namei.c:1874-1971 | one component: queue, cancel, cached step or flush at 30; chain_size is the queue length, stays below 30 between components, and the parent's mutex is held exactly while the queue is nonempty |
| `WalkState.Nameidata.ChainLookup` | nfs_open_compounds_fix/fs/namei.c:1856-1873 | the whole queue is resolved as one walk from the parent, the queue is emptied and the mutex dropped |
| `WalkState.Nameidata.DchainListPop` | nfs_open_compounds_fix/fs/namei.c:1812-1820 | removes the last queued name and keeps chain_size equal to the queue length |
| `WalkState.ChainLookupRpc` | nfs_open_compounds_fix/fs/nfs/dir.c:1524-1560 | one COMPOUND of LOOKUPs (section 16.13 of RFC 7530) means the same as the walk through those names, and handle i is the result of the first i + 1 names |
| `BatchedWalk.AbsorbedDotDot` | nfs_open_compounds_fix/fs/namei.c:1874-1971 | ".." after queued names equals taking the last one back, exactly when the names lead to a directory |
| `BatchedWalk.MissingDotDot` | nfs_open_compounds_fix/fs/namei.c:1874-1971 | for every file system and every missing name x: "x/.." is ENOENT one by one, and leaves the batched walk where it is |
| `BatchedWalk.FileDot` | nfs_open_compounds_fix/fs/namei.c:1874-1971 | for every file system and every file x: "x/." is ENOTDIR one by one, and reaches the file in the batched walk |
| `BatchedWalk.LexicalCancelDiffers` | nfs_open_compounds_fix/fs/namei.c:1874-1971 | the condition is needed: "missing/.." and "file/." succeed in the batched walk and fail with ENOENT and ENOTDIR in the ordinary one |
| `ReaddirFile.DirFile.Readdir` | nfs_open_compounds_fix/fs/nfs/dir.c:867-934 | for every buffer size, reply size and eviction of cached pages: the entries handed over are exactly the next ones of the listing, f_pos moves by their number, and a short answer means the end |
| `ReaddirFile.DirFile.ReadAll` | nfs_open_compounds_fix/fs/nfs/dir.c:867-934 | any sequence of calls with any buffer sizes emits consecutive entries, none lost and none repeated |
| `ReaddirFile.DirFile.Llseek` | nfs_open_compounds_fix/fs/nfs/dir.c:936-963 | a seek to n makes entry n the next one; a bad whence or a negative goal is EINVAL and changes nothing |
| `ReaddirFile.DirFile.SearchForCookie` | nfs_open_compounds_fix/fs/nfs/dir.c:292-338 | a stable directory never takes the readdir-loop branch, the entry found is the one at f_pos, and end of directory is reported only at the end |
| `ReaddirFile.DirFile.SearchForPos` | nfs_open_compounds_fix/fs/nfs/dir.c:260-281 | finds the entry number f_pos of the listing, or says that it lies beyond this page or beyond the end |
| `ReaddirFile.DirFile.SearchPagecache` | nfs_open_compounds_fix/fs/nfs/dir.c:740-754 | the page search ends, with the page that holds the entry at f_pos or at the end of the directory, and never with a readdir loop |
| `ReaddirFile.DirFile.DoFilldir` | nfs_open_compounds_fix/fs/nfs/dir.c:758-800 | hands over the entries from f_pos to the end of the page or of the buffer |
| `ReaddirFile.Directory.GetCachePage` | nfs_open_compounds_fix/fs/nfs/dir.c:683-721 | a missing page is refilled with the same content it had, whatever was evicted |
| `Readdir.FillPage` | nfs_open_compounds_fix/fs/nfs/dir.c:614-674 | however the server splits its replies, the page gets the entries from its cookie on, as many as fit, and the end mark exactly when the listing ends in it |
| `Readdir.PageFiller` | nfs_open_compounds_fix/fs/nfs/dir.c:523-575 | one reply goes into the page in order until the page is full, and the cookie to resume at is that of the first entry left out |
| `Readdir.ResumeAt` | nfs_open_compounds_fix/fs/nfs/dir.c:614-674 | resuming at the cookie of position i continues with entry i |
| `OpenStateRuns.StepKeepsIff` | nfs_open_compounds_fix/fs/nfs/nfs4proc.c:1104-1297 | every step of opens, cached opens, delegated opens and closes keeps the invariant if and only if it is not the last close between the two halves of a delegated open |
| `OpenStateRuns.RunsAreCovered` | nfs_open_compounds_fix/fs/nfs/nfs4proc.c:1219-1297 | in every run without that race: the mode is the union of the modes with openers, every such mode is flagged as held at the server (and no CLOSE or OPEN_DOWNGRADE under way will give it up) or the state is delegated |
| `OpenStateRuns.CoveredKeptIff` | nfs_open_compounds_fix/fs/nfs/nfs4state.c:729-776 | coverage of the openers is lost by exactly that race and by nothing else |
| `OpenStateRuns.InUseIsGranted` | nfs_open_compounds_fix/fs/nfs/nfs4proc.c:2622-2687 | the server has every mode in use on record, and still has it after the CLOSE or OPEN_DOWNGRADE under way (sections 16.2 and 16.19 of RFC 7530) |
| `OpenStateRuns.RunsHoldLatest` | nfs_open_compounds_fix/fs/nfs/nfs4proc.c:1171-1183 | in every run: whenever no OPEN reply waits to be stored, the open stateid is the last one the server gave out |
| `OpenStateRuns.RunsUseLatest` | nfs_open_compounds_fix/fs/nfs/nfs4proc.c:1230-1235 | in every run without the two races: whoever has the file open without a delegation uses that stateid |
| `OpenStateRuns.StateidKeptIff` | nfs_open_compounds_fix/fs/nfs/nfs4proc.c:1238-1255 | which step leaves an opener with the stateid of a delegation the state no longer has: the last close between the halves of an OPEN that brought it, and no other |
| `OpenStateRuns.DelegationIsLost` | nfs_open_compounds_fix/fs/nfs/nfs4proc.c:1238-1255 | that step is reachable |
| `OpenState.StoreKeepsNewest` | nfs_open_compounds_fix/fs/nfs/nfs4proc.c:1171-1183 | of two stateids with the same "other" the one with the larger seqid is kept, and otherwise the one that came last |
| `OpenState.NewOtherMarks` | nfs_open_compounds_fix/fs/nfs/nfs4proc.c:1156-1169 | a changed "other" drops every flag and marks the state for recovery if and only if a mode in use was flagged |
| `OpenStateRuns.CachedOpenIff` | nfs_open_compounds_fix/fs/nfs/nfs4proc.c:1104-1125 | an open needs no call, without a delegation, if and only if somebody has the file open in that mode |
| `OpenStateRuns.RunsLeakNothing` | nfs_open_compounds_fix/fs/nfs/nfs4proc.c:2622-2687 | in every run: with no request under way and no CLOSE task left, no flag stands for access nobody uses, except an idle read-write open beside one of its halves |
| `OpenStateRuns.AskedIsSent` | nfs_open_compounds_fix/fs/nfs/nfs4proc.c:2580-2620 | a CLOSE that was asked for is sent as soon as the seqid is free, and once answered exactly the flags of modes in use are left |
| `OpenState.CloseSentIff` | nfs_open_compounds_fix/fs/nfs/nfs4proc.c:2633-2657 | nfs4_close_prepare sends something if and only if a flag is wasted and it is not that exception, or the read-write flag is the only one beside a delegation; and it keeps exactly the access that is in use under its own flag |
| `OpenState.CloseAskedIff` | nfs_open_compounds_fix/fs/nfs/nfs4state.c:729-776 | __nfs4_close starts a CLOSE task if and only if a flag is then wasted |
| `OpenStateRuns.ReadWriteIsKept` | nfs_open_compounds_fix/fs/nfs/nfs4proc.c:2633-2657 | the exception is reachable: opened for both, then for reading, the first opener closes, and the server keeps the file open for writing |
| `OpenStateRuns.RaceUncovers` | nfs_open_compounds_fix/fs/nfs/nfs4proc.c:1238-1255 | the race is reachable from the initial state and ends with an opener that neither a flag nor a delegation covers |
| `OpenStateRuns.NewOtherUncovers` | nfs_open_compounds_fix/fs/nfs/nfs4proc.c:1171-1183 | a server that changes the stateid's "other" part makes the client drop the flag of the open it has just been granted |
| `OpenState.FlagKeptIff` | nfs_open_compounds_fix/fs/nfs/nfs4proc.c:1219-1236 | an OPEN reply leaves its mode flagged if and only if no stateid was held or "other" is the same |
| `OpenState.FlagAfterCloseIff` | nfs_open_compounds_fix/fs/nfs/nfs4proc.c:1185-1208 | an answered CLOSE leaves NFS_OPEN_STATE set, so an OPEN behind it keeps its flag if and only if the CLOSE brought no stateid or the OPEN brings the same "other" |
| `OpenState.PrepareGivesUpIdleModes` | nfs_open_compounds_fix/fs/nfs/nfs4proc.c:2622-2687 | CLOSE or OPEN_DOWNGRADE gives up only modes that no opener with a flag needs, and goes only to a mode flagged as granted |
| `OpenState.CloseOpenerUnion` | nfs_open_compounds_fix/fs/nfs/nfs4state.c:729-776 | after any close the mode is exactly the union of the modes with openers |
| `OpenStateRuns.RecoverExact` | nfs_open_compounds_fix/fs/nfs/nfs4proc.c:1521-1567 | successful recovery with nothing beside it leaves counters and mode unchanged, flags exactly the modes in use and starts no CLOSE |
| `OpenRecovery.StepKeepsIff` | nfs_open_compounds_fix/fs/nfs/nfs4proc.c:1500-1567 | with files closed, opened from the cache and opened through a delegation between any two steps of the recovery: every step keeps the invariant if and only if it does not take the delegation from a delegated open between its halves |
| `OpenRecovery.RecoveryGuarantees` | nfs_open_compounds_fix/fs/nfs/nfs4proc.c:1521-1567 | a recovery that runs to its end, in every such run: the counters are the tasks' own, every mode in use is flagged or delegated, access nobody uses has a CLOSE on its way, and no CLOSE is started if no task has closed a file |
| `OpenRecovery.RecoveryRaceUncovers` | nfs_open_compounds_fix/fs/nfs/nfs4proc.c:1526-1533 | the race is reachable: the recovery clears the delegated bit between the halves of a delegated open and ends with an opener that nothing covers |
| `OpenStateObject.Nfs4State.OpenRecover` | nfs_open_compounds_fix/fs/nfs/nfs4proc.c:1521-1567 | the same for the state updated in place |
| `OpenStateObject.Nfs4State.OpenRecoverHelper` | nfs_open_compounds_fix/fs/nfs/nfs4proc.c:1500-1519 | one mode: the close that ends the helper undoes the counting of the open, so no CLOSE is started, and just this mode becomes flagged |
| `OpenStateObject.Nfs4State.Close` | nfs_open_compounds_fix/fs/nfs/nfs4state.c:729-776 | the in-place close: mode is the union again, and a CLOSE is asked for exactly when a flagged mode lost its last opener |
| `OpenStateObject.Nfs4State.PrepareClose` | nfs_open_compounds_fix/fs/nfs/nfs4proc.c:2622-2687 | the decision between CLOSE, OPEN_DOWNGRADE and nothing never drops the flag of a mode with openers |
| `OpenStateObject.Nfs4State.SetOpenStateidLocked` | nfs_open_compounds_fix/fs/nfs/nfs4proc.c:1219-1236 | stores a newer stateid, flags the mode, and clears all flags first when "other" changed |
| `OpenStateObject.Nfs4State.ClearOpenStateidLocked` | nfs_open_compounds_fix/fs/nfs/nfs4proc.c:1185-1208 | drops exactly the flags outside the remaining access |
| `SeqidQueue.RunsAreOrdered` | nfs_open_compounds_fix/fs/nfs/nfs4state.c:1017-1113 | in every run, replies lost or not: one request at most is past the wait, it is the head of the queue, and the head is never left asleep |
| `SeqidQueue.CleanRunsAgree` | nfs_open_compounds_fix/fs/nfs/nfs4state.c:1047-1095 | in every run that loses no counted request: between requests the client's counter is what the server expects, and no request is answered BAD_SEQID |
| `SeqidQueue.StepKeepsIff` | nfs_open_compounds_fix/include/linux/nfs4.h:259-273 | with a server that advances by the rule of section 8.1.5 of RFC 3530, every step keeps client and server in agreement if and only if it is not the loss of the reply to a request the server has counted; then the client is exactly one behind |
| `SeqidQueue.NextIsRefused` | nfs_open_compounds_fix/fs/nfs/nfs4state.c:1047-1084 | after such a loss the owner's next request is answered BAD_SEQID |
| `SeqidQueue.FirstInFirstOut` | nfs_open_compounds_fix/fs/nfs/nfs4state.c:1097-1113 | in every run: a request that was not queued when another was never gets past the wait as long as the other stays queued |
| `SeqidQueue.NotCountedIff` | nfs_open_compounds_fix/include/linux/nfs4.h:259-273 | the seven errors, by number, after which the sequence does not advance |
| `SeqidQueue.SeqidCounter.WaitOnSequence` | nfs_open_compounds_fix/fs/nfs/nfs4state.c:1097-1113 | joins at the end once, sleeps exactly when it is not the head, and so makes the queue machine's Wait step |
| `SeqidQueue.SeqidCounter.ReleaseSeqid` | nfs_open_compounds_fix/fs/nfs/nfs4state.c:1017-1034 | leaves the queue and wakes exactly the new head, and so makes the machine's Release step |
| `SeqidQueue.SeqidCounter.IncrementSeqid` | nfs_open_compounds_fix/fs/nfs/nfs4state.c:1047-1073 | the client's list of statuses that do not count is exactly the rule of seqid_mutating_err, which makes the machine's Account step |
| `StateManager.RunsStrandNothing` | nfs_open_compounds_fix/fs/nfs/nfs4state.c:2305-2407 | in every run without a blind exit: one manager at most owns the client, and when every task has scheduled and every manager is gone no work bit is set and MANAGER_RUNNING is clear |
| `StateManager.StrandedIff` | nfs_open_compounds_fix/fs/nfs/nfs4state.c:2399-2407 | a step leaves work unattended if and only if it is thread-creation failure or the error exit with work set, nobody about to schedule and no manager about to look again |
| `StateManager.OwnerKept` | nfs_open_compounds_fix/fs/nfs/nfs4state.c:1117-1154 | MANAGER_RUNNING is set exactly while one manager owns it |
| `StateManager.LeavesIff` | nfs_open_compounds_fix/fs/nfs/nfs4state.c:2400-2403 | a manager that has cleared the bit goes if and only if it then finds no bit set |
| `StateManager.TakesOverIff` | nfs_open_compounds_fix/fs/nfs/nfs4state.c:2404-2406 | a manager that sees work goes on if and only if no other has taken the client over |
| `StateManager.IdleManagerEnds` | nfs_open_compounds_fix/fs/nfs/nfs4state.c:2399-2407 | a manager whose work is done ends and leaves the client to nobody |
| `StateManager.SchedulesIff` | nfs_open_compounds_fix/fs/nfs/nfs4state.c:1129-1154 | scheduling starts a manager if and only if none runs |
| `Reclaim.StateOwner.ReclaimOpenState` | nfs_open_compounds_fix/fs/nfs/nfs4state.c:1420-1509 | with other tasks adding, removing and changing states between the steps: the pass ends; no state is handed to recovery twice; without an abort every flagged, valid, open state that the others leave alone is handed over and nothing is left flagged; writers go before readers; each outcome does to the two other bits exactly what it should, and only an aborting one ends the pass early |
| `Reclaim.StateOwner.ReclaimOne` | nfs_open_compounds_fix/fs/nfs/nfs4state.c:1436-1500 | the same from one restart to the next |
| `Reclaim.StateOwner.NextToReclaim` | nfs_open_compounds_fix/fs/nfs/nfs4state.c:1436-1446 | a state is found if and only if a flagged, valid, open one is on the list; it is the first such, and besides its own flag only those of unfit states in front of it are taken; one without write mode is chosen only when no flagged write-mode state is left |
| `Reclaim.SetModeKeeps` | nfs_open_compounds_fix/fs/nfs/nfs4state.c:635-647 | changing a mode keeps every write-mode state before every other state and loses nobody |
| `Reclaim.AddKeeps` | nfs_open_compounds_fix/fs/nfs/nfs4state.c:673-707 | a new state goes behind the writers |
| `SessionSlot.StepKeepsIff` | nfs_open_compounds_fix/fs/nfs/nfs4proc.c:571-705 | with sr_status kept across a restart as the code keeps it: seq_nr stays one ahead of the server's last accepted number, or equal to it only for an interrupted, unanswered or delayed call, if and only if the step does not give up a call that was answered DELAY, then or before |
| `SessionSlot.RunsStayInStep` | nfs_open_compounds_fix/fs/nfs/nfs4proc.c:717-779 | in every run without such a step: a free, uninterrupted slot is exactly one ahead, no call is answered SEQ_MISORDERED, and each use of the slot is released once |
| `SessionSlot.AnyRunStaysLevel` | nfs_open_compounds_fix/fs/nfs/nfs4proc.c:571-779 | in every run whatsoever the two numbers are equal or one apart, no call is answered SEQ_MISORDERED, and each use of the slot is released once |
| `SessionSlot.AbandonIsReachable` | nfs_open_compounds_fix/fs/nfs/nfs4proc.c:603-705 | the three ways to abandon a delayed call (not restarted after the answer, not restarted after the loss of a later one, not sent again) each end, from a fresh slot, in a free unmarked slot whose number the server has used |
| `SessionSlot.NeverMisordered` | nfs_open_compounds_fix/fs/nfs/nfs4proc.c:603-705 | the server of section 2.10.6.1 of RFC 5661 never finds the slot out of order |
| `SessionSlot.AnswerRepairs` | nfs_open_compounds_fix/fs/nfs/nfs4proc.c:603-705 | the next success or SEQ_FALSE_RETRY leaves the slot free, unmarked and one ahead |
| `SessionSlot.AbandonedIsMended` | nfs_open_compounds_fix/fs/nfs/nfs4proc.c:640-705 | after such a step too, the next answer other than DELAY brings the slot back in step |
| `SessionSlot.RestartIff` | nfs_open_compounds_fix/fs/nfs/nfs4proc.c:640-705 | after which answers the call is tried again, and after which it keeps the slot |
| `SessionSlot.RefusedInStepIff` | nfs_open_compounds_fix/fs/nfs/nfs4proc.c:662-690 | when the server refuses the SEQUENCE and keeps its number, client and server stay in step if and only if they were one apart for BADSLOT, and level for any other error |
| `SessionSlot.MisorderedRestarts` | nfs_open_compounds_fix/fs/nfs/nfs4proc.c:668-686 | a number out of order makes the client go one on after an interrupted call and begin at 1 otherwise |
| `SessionSlot.NfsSlot.SequenceDoneInPlace` | nfs_open_compounds_fix/fs/nfs/nfs4proc.c:603-705 | the in-place code with its saved interrupted flag computes the step the machine above uses |
| `AccessLru.RunsStayConsistent` | nfs_open_compounds_fix/fs/nfs/dir.c:2200-2450 | after any mix of add, lookup, expiry, invalidation, zap and shrink, taken apart at the points where no lock is held: when nothing is half done the global count is the number of entries and every inode with entries is on the global list |
| `AccessLru.StepKeeps` | nfs_open_compounds_fix/fs/nfs/dir.c:2419-2447 | each step keeps: tree and list of each inode hold the same entries, one per credential; the count is off by exactly what is still to be counted |
| `AccessLru.Shrink` | nfs_open_compounds_fix/fs/nfs/dir.c:2224-2267 | the shrinker frees at most nr_to_scan entries, loses none, keeps the global list right, and does not stop short: each turn frees an entry or takes an inode off the list until at most one is left |
| `AccessLru.ScanFreesOldest` | nfs_open_compounds_fix/fs/nfs/dir.c:2236-2258 | a turn frees exactly the least recently used entry of the first inode, from its list and its tree, and passes on to the next inode |
| `AccessLru.StepAnswers` | nfs_open_compounds_fix/fs/nfs/dir.c:2319-2417 | what each other step does to the answers of an inode |
| `AccessRcu.RcuHitIsRightIff` | nfs_open_compounds_fix/fs/nfs/dir.c:2354-2384 | in every run of the separate tree and list writes: what the lock-free lookup returns is what the locked lookup's code finds in the tree and the flag of some moment between its two reads, lock held or not, if and only if the entry was not out of the tree already at the first read and was not added under an INVALID_ACCESS set since |
| `AccessRcu.RcuHitIsLockedIff` | nfs_open_compounds_fix/fs/nfs/dir.c:2354-2384 | the same for moments at which the lock is free, so that a locked lookup could have answered: if and only if there was such a moment between the two reads, the entry was not added under an INVALID_ACCESS set since, and the task that added it does not still hold the lock |
| `AccessRcu.RcuHitAtTailIff` | nfs_open_compounds_fix/fs/nfs/dir.c:2354-2384 | with INVALID_ACCESS still clear when the tail is read, the hit is the locked answer of that moment if and only if the lock holder has not taken the entry out of the tree |
| `AccessRcu.ListedInTreeIff` | nfs_open_compounds_fix/fs/nfs/dir.c:2386-2417 | between any two writes of add, hit, expiry, scan and zap: a listed entry is what the tree holds for its credential unless its removal from the tree is the write just made |
| `AccessRcu.WritesAddUp` | nfs_open_compounds_fix/fs/nfs/dir.c:2267-2280 | the writes of each operation together are the one change that holders of the lock see |
| `AccessRcu.MidZapHit` | nfs_open_compounds_fix/fs/nfs/dir.c:2267-2280 | a run that shows the condition is needed: a reader between rb_erase and list_move of a zap hits the entry that is going away |
| `AccessRcu.LateAddHit` | nfs_open_compounds_fix/fs/nfs/dir.c:2386-2417 | and one for the other half: an entry added after an invalidation the reader did not see |
| `AccessCache.AddKeeps` | nfs_open_compounds_fix/fs/nfs/dir.c:2386-2417 | replaces the entry of the credential in tree and list alike, and changes no other answer |
| `AccessCache.LockedLookupIff` | nfs_open_compounds_fix/fs/nfs/dir.c:2319-2340 | the locked lookup answers an entry if and only if the cache is valid, it is the one of the credential, and it has not outlived the attribute timeout or a delegation vouches |
| `AccessCache.NewestIsLast` | nfs_open_compounds_fix/fs/nfs/dir.c:2337-2337 | an entry added or hit becomes the last of the list, where the lock-free lookup looks |
| `AccessCache.InodeAccess.GetCached` | nfs_open_compounds_fix/fs/nfs/dir.c:2319-2352 | fresh entry: returned and moved to the end; stale entry: gone from tree and list; invalidated cache: emptied |
| `AccessCache.InodeAccess.Zap` | nfs_open_compounds_fix/fs/nfs/dir.c:2267-2280 | the loop empties tree and list together and frees as many entries as there were |
| `AccessCache.InodeAccess.AddRbtree` | nfs_open_compounds_fix/fs/nfs/dir.c:2386-2417 | the in-place add keeps tree and list equal and says whether it replaced an entry |
| `AccessTree.LookupErase` | nfs_open_compounds_fix/fs/nfs/dir.c:2301-2317 | the search in the tree without a credential answers as before for every other credential |
| `AccessTree.LookupInsert` | nfs_open_compounds_fix/fs/nfs/dir.c:2386-2412 | the search after an insertion answers the new entry for its credential and as before for every other |
| `AttrRuns.OvertakenReplyIsNotTrusted` | nfs_open_compounds_fix/fs/nfs/inode.c:1399-1438 | in every run: a reply to a request that began before a detected change is applied in full only if its ctime or size is strictly larger than the cached one |
| `AttrRuns.UnovertakenReplyIsTrusted` | nfs_open_compounds_fix/fs/nfs/inode.c:1399-1438 | conversely a reply to a request begun after the last detected change is applied in full |
| `AttrRuns.RunsKeep` | nfs_open_compounds_fix/fs/nfs/inode.c:1579-1789 | in every run: the S_IFMT bits of i_mode never change although updates and chmod rewrite the word, attrtimeo stays within its minimum and maximum, attr_gencount only grows and never exceeds the global counter, a stale inode stays stale |
| `AttrCache.TakePermExact` | nfs_open_compounds_fix/fs/nfs/inode.c:1699-1706 | rewriting i_mode through the two masks keeps its type bits, takes exactly the new permissions, and changes nothing when these are equal |
| `AttrCache.OwnWritesKeepDataIff` | nfs_open_compounds_fix/fs/nfs/inode.c:1513-1552 | a forced-WCC reply without pre-operation attributes about a regular file changes INVALID_DATA in exactly one case: writes are queued, the file is longer than cached, it has pages, nothing vouches for them and no layoutcommit is outstanding |
| `AttrCache.OwnWritesDoNotPoison` | nfs_open_compounds_fix/fs/nfs/inode.c:1158-1196 | with no queued writes such a reply leaves INVALID_DATA as it was |
| `AttrCache.ForeignWriteIff` | nfs_open_compounds_fix/fs/nfs/inode.c:1423-1474 | a plain refresh with another change attribute sets INVALID_DATA if and only if it is applied in full, the file can have and has pages, and no delegation vouches for them |
| `AttrCache.ForeignChmodIff` | nfs_open_compounds_fix/fs/nfs/inode.c:1699-1733 | a plain refresh applied in full invalidates access rights and ACL if and only if the change attribute, permissions, owner or group differ and no delegation vouches |
| `AttrCache.AppliedInFullIff` | nfs_open_compounds_fix/fs/nfs/inode.c:1399-1407 | a reply is applied in full if and only if its request began after the last detected change or its ctime or size is larger |
| `AttrCache.OwnWritesAreDetected` | nfs_open_compounds_fix/fs/nfs/inode.c:1513-1552 | a fresh reply to the client's own write counts as a change whenever it carries one of the compared attributes |
| `AttrCache.RefusedIff` | nfs_open_compounds_fix/fs/nfs/inode.c:1207-1223 | which replies are refused with ESTALE and EIO |
| `AttrCache.LookupsInDoubtIff` | nfs_open_compounds_fix/fs/nfs/inode.c:1635-1650 | cached lookups in a directory are put in doubt if and only if somebody else changed it |
| `AttrCache.ReplyIsTaken` | nfs_open_compounds_fix/fs/nfs/inode.c:1635-1748 | attribute by attribute, what a reply applied in full replaces and what it leaves |
| `AttrCache.StillToRevalidateIff` | nfs_open_compounds_fix/fs/nfs/inode.c:1626-1748 | which validity bits remain after a reply that misses something |
| `AttrCache.ComparedIff` | nfs_open_compounds_fix/fs/nfs/inode.c:1207-1273 | which doubts a reply that is only compared raises |
| `AttrCache.DoubtsAfterChange` | nfs_open_compounds_fix/fs/nfs/inode.c:164-187 | what is in doubt after an operation that changes the inode, and after a zap |
| `AttrCache.TimeoutMeaning` | nfs_open_compounds_fix/fs/nfs/inode.c:1759-1774 | the timeout is the minimum after a change, unchanged while it runs, and doubled up to the maximum once it has run out |
| `AttrRuns.SetattrMeaning` | nfs_open_compounds_fix/fs/nfs/inode.c:583-605 | a successful setattr caches what was set, keeps the type, and puts access rights and ACL in doubt if and only if something was set |
| `AttrCache.StaleReplyOnlyDoubts` | nfs_open_compounds_fix/fs/nfs/inode.c:1200-1273 | a reply not applied in full changes no attribute and no page state; it only raises doubts, INVALID_ATTR among them when the change attribute differs |
| `AttrCache.SecondTimeQuietIff` | nfs_open_compounds_fix/fs/nfs/inode.c:1579-1780 | applying the same reply again reports a change if and only if one of its pre-operation attributes equals the attribute after the operation |
| `AttrCache.CompleteReplyIsCurrent` | nfs_open_compounds_fix/fs/nfs/inode.c:1635-1748 | a complete reply applied in full leaves the reply's values cached and nothing to revalidate, except a size that queued writes still move |
| `AttrCache.OtherFileAppliedIff` | nfs_open_compounds_fix/fs/nfs/inode.c:1555-1612 | a reply with another fileid that is applied in full overwrites the attributes if and only if its mounted-on fileid is missing or matches; else the inode becomes stale and keeps them |
| `AttrInode.NfsInode.UpdateInode` | nfs_open_compounds_fix/fs/nfs/inode.c:1579-1789 | the in-place code, with its saved, cleared and restored bits and its WCC step first, gives field by field the state that AttrCache describes from the old state alone |
| `AttrInode.NfsInode.WccUpdateInode` | nfs_open_compounds_fix/fs/nfs/inode.c:1158-1196 | takes over exactly the attributes whose pre-operation value matches the cache, and reports whether there was one |
| `AttrInode.NfsInode.CheckInodeAttributes` | nfs_open_compounds_fix/fs/nfs/inode.c:1207-1273 | the comparison raises exactly the doubts of the attributes that differ |
| `AttrInode.NfsInode.PostOpUpdateInodeForceWcc` | nfs_open_compounds_fix/fs/nfs/inode.c:1513-1552 | makes up the missing pre-operation attributes of a fresh reply and drops them from a stale one |
| `AttrInode.CopyData` | nfs_open_compounds_fix/fs/nfs/inode.c:1635-1697 | change attribute, times and size: what is copied, whether it changed, and which saved bits a missing attribute brings back |
| `AttrInode.CopyOwner` | nfs_open_compounds_fix/fs/nfs/inode.c:1699-1748 | the same for mode, owner, group and link count |
| `Invalidation.RunsAnnounceStale` | nfs_open_compounds_fix/fs/nfs/inode.c:1069-1133 | in every interleaving: stale pages imply INVALID_DATA or INVALIDATING, one task at a time invalidates, and a reader that passes both checks sees no page that was stale at its first |
| `Invalidation.OldPagesAreAnnounced` | nfs_open_compounds_fix/fs/nfs/inode.c:1069-1133 | in every run: a page that was cached when the file was found changed and still is has one of the two bits set |
| `Invalidation.ReaderMissesOldPages` | nfs_open_compounds_fix/fs/nfs/dir.c:283-290 | in every run: a reader whose two checks come after the file was found changed finds no page that was cached then |
| `Invalidation.ReadersKept` | nfs_open_compounds_fix/fs/nfs/dir.c:283-290 | what a reader learned at its first check stays true until its second |
| `Invalidation.ReversedChecksMissStale` | nfs_open_compounds_fix/fs/nfs/dir.c:283-290 | the order of the two checks is needed: the other order can miss a stale page |
| `NameHash.HashName` | nfs_open_compounds_fix/fs/namei.c:1755-1778 | the word-at-a-time loop returns the length up to the first '/' or NUL and the hash that full_name_hash gives for those bytes |
| `NameHash.FullNameHash` | nfs_open_compounds_fix/fs/namei.c:1728-1747 | the word loop with its masked last word computes the fold over the words of the name |
| `NameHash.HashNameBytes` | nfs_open_compounds_fix/fs/namei.c:1795-1808 | the same promise for the bytewise version |
| `NameHash.FullNameHashBytes` | nfs_open_compounds_fix/fs/namei.c:1782-1789 | the bytewise loop computes the fold over the bytes of the name |
| `NameHash.ComponentLenUnique` | nfs_open_compounds_fix/fs/namei.c:1760-1776 | the length is the only position with a terminator and none before it |
| `SymlinkWalk.Nd.PathLookup` | nfs_open_compounds_fix/fs/namei.c:2206-2228 | on every symlink graph the walk ends, follows at most 40 links, and answers exactly what a flat walk over the spliced-in targets answers, or ELOOP if a link is met inside a path while eight others wait |
| `SymlinkWalk.StackedIsFlat` | nfs_open_compounds_fix/fs/namei.c:1657-1686 | which paths the nesting limit stops: those, and only those, that meet a link with more of its path to come when eight rests of paths are already waiting |
| `SymlinkWalk.Nd.NestedSymlink` | nfs_open_compounds_fix/fs/namei.c:1657-1686 | the nesting depth is restored and never reaches the BUG_ON; the rest of the path means the same before and after the link |
| `SymlinkWalk.Nd.FollowLink` | nfs_open_compounds_fix/fs/namei.c:899-950 | a link that is followed uses up one of the 40, which is the first part of the recursion's measure |
| `SymlinkWalk.Nd.LinkPathWalk` | nfs_open_compounds_fix/fs/namei.c:1981-2064 | all components but the last, links included, keep the meaning of the whole path |
| `SymlinkWalk.CycleIsELOOP` | nfs_open_compounds_fix/fs/namei.c:899-950 | links that only lead to one another answer ELOOP for every budget |
| `SymlinkWalk.LinkBase` | nfs_open_compounds_fix/fs/namei.c:899-950 | an absolute link leads where its target leads from the root, from any directory; a relative one where its target leads from the directory it is met in |
| `TarReader.ReadBlock` | tarFS/pbelousov/inode.c:9-51 | for every device, block size, start and size: the bytes delivered are the device's own, all of them if and only if every block touched can be read, else up to the first unreadable block; more than asked for is written if and only if nothing is asked for at the start of a readable block |
| `TarReader.FirstCopyFitsIff` | tarFS/pbelousov/inode.c:12-33 | with last_block and blocks computed in 64 bits: the first memcpy stays inside the request if and only if there is something to read or the start lies inside a block |
| `TarWalk.HeaderPos.GetHeader` | tarFS/pbelousov/inode.c:123-141 | reads the header at the next offset if and only if the device can, and moves past the file rounded up to whole blocks; at the end nothing moves |
| `TarWalk.SeekHeader` | tarFS/pbelousov/inode.c:143-163 | the search through the headers the device can read, which ends on every finite device |
| `TarWalk.FileSizeFits` | tarFS/pbelousov/inode.c:131-138 | a size field holds less than 2^36, so that the 64-bit offsets of the walk do not wrap |
| `TarWalk.SeekMeaning` | tarFS/pbelousov/inode.c:143-163 | the search finds the first match among all headers of the walk, with its 1-based number and the offset of its data, if and only if there is a match |
| `TarWalk.CreateInodeByName` | tarFS/ksaltuk/inode.c:87-113 | on every archive: the match, the end of the archive or the NULL fault that the loop comes to, or the statement that it never ends, each exactly when it is so |
| `TarWalk.ForwardSearchEnds` | tarFS/ksaltuk/inode.c:87-113 | when no header leads backwards the search ends, with the first match of the block-index walk if there is one |
| `TarWalk.WalksAgree` | tarFS/ksaltuk/inode.c:87-113 | up to the first empty header both walks visit the same headers, for every archive whose size fields are octal digits ended by NUL and below 2 GiB |
| `TarWalk.GoodDevice` | tarFS/pbelousov/inode.c:123-141 | on a device of whole readable blocks, of any block size, the byte-offset walk sees the archive itself |
| `TarWalk.SameSkipIff` | tarFS/ksaltuk/inode.c:43-48 | both drivers skip the same number of blocks if and only if the size is below 2 GiB |
| `TarWalk.BackwardSkip` | tarFS/ksaltuk/inode.c:43-48 | at a header that does not match: a skip of -1 keeps the search there for ever, a smaller one takes it to an earlier block, or off the device into the fault if and only if i + skip + 1 is negative |
| `TarWalk.NegativeSkipIff` | tarFS/ksaltuk/inode.c:43-48 | the sizes below 4 GiB with a negative skip, and those with a skip of -1 |
| `TarWalk.HeadersAligned` | tarFS/pbelousov/inode.c:123-141 | all headers of the byte-offset walk lie on 512-byte boundaries |
| `TarWalk.ScansAgree` | tarFS/ksaltuk/inode.c:5-13 | the two readers of an octal field agree on digits ended by NUL |
| `TarWalk.FileSizeMeaning` | tarFS/ksaltuk/inode.c:5-13 | the size is the number that the octal digits in bytes 124 to 135 of the header stand for, each digit times its power of eight |

## Left out

- XDR, RPC transport, slot allocation, delegation return and pNFS: their answers are
  parameters of the steps.
- d_ancestor, d_move and d_exchange: dcache.c is not part of this model; they are taken as
  the child on the path, and as re-parenting.
- RCU walk and sequence-count retries, which the patch switches off
  (nfs_open_compounds_fix/fs/namei.c:2254-2256).
- Permission checks, hard-link limits, mount points and delegation breaks in rename, except
  that any of them may abort an operation; all mutexes of an operation are released in one
  step.
- RenameOps.Namespace.RenameAt2: permissions are not modelled, nor two names of one file; the
  file system's own answer is a parameter.
- Batched walks through symlinks, mount points or aliases, children cached under a queued
  name, and endings that do not flush the queue (LOOKUP_PARENT, umount).
- WalkState.Nameidata.ChainLookup: does not say which dentries a COMPOUND that failed half
  way leaves in the cache.
- WalkState.Nameidata.FreeDchainList: the reference counts it drops are not modelled.
- Readdir of a directory that changes while it is read; uncached_readdir and the loop
  report are proved unreachable for one that does not.
- OPEN with O_EXCL or O_TRUNC, which never uses the cached open, and stateids marked
  invalid after a failed recovery.
- OpenStateRuns.RunsHoldLatest: the seqid of a stateid does not wrap.
- OpenStateRuns.RunsAreCovered: assumes, as the protocol has it, that one request per owner
  holds the seqid, that the server keeps "other", and that the race above does not happen.
- OpenRecovery.RecoveryGuarantees: a reclaim that the server refuses, and the order in which the
  single flag bits are cleared at the start, are not modelled; OPEN and CLOSE calls wait meanwhile.
- SeqidQueue.CleanRunsAgree: what follows a BAD_SEQID answer, a new owner, is not modelled, nor
  is a server that takes the next request for a repetition of the lost one.
- StateManager.RunsStrandNothing: the exit on the last client reference is not modelled; the
  blind exits are excluded, and shown to be the only ones that strand work.
- Reclaim.StateOwner.ReclaimOpenState: the pass after a reboot only. The no-grace pass can mark
  the same state again (nfs_open_compounds_fix/fs/nfs/nfs4state.c:1477-1485) and need not
  end.
- SessionSlot.RunsStayInStep: BADSLOT and other errors are treated call by call
  (SessionSlot.RefusedInStepIff), not in the runs; session resets are not modelled.
- AccessRcu.RcuHitIsRightIff: memory ordering beyond the order of the writes, and the freeing of
  entries after a grace period.
- Red-black rebalancing: any ordered search tree will do.
- AttrRuns.RunsKeep: fileid, which none of these functions writes, is constant by construction;
  the generation counter does not wrap, and the mount's minimum timeout
  is not above its maximum.
- Attributes beyond those compared: blocks used, device numbers, fsid and security labels,
  and the clamp of sizes to the largest file offset.
- Invalidation.RunsAnnounceStale: runs in which removing a page fails are not modelled.
- Word-at-a-time bit tricks: taken as "the first matching byte"; the byte order is little-endian.
- TarReader.ReadBlock: does not say what lies behind the buffer after an overrun. Devices are
  no longer than the largest file offset.
- Tar names with prefixes or leading dots (matching is a parameter), size fields that are
  not octal digits ended by NUL, tarFS/afedosenko and tarFS/aboyaritsev.
- rpc_exploits, mounting, module setup, statistics and tracing.
