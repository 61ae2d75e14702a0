# Verified models of the kernel's low-level code

This project models the intricate parts of the XNU sources under `kernel/Atom-Kernel-N570`
as Dafny programs and proves what they do, for all inputs, all runs and all schedules.
`dafny verify dfyconfig.toml` checks everything.

Code that changes state in place is written as methods over arrays and class fields and proved
equal to a function or relation; the properties are then lemmas about that function or relation.

| part | files | source |
|---|---|---|
| LZSS dictionary: 256 search trees threaded through three arrays | `Lzss`, `SearchTree`, `TreeEdits`, `Forest`, `Descent`, `Removal`, `EncodeState` | `libkern/mkext.c` |
| LZSS decoder and its byte format | `LzssFormat`, `Decompress`, `UnsetCells`, `MatchRoundTrip` | `libkern/mkext.c` |
| archive checksum | `Adler32` | `libkern/mkext.c` |
| vnode labelling protocol | `VnodeLabel`, `VnodeLabelCode` | `security/mac_vfs_subr.c` |
| busy count and exclusive access | `PolicyBusy`, `PolicyBusyCode` | `security/mac_base.c` |
| policy table, registration, composition of verdicts | `PolicyTable`, `PolicyList`, `PolicyHistory`, `MacError`, `MacCheck`, `MacOrder` | `security/mac_base.c`, `security/mac_internal.h` |
| label text | `LabelText`, `LabelPrint`, `LabelCode`, `LabelNames` | `security/mac_base.c` |
| module data relocation | `ModuleData`, `ModuleDataCode`, `ModuleDataLaws`, `ModuleDataPlaces` | `security/mac_base.c`, `security/mac_data.h`, `security/mac_data.c` |
| kext versions | `KextVersion`, `KextGrammar`, `KextRoundTrip`, `KextVersionCode` | `libkern/OSKextVersion.c` |
| Mach-O segment renaming and lookup | `MachO`, `SetSegname`, `SetSegnameLaws`, `MachHeader`, `MachLookup`, `MachWords` | `tools/snowleopard/setsegname.c`, `libkern/kernel_mach_header.c` |

`Base` holds the two types that everything shares.

How the main proofs go:

- **Trees.** The link arrays are related to a tree value by `Represents`; `Ctx` is a tree with a hole, so each
  pointer edit is a small change around the hole, and strict window order of the in-order sequence is the
  search-tree property. The walk carries "best match among everything judged or provably no better".
- **Decoder.** The ring buffer is proved to be a view of an unbounded history; a match is a copy from a distance
  behind. Termination, prefixes and round trips are lemmas about the history.
- **Protocols.** Threads are program counters over a shared record; one step is one statement. The invariants are
  proved for any number of threads and any schedule. The methods of the `...Code` modules are the same functions
  written over class fields, each lock section proved equal to the steps of the state machine.
- **Images.** A Mach-O image and a module-data block are flat bytes that are read while they are written. What a
  traversal meets is a function of the bytes it reads, and those are shown to be disjoint from the bytes it writes.

The functions that methods are proved equal to are described once more in other terms: which words of an image or a
block they read (`MachWords`, `ModuleDataPlaces`), which texts they accept (`KextGrammar`), which names they match
(`LabelNames`), and what a whole call does (the lemmas on calls in the `...Code` modules).

Where the code and its comments part ways, the code is followed:

- `mac_base.c:277-279` says that static policies cannot be unloaded, but `mac_policy_unregister` only tests the
  UNLOADOK flag (`mac_base.c:994`). A static place that is vacated stays vacant: `staticmax` does not come down, and
  the hint never goes below it. So the shortcut at `mac_base.c:470` is taken when it should not be, and it stays so:
  MAC_CHECK misses the dynamic policies, all of them, if and only if there are some and not more of them than
  static places have been vacated (`MacCheck.CoverIff`; over whole histories `PolicyHistory.EveryHistoryIsConsistent`).
  The removal itself may hide a policy (`StaticRemovalSilencesDynamic`), but so may a later registration
  (`LaterLoadIsHidden`) or a later removal of a dynamic policy (`LaterRemovalHides`).
- For the same reason the search from the hint (`mac_base.c:905-912`) need not find the lowest free handle
  (`PolicyList.SearchIsLowestIff`), and finds none if the vacated places are the only free ones
  (`PolicyTable.FindableIff`). `*handlep` then keeps what the caller had there, and the policy is stored at that
  handle: it may fill the vacated place, overwrite another policy, or lie outside the table
  (`PolicyList.RegisterKeepsIff`; `PolicyHistory.SearchFindsNothing` gets there).
- Removing handle 0 while `maxindex` is 0 makes `maxindex--` wrap to 2^32 - 1 (`PolicyHistory.OnlyRemovalWraps`).
- `OSKextVersion.c:288-290` says a period is not legal after the revision, but `:313-314` skip one after two
  digits. Empty components such as "1..5" parse.
- The ENOENT rollback at `mac_base.c:1179-1181` takes back exactly the name and the slash. It restores the buffer
  if and only if the policy printed nothing (`LabelPrint.RollbackIff`). Errors and success are stated for all
  policies; the text is the rendering of the pairs exactly if they print nothing before ENOENT (`LabelPrint.QuietIff`).
- Verdicts without a precedence of their own make a check depend on the order of policies
  (`MacError.OrderIndependentIff`, with a failing reordering from `MacError.OrderMatters`).
- Not every code survives printing and parsing: a release version with a level loses the level, a candidate with
  level 0 and a code with an unknown stage do not parse back. `KextRoundTrip.PrintParseIff` says exactly which do.

Assumptions about the surroundings: integers are 32 bits where the code says so and the host is little-endian;
`kOSKextVersionMaxLength` is 20 (`libkern/libkern/OSKextLibPrivate.h:572`); `MAC_MAX_SLOTS` is 7
(`security/_label.h:72`); Mach-O layouts follow `EXTERNAL_HEADERS/mach-o/loader.h`; error numbers follow
`bsd/sys/errno.h`. The checksum and the decoder need the buffers their callers pass; the decoder needs
`dstlen >= 1`, because its store comes before the test (`mkext.c:144-147`), and reports the 18 ring cells that are
never initialised as an explicit result. Registration needs room for one more chunk of the table below 2^32 entries,
which does not bound the number of registrations, and takes what `*handlep` holds before the call as an argument;
removal needs a handle that is in use (the code follows the pointer without a test). Policies' own callbacks are
parameters: arbitrary functions of what they are given.

## Model

| member | source | states |
|---|---|---|
| `Encoder.EncodeState.InitState` | kernel/Atom-Kernel-N570/src/xnu/libkern/mkext.c:181-193 | after init_state the 256 trees are all empty, every node is dead and every index is in bounds |
| `Encoder.EncodeState.InsertNode` | kernel/Atom-Kernel-N570/src/xnu/libkern/mkext.c:203-251 | for a dead node r: the trees stay well formed (links mutually inverse, acyclic, each node in the tree of its first byte, in strict window order); the live set loses exactly the equal-string victim, if any, and gains r; match_position and match_length are a longest match of r against all nodes live before |
| `Encoder.EncodeState.DeleteNode` | kernel/Atom-Kernel-N570/src/xnu/libkern/mkext.c:254-284 | for every p: the trees stay well formed and exactly p leaves the live set; a dead p changes nothing |
| `Encoder.EncodeState.Run` | kernel/Atom-Kernel-N570/src/xnu/libkern/mkext.c:181-284 | any legal sequence of insertions and deletions from any well-formed state keeps the trees well formed and ends with the predicted live set |
| `Encoder.RunKeepsDiffering` | kernel/Atom-Kernel-N570/src/xnu/libkern/mkext.c:241-250 | over every run no two live nodes stand for the same 18-byte string |
| `Encoder.OverwriteDeadText` | kernel/Atom-Kernel-N570/src/xnu/libkern/mkext.c:203-251 | the trees depend on the text only through windows of live nodes, so a driver may overwrite the rest between calls |
| `Encoder.EncodeState.Walk` | kernel/Atom-Kernel-N570/src/xnu/libkern/mkext.c:209-240 | the walk of a single root-to-leaf path ends at the empty link where r belongs or at a node with the same string, and has seen a longest match over all live nodes |
| `Encoder.EncodeState.Judge` | kernel/Atom-Kernel-N570/src/xnu/libkern/mkext.c:231-239 | one comparison of the walk keeps the better of two matches, and says which way to turn |
| `Encoder.EncodeState.CompareWindows` | kernel/Atom-Kernel-N570/src/xnu/libkern/mkext.c:231-234 | the comparison loop finds the length of the common prefix, capped at 18, and the sign of the first difference |
| `Encoder.EncodeState.Replace` | kernel/Atom-Kernel-N570/src/xnu/libkern/mkext.c:241-250 | the stores that put r in the place of p, on the whole link structure |
| `Encoder.EncodeState.Predecessor` | kernel/Atom-Kernel-N570/src/xnu/libkern/mkext.c:265-276 | with both children present, the in-order predecessor is made ready to take the place of p, whether it is the left child itself or far down its right spine |
| `Descent.BestStep` | kernel/Atom-Kernel-N570/src/xnu/libkern/mkext.c:229-239 | the better of the match so far and the match with the current node is a best match among all nodes judged after turning away from it, although the skipped subtree is never looked at |
| `Descent.BestAtLeaf` | kernel/Atom-Kernel-N570/src/xnu/libkern/mkext.c:215-229 | when the walk ends at an empty link its match is a longest one over the whole tree, and its length is 0 exactly when no live node starts with the same byte |
| `Descent.BestIsFull` | kernel/Atom-Kernel-N570/src/xnu/libkern/mkext.c:236-240 | a match of all 18 bytes cannot be beaten, so the walk may stop |
| `Descent.LiveWindowsDiffer` | kernel/Atom-Kernel-N570/src/xnu/libkern/mkext.c:241-250 | two different live nodes never stand for the same string |
| `Descent.InsertAsLeaf` | kernel/Atom-Kernel-N570/src/xnu/libkern/mkext.c:215-229 | hanging r at the empty link the walk found keeps the forest well formed |
| `Descent.InsertReplacing` | kernel/Atom-Kernel-N570/src/xnu/libkern/mkext.c:241-250 | putting r in the place of an equal node keeps the forest well formed |
| `Removal.RemoveBypass` | kernel/Atom-Kernel-N570/src/xnu/libkern/mkext.c:259-263 | deleting a node with at most one child by linking its parent to that child removes exactly it |
| `Removal.RemoveRaising` | kernel/Atom-Kernel-N570/src/xnu/libkern/mkext.c:264-276 | deleting a node whose left child has no right child by raising that child removes exactly it |
| `Removal.RemoveByPredecessor` | kernel/Atom-Kernel-N570/src/xnu/libkern/mkext.c:264-283 | deleting a node through the maximum of its left subtree removes exactly it |
| `Removal.LinksAreMutual` | kernel/Atom-Kernel-N570/src/xnu/libkern/mkext.c:203-284 | seen without trees: in a well-formed state child and parent links are mutually inverse, children are ordered, and indices are in bounds |
| `SearchTree.RepresentsPlug` | kernel/Atom-Kernel-N570/src/xnu/libkern/mkext.c:260-283 | a tree taken apart around a node is held by the links exactly when its context and its subtree are |
| `Lzss.LcpBetween` | kernel/Atom-Kernel-N570/src/xnu/libkern/mkext.c:229-239 | in a sorted triple of windows the outer two share no more bytes than either inner pair: why one path suffices |
| `Decompress.DecompressLzss` | kernel/Atom-Kernel-N570/src/xnu/libkern/mkext.c:120-168 | the result is the shorter of dstlen and the full output length; dst holds exactly that prefix of the output of the source and is otherwise untouched, for every source |
| `Decompress.DecodeOne` | kernel/Atom-Kernel-N570/src/xnu/libkern/mkext.c:142-164 | one token appends to the ring and the output what the history-based meaning says; a truncated token or a full output ends the loop |
| `Decompress.CopyRun` | kernel/Atom-Kernel-N570/src/xnu/libkern/mkext.c:151-163 | a match copies byte by byte from its distance behind, also into its own output, while the ring keeps holding the last 4096 history bytes |
| `Decompress.NextFlags` | kernel/Atom-Kernel-N570/src/xnu/libkern/mkext.c:138-141 | a flag byte is fetched exactly when eight tokens have been governed by the previous one |
| `Decompress.FlagBits` | kernel/Atom-Kernel-N570/src/xnu/libkern/mkext.c:138-143 | bit 8 of the shifted sentinel word vanishes exactly after eight tokens, and bit 0 is then the flag bit of the current token, lowest first |
| `Decompress.RingStore` | kernel/Atom-Kernel-N570/src/xnu/libkern/mkext.c:147-149 | storing a byte at r keeps: the cell d behind r holds the history byte d back, for d in 1..4096 |
| `LzssFormat.DecodePrefix` | kernel/Atom-Kernel-N570/src/xnu/libkern/mkext.c:137-167 | truncating the source anywhere, mid-token included, truncates the history to a prefix |
| `LzssFormat.TruncatedSource` | kernel/Atom-Kernel-N570/src/xnu/libkern/mkext.c:137-167 | truncating the source yields a prefix of the full output |
| `UnsetCells.IndependentOfUnsetIff` | kernel/Atom-Kernel-N570/src/xnu/libkern/mkext.c:120-168 | the output is the same whatever the 18 uninitialised cells hold if and only if no match of the source starts to copy at one of them before it is overwritten |
| `LzssFormat.DecodeSerialize` | kernel/Atom-Kernel-N570/src/xnu/libkern/mkext.c:137-167 | decoding undoes serialising for every sequence of tokens and every history |
| `LzssFormat.OutputOfSpelling` | kernel/Atom-Kernel-N570/src/xnu/libkern/mkext.c:137-167 | a text cut into tokens that spell it is what the decoder outputs, whatever the uninitialised cells hold |
| `LzssFormat.UnpackBody` | kernel/Atom-Kernel-N570/src/xnu/libkern/mkext.c:152-155 | the two bytes of a match give back its ring position and its length |
| `LzssFormat.LiteralsStand` | kernel/Atom-Kernel-N570/src/xnu/libkern/mkext.c:137-150 | behind a flag byte with all bits set up to eight bytes stand for themselves |
| `LzssFormat.SpacesFirst` | kernel/Atom-Kernel-N570/src/xnu/libkern/mkext.c:126-163 | a lone match of any cell below 4078 (first byte plus the high four bits of the second, times 256) puts out spaces, three more than the low four bits say |
| `LzssFormat.RepeatedByte` | kernel/Atom-Kernel-N570/src/xnu/libkern/mkext.c:126-163 | a literal and a match of cell 4078, where it was stored, repeat the byte |
| `LzssFormat.MatchDecodes` | kernel/Atom-Kernel-N570/src/xnu/libkern/mkext.c:151-163 | if the ring cell of a match agrees with the window for its length, copying from it yields the window bytes, self-overlap and wraparound through the mirrored bytes included |
| `MatchRoundTrip.ReportedMatchDecodes` | kernel/Atom-Kernel-N570/src/xnu/libkern/mkext.c:231-239 | a match of length 3..18 reported by insert_node at distance 1..N-F makes the decoder emit exactly the first match_length bytes of the key |
| `MatchRoundTrip.ShortenedMatchDecodes` | kernel/Atom-Kernel-N570/src/xnu/libkern/mkext.c:231-239 | the same for every shorter prefix of the match |
| `MatchRoundTrip.DecompressSpelling` | kernel/Atom-Kernel-N570/src/xnu/libkern/mkext.c:120-168 | serialise tokens that spell a text, run the decoder: the text comes out |
| `Adler32.MkextAdler32` | kernel/Atom-Kernel-N570/src/xnu/libkern/mkext.c:42-82 | equals the per-byte-modulus Adler-32 of section 2.2 of RFC 1950, for every buffer and every length, negative ones included |
| `Adler32.Block` | kernel/Atom-Kernel-N570/src/xnu/libkern/mkext.c:66-79 | one block of at most 5552 bytes advances the reference sums |
| `Adler32.Do1` | kernel/Atom-Kernel-N570/src/xnu/libkern/mkext.c:36-36 | neither accumulator leaves the 32-bit range at any byte of a block |
| `Adler32.DeferredReduction` | kernel/Atom-Kernel-N570/src/xnu/libkern/mkext.c:78-79 | one reduction at the end of a block equals a reduction at every byte |
| `Adler32.NoOverflow` | kernel/Atom-Kernel-N570/src/xnu/libkern/mkext.c:34-34 | from reduced sums, 5552 bytes cannot overflow a 32-bit word |
| `Adler32.LargestSafeBlock` | kernel/Atom-Kernel-N570/src/xnu/libkern/mkext.c:34-34 | a block size is safe for all buffers and all reduced starting sums if and only if it is at most 5552 |
| `Adler32.ClosedForm` | kernel/Atom-Kernel-N570/src/xnu/libkern/mkext.c:42-82 | the low half of the checksum is 1 plus the sum of the bytes, the high half n plus the sum of (n - i) times byte i, both modulo 65521 |
| `VnodeLabel.EveryRunIsSafe` | kernel/Atom-Kernel-N570/src/xnu/security/mac_vfs_subr.c:44-150 | after any schedule of any number of threads, timeouts included: at most one thread is labelling; with the lock free VL_LABEL and VL_LABELED are not both set and VL_LABELWAIT implies VL_LABEL; a sleeper implies both VL_LABEL and VL_LABELWAIT; v_label is allocated at most once |
| `VnodeLabel.NextInv` | kernel/Atom-Kernel-N570/src/xnu/security/mac_vfs_subr.c:44-150 | every single statement of every thread keeps the whole invariant |
| `VnodeLabel.FinishingWakesAll` | kernel/Atom-Kernel-N570/src/xnu/security/mac_vfs_subr.c:92-101 | when the labelling thread runs on to its end, nobody is left asleep and the flags are clear: no wakeup is lost |
| `VnodeLabel.SomebodyCanMove` | kernel/Atom-Kernel-N570/src/xnu/security/mac_vfs_subr.c:44-150 | no deadlock: after any schedule, if some thread has not finished, some thread has a step that changes the state |
| `VnodeLabelCode.LabelledReturns` | kernel/Atom-Kernel-N570/src/xnu/security/mac_vfs_subr.c:61-63 | a call of vnode_label on a labelled vnode returns 0 at once and leaves all else alone |
| `VnodeLabelCode.CallLabels` | kernel/Atom-Kernel-N570/src/xnu/security/mac_vfs_subr.c:44-125 | a call on a vnode that is neither labelled nor being labelled, run on to its end, allocates v_label if it is missing, asks the policies, returns their verdict, sets VL_LABELED if and only if they agree and the vnode is cacheable, and leaves VL_LABEL, VL_LABELWAIT and the lock clear |
| `VnodeLabelCode.CallWaits` | kernel/Atom-Kernel-N570/src/xnu/security/mac_vfs_subr.c:44-125 | a call on a vnode that is being labelled ends asleep with VL_LABELWAIT set |
| `VnodeLabelCode.TimeoutReturns` | kernel/Atom-Kernel-N570/src/xnu/security/mac_vfs_subr.c:111-122 | a waiter whose sleep times out returns EWOULDBLOCK and leaves the vnode alone |
| `VnodeLabelCode.WokenReturns` | kernel/Atom-Kernel-N570/src/xnu/security/mac_vfs_subr.c:92-150 | when the labelling thread finishes, a waiting vnode_label returns 0 and a waiting vnode_relabel clears VL_LABELED |
| `VnodeLabelCode.LabelledVnode.Call` | kernel/Atom-Kernel-N570/src/xnu/security/mac_vfs_subr.c:61-111 | vnode_label in place, from the test without the lock to the end of the first lock section, equals the statements; the outcome is stated for each of the three cases |
| `VnodeLabelCode.LabelledVnode.Enter` | kernel/Atom-Kernel-N570/src/xnu/security/mac_vfs_subr.c:62-81 | the first lock section in place equals the statements of the state machine run without interruption |
| `VnodeLabelCode.LabelledVnode.LabelWork` | kernel/Atom-Kernel-N570/src/xnu/security/mac_vfs_subr.c:83-90 | the work outside the lock: v_label is allocated if it is missing, and the verdict of the policies becomes the error |
| `VnodeLabelCode.LabelledVnode.FinishLabel` | kernel/Atom-Kernel-N570/src/xnu/security/mac_vfs_subr.c:92-122 | so does the section that clears VL_LABEL, wakes and marks |
| `VnodeLabelCode.LabelledVnode.Recheck` | kernel/Atom-Kernel-N570/src/xnu/security/mac_vfs_subr.c:102-122 | so does the section a woken or timed-out waiter goes through |
| `VnodeLabelCode.LabelledVnode.Relabel` | kernel/Atom-Kernel-N570/src/xnu/security/mac_vfs_subr.c:136-150 | so does vnode_relabel, first time or after a wakeup |
| `PolicyBusy.EveryRunIsSafe` | kernel/Atom-Kernel-N570/src/xnu/security/mac_base.c:428-492 | after any schedule of readers and registrars: mac_policy_busy is the number of threads inside dynamic sections; it is 0 throughout every exclusive section; a reader inside still sees the table it started with; a sleeping registrar implies busy > 0, or, with the lock held, a leaving reader that has just lowered the count and wakes next |
| `PolicyBusy.NextInv` | kernel/Atom-Kernel-N570/src/xnu/security/mac_base.c:428-492 | every single statement keeps the whole invariant |
| `PolicyBusy.EditsAreExclusive` | kernel/Atom-Kernel-N570/src/xnu/security/mac_base.c:428-455 | a step that changes the table is one of an exclusive section, and then the count is 0 and nobody is inside a dynamic section |
| `PolicyBusy.LastReaderWakesAll` | kernel/Atom-Kernel-N570/src/xnu/security/mac_base.c:484-492 | the last reader to leave wakes every sleeping registrar |
| `PolicyBusy.SomebodyCanMove` | kernel/Atom-Kernel-N570/src/xnu/security/mac_base.c:428-492 | no deadlock: after any schedule, if some thread has not finished, some thread has a step that changes the state |
| `PolicyBusyCode.ConditionalEntersIff` | kernel/Atom-Kernel-N570/src/xnu/security/mac_base.c:465-481 | a call of mac_policy_list_conditional_busy raises the count and enters if and only if numloaded > staticmax; otherwise it returns at once and the list is as it was |
| `PolicyBusyCode.ReaderLeaves` | kernel/Atom-Kernel-N570/src/xnu/security/mac_base.c:483-492 | a reader that leaves lowers the count by one, and wakes all sleepers if it was the last |
| `PolicyBusyCode.RegistrarEdits` | kernel/Atom-Kernel-N570/src/xnu/security/mac_base.c:428-455 | a registrar that finds nobody inside edits the list, leaves the lock free and wakes all sleepers |
| `PolicyBusyCode.WokenByReader` | kernel/Atom-Kernel-N570/src/xnu/security/mac_base.c:428-492 | a registrar that the last reader wakes gets the list for itself, with the count at 0 |
| `PolicyBusyCode.PolicyListLock.ConditionalBusy` | kernel/Atom-Kernel-N570/src/xnu/security/mac_base.c:465-481 | the function in place, from the look without the lock on, equals the statements of the state machine; it returns 1 if and only if numloaded > staticmax |
| `PolicyBusyCode.PolicyListLock.ListUnbusy` | kernel/Atom-Kernel-N570/src/xnu/security/mac_base.c:483-492 | the same; the count never becomes negative |
| `PolicyBusyCode.PolicyListLock.GrabExclusive` | kernel/Atom-Kernel-N570/src/xnu/security/mac_base.c:428-437 | one turn of the wait loop, the same |
| `PolicyBusyCode.PolicyListLock.ListBusy` | kernel/Atom-Kernel-N570/src/xnu/security/mac_base.c:457-463 | mac_policy_list_busy in place, the same |
| `PolicyBusyCode.PolicyListLock.ReleaseExclusive` | kernel/Atom-Kernel-N570/src/xnu/security/mac_base.c:447-455 | leaving the exclusive section, the same |
| `MacError.SelectByRank` | kernel/Atom-Kernel-N570/src/xnu/security/mac_base.c:1038-1069 | mac_error_select prefers the error of higher precedence, the first one on a tie |
| `MacError.Precedence` | kernel/Atom-Kernel-N570/src/xnu/security/mac_base.c:1038-1069 | the precedence in error numbers: 11, 22, 3, 2, 13, 1, any other error, success |
| `MacError.ComposeIsHighest` | kernel/Atom-Kernel-N570/src/xnu/security/mac_internal.h:305-333 | the composed error is a verdict of highest precedence, and 0 if and only if every policy returned 0 |
| `MacError.OrderIndependentIff` | kernel/Atom-Kernel-N570/src/xnu/security/mac_base.c:1038-1069 | the outcome is the same for every order of the verdicts if and only if one of them has a precedence of its own or all errors are equal |
| `MacError.OrderMatters` | kernel/Atom-Kernel-N570/src/xnu/security/mac_base.c:1038-1069 | for undecided verdicts, a reordering with a different outcome |
| `PolicyTable.FindableIff` | kernel/Atom-Kernel-N570/src/xnu/security/mac_base.c:905-912 | pigeonhole, on every sound list: the search from the hint finds a place if and only if free places are left besides the vacated static ones |
| `PolicyTable.FreeAboveHint` | kernel/Atom-Kernel-N570/src/xnu/security/mac_base.c:905-912 | so in a table in order (no static place vacated) that is not full it finds one |
| `PolicyTable.Counted` | kernel/Atom-Kernel-N570/src/xnu/security/mac_base.c:465-481 | numloaded is the static places less the vacated ones plus the dynamic policies, and the table is in order if and only if none is vacated |
| `PolicyTable.OnlyStatic` | kernel/Atom-Kernel-N570/src/xnu/security/mac_base.c:465-481 | in a table in order numloaded equals staticmax if and only if no policy lives above the static part: there the shortcut skips nobody |
| `PolicyTable.RegisteredSound` | kernel/Atom-Kernel-N570/src/xnu/security/mac_base.c:868-933 | registering at the first free place from the hint on keeps a sound list sound, and neither fills nor vacates a static place |
| `PolicyTable.StrayIff` | kernel/Atom-Kernel-N570/src/xnu/security/mac_base.c:905-933 | a registration whose search finds nothing stores the policy at whatever handle the caller had; the list stays sound if and only if that place is vacant and the kernel has booted, and a vacated static place is then filled |
| `PolicyTable.RemovedSoundIff` | kernel/Atom-Kernel-N570/src/xnu/security/mac_base.c:994-1012 | removing a policy, static or not, keeps a sound list sound if and only if maxindex does not wrap |
| `PolicyTable.RemovedOkIff` | kernel/Atom-Kernel-N570/src/xnu/security/mac_base.c:994-1012 | it keeps a table in order if and only if, besides, its handle is not a static one |
| `PolicyList.RegisterKeepsIff` | kernel/Atom-Kernel-N570/src/xnu/security/mac_base.c:842-933 | any registration on a sound list, granted or refused, keeps it sound (names unique, nobody behind maxindex, counters and slots right) unless its search finds nothing and it overwrites a policy or comes before boot; it fills a vacated static place only if its search finds nothing |
| `PolicyList.RegisterKeeps` | kernel/Atom-Kernel-N570/src/xnu/security/mac_base.c:842-933 | a table in order stays in order |
| `PolicyList.RegisterSuccess` | kernel/Atom-Kernel-N570/src/xnu/security/mac_base.c:868-933 | on every sound list a granted registration gets the first free handle from the hint on, which is the lowest of all in a table in order, or keeps the handle of the caller if there is none; it gets the lowest free slot, changes no other policy, and is static exactly before boot or as a permanent policy placed at staticmax |
| `PolicyList.RegisterRefusals` | kernel/Atom-Kernel-N570/src/xnu/security/mac_base.c:833-912 | registration is refused exactly for a policy that is not for late loading (EPERM), a taken name (EEXIST) or no slot left (ENOMEM), and then neither policies nor slots change; it stores outside the table exactly when its search finds nothing and the handle of the caller lies there |
| `PolicyList.UnregisterMeaning` | kernel/Atom-Kernel-N570/src/xnu/security/mac_base.c:974-1012 | on every sound list removal takes away that policy and frees its slot, nothing else; EBUSY otherwise; the list stays sound if and only if maxindex does not wrap, and a table in order stays in order if and only if the handle is not static either |
| `PolicyList.RegisterThenUnregister` | kernel/Atom-Kernel-N570/src/xnu/security/mac_base.c:868-1012 | registering an unloadable policy in a free place of a sound list and removing it restores the policies and the slot bitmap |
| `PolicyList.PolicyRegistry.Register` | kernel/Atom-Kernel-N570/src/xnu/security/mac_base.c:807-962 | the code in place does what the outcome function says, on every sound list, and keeps it sound exactly as said above |
| `PolicyList.PolicyRegistry.FindHandle` | kernel/Atom-Kernel-N570/src/xnu/security/mac_base.c:905-912 | the search yields the first free index from the hint on and moves the hint behind it; it finds one if and only if some entry at or above the hint is free, and otherwise leaves handle and hint alone |
| `PolicyList.PolicyRegistry.GrowIfFull` | kernel/Atom-Kernel-N570/src/xnu/security/mac_base.c:842-866 | growth moves no entry |
| `PolicyList.PolicyRegistry.Unregister` | kernel/Atom-Kernel-N570/src/xnu/security/mac_base.c:964-1032 | the code in place does what the outcome function says, on every sound list, which stays sound if and only if maxindex does not wrap |
| `PolicyList.ScanIsLowest` | kernel/Atom-Kernel-N570/src/xnu/security/mac_base.c:905-912 | the naive scan finds the lowest free index |
| `PolicyList.SearchIsLowestIff` | kernel/Atom-Kernel-N570/src/xnu/security/mac_base.c:905-912 | when the search from the hint finds a place, it is the lowest free one if and only if no static place has been vacated |
| `PolicyList.RemovalHintIff` | kernel/Atom-Kernel-N570/src/xnu/security/mac_base.c:1001-1004 | after the removal of a handle from a table in order, the hint is at or below the lowest free handle if and only if the handle was not static |
| `PolicyHistory.EveryHistoryIsConsistent` | kernel/Atom-Kernel-N570/src/xnu/security/mac_base.c:807-1032 | after any history of registrations, removals and boot, of any length, removals of static policies and all that follows them included: the list is sound if and only if no event made maxindex wrap and no registration whose search found nothing overwrote a policy or came before boot (a history ends with such an event). Without the latter names are unique, handles at most maxindex, and a slot bit is clear if and only if exactly one loaded policy owns it. While the list is sound, MAC_CHECK misses somebody if and only if there are dynamic policies and not more of them than static places were vacated; and it is stated how the next registration goes: refused, without a place, or at the first free handle from the static part on, the lowest of all if no static place is vacant |
| `PolicyHistory.HolesAfter` | kernel/Atom-Kernel-N570/src/xnu/security/mac_base.c:807-1032 | conservation: over any history the vacant static places are those of the beginning, plus the static policies removed, less the places filled by registrations whose search found nothing |
| `PolicyHistory.StepSoundIff` | kernel/Atom-Kernel-N570/src/xnu/security/mac_base.c:807-1032 | any single event keeps the list sound if and only if it neither makes maxindex wrap nor overwrites, and changes the number of vacant static places as stated |
| `PolicyHistory.StepOkIff` | kernel/Atom-Kernel-N570/src/xnu/security/mac_base.c:807-1032 | and it keeps a table in order if and only if it neither takes a static policy away nor makes maxindex wrap |
| `PolicyHistory.EveryStepIsConsistent` | kernel/Atom-Kernel-N570/src/xnu/security/mac_base.c:807-1032 | what any single event that does not overwrite makes of a sound list has unique names and consistent slots |
| `PolicyHistory.RemovalAtTheEnd` | kernel/Atom-Kernel-N570/src/xnu/security/mac_base.c:964-1032 | after any history, a removal, wrapping of maxindex included, leaves MAC_CHECK missing a policy if and only if dynamic policies are left and not more of them than static places were vacated |
| `PolicyHistory.StaticRemovalSilencesDynamic` | kernel/Atom-Kernel-N570/src/xnu/security/mac_base.c:994-1012 | load an unloadable policy, boot, load another, unload handle 0: the second is loaded and MAC_CHECK consults nobody |
| `PolicyHistory.LaterLoadIsHidden` | kernel/Atom-Kernel-N570/src/xnu/security/mac_base.c:807-1012 | load two policies, boot, unload handle 0: nobody is missed; load a third: it is loaded at handle 2, and MAC_CHECK consults handle 1 only |
| `PolicyHistory.LaterRemovalHides` | kernel/Atom-Kernel-N570/src/xnu/security/mac_base.c:807-1012 | load a policy, boot, load two, unload handle 0: nobody is missed; unload handle 1: handle 2 is loaded and MAC_CHECK consults nobody |
| `PolicyHistory.SearchFindsNothing` | kernel/Atom-Kernel-N570/src/xnu/security/mac_base.c:905-931 | load 512 policies, boot, unload handle 0: the next registration finds no place; by what the handle of the caller holds, it fills handle 0, overwrites another policy or stores outside the table |
| `PolicyHistory.OnlyRemovalWraps` | kernel/Atom-Kernel-N570/src/xnu/security/mac_base.c:994-1012 | boot, load an unloadable policy, unload handle 0: maxindex is 2^32 - 1, beyond the table |
| `MacCheck.Check` | kernel/Atom-Kernel-N570/src/xnu/security/mac_internal.h:305-333 | MAC_CHECK composes the verdicts of the policies its passes come across, in handle order, on every list on which they stay inside the table; these are all the loaded policies whenever the passes miss nobody |
| `MacCheck.VerdictsInOrder` | kernel/Atom-Kernel-N570/src/xnu/security/mac_internal.h:310-331 | the verdicts composed are one each of the policies that implement the check, in handle order |
| `MacCheck.MissesNobodyIff` | kernel/Atom-Kernel-N570/src/xnu/security/mac_internal.h:305-333 | the two passes miss nobody if and only if no policy lives where they end or behind |
| `MacCheck.CoverIff` | kernel/Atom-Kernel-N570/src/xnu/security/mac_base.c:465-481 | on every sound list the passes miss somebody if and only if there are dynamic policies and not more of them than vacant static places, and then no dynamic policy is consulted |
| `MacCheck.RemovalMissesIff` | kernel/Atom-Kernel-N570/src/xnu/security/mac_base.c:994-1012 | the same after any removal from any sound list, wrapping of maxindex included, with the counts of before |
| `MacCheck.FirstRemovalMissesIff` | kernel/Atom-Kernel-N570/src/xnu/security/mac_base.c:994-1012 | after a removal from a table in order, the passes miss somebody if and only if the handle is static and exactly one dynamic policy was loaded |
| `MacCheck.AskedAreLoaded` | kernel/Atom-Kernel-N570/src/xnu/security/mac_internal.h:305-333 | every loaded policy is consulted exactly once |
| `MacCheck.CheckGranted` | kernel/Atom-Kernel-N570/src/xnu/security/mac_internal.h:305-333 | a check is granted if and only if every policy with an opinion grants it; otherwise its error is that of a loaded policy, and no loaded policy has one of higher precedence |
| `MacOrder.SamePoliciesSameVerdicts` | kernel/Atom-Kernel-N570/src/xnu/security/mac_internal.h:305-333 | two sound lists that hold the same policies, at whatever handles, give the same verdicts up to order, for every operation that depends on the policy alone |
| `MacOrder.RegistrationOrderIsIrrelevant` | kernel/Atom-Kernel-N570/src/xnu/security/mac_internal.h:305-333 | so MAC_CHECK has the same outcome for them, in whatever order they were registered, if the check is decided and neither list hides a policy |
| `MacCheck.PassesCoverAll` | kernel/Atom-Kernel-N570/src/xnu/security/mac_base.c:465-481 | on a table in order the static pass, followed by the dynamic pass only when there are dynamic policies, misses nobody |
| `MacCheck.Boolean` | kernel/Atom-Kernel-N570/src/xnu/security/mac_internal.h:343-370 | MAC_BOOLEAN with || or && joins the answers of the policies met, all loaded ones if nobody is missed, with the initial result |
| `MacCheck.ImplementingAre` | kernel/Atom-Kernel-N570/src/xnu/security/mac_internal.h:385-408 | the handles of Implementing are exactly those in use whose policy has the operation, each once, increasing |
| `MacCheck.Perform` | kernel/Atom-Kernel-N570/src/xnu/security/mac_internal.h:385-408 | MAC_PERFORM runs, in handle order, once for loaded policies that have the operation and for no others; for all of them, if nobody is missed |
| `MacCheck.HandlesAre` | kernel/Atom-Kernel-N570/src/xnu/security/mac_internal.h:310-331 | the handles met by the loops are exactly those in use, each once |
| `LabelText.ParseRender` | kernel/Atom-Kernel-N570/src/xnu/security/mac_base.c:1318-1330 | clean pairs, at least one, come back from their text as they were, in order |
| `LabelText.RoundTripIff` | kernel/Atom-Kernel-N570/src/xnu/security/mac_base.c:1318-1330 | a list of pairs survives the round trip if and only if it is not empty and every pair is clean (comma-free, slash-free name) |
| `LabelText.RenderParse` | kernel/Atom-Kernel-N570/src/xnu/security/mac_base.c:1318-1330 | every text that parses is the text of its pairs |
| `LabelCode.Sbuf.Printf` | kernel/Atom-Kernel-N570/src/xnu/security/mac_base.c:1165-1167 | appends the text unless the buffer would be filled to its last place, which already counts as overflow |
| `LabelPrint.RollbackIff` | kernel/Atom-Kernel-N570/src/xnu/security/mac_base.c:1172-1181 | moving back over the printed "name/" restores the buffer if and only if the policy printed nothing before it answered ENOENT |
| `LabelNames.ReachesIff` | kernel/Atom-Kernel-N570/src/xnu/security/mac_base.c:1138-1156 | a request reaches an element exactly if it is "*" and the element has no mark, or both have the same name apart from a leading question mark; the label is printed under the name without the mark |
| `LabelNames.VisitsIff` | kernel/Atom-Kernel-N570/src/xnu/security/mac_base.c:1146-1166 | the policies asked are exactly the listeners, able to print, of the static elements reached and, if there are dynamic policies, of the dynamic ones |
| `LabelNames.ElementsInOrder` | kernel/Atom-Kernel-N570/src/xnu/security/mac_base.c:1146-1157 | elements are gone through in the order of the lists (with the next rows this fixes the visits) |
| `LabelNames.OneElement` | kernel/Atom-Kernel-N570/src/xnu/security/mac_base.c:1146-1157 | an element that a request reaches is printed by its listeners, and no other element is |
| `LabelNames.ListenersInOrder` | kernel/Atom-Kernel-N570/src/xnu/security/mac_base.c:1157-1189 | the listeners of an element are asked in their order |
| `LabelNames.OneListener` | kernel/Atom-Kernel-N570/src/xnu/security/mac_base.c:1157-1166 | a listener is asked with the full name of the element, and its answer stands under the name without the mark |
| `LabelNames.StaticFirst` | kernel/Atom-Kernel-N570/src/xnu/security/mac_base.c:1145-1195 | the static elements come before the dynamic ones |
| `LabelNames.InsistsIff` | kernel/Atom-Kernel-N570/src/xnu/security/mac_base.c:1196-1203 | only a request other than "*" and without a mark fails for want of a label |
| `LabelNames.VisitsErrorMeans` | kernel/Atom-Kernel-N570/src/xnu/security/mac_base.c:1164-1187 | the error of a request is that of the first visit for which no room is left or whose policy reports an error other than ENOENT |
| `LabelNames.PiecesErrorMeans` | kernel/Atom-Kernel-N570/src/xnu/security/mac_base.c:1245-1250 | the error of a list is that of the first request that fails, after what the earlier ones left in the buffer |
| `LabelPrint.PrintingSucceedsIff` | kernel/Atom-Kernel-N570/src/xnu/security/mac_base.c:1126-1260 | printing all requested elements succeeds if and only if every policy asked answers 0 or ENOENT, every plain request has a pair, and at every visit the text so far, with name, slash and value, stays below size - 1 |
| `LabelPrint.QuietIff` | kernel/Atom-Kernel-N570/src/xnu/security/mac_base.c:1158-1187 | if all policies asked answer 0 or ENOENT, what the visits leave in the buffer is the terminated pairs, in order, if and only if no policy prints anything before it answers ENOENT; the same, if there is a pair, for the text without its last character |
| `LabelPrint.QuietFits` | kernel/Atom-Kernel-N570/src/xnu/security/mac_base.c:1158-1187 | for such policies the text fits if and only if each pair, after the terminated pairs before it, stays below size - 1 |
| `LabelCode.ExternalizeOne` | kernel/Atom-Kernel-N570/src/xnu/security/mac_base.c:1158-1187 | one listener: the error is that of the visit, 0 if and only if the policy consents and the text fits; the buffer then ends with "name/data," or, for ENOENT, with what moving back over "name/" leaves |
| `LabelCode.LabelExternalize` | kernel/Atom-Kernel-N570/src/xnu/security/mac_base.c:1126-1204 | one request: the error is exactly that of the first visit that fails, or ENOENT for a plain request without a pair; the buffer grows by the visits of the listeners, static elements first |
| `LabelCode.Externalize` | kernel/Atom-Kernel-N570/src/xnu/security/mac_base.c:1213-1260 | succeeds if and only if the whole list is printable (see PrintingSucceedsIff); the text is then what the visits leave, and, if there is a pair, the rendering of the pairs of all requested elements, in order, if and only if no policy prints before ENOENT |
| `LabelCode.Strsep` | kernel/Atom-Kernel-N570/src/xnu/bsd/libkern/strsep.c:50-77 | one call returns the next piece of the text, and nothing when the text is used up |
| `LabelNames.TargetsIff` | kernel/Atom-Kernel-N570/src/xnu/security/mac_base.c:1281-1291 | the policies asked about a name are exactly the listeners, able to read, of the elements with that name, apart from a mark on the element |
| `LabelNames.TargetsInOrder` | kernel/Atom-Kernel-N570/src/xnu/security/mac_base.c:1281-1291 | they are asked in the order of the elements |
| `LabelCode.RefusalMeans` | kernel/Atom-Kernel-N570/src/xnu/security/mac_base.c:1292-1296 | the first refusal is the error of the first policy, in order, that does not return 0 |
| `LabelCode.LabelInternalize` | kernel/Atom-Kernel-N570/src/xnu/security/mac_base.c:1266-1313 | the error is that of the first policy to refuse, ENOPOLICY if nobody listens to the name, and 0 otherwise; then each policy was called once with the data |
| `LabelCode.TextErrorMeans` | kernel/Atom-Kernel-N570/src/xnu/security/mac_base.c:1321-1330 | an error comes from the first piece that fails: EINVAL if it has no slash, otherwise the error of its pair; all earlier pieces were accepted |
| `LabelCode.Internalize` | kernel/Atom-Kernel-N570/src/xnu/security/mac_base.c:1315-1333 | the error is exactly that; success if and only if the text parses and every pair is accepted; the calls are made in the order of the pairs |
| `LabelCode.PrintThenRead` | kernel/Atom-Kernel-N570/src/xnu/security/mac_base.c:1126-1333 | printing succeeds if and only if the list is printable; if it is, and there is a pair, reading the text back hands every pair, in order, to the one policy responsible for it |
| `KextVersionCode.ParseVersionString` | kernel/Atom-Kernel-N570/src/xnu/libkern/OSKextVersion.c:181-388 | the parser with its gotos and loops yields the code of the string, -1 or a value in 1000..999999999000, and reads no character past the terminator |
| `KextGrammar.ParseIff` | kernel/Atom-Kernel-N570/src/xnu/libkern/OSKextVersion.c:181-388 | the parser accepts exactly the texts of a grammar, up to white space or the terminator, and yields their meaning: one to four digits; optionally a period, at most two digits, a period, at most two digits and, behind exactly two, one more period; then nothing, or d, a, b, f or fc and one to three digits worth at most 255, not 0 behind f |
| `KextGrammar.CodeIff` | kernel/Atom-Kernel-N570/src/xnu/libkern/OSKextVersion.c:181-388 | the code of a text of the grammar is that of its meaning, and -1 if and only if the text is not of the grammar |
| `KextVersionCode.ScanDigitsLoop` | kernel/Atom-Kernel-N570/src/xnu/libkern/OSKextVersion.c:213-243 | the digit-scanning loop of the three number components equals its recursive reading |
| `KextVersionCode.ScanLevelLoop` | kernel/Atom-Kernel-N570/src/xnu/libkern/OSKextVersion.c:343-373 | the stage level loop: one to three digits, at most 255, ended by the end of the text |
| `KextVersionCode.GetString` | kernel/Atom-Kernel-N570/src/xnu/libkern/OSKextVersion.c:392-481 | the buffer ends up holding exactly the printed form, stays in bounds, and is untouched when it is too short |
| `KextVersionCode.SpellingFits` | kernel/Atom-Kernel-N570/src/xnu/libkern/OSKextVersion.c:405-410 | no spelling is longer than 14 characters |
| `KextVersion.EncodeOrders` | kernel/Atom-Kernel-N570/src/xnu/libkern/OSKextVersion.c:381-385 | codes compare as the tuples (major, minor, revision, stage, level) do, lexicographically; equal codes mean equal tuples |
| `KextVersion.ParsedIsAccepted` | kernel/Atom-Kernel-N570/src/xnu/libkern/OSKextVersion.c:181-388 | every string that parses yields an accepted tuple with a code in 1000..999999999000, never 0 |
| `KextVersion.DecodeEncode` | kernel/Atom-Kernel-N570/src/xnu/libkern/OSKextVersion.c:423-443 | the printer takes the code of an accepted tuple apart into that tuple |
| `KextVersion.EncodeDecode` | kernel/Atom-Kernel-N570/src/xnu/libkern/OSKextVersion.c:423-443 | the parts of any code put together give the code |
| `KextRoundTrip.ReadSpelling` | kernel/Atom-Kernel-N570/src/xnu/libkern/OSKextVersion.c:181-388 | what reading a printed spelling yields, for every tuple within the limits of the printer |
| `KextRoundTrip.DecimalPlain` | kernel/Atom-Kernel-N570/src/xnu/libkern/OSKextVersion.c:449-461 | a printed number has no leading zero |
| `KextRoundTrip.ParsePrintParse` | kernel/Atom-Kernel-N570/src/xnu/libkern/OSKextVersion.c:181-481 | for every string that parses, printing its code and parsing the text gives the same code |
| `KextRoundTrip.CanonicalSpelling` | kernel/Atom-Kernel-N570/src/xnu/libkern/OSKextVersion.c:392-481 | strings that parse have equal codes if and only if their codes print alike |
| `KextRoundTrip.PrintParseIff` | kernel/Atom-Kernel-N570/src/xnu/libkern/OSKextVersion.c:392-481 | a code survives printing and parsing if and only if it is -1 or the code of an accepted tuple |
| `SetSegname.SetSegname` | kernel/Atom-Kernel-N570/tools/snowleopard/setsegname.c:119-194 | the 16 segname bytes of every section without S_ATTR_DEBUG become the padded name, every other byte is kept; an image with another magic is refused and left alone |
| `MachWords.HeaderIff` | kernel/Atom-Kernel-N570/tools/snowleopard/setsegname.c:119-143 | an image is taken if and only if its first word, in one of the two byte orders, is 0xfeedface or 0xfeedfacf; the order and the width follow |
| `MachWords.SectionsIff` | kernel/Atom-Kernel-N570/tools/snowleopard/setsegname.c:144-187 | in words of the image: the sections are items j < nsects behind the segment commands (command word 1 with nsects at 48, or 0x19 with nsects at 64) in the chain of ncmds commands linked by their sizes, and no others |
| `MachWords.SegnameByte` | kernel/Atom-Kernel-N570/tools/snowleopard/setsegname.c:162-187 | byte k of the segname of every such section is byte k of the name or 0 behind its end, or the old byte if bit 25 of the flags word is set |
| `MachWords.OtherByte` | kernel/Atom-Kernel-N570/tools/snowleopard/setsegname.c:119-194 | every byte outside the segnames of sections without that bit is the old one |
| `SetSegname.CopyName` | kernel/Atom-Kernel-N570/tools/snowleopard/setsegname.c:182-182 | strncpy with 16: the clipped name padded with NULs, nothing else |
| `SetSegname.RenameSections` | kernel/Atom-Kernel-N570/tools/snowleopard/setsegname.c:175-187 | the inner loop over the sections of one segment command, in place |
| `SetSegname.RenameCommand` | kernel/Atom-Kernel-N570/tools/snowleopard/setsegname.c:144-194 | one load command; its size is read after its sections were written and is still the original one |
| `MachO.SameTraversal` | kernel/Atom-Kernel-N570/tools/snowleopard/setsegname.c:144-194 | images that agree on the words read are traversed alike |
| `MachO.ReadsClear` | kernel/Atom-Kernel-N570/tools/snowleopard/setsegname.c:144-194 | no word the traversal reads overlaps the segname field of any section |
| `SetSegnameLaws.TraversalUnaffected` | kernel/Atom-Kernel-N570/tools/snowleopard/setsegname.c:119-194 | after the writes the image is well formed, has the same sections, and each is debug or not as before |
| `SetSegnameLaws.RewrittenUnique` | kernel/Atom-Kernel-N570/tools/snowleopard/setsegname.c:119-194 | the contract determines the output image |
| `SetSegnameLaws.LastNameWins` | kernel/Atom-Kernel-N570/tools/snowleopard/setsegname.c:119-194 | of two renamings the last one wins |
| `SetSegnameLaws.Idempotent` | kernel/Atom-Kernel-N570/tools/snowleopard/setsegname.c:119-194 | renaming twice to the same name is renaming once |
| `SetSegnameLaws.SwapCommutes` | kernel/Atom-Kernel-N570/tools/snowleopard/setsegname.c:119-194 | renaming commutes with any byte swap of the image that reverses the words read and keeps the segname fields |
| `SetSegnameLaws.ByteSwapExists` | kernel/Atom-Kernel-N570/tools/snowleopard/setsegname.c:119-194 | every well-formed image has such a byte swap |
| `MachHeader.GetSectByName` | kernel/Atom-Kernel-N570/src/xnu/libkern/kernel_mach_header.c:131-162 | returns the first section, in file order, that carries both names and lies in a searched segment of the kernel width |
| `MachWords.CarriesIff` | kernel/Atom-Kernel-N570/src/xnu/libkern/kernel_mach_header.c:146-158 | a name field carries a name if and only if strncmp over 16 characters finds no difference up to the first NUL |
| `MachWords.FoundIff` | kernel/Atom-Kernel-N570/src/xnu/libkern/kernel_mach_header.c:131-162 | the lookup returns the first section, in file order, of the kernel width with both names, in a segment with that segment name unless the file is an object file, and nothing if there is none |
| `MachHeader.FirstMeans` | kernel/Atom-Kernel-N570/src/xnu/libkern/kernel_mach_header.c:149-161 | first: it is in the wanted set and none before it is; nothing is returned only if none is wanted |
| `MachLookup.LookupAfterRenaming` | kernel/Atom-Kernel-N570/src/xnu/libkern/kernel_mach_header.c:131-162 | in the rewritten image, looking up the new segment name finds the first section of that section name, in a searched segment, that was non-debug or already carried the name |
| `MachLookup.LookupInObject` | kernel/Atom-Kernel-N570/src/xnu/libkern/kernel_mach_header.c:144-161 | in a rewritten MH_OBJECT image it finds the first section of the kernel width with that section name that was non-debug or already carried the segment name, whatever segment it lies in |
| `MachLookup.FirstSegFromHeader` | kernel/Atom-Kernel-N570/src/xnu/libkern/kernel_mach_header.c:195-208 | the first segment command of the kernel width |
| `MachLookup.NextSegFromHeader` | kernel/Atom-Kernel-N570/src/xnu/libkern/kernel_mach_header.c:215-241 | the first segment command behind the load command given, of whatever kind it is; NULL for a place that is no load command of the header, once a word behind the last command has been read |
| `MachLookup.NextOfSegment` | kernel/Atom-Kernel-N570/src/xnu/libkern/kernel_mach_header.c:215-241 | from each segment the walk leads to the next one of the header, and from the last to nothing |
| `MachWords.KernelSegmentsIff` | kernel/Atom-Kernel-N570/src/xnu/libkern/kernel_mach_header.c:195-208 | the segments walked are exactly the load commands, in the chain linked by sizes, whose command word is that of the kernel width |
| `MachLookup.FirstSect` | kernel/Atom-Kernel-N570/src/xnu/libkern/kernel_mach_header.c:274-281 | the first section header of a segment, if it has any |
| `MachLookup.NextSect` | kernel/Atom-Kernel-N570/src/xnu/libkern/kernel_mach_header.c:289-298 | from each section header to the next one of the segment |
| `ModuleDataCode.FixupElement` | kernel/Atom-Kernel-N570/src/xnu/security/mac_data.h:131-141 | the key is moved only if it is not null, the value always, with wrap-around pointer arithmetic; no other byte changes |
| `ModuleDataPlaces.ElementMetIff` | kernel/Atom-Kernel-N570/src/xnu/security/mac_base.c:779-802 | in loaded words: the elements met are exactly top elements i < count, elements j < count of the arrays that top elements of type 1 point to, and elements k < count of the dictionaries that elements of arrays of type 2 point to |
| `ModuleDataPlaces.ListMetIff` | kernel/Atom-Kernel-N570/src/xnu/security/mac_base.c:784-797 | the list headers read are exactly those of these arrays and dictionaries |
| `ModuleDataPlaces.NestedPointersLand` | kernel/Atom-Kernel-N570/src/xnu/security/mac_base.c:769-805 | the key and value pointers of all three kinds of elements move to the same offset of the new block; null keys stay null |
| `ModuleDataPlaces.OtherBytesStay` | kernel/Atom-Kernel-N570/src/xnu/security/mac_base.c:769-805 | every byte behind base_addr that is not in such a pointer is the old one |
| `ModuleDataPlaces.LP64Offsets` | kernel/Atom-Kernel-N570/src/xnu/security/mac_data.h:96-113 | the offsets of all fields on LP64 |
| `ModuleDataCode.FixupModuleData` | kernel/Atom-Kernel-N570/src/xnu/security/mac_base.c:769-805 | the three nested loops move the pointers of every element met exactly once, set base_addr, and change nothing else |
| `ModuleDataCode.CopyModuleData` | kernel/Atom-Kernel-N570/src/xnu/security/mac_base.c:891-903 | copying the block and fixing up the copy leaves the original alone |
| `ModuleDataCode.FindModuleData` | kernel/Atom-Kernel-N570/src/xnu/security/mac_data.c:70-89 | the search loop equals the first-match search |
| `ModuleDataPlaces.SearchIff` | kernel/Atom-Kernel-N570/src/xnu/security/mac_data.c:70-89 | the search yields value pointer and size of the first top element whose key spells the string up to its NUL, and nothing if there is none |
| `ModuleDataLaws.PointersLand` | kernel/Atom-Kernel-N570/src/xnu/security/mac_data.h:131-141 | every pointer the fixup meets (of elements, of elements of arrays among them, of dictionaries in such arrays) lands inside the copy at its old offset; null keys, and only they, stay null |
| `ModuleDataLaws.UnmetPointersStay` | kernel/Atom-Kernel-N570/src/xnu/security/mac_base.c:769-805 | pointers anywhere else, such as those of an array inside a dictionary, are not moved |
| `ModuleDataLaws.CopyIsWellFormed` | kernel/Atom-Kernel-N570/src/xnu/security/mac_base.c:769-805 | the copy has the structure of the original, element for element, and is well formed at its own address |
| `ModuleDataLaws.RebasedUnique` | kernel/Atom-Kernel-N570/src/xnu/security/mac_base.c:769-805 | the contract determines the copy |
| `ModuleDataLaws.RebasedTwice` | kernel/Atom-Kernel-N570/src/xnu/security/mac_base.c:769-805 | moving twice is moving once to the last address |
| `ModuleDataLaws.ThereAndBack` | kernel/Atom-Kernel-N570/src/xnu/security/mac_base.c:769-805 | moving the copy back to the first address gives the original byte for byte |
| `ModuleDataLaws.FindIsPreserved` | kernel/Atom-Kernel-N570/src/xnu/security/mac_data.c:70-89 | on the copy mac_find_module_data finds the same key, with the same size, at the same offset, or nothing for both |
| `ModuleDataLaws.FoundContents` | kernel/Atom-Kernel-N570/src/xnu/security/mac_data.c:70-89 | the value found has the same contents in the copy |
| `ModuleDataLaws.FindHitsFirst` | kernel/Atom-Kernel-N570/src/xnu/security/mac_data.c:78-85 | the search returns the first element that has the key |
| `ModuleDataLaws.FindMisses` | kernel/Atom-Kernel-N570/src/xnu/security/mac_data.c:78-85 | the search returns ENOENT if no element has it |

## Left out

- Encoder.EncodeState.Run: the driver that feeds bytes into the window is not in `mkext.c`; runs are sequences of insert and delete over a fixed window, and OverwriteDeadText says which bytes a driver may overwrite between them.
- Decompress.DecompressLzss: 18 cells of the ring buffer are never initialised; they become the ghost result `unset`, and what the machine would hold there is not modelled. IndependentOfUnsetIff says when it matters.
- Adler32.MkextAdler32: the ARM vector path, which calls code that is not in the file.
- VnodeLabel.EveryRunIsSafe: the choice between the two create callbacks and their effect beyond an error number, the shortcut when labelling of vnodes is switched off, and v_label being freed or replaced by other functions.
- VnodeLabelCode.LabelledVnode.Enter: one lock section per method; interleavings inside a section are covered by the state machine, not by the method.
- PolicyBusy.EveryRunIsSafe: registration and removal are a single edit of the table inside an exclusive section; the unlocked look at `mac_base.c:470` is a step of its own.
- PolicyList.PolicyRegistry.Register: panics on incomplete policy records, the policy's own init, destroy and bsd hooks, and the label element list; the table, its counters and the slot bitmap are modelled. The slot word is its seven usable bits.
- PolicyList.PolicyRegistry.Unregister: the branch for an unregistered policy cannot be taken on a sound list.
- PolicyHistory.EveryHistoryIsConsistent: a history ends when maxindex wraps or a registration whose search found nothing overwrites a policy or comes before boot; the next name check then reads outside the table, or counters and slots no longer match. A registration that would need 2^32 entries or would store outside the table, and a removal of a handle that is not in use, are skipped.
- MacCheck.Check: runs on one state of the table; registration at the same time is covered by the busy-count model.
- LabelCode.LabelExternalize: a policy prints its label in one piece, and reports an overflow of the buffer as its error; element lists and listeners are given, their registration and removal are not modelled.
- LabelCode.Sbuf.Printf: only fixed-length buffers, which is what the label code uses; an append that fills the buffer to its last place counts as overflow, as in `bsd/kern/subr_sbuf.c:405-446`.
- KextVersionCode.GetString: `snprintf` of an unsigned number is its decimal digits; `strlcpy` and `strlcat` are modelled by their effect on a buffer known to be long enough.
- SetSegname.SetSegname: file reading and writing, the command line and messages; images whose load commands or sections run past the end, for which the tool reads outside the mapping, or with a command size below 8.
- MachHeader.GetSectByName: `strncmp` is equality of the clipped names; the symbol table helpers under MACH_KDB and the wrappers around `_mh_execute_header` are left out.
- ModuleDataCode.CopyModuleData: a failing allocation; blocks whose structures overlap or whose pointers leave the block, for which the fixup has no sensible meaning.
- ModuleDataLaws.PointersLand: nesting deeper than `mac_data.h:60-69` documents is not followed by the fixup and keeps its old pointers (UnmetPointersStay); `libkern/c++/OSKext.cpp:8910-9180` builds no such block.
- ModuleDataCode.FindModuleData: keys that are null, which `strcmp` may not be given; `strcmp` is equality of the texts up to the terminator.
- The label journal and `mac_policy_removefrom_labellist`, the per-object wrappers around the composition macros, system calls, zone and malloc wrappers, logging and sysctl knobs.
- The Python patch scripts of the repository: list edits with easy properties.
