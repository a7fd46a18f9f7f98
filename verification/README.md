# Verification model of bxroot's core

bxroot runs a Linux guest on Android without root. This project models six of its parts in Dafny and
proves what they are for.

1. **Hard links faked with symbolic links** (`L2s*.dfy`). A guest name is a symbolic link to an
   intermediate, the intermediate is one to the data file, and a side file holds the count. The
   runtime's `link`, `unlink`, `rename` and `stat` are methods on an in-memory file system whose calls
   can fail. `L2sModel.Abs` is what the guest sees: a file system with real hard links. Every run of
   guest operations on the one is a run of the other (`L2sRun.Run`), and a failed `link` or `rename` has
   changed nothing, whichever call fails (`L2sGuest.GuestLink`, `L2sGuest.GuestRename`).
   `L2sConcurrent` interleaves any number of calls on one chain, step by step. `L2sTargets` follows the
   stored link texts from the directories of their own links, for absolute and relative names.
2. **The pid ledger and the process layer** (`LedgerTable`, `Ledger`, `KillSafety`, `Env`, `EnvBuild`,
   `Preload`, `Shebang`). The ledger is an array of slots, mutated in place; every operation is one on
   a plain map, for any hash function. The kill verdict is followed over whole histories, from a reap
   and from an addition. The environment is rebuilt in a buffer that is replaced as it grows; nested
   scripts are unwound.
3. **The user-space ELF loader** (`Powers`, `Memory`, `Loader`). Addresses are numbers modulo 2^64. An
   address space is the history of what was mapped, written and protected; the latest operation at an
   address decides what is there. Loading follows System V gABI, chapter 5, "Program Loading".
4. **The native session** (`Session`, `SessionWire`, `SessionIO`, `GuestPath`, `GuestText`, `GuestMap`,
   `GuestLinks`, `SessionResolve`). The binary form and its reader undo each other; guest paths resolve
   as in POSIX.1-2017 Base Definitions, section 4.13, "Pathname Resolution", in the guest's view of its
   binds.
5. **The instruction scanner** (`Livepatch`). It rewrites the words that it is scanning; what it does
   is stated on the original code.
6. **PATH extension** (`HostPath`).

`Text` holds the one notion of splitting a text into components and gluing it back, `Wrappers` the
result shapes, `Powers` powers of two and rounding. In each part the code's loops and in-place updates
are methods, proved against functions; the lemmas then say what those functions mean.

Where something is false of the code, the exact condition is proved, and a run or an input shows the
failure:

- A first `link` can overwrite a live chain, because only the intermediate's name is probed.
  `L2sClobber.FirstLinkClobbers` says exactly when, for any state and any names.
  `L2sClobber.NamesMeet` gives a whole family of names for which it happens, and `L2sClobber.LosingRun`
  runs it: seven operations on guest names, after which nothing leads to the file of two of them.
  `L2sNames.IntermediateMeetsFinal` says that names of one shape (six or more characters ending in four
  digits and a dot) are the only way.
- A `link` of a guest's own symbolic link makes a chain that is reported as a regular file, and that
  `access` finds if and only if the link's target is there (`L2sSymlink.LinkOwnSymlink`).
- A `link` that fails without an outside cause can still have changed something: while that target is
  not there, a first `link` under the same name fails and destroys the chain
  (`L2sSymlink.DanglingRun`). `L2sRuntime.FailedLinkIsClean`: in any state, nothing has changed if and
  only if there was nothing to lose at the names it goes for, or the chain it goes for had its side
  file; in a consistent state that is always so.
- So a successful `link` keeps the state consistent if and only if its source is a name of a chain or a
  file without such an ambiguous name (`L2sGuest.GuestLink`); a run goes on until the first link of
  another kind (`L2sRun.Run`).
- The new name's link need not lead to the chain when the file's name is relative.
  `L2sTargets.NewLeadsExactly` says exactly when it does; `L2sTargets.AbsoluteNameDangles` is an absolute
  new name for which it does not. The fallback to an absolute text that the code's comment promises for
  directories that are too deep (src/l2s/l2s-runtime.c:986) is not taken: segments past the 64th are
  dropped, and `L2sTargets.DeepNameMisses` gives names for which the text then leads elsewhere. The
  original name and the intermediate are always right (`L2sTargets.ChainTargets`).
- A name whose link text is relative with a slash in it is probed as if the text started at the working
  directory. `L2sTargets.ProbeReaches`: the probe is right if and only if the text is bare or absolute,
  or the link's directory and the working directory agree above what the text climbs.
- The limit on the number of environment entries also stops forced entries that are set.
  `Env.ForceWrites`: all of them are written if and only if each finds the result below the limit;
  `Env.LimitStopsForced` is an input where one does not.
- `PX_ENOSPC` is not unreachable in the environment build. `Env.BuildNoSpace`: it is reported if and
  only if the first forced item that does not pass is a list to merge that alone fills the buffer, or a
  value that exceeds what is left of the budget. `Env.NoSpaceHappens` and `Env.TooLongHappens` are inputs
  for it and for `PX_ETOOLONG` under the default budget.
- Merging a preload list again can change it. `Preload.MergeAgain`: it does not if and only if the
  segments of our own text that are no spelling of it, put before the others, leave room for just those
  others; `Preload.MergeCanGrow` is a text that is listed again.
- A segment without file bytes that ends inside its first page is not mapped at all.
  `Loader.LoadElf`: a segment is in place if and only if something of it is mapped, it is empty, or it
  asks for no access; `LoaderEdge.UnmappedSegment` loads one that is not.
- For a movable image the load bias is a multiple of the largest alignment if and only if the lowest
  page is one (`Loader.AlignedBase`); `LoaderEdge.MisalignedBase` loads one where it is not.
- Accepted session bytes re-encode to themselves if and only if no bind path in them has a trailing
  slash (`SessionWire.EncodeOfDecode`); `SessionWire.SlashLost` is a file that does not.

## Model

| member | source | states |
|---|---|---|
| L2sNames.ParseFixed | src/l2s/l2s.c:242-258 | The field is accepted exactly when all its characters are digits, and then has their decimal value. |
| L2sNames.Digits4Value | src/l2s/l2s.c:231-258 | Reading back a formatted four-digit field gives the number, for every number up to 9999. |
| L2sNames.ValueDigits4 | src/l2s/l2s.c:231-258 | Formatting the value of any four digits gives those digits back. |
| L2sNames.FormatCountValue | src/l2s/l2s.c:260-272 | The decimal count text reads back as the count and, within 32 bits, has at most ten digits. |
| L2sNames.ParseCount | src/l2s/l2s.c:274-293 | A count text is accepted exactly when it is nonempty, all digits and at most 2^32 - 7 (the overflow guard leaves out the last six 32-bit numbers), leading zeros allowed. |
| L2sNames.MadePaths | src/l2s/l2s.c:683-812 | A success puts both internal names in the original's directory, built from its base name, with generation and count in range. |
| L2sNames.FinalDecodes | src/l2s/l2s.c:360-445 | A data file name always decodes to the name, generation and count that built it. |
| L2sNames.IntermediateDecodes | src/l2s/l2s.c:360-445 | An intermediate decodes back exactly when its base name is not six or more characters ending in four digits and a dot; otherwise it reads as a data file. |
| L2sNames.IntermediatesAreInjective | src/l2s/l2s.c:683-812 | Equal intermediates come from the same directory, base name and generation. |
| L2sNames.IntermediateMeetsFinal | src/l2s/l2s.c:683-812 | In one directory an intermediate equals a data file exactly when its name is that file's name with generation and dot and its generation is that file's count; such a name has the ambiguous shape. |
| L2sNames.PickGeneration | src/l2s/l2s.c:1008-1048 | The chosen generation is the first whose intermediate is free; failure means that none of them is, or that the names do not fit. |
| L2sRelPath.Compute | src/l2s/l2s-runtime.c:68-181 | The buffer-filling loops yield the specified relative target, and nothing exactly for absolute paths and for directories or results that do not fit the buffer. |
| L2sRelPath.RelativeResolves | src/l2s/l2s-runtime.c:68-181 | Resolving the computed target from the link's directory reaches what the original path reaches, for directories of at most 64 segments; `..` is allowed except in what the link's own directory has past the common part. |
| L2sRelPath.SameDirectory | src/l2s/l2s-runtime.c:68-181 | For two paths in one directory the target is the bare name. |
| L2sModel.ProbeFinds | src/l2s/l2s-runtime.c:481-667 | In a consistent state a guest name is recognised as a faked hard link exactly when it is one, and resolves to its own chain's data file. |
| L2sModel.FirstLinkRefines | src/l2s/l2s-runtime.c:786-1037 | A first link keeps the state consistent and gives the guest one more name for the same file. |
| L2sModel.MoreLinkRefines | src/l2s/l2s-runtime.c:930-1040 | A later link adds one name and one count and leaves every other file as it was. |
| L2sModel.UnlinkRefines | src/l2s/l2s-runtime.c:1046-1121 | Removing a name takes only that name away; with the last name all three internal files go. |
| L2sModel.MoveRefines | src/l2s/l2s-runtime.c:1150-1155 | Renaming any guest entry to a free name is a plain move in the guest's view. |
| L2sModel.ReplaceFakeRefines | src/l2s/l2s-runtime.c:1182-1229 | Renaming over a name of another chain and then accounting for it equals dropping that name and moving. |
| L2sModel.LinkCount | src/l2s/l2s-runtime.c:1409-1518 | The side file's count is the number of guest names of the file; every other file has exactly one. |
| L2sRuntime.Runtime.UpdateSmall | src/l2s/l2s-runtime.c:324-360 | The read-modify-write of the count is one step: it stores the sum and reports it, or changes nothing. |
| L2sRuntime.Runtime.CntAdd | src/l2s/l2s-runtime.c:324-360 | The count moves by the given amount within 0..9999; out of that range or on failure nothing changes. |
| L2sRuntime.Runtime.FirstLink | src/l2s/l2s-runtime.c:786-1037 | A first link is complete or, whichever step fails, undone, except on names that were already taken; without an outside cause, exactly when it succeeds and exactly what it leaves. |
| L2sRuntime.Runtime.DoLink | src/l2s/l2s-runtime.c:735-1040 | The whole of link(2): its refusals, its complete effect, its undone failures; when nothing fails from outside, exactly when it succeeds, which error it gives, and exactly what a failure leaves. |
| L2sRuntime.FailedLinkIsClean | src/l2s/l2s-runtime.c:735-1040 | A link that fails without an outside cause has changed nothing if and only if a condition on the state before holds, for all states and names. |
| L2sRuntime.UndoneIsClean | src/l2s/l2s-runtime.c:786-1037 | What an undone first link leaves is what was there if and only if the data name is a directory, or is free and so is the side file's should the chain get that far. |
| L2sRuntime.Runtime.DoUnlink | src/l2s/l2s-runtime.c:1046-1121 | Other names are passed through untouched; a faked hard link loses one count and its name, and its chain with the last one; whichever call fails, one of six listed states is left, and the name is gone only on success. A name of a broken chain is just removed; one without a valid count stays. |
| L2sRuntime.Runtime.Commit | src/l2s/l2s-runtime.c:1201-1229 | After the rename the chain has one name fewer, and its files go with the last; whichever call fails, one of five listed states is left; without a valid count nothing changes. |
| L2sRuntime.Runtime.DoRename | src/l2s/l2s-runtime.c:1182-1229 | Prepare, the kernel's rename and commit together do what rename(2) has to do; an error has changed nothing, and a failing commit leaves one of its listed states. |
| L2sRuntime.Runtime.Stat | src/l2s/l2s-runtime.c:1409-1518 | The entry, count and type that are reported: those of the data file, as a regular file, exactly where a chain with a valid count is found, and the link's own elsewhere. |
| L2sFresh.MadeFrom | src/l2s/l2s.c:683-812 | When the names of a first link fit, in closed form, and what they are, for every guest name and generation. |
| L2sFresh.FreshIsFree | src/l2s/l2s.c:1008-1048 | In a consistent state the three names chosen for a first link are nobody's; the intermediate reads as one unless the source's name is ambiguous. |
| L2sFresh.FirstLinkViews | src/l2s/l2s-runtime.c:786-1037 | A first link of any plain entry, symbolic links and ambiguous names included, gives the guest one more name for it and changes no other. |
| L2sFresh.OddSourceBreaks | src/l2s/l2s-runtime.c:786-1037 | After the first link of a symbolic link, or under an ambiguous name, the state is no longer consistent. |
| L2sGuest.LinkableMeans | src/l2s/l2s-runtime.c:735-1040 | When a link can succeed, in the guest's terms: the source is there and no directory, the name is free, and the file has fewer than 9999 names, or for a first link its names fit and a generation is free. |
| L2sGuest.SomeFreeIsFresh | src/l2s/l2s.c:1008-1048 | A chain can be made exactly when the names fit and one of the 999 generations is free. |
| L2sGuest.GuestLink | src/l2s/l2s-runtime.c:735-1040 | All or nothing under any single failing step and for every source: success gives the guest exactly one more name for it, failure leaves the whole file system as it was; without failures it succeeds exactly when a link is possible, and says why not: source missing or a directory, 9999 names, new name taken; and the state stays consistent exactly for a name of a chain or a file without an ambiguous name. |
| L2sGuest.GuestUnlink | src/l2s/l2s-runtime.c:1046-1121 | The guest's view loses exactly the name; whichever call fails, no other name is affected, nor this one while its file has another. |
| L2sGuest.PrepareMeans | src/l2s/l2s-runtime.c:1182-1199 | The decision before a rename, in the guest's terms: nothing to do exactly for two names of one faked file, nothing to account for exactly when the new name is no faked hard link. |
| L2sGuest.SameFileMeans | src/l2s/l2s-runtime.c:1182-1199 | Two different guest names show the same file exactly when both are probed to one chain. |
| L2sGuest.RenameRefines | src/l2s/l2s-runtime.c:1182-1229 | The guest's rename is the hard-link file system's, and between two names of one file a no-op, even when a call of the accounting fails. |
| L2sGuest.GuestRename | src/l2s/l2s-runtime.c:1182-1229 | An error changes nothing and success is the whole effect on the guest's view, whichever call fails; without failures it succeeds exactly on existing non-directories. |
| L2sGuest.GuestStat | src/l2s/l2s-runtime.c:1409-1518 | The reported entry is the guest's file, its type is right, and the reported link count is the number of its names. |
| L2sRun.Run | src/l2s/l2s-runtime.c:735-1229 | Every sequence of create, symlink, link, unlink and rename, up to the first link that cannot stay consistent, is a run of a file system with real hard links; every state on the way is consistent, and each link succeeds exactly when it can. |
| L2sRun.RunFromEmpty | src/l2s/l2s-runtime.c:735-1229 | From an empty tree every list of operations that links no name which may hold a symbolic link by then, and no ambiguous name, runs to its end that way; symbolic links may be made and moved. |
| L2sRun.CreateAndLink | src/l2s/l2s-runtime.c:735-1040 | Every unambiguous name that fits can be created and linked, and then has exactly two names. |
| L2sGuest.NothingLeaks | src/l2s/l2s-runtime.c:1087-1120 | A consistent state without guest names is empty: no internal file outlives its last name. |
| L2sGuest.SomeName | src/l2s/l2s-runtime.c:1046-1121 | Every entry, internal or not, belongs to some guest name. |
| L2sClobber.FirstLinkClobbers | src/l2s/l2s-runtime.c:786-1037 | A first link of a file that succeeds leaves every other entry alone if and only if the data name is free and the side file is free or already says 2, in any state with one file per inode. |
| L2sClobber.NamesMeet | src/l2s/l2s.c:683-812 | For every guest name, the second intermediate of a certain ambiguous name is its own first data file. |
| L2sClobber.LosingRun | src/l2s/l2s-runtime.c:735-1229 | A run of creates, links and a rename, without any failure, after which two names reach another file and nothing reaches theirs. |
| L2sClobber.CastIsMet | src/l2s/l2s.c:683-812 | Such a run exists for every file name that does not start with a dot. |
| L2sSymlink.LinkedLinkMeans | src/l2s/l2s-runtime.c:481-667 | A chain whose data file is a symbolic link is probed and resolved like any other, but found by access exactly while that link's target is there. |
| L2sSymlink.LinkOwnSymlink | src/l2s/l2s-runtime.c:735-1518 | A link of a guest's own symbolic link: failure changes nothing; after success both names are reported as regular files with two links while they share the symbolic link, and nothing else has changed. |
| L2sSymlink.DanglingRun | src/l2s/l2s-runtime.c:786-1037 | After linking a dangling symbolic link and renaming it away, a first link under its name fails and takes away what the other names had. |
| L2sSymlink.RolesAreMet | src/l2s/l2s-runtime.c:786-1037 | Such a run exists. |
| L2sTargets.LinkAnywhere | src/l2s/l2s-runtime.c:735-1040 | After a successful link of any names from any working directory: the original's link, followed from its own directory, leads to the intermediate, that one's to the data file, which is what the original was, and the new name's to the intermediate for tame names, and otherwise exactly under the condition below. |
| L2sTargets.LinkLeads | src/l2s/l2s-runtime.c:735-1040 | The same, read off the states before and after. |
| L2sTargets.ChainTargets | src/l2s/l2s-runtime.c:843-911 | The original name leads to the intermediate and the intermediate to the data file, for all names, absolute or relative and however deep. |
| L2sTargets.NewLeadsExactly | src/l2s/l2s-runtime.c:960-999 | The new name leads to the intermediate if and only if: the intermediate's path is absolute; or both are relative within 64 directories and nothing climbs out of the new name's own directories, or the climb ends at the top anyway; or deeper ones are the same directory; or the absolute fallback fits; or the two starting points agree above what the path climbs. |
| L2sTargets.TameLeads | src/l2s/l2s-runtime.c:960-999 | That is so for an absolute file name, and for relative names of at most 64 directories whose new directory has no `..` past the shared part, when one of the two texts fits: the rewritten one, or the absolute one. |
| L2sTargets.AbsoluteNameDangles | src/l2s/l2s-runtime.c:978-999 | An absolute new name in another top directory, for a relative file: its link leads elsewhere. |
| L2sTargets.DeepNameMisses | src/l2s/l2s-runtime.c:68-181 | A file more than 64 directories deep: the link of a new name beside the working directory leads elsewhere. |
| L2sTargets.ProbeReaches | src/l2s/l2s-runtime.c:481-585 | The intermediate a name is recognised by is where its link leads exactly when the text is bare, absolute, or climbs to where both directories agree; a bare text in another directory becomes absolute. |
| L2sTargets.ResolveReaches | src/l2s/l2s-runtime.c:588-667 | The data file found behind an intermediate is where its link leads, under the same exact condition for texts with a slash. |
| L2sConcurrent.StepKeepsInv | src/l2s/l2s-runtime.c:936-1115 | Every step of every thread keeps the count equal to the counted names plus the links under way, and the files there while a name counts. |
| L2sConcurrent.Interleavings | src/l2s/l2s-runtime.c:936-1115 | In every interleaving: that equation; at most one unlink sees 0, exactly one once nothing counts; no file is removed while a name still counts. |
| L2sConcurrent.Quiescent | src/l2s/l2s-runtime.c:936-1115 | When all calls have returned, the count is the number of names, and the three files are all there or all gone. |
| LedgerTable.ChainEnds | src/proc/proc.c:210-237 | A key not met before the first empty slot of its probe chain is nowhere in the table. |
| LedgerTable.InsertKeeps | src/proc/proc.c:669-680 | Writing an absent key into the slot the probe offers keeps every probe chain unbroken and adds exactly that entry to the map. |
| LedgerTable.UpdateKeeps | src/proc/proc.c:634-667 | Rewriting an entry in place changes the map at its key only. |
| LedgerTable.ReleaseKeeps | src/proc/proc.c:240-244 | A tombstone removes exactly its key and breaks no probe chain. |
| LedgerTable.AgreesUnique | src/proc/proc.c:484-516 | A table stands for one map only, so rehashing every live entry keeps the map. |
| Ledger.Probe | src/proc/proc.c:210-237 | Finds the key's slot, or a slot where it may be inserted, or reports that every slot is live. |
| Ledger.RoundPow2 | src/proc/proc.c:144-158 | The least power of two that is large enough. |
| Ledger.Create | src/proc/proc.c:246-278 | An empty enabled ledger of the asked size rounded up within the limits, or nothing when an allocation fails. |
| Ledger.PxLedger.Release | src/proc/proc.c:240-244 | The entry leaves the map; the counters stay exact. |
| Ledger.PxLedger.Evict | src/proc/proc.c:385-417 | Removes at most the asked number of entries, reaped ones only, least recently used first, and fewer only when none is left. |
| Ledger.PxLedger.Rehash | src/proc/proc.c:484-516 | A fresh table of the given size holds the same map without tombstones; a failed allocation changes nothing. |
| Ledger.PxLedger.Grow | src/proc/proc.c:519-569 | Doubles the table with the same map, refuses only at the hard limit, and changes nothing when it fails. |
| Ledger.PxLedger.MakeRoom | src/proc/proc.c:601-619 | Compaction, growth, then eviction: below the limit and with memory no entry is lost and the table is less than 75 per cent full; at most 16 entries are evicted, fewer only when no other is reaped. |
| Ledger.PxLedger.Locate | src/proc/proc.c:601-631 | After making room: the key's slot or one that may take it; below the limit and with memory always one, at the cost of no entry. |
| Ledger.PxLedger.Put | src/proc/proc.c:584-681 | Insertion and refresh as map operations; below the limit and with memory it always succeeds and loses nothing; with eviction on it reports full only when every slot is taken by a live entry, and a failed allocation only when fewer than two were left; a stored entry carries what was given and a clock one further than any before. |
| Ledger.PxLedger.Add | src/proc/proc.c:683-690 | One step of the map: the entry is stored, possibly after evictions, or nothing is. |
| Ledger.PxLedger.Get | src/proc/proc.c:701-726 | Exactly the map's entry while the ledger is enabled. |
| Ledger.PxLedger.Reap | src/proc/proc.c:739-796 | Marks both dimensions of the pid and nothing else, and reports whether either was known. |
| Ledger.PxLedger.Forget | src/proc/proc.c:798-817 | Removes exactly the key, and reports whether it was there. |
| Ledger.PxLedger.Clear | src/proc/proc.c:289-308 | Leaves the empty map. |
| Ledger.PxLedger.CheckKill | src/proc/proc.c:2006-2120 | The verdict as a table of reasons for a signal to pass, read from the map. |
| KillSafety.StepKeepsSafe | src/proc/proc.c:385-817 | Nothing but a successful addition of a pid makes it killable again: not other insertions with the compaction, growth and eviction they cause, nor reaping, removal or clearing. |
| KillSafety.SafeVerdicts | src/proc/proc.c:2006-2120 | For a pid without a live entry, exactly when the two forms of kill still pass under the default policy. |
| KillSafety.ReapedStaysDenied | src/proc/proc.c:751-2120 | After a reap and any history without a successful addition of the pid, neither form of kill passes; self, parent, own group and SIGCHLD aside. |
| KillSafety.WhenAddingRevives | src/proc/proc.c:634-680 | An addition keeps a reaped pid protected exactly when it is still known and the tag is neither fork nor spawn. |
| KillSafety.AddAfterReap | src/proc/proc.c:584-690 | The same on the ledger: below the limit and with memory the addition succeeds, and revives the pid exactly then. |
| KillSafety.ReapThenKill | src/proc/proc.c:751-2120 | The same for the table itself: reap, run any commands, ask. |
| KillSafety.PidVerdict | src/proc/proc.c:2006-2079 | kill(p) under every policy: a live process may always be signalled, a reaped one only by itself, an unknown one by itself or as the parent; SIGCHLD and a disabled ledger pass. |
| KillSafety.GroupVerdict | src/proc/proc.c:2022-2120 | kill(-p), kill(-1) and kill(0) under every policy: a group passes exactly when groups are allowed and it is the caller's own or has a live entry and no reaped one; the others only by an explicit choice. |
| KillSafety.AddedIsAlive | src/proc/proc.c:634-680 | A successful addition that is new, of a live entry, or tagged fork or spawn leaves the entry live and makes no other one reaped. |
| KillSafety.StepKeepsAlive | src/proc/proc.c:385-817 | Only a reap or removal of the pid or a clearing ends that: later additions, with the compaction, growth and eviction they cause, never do. |
| KillSafety.AddedStaysPassed | src/proc/proc.c:584-2120 | After such an addition and any history without those, kill(p) passes under every policy, and kill(-p) exactly as far as groups are allowed, unless the other dimension was reaped. |
| KillSafety.AddThenKill | src/proc/proc.c:584-2120 | The same for the table itself: add, run any commands, ask. |
| Env.EnvLookup | src/proc/proc.c:838-855 | The value of the last entry of that exact name among the first 4096. |
| Env.EntryMatches | src/proc/proc.c:823-836 | An entry written for a name without `=` matches that name only, and yields its value. |
| Env.CarryKeeps | src/proc/proc.c:1119-1184 | The first pass keeps eligible entries only, within half of the budget and the limit, and every eligible entry is kept or lost; below the limit each loss is counted. |
| Env.CarryLooksUp | src/proc/proc.c:1119-1184 | A name none of whose entries is dropped, forced or lost reads its input value afterwards. |
| Env.CarriedMeans | src/proc/proc.c:1037-1184 | What is carried over is not empty and matches neither a dropped nor a forced name. |
| Env.CarryChooses | src/proc/proc.c:1119-1184 | Entry by entry: an eligible one is lost if and only if the limit was reached before it, it is longer than the entry limit, or it does not fit half the budget behind what was kept; the two counts count exactly the second and third kind. |
| Env.SmallIsKept | src/proc/proc.c:1119-1184 | From an input within limit, half budget and entry length the first pass keeps every eligible entry, in order, and both counts are 0. |
| Env.ForceWrites | src/proc/proc.c:1198-1270 | Unless it fails, forcing appends every forced entry in order if and only if each set entry finds the result below the limit. |
| Env.WrittenLooksUp | src/proc/proc.c:1198-1270 | Each forced name is written exactly once and reads its forced value; no other name is written. |
| Env.ForceFits | src/proc/proc.c:1198-1270 | With budget for every item, forcing fails exactly on an item that does not fit in one entry. |
| Env.BuiltMeans | src/proc/proc.c:1089-1297 | In the rebuilt environment forced names occur once with their values, dropped names are gone, and every other name of which nothing was lost reads as before. |
| Env.SmallInputSurvives | src/proc/proc.c:1089-1297 | From such an input every name that is neither dropped nor forced reads its input value in the result, even when the limit stops the forced ones. |
| Env.OrdinaryBuild | src/proc/proc.c:1089-1297 | Under the default limits, up to 4096 entries with the forced ones, 1 MiB, and 128 KiB an entry: the build succeeds, loses nothing, and every plain name reads its forced value, nothing when dropped, or its input value. |
| Env.OthersEligible | src/proc/proc.c:1037-1078 | Only entries of the dropped and forced names themselves are withheld. |
| Env.BuildSucceeds | src/proc/proc.c:1089-1297 | With the default budget, at most 32 short forced names and room below the limit, the build succeeds if and only if every forced entry fits in one entry. |
| Env.BuildBounded | src/proc/proc.c:1089-1297 | With the default budget and at most 32 short forced names, whatever the limit, the result stays within 2 MiB. |
| Env.BuildNoSpace | src/proc/proc.c:1198-1270 | The exact condition of PX_ENOSPC, for every budget and limit. |
| Env.NoSpaceHappens | src/proc/proc.c:1244-1262 | A value as long as the default budget is PX_ENOSPC. |
| Env.TooLongHappens | src/proc/proc.c:1198-1270 | A shorter value that exceeds one entry is PX_ETOOLONG. |
| Env.LimitStopsForced | src/proc/proc.c:1198-1270 | An input whose forced name is missing from the result, because of the limit. |
| EnvBuild.PackedAt | src/proc/proc.c:947-965 | Each entry lies, terminated, at the sum of the sizes before it. |
| EnvBuild.EnvOut.Reserve | src/proc/proc.c:887-914 | Makes room by replacing the buffer with a doubled one; every entry stays readable at its offset. |
| EnvBuild.EnvOut.ReserveOffs | src/proc/proc.c:917-944 | Makes room for one more offset and keeps those there are. |
| EnvBuild.EnvOut.Push | src/proc/proc.c:947-965 | Appends exactly the entry; the earlier ones survive the regrowth. |
| EnvBuild.FirstPass | src/proc/proc.c:1119-1184 | The loop carries over exactly the specified entries, with the specified diagnostic counts. |
| EnvBuild.ForceItem | src/proc/proc.c:1198-1270 | One forced item as specified: merged, set, stopped at the limit, or refused with its code. |
| EnvBuild.PxEnvBuild | src/proc/proc.c:1089-1297 | The final vector shows exactly the specified entries in the final buffer; short of memory it reports so, and otherwise the specified failure. |
| Preload.MergePreload | src/proc/proc.c:1299-1391 | The cursor loop yields the specified list, ours in front, within the buffer. |
| Preload.MergedMeans | src/proc/proc.c:1299-1391 | A separator-free `ours` comes first; the other libraries follow in order, as many as fit, none of them with its file name. |
| Preload.MergeAgain | src/proc/proc.c:1299-1391 | Merging again changes nothing exactly when the segments of `ours` that are no spelling of it, put before the others that were kept, leave room for just those others; so with separator-free text. |
| Preload.MergeCanGrow | src/proc/proc.c:1299-1391 | An `ours` of two names is listed a second time when there is room. |
| Shebang.ParseShebang | src/proc/proc.c:5718-5802 | The cursor over the first 256 bytes reads the specified interpreter and argument, each cut at its first zero byte. |
| Shebang.OneArgument | src/proc/proc.c:5718-5802 | Blanks before the interpreter and before the argument are skipped; everything from there on, blanks included, is one argument up to the end of the line, whatever zero bytes then cut away. |
| Shebang.NoArguments | src/proc/proc.c:5718-5802 | With only blanks behind the interpreter there is no argument. |
| Shebang.BlankLine | src/proc/proc.c:5718-5802 | With only blanks on the line it is malformed. |
| Shebang.OneScript | src/proc/proc.c:5830-5889 | One script runs its interpreter with its argument, the script, and the caller's arguments without the first. |
| Shebang.RewriteShebang | src/proc/proc.c:5830-5889 | With four places more than arguments the vector never overflows and is never refused for lack of room; it holds interpreter, argument, script and the caller's arguments. |
| Shebang.RewriteChain | src/proc/proc.c:6052-6104 | The loop over levels is the kernel's rule applied again while the interpreter is a script. |
| Shebang.NestedRuns | src/proc/proc.c:6052-6104 | Up to four nested scripts give, in closed form, every interpreter with its argument, innermost first, then the script and the caller's arguments. |
| Shebang.FifthLoops | src/proc/proc.c:6090-6095 | A fifth script level is ELOOP. |
| Loader.Survey | src/ldr/ulx.c:88-163 | The wrap-around checks accept exactly the files whose segments lie inside file and address space, and yield their lowest page, highest end and widest alignment. |
| Loader.SegmentsInside | src/ldr/ulx.c:151-156 | Every segment lies between the lowest page and the highest end. |
| Loader.BoundsAreMet | src/ldr/ulx.c:151-156 | Both bounds are met by a segment, and the widest alignment is one segment's or 4096, and no segment's is wider. |
| Loader.ReservationCovers | src/ldr/ulx.c:164-180 | The reservation covers the moved image rounded to pages, for alignments above and below the page size. |
| Loader.AlignedBase | src/ldr/ulx.c:172-180 | The load bias is a multiple of the largest alignment if and only if the lowest page is. |
| Loader.Place | src/ldr/ulx.c:164-180 | Reserves the extent at the fixed or at the kernel's address, exactly when that range is free and in bounds; every image address then lands inside, modulo 2^64. |
| Loader.ClearTail | src/ldr/ulx.c:204-212 | Clears exactly the bytes behind the file's up to the page end without ever faulting, and restores the protection. |
| Loader.MapFilePages | src/ldr/ulx.c:195-200 | The file mapping shows the right file bytes, and succeeds only at a page-congruent offset. |
| Loader.MapBss | src/ldr/ulx.c:213-219 | The rest of the segment is zero, and what lies below it is untouched. |
| Loader.MapSegment | src/ldr/ulx.c:182-223 | One segment's bytes are in place under its protection, and only its own pages are touched. |
| Loader.MapAll | src/ldr/ulx.c:182-223 | All segments, in any order, keep one another in place when no two share a page. |
| Loader.LoadElf | src/ldr/ulx.c:66-228 | Nothing outside the reservation changes, and nothing that was mapped before, success or not; the image is exact; the program headers are reported where the last segment whose file bytes hold them puts them, and can be read back there; without such a segment as 0; a good file with memory and a free range always loads. |
| LoaderEdge.UnmappedSegment | src/ldr/ulx.c:182-223 | For every page size, a good file that loads without one of its segments. |
| LoaderEdge.MisalignedBase | src/ldr/ulx.c:172-180 | For every page size from 4096, a movable image whose bias is no multiple of its alignment. |
| Memory.OutsideUnchanged | src/ldr/ulx.c:182-223 | Operations inside an interval change neither content nor protection outside it. |
| Session.PutThenLookup | src/host/session.c:108-125 | Setting a name changes what that name looks up and nothing else. |
| Session.BxSession.Get | src/host/session.c:108-113 | The first entry of that name. |
| Session.BxSession.Set | src/host/session.c:114-125 | Replaces or appends, with the refusals and their codes; the session stays well-formed. |
| Session.BxSession.AddBind | src/host/session.c:164-175 | Appends the bind with its trailing slashes removed and nothing else, with the refusals and their codes; the session stays well-formed. |
| SessionWire.PutThenGet | src/host/session.c:326-327 | Reading a little-endian word gives the number that was put, anywhere in a text. |
| SessionWire.GetThenPut | src/host/session.c:326-327 | Putting a word that was read gives its four bytes back. |
| SessionWire.HeaderBytes | src/host/session.c:324-336 | The header in bytes: the magic, then version 1, the length and both numbers as words with the lowest byte first. |
| SessionWire.RecordBytes | src/host/session.c:337-344 | A record in bytes: kind, flags, both lengths with their terminators, both texts, a zero byte behind each. |
| SessionWire.RecordAt | src/host/session.c:337-344 | Behind the header come the values as kind 1 and then the binds as kind 2 with their flag, host before guest, in order. |
| SessionWire.ParseOfEnc | src/host/session.c:337-344 | A record parses back from its encoding, whatever follows. |
| SessionWire.EncOfParse | src/host/session.c:387-392 | What parses as a record is the encoding of that record, followed by the rest. |
| SessionWire.DecodeOfEncode | src/host/session.c:326-401 | Decoding the encoding of any built session with an absolute root gives back the same session, in order. |
| SessionWire.EncodeOfDecode | src/host/session.c:326-401 | The declared bytes of an accepted file re-encode to themselves if and only if no bind path in them has a trailing slash. |
| SessionWire.SlashLost | src/host/session.c:326-401 | A file with one bind that ends in a slash is accepted and does not re-encode to itself. |
| SessionWire.DecodedIsWellformed | src/host/session.c:386-398 | An accepted session is one that setting values and adding binds could have built, with an absolute root. |
| SessionIO.Serialize | src/host/session.c:328-344 | The buffer sized field by field holds exactly the encoding; more than 2 MiB is refused. |
| SessionIO.ParseAt | src/host/session.c:387-392 | One record at the cursor, every read below the declared length. |
| SessionIO.Read | src/host/session.c:368-401 | The cursor loop accepts and rejects exactly as the specification does, with the same codes and the same session. |
| GuestPath.WalkNormal | src/host/session.c:205-264 | Every resolved path is absolute and free of `.`, `..` and empty components. |
| GuestPath.WalkComposes | src/host/session.c:205-264 | Walking two stretches is walking the first and then the second from where it ended. |
| GuestPath.DotDotAfterLinks | src/host/session.c:218-224 | `..` leaves the directory that everything before it resolves to, links included. |
| GuestPath.LinkFreeIsLexical | src/host/session.c:137-163 | On a tree without links a walk succeeds exactly when every name on the way can be entered, and then ends at the lexical form. |
| GuestPath.ReachableEnters | src/host/session.c:215-262 | Where there are directories all along, short enough, every name can be entered. |
| GuestPath.SelfLinkLoops | src/host/session.c:256 | A link to itself exhausts the budget of 40 links. |
| GuestPath.BoundDepth | src/host/session.c:185-195 | The deepest ancestor that is bound; no deeper one is. |
| GuestMap.DeepestBindServes | src/host/session.c:189-195 | The first bind at the deepest bound ancestor serves what is below it; one of the root serves the root alone. |
| GuestMap.SharedMemoryServes | src/host/session.c:196-199 | With no bind above it, what is at or below the shared-memory directory is served from the host's, even inside the kernel's trees. |
| GuestMap.KernelTreeStays | src/host/session.c:200-201 | Everything else below /proc, /sys and /dev is the host's own path. |
| GuestMap.RootServes | src/host/session.c:202-203 | The rest lies below the root file system, or is refused without one. |
| GuestMap.JoinedText | src/host/session.c:176-184 | Joining writes the slash between a host directory and the rest once. |
| GuestLinks.LinkStandsForText | src/host/session.c:244-261 | Where the host has a symbolic link that is neither a bind's own path nor below /proc, any path through it resolves to what the path with the link's text in its place does, from the root or from the link's directory, up to the budget of 40 links; a text that does not fit with what follows is an error. |
| GuestLinks.SettledLeads | src/host/session.c:230-255 | A component below /proc, a bind's own path, a directory, and at the end anything that is no link or missing, is entered and no link is followed there. |
| GuestLinks.OthersFail | src/host/session.c:230-253 | Every other component ends the resolution with the host's error: missing or no directory with text behind it, or a failed look. |
| GuestLinks.BudgetShift | src/host/session.c:256 | Links already followed only bring the end of the budget closer: same result, or ELOOP. |
| GuestLinks.LeadsIsResolve | src/host/session.c:216-218 | A text leads to a directory with so many bytes behind it exactly when it resolves there with as many separators behind it. |
| GuestLinks.StartsAtCwd | src/host/session.c:209-214 | A relative path resolves as the text behind its absolute working directory, an absolute one without it; the errors otherwise. |
| GuestText.PrefixMeans | src/host/session.c:132-136 | The string comparison holds exactly of texts that spell an ancestor, the root, or nothing, and what follows spells the components below. |
| GuestText.ParentText | src/host/session.c:222 | Cutting a path at its last slash is going to the parent, the root staying the root. |
| SessionResolve.BestBind | src/host/session.c:189-194 | The loop picks the first of the deepest matching binds; a bind of the root serves the root alone. |
| SessionResolve.MapPlain | src/host/session.c:185-204 | Where a guest path lives on the host: deepest bind, shared memory, the kernel's trees, the root file system. |
| SessionResolve.Normalized | src/host/session.c:137-163 | The in-place loop yields the lexical form of the path, and fails only on an empty or unanchored path or on one too long for its buffers. |
| SessionResolve.WalkText | src/host/session.c:215-262 | The loop on text, with the link budget and the text a link puts in front, is the walk on components; its path stays normal. |
| SessionResolve.SessionToHost | src/host/session.c:205-264 | The whole resolution, errors included, is the specified one. |
| SessionResolve.ResolvedIsNormalized | src/host/session.c:137-264 | On a tree without links a path resolves exactly when its text fits and every name on the way can be entered, so where there are directories all along, and then to its lexical form. |
| SessionResolve.NormalizeAndResolve | src/host/session.c:137-264 | There the resolution maps exactly the components that the normalized text spells. |
| SessionResolve.ResolvedIsNormal | src/host/session.c:205-264 | Every resolved path is normal. |
| Livepatch.WindowsAreDisjoint | src/runtime/livepatch.c:840-883 | A system call is reached from one opener only. |
| Livepatch.BarrierWords | src/runtime/livepatch.c:453-463 | The words that end a window are exactly the immediate writes of x8 under any shift and the branches, calls and returns, by the ranges of their encodings. |
| Livepatch.OpenerWords | src/runtime/livepatch.c:840-883 | A window is opened by `mov x8,#99` and `mov x8,#293` only, for the relay by `mov x8,#56` only; what replaces the system call is `mov x0,#0`. |
| Livepatch.BranchLands | src/runtime/livepatch.c:1149-1187 | The encoded displacement, sign extended, lands on the trampoline over the whole +/-128 MiB. |
| Livepatch.FirstOnes | src/runtime/livepatch.c:840-883 | The sites below the frontier are the first ones of the original code. |
| Livepatch.ScanAndPatch | src/runtime/livepatch.c:840-883 | One in-place pass changes exactly the first 32 sites of the original code, and counts them. |
| Livepatch.PathrelayPatch | src/runtime/livepatch.c:1149-1187 | One in-place pass turns exactly the sites in reach into branches that land on the trampoline. |
| HostPath.PathHas | src/host/host-world.c:281-291 | Component equality, not substring matching. |
| HostPath.GuestPath | src/host/host-world.c:292-328 | The text grown in place has the specified components and fits the buffer of both lengths plus two. |
| HostPath.ExtendedMeans | src/host/host-world.c:292-328 | The guest's components stay in front exactly as they were, each missing absolute host directory is added once, and nothing else. |
| HostPath.NewsInOrder | src/host/host-world.c:292-328 | What is added comes in the order of the host's list. |
| HostPath.ExtendIdempotent | src/host/host-world.c:292-328 | Extending twice is extending once. |

## Left out

- L2sRun.Run: absolute names only; for relative ones there is the single call (`L2sTargets.LinkAnywhere`). Directories do not move. What a run does after a link that leaves the state inconsistent is shown by examples, not in general.
- L2sGuest.GuestUnlink: when a call fails from outside after the count was lowered, the name stays behind with a count that is one too small, as in the code; a name whose file had no other name may then lead nowhere.
- L2sTargets.NewLeadsExactly: when one of the directories has more than 64 segments, for names without `..` in them.
- L2sTargets.LinkAnywhere: nothing on the way to the names' directories is itself a link.
- L2sRuntime.Runtime.DoLink: at most one call fails from outside, and the calls that only look (lstat, readlink, access) are reliable; the same holds for unlink and rename.
- L2sRuntime.Runtime.UpdateSmall: caps the count at 9999, as the header promises; the function that the preload library injects (src/runtime/preload.c:2602) caps it at 2^32 - 1, so that there a 10000th link succeeds and stat then loses the count.
- L2sConcurrent.Interleavings: one chain, subsequent links and unlinks of distinct names, no link whose source is being unlinked; the separate read and write fallback for the count, which the source documents as losing updates, is not modelled.
- The `l2s_dir` directory choice, the `hide_symlink` switch (symbolic links are hidden here), proroot's own metadata names in `l2s_classify`, readlink and directory rewriting, `statx` field copying, statistics.
- Ledger.Probe: for any hash function; the multiplicative hash itself and 64-bit wrap-around of the clock are not modelled. The ledger's lock is left out: operations are sequential.
- Ledger.PxLedger.CheckKill: not for the target whose negation overflows 32 bits.
- EnvBuild.EnvOut.Reserve: the refusal to double past half of the address space is left out; it needs a buffer of 2^62 bytes.
- Env.BuiltMeans: for forced names without `=` that differ from one another, as all of the code's own do.
- Shebang.RewriteShebang: interpreter paths whose translation does not fit a path buffer are outside the model; permissions, symbolic links of the interpreter and the exec itself too.
- Loader.Survey: identification bytes, machine and header sizes are taken as already accepted.
- Loader.ClearTail: a protection change that fails is not modelled; the code ignores that failure.
- Loader.Place: for a movable image the kernel's pick is a parameter; a pick that is not page-aligned, free and in range counts as a failed call.
- SessionIO.Serialize: the anonymous file, its seals and partial writes are the kernel's side; allocation failures are left out.
- SessionIO.Read: the content of a sealed file is given as a text; interrupted reads are left out.
- SessionResolve.SessionToHost: the host's answers are a map from host paths; two answers for one path do not differ within one call. The reverse direction, which depends on kernel handles, is left out.
- Livepatch.ScanAndPatch: a second pass may walk past an already patched word and find more, so no idempotence is claimed; gates, version tables and finding the code ranges are left out.
- Exec and spawn hooks, fork handling, `fakeroot`, crash handling, the linker and the command-line programs.
