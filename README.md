# rsync hard-link index (hlink.c)

A Dafny model of rsync's hard-link support as implemented in `hlink.c`.

When rsync preserves hard links, the receiver builds a process-wide index
(`hlink_list`, `hlink_count`). The index holds the file-list entries that
carry inode data (the `HAS_INODE_DATA` flag), sorted by `hlink_compare`:
by device, then by inode, and by the file list's own comparator
`file_compare` when both are equal. Entries sharing one (dev, inode) then
sit next to each other.

- `check_hard_link` binary-searches this index to decide whether a file
  repeats an earlier member of its group and should not be transferred.
- `do_hard_links` later walks adjacent pairs of the index. For each pair
  with the same identity whose entries both have a basename, it calls
  `hard_link_one`, which makes the later path a hard link to the earlier
  one on disk.

## Layout

- `entries.dfy` (module `FileEntries`): the entry fields the code reads and
  `hlink_compare` (`Compare`), with the ordering laws it inherits from
  the tie-break comparator.
- `index.dfy` (module `HlinkIndex`):
  - the index as a sequence of positions into the file list;
  - the filling loop of `init_hard_links` (`CollectKept`, specified by
    `Kept`);
  - the sort, an in-place insertion sort on an array;
  - the binary search of `check_hard_link` (`Search`);
  - the lemmas about sorted indexes: groups are contiguous, the
    predecessor slot decides group membership, a group of K entries
    yields at most K - 1 link pairs.
- `filesystem.dfy` (module `FileSystems`): the receiving filesystem as a
  map from path to (dev, inode), with `link_stat`, `do_link` and
  `robust_unlink`. Each call that can fail for reasons outside the model
  succeeds or fails nondeterministically; `link_stat` itself fails only
  on a missing path.
- `hlink.dfy` (module `HLink`):
  - class `HardLinks` holds the two globals and their four operations;
  - `LinkStep` describes every outcome of `hard_link_one` on the
    filesystem map, with its lemmas.

`hlink_list` points at file-list entries. The model stores their
positions in the file list `files` the index was built from. The
file-list comparator and `f_name` are the class constants `tie` and
`fname`; the model assumes nothing about them except that `tie` is a
consistent three-way comparator (`ValidTieBreak`).

## Model

| member | source | states |
|---|---|---|
| FileEntries.Compare | hlink.c:27-39 | entries of different (dev, inode) compare as 1 or -1 and never as 0, below exactly when (dev, inode) is lexicographically below; entries of equal identity compare as the tie-break does |
| FileEntries.CompareAntisymmetric | hlink.c:27-39 | swapping the arguments of hlink_compare flips the sign of the result |
| FileEntries.CompareReflexive | hlink.c:27-39 | every entry compares equal to itself |
| FileEntries.CompareTransitive | hlink.c:27-39 | "not greater" under hlink_compare is transitive, so qsort's requirement on its comparator holds |
| FileEntries.CompareAboveTransitive | hlink.c:27-39 | a <= b and a > c give b > c |
| FileEntries.CompareBelowTransitive | hlink.c:27-39 | a <= b and b < c give a < c |
| HlinkIndex.KeptSpec | hlink.c:63-67 | the collected positions are exactly those whose entry has inode data, each once, in file-list order, and there are at most as many as entries |
| HlinkIndex.KeptEmpty | hlink.c:63-74 | nothing is collected exactly when no entry has inode data (NoInodeData), the case in which the index becomes NULL |
| HlinkIndex.CollectKept | hlink.c:56-67 | the filling loop leaves a fresh array as long as the file list whose first hlink_count slots are the kept positions, each naming an entry of the list |
| HlinkIndex.KeptArrangement | hlink.c:63-70 | any rearrangement of the kept positions has their number of slots, and each slot names an entry with inode data |
| HlinkIndex.AdjacentToSorted | hlink.c:69-70 | for a consistent comparator, an index whose neighbours are in order is sorted |
| HlinkIndex.SortIndex | hlink.c:69-70 | sorting the first hlink_count slots in place permutes them into hlink_compare order and leaves the rest of the array alone |
| HlinkIndex.InsertAt | hlink.c:69-70 | one insertion step extends the ordered prefix by one slot and keeps the slots a permutation |
| HlinkIndex.SortedUnique | hlink.c:69-70 | when the comparator ties no two distinct kept positions, two sorted arrangements of the same positions are equal, so rebuilding the index gives the same order |
| HlinkIndex.GroupsContiguous | hlink.c:69-70 | in a sorted index, any entry between two entries of one (dev, inode) shares that (dev, inode) |
| HlinkIndex.PredecessorDecidesGroup | hlink.c:110-112 | a position has an earlier position with its (dev, inode) exactly when the position just before it has that (dev, inode) |
| HlinkIndex.Shrink | hlink.c:75-77 | the shrunk index is a fresh array holding exactly the first hlink_count slots |
| HlinkIndex.AboveStaysAbove | hlink.c:99-100 | once the probe compares above the file, every later slot of a sorted index does too, so moving `high` down loses no match |
| HlinkIndex.BelowStaysBelow | hlink.c:101-102 | once the probe compares below the file, every earlier slot does too, so moving `low` up loses no match |
| HlinkIndex.SearchExit | hlink.c:92-108 | where the search stops, either the slot compares equal, or everything before it compares below and everything after it above; so equality at `low` holds exactly when some slot matches |
| HlinkIndex.Search | hlink.c:86-103 | the search over a sorted non-empty index stays in bounds and ends at a slot that compares equal to the file whenever any slot does |
| HlinkIndex.ConvergedMatch | hlink.c:105-118 | with at most one matching slot, the three-part test at the converged `low` holds exactly when the file matches a slot whose predecessor has the same (dev, inode) |
| HlinkIndex.ConvergedAnswer | hlink.c:105-121 | check_hard_link's answer is true for a later occurrence of a hard-linked file; for an index entry that nothing ties with, true exactly when an earlier slot shares its (dev, inode) |
| HlinkIndex.OwnPosition | hlink.c:105-118 | for an entry of the index that nothing ties with, the search converges on its own slot, and the predecessor test answers "an earlier slot has the same (dev, inode)" |
| HlinkIndex.PairListSpec | hlink.c:174-178 | the pairs do_hard_links hands to hard_link_one are visited in increasing order and are exactly the slots i with 1 <= i < n that pass the eligibility test |
| HlinkIndex.GroupPairsStep | hlink.c:174-178 | counting a group's pairs up to slot n + 1 adds one exactly when slot n is a link pair of that group |
| HlinkIndex.AttemptsPerGroup | hlink.c:174-180 | among the pairs handed to hard_link_one below slot n, a group of K entries accounts for at most K - 1, and an absent group for none |
| FileSystems.FileSystem.LinkStat | hlink.c:131-135 | link_stat finds something at a path exactly when the path is present, with its identity |
| FileSystems.FileSystem.Link | hlink.c:136 | do_link can succeed only if the source exists and the target is free; on success the target names the source's file, on failure nothing changes |
| FileSystems.FileSystem.RobustUnlink | hlink.c:147 | robust_unlink succeeds on a missing path; on success the path is gone, on failure nothing changes |
| HLink.LinkStepSettles | hlink.c:126-157 | after a hard_link_one that did not fail, either the earlier path is missing or the later path names the same file |
| HLink.LinkStepIdle | hlink.c:131-145 | on a pair that is already settled, hard_link_one changes nothing and reports a skip or an existing link |
| HLink.LinkStepFrame | hlink.c:126-157 | hard_link_one changes no path but the later entry's |
| HLink.LinkStepIdempotent | hlink.c:126-157 | running hard_link_one a second time on a pair whose first run did not fail changes nothing and neither links nor fails |
| HLink.SettledBelowKept | hlink.c:174-180 | with distinct paths, linking the pair ending at slot i leaves every earlier link pair settled |
| HLink.LinkPairStep | hlink.c:174-180 | one linked pair keeps do_hard_links' invariants: changes stay within the target paths so far, an all-settled start stays untouched, and without failures all pairs so far are settled |
| HLink.OtherPairStep | hlink.c:174-180 | a pair do_hard_links skips keeps the same invariants without touching the filesystem |
| HLink.TargetsGrow | hlink.c:174-178 | the paths do_hard_links may change below slot i + 1 are those below i plus slot i's later path exactly when slot i passes the eligibility test |
| HLink.SettledBelowExtend | hlink.c:174-178 | all pairs below i settled and slot i's pair settled give all pairs below i + 1 settled |
| HLink.TracedExtend | hlink.c:174-178 | appending one call of hard_link_one, on a link pair and as LinkStep allows, keeps the record of calls well formed |
| HLink.ProgressLinked | hlink.c:174-178 | a slot passing the eligibility test adds exactly that slot to the calls made, with its LinkStep and outcome, and keeps the frame, idle and settled facts |
| HLink.ProgressSkipped | hlink.c:174-177 | a slot failing the eligibility test adds no call and keeps every fact of the loop state |
| HLink.HardLinks.constructor | hlink.c:41-42 | the static initial state: no index and a count of zero |
| HLink.BuildIndex | hlink.c:53-77 | collecting, sorting and shrinking yields a NULL index with count 0 exactly when no entry has inode data, and otherwise a fresh array of count >= 1 slots holding exactly the kept positions, sorted by hlink_compare |
| HLink.HardLinks.Init | hlink.c:45-79 | fewer than two entries change nothing; otherwise the index holds exactly the positions with inode data, sorted, with the count equal to their number; it is NULL exactly when no entry has inode data, and a non-NULL index is a fresh array with count >= 1 |
| HLink.HardLinks.CheckHardLink | hlink.c:83-122 | false when there is no index or the file lacks inode data; otherwise the converged `low` is in bounds, matches whenever anything matches, and the answer is the three-part test at `low`; for a unique match, true exactly for a later occurrence, and for an index entry, false for the first of its group and true for every later one |
| HLink.HardLinks.HardLinkOne | hlink.c:126-157 | the filesystem changes as LinkStep allows, branch by branch: skip when the earlier path is missing, link when the later one is missing, nothing when both name one file, otherwise unlink and link, any of which may fail |
| HLink.HardLinks.DoHardLinks | hlink.c:166-182 | hard_link_one is called on exactly the eligible adjacent pairs, in index order, and the final filesystem is the result of those calls in sequence, each as LinkStep allows; `failed` holds exactly when one of them failed; without an index nothing changes; only the pairs' later paths change; an already settled filesystem is untouched; without failures and with distinct paths every pair ends settled |

## Left out

- System calls: `link_stat`, `do_link` and `robust_unlink` act on an in-memory map from path to (dev, inode). Errors of `do_link` and `robust_unlink` from permissions, races with other processes or I/O become nondeterministic failure. Concurrency is not modelled beyond that.
- FileSystems.FileSystem.LinkStat: link_stat fails exactly when nothing is at the path; stat errors on existing paths (EIO, ELOOP, EOVERFLOW) are not modelled. So LinkStep's `Skipped` always means the earlier path is missing, and LinkStepSettles and the "every pair ends settled" result of DoHardLinks rely on that.
- `f_name` and `file_compare` are not part of this model. They are the constants `fname` and `tie`. `tie` is only required to be sign-antisymmetric and transitive.
- `qsort` is replaced by an in-place insertion sort with the same contract: a permutation of the kept positions in hlink_compare order.
- Memory management: `free`, `new_array`, `realloc_array` and `out_of_memory` are not modelled. Allocation always succeeds, and the shrunk index is a fresh copy.
- Logging: the `verbose` messages of `check_hard_link` and `hard_link_one` are not modelled. `HardLinkOne` reports which branch it took as a `LinkOutcome` value. The C function returns nothing.
- `dry_run`, the `SUPPORT_HARD_LINKS` compile switch, and the file list's other fields are not modelled.
- C `int` overflow is not modelled: counts and positions are unbounded. In particular, signed overflow of `low + high` (hlink.c:93) for more than 2^30 indexed entries is not modelled.
- HLink.HardLinks.CheckHardLink: returns a `bool` for the C `int` 0/1. The ghost out-parameter `low` exposes the converged search position. The "first of its group / later member" conclusions are stated only when no other index entry ties with the file under hlink_compare. With ties, the search may converge on any tied slot.
- HLink.HardLinks.DoHardLinks: the ghost out-parameters `pairs`, `outs`, `trace` and `failed` record the calls of hard_link_one: which pairs, how each ended, the filesystem before and after each, and whether any failed. The "every pair ends settled" conclusion assumes `f_name` gives distinct paths to the index entries.
- HLink.HardLinks.DoHardLinks and HLink.HardLinks.HardLinkOne require only that the index's slots name entries of the file list (`InBounds`), not that it is sorted. The C code reads nothing else.
