# unionfs core in Dafny

unionfs is a Plan 9 file server that exports the union of several directory
trees ("branches") as one. This project models the identity and resolution
core of its C implementation, and proves properties of that model:

- **Qid encoder** (`qmap.c`, module `QidMap`):
  - `qencode` packs eligible keys (device type `'M'`, a 28-bit dev and a
    35-bit path) directly into a 64-bit path with bit 63 clear.
  - Every other key goes into a table of 1024 bucket chains, selected by the
    FNV-1a hash `qhash`. There it gets `(1<<63) | counter` once and keeps it.
  - `QidTable` holds the buckets (an array of chains) and the counter.
- **Name deduplicator** (`dirlist.c`, module `DirList`):
  - `seen` is an open-addressing string set with linear probing. It doubles
    and rehashes once more than half full.
  - `dirlist` keeps the first entry of every name from the merged listing,
    in order.
  - `Dirlist` is a class over the `dirs` and `seen` arrays.
- **Union resolver** (`unionfs.c`, modules `Host`, `Mkdir`, `Branches`,
  `MountPoints`, `Union`):
  - `walkto` resolves a name in the first branch that has it.
  - `fscreate` puts new files in the first create branch, after `mkdirp` has
    made the missing parent directories.
  - `dircopy` and `clone` copy FILE records.
  - `dirgen` and the directory path of `fsread` replay a listing snapshot.
  - `mtptgrab`/`mtptfree` manage a LIFO pool of scratch mount points.
  - `main` builds the branch list from its arguments.

The host file system is an oracle. `Host.Fs` is a value that holds:

- the metadata `dirstat` returns for every existing path;
- the metadata `create` gives each path where it succeeds.

`cleanname` is a function parameter. libString is not part of this model:
`s_append(s, nil)`, which `walk` receives at unionfs.c:147, 365 and 375, is
taken to append nothing, so `Host.Walk` gets the empty string there. `pivot`
and the mount point given to `main` are parameters too. Strings are byte
sequences without NUL. The fixed-width C integers are subset types of `int`.
The hashes work on `bv64`. The `qhash` key bytes are laid out little-endian.
`char` is signed, so the `dirlist` hash sign-extends bytes from 0x80 up.

Behaviour of the code that the model keeps:

- `walkto` has no special case for `..`.
- Table-mapped qids come from a plain counter, with no salt.
- A table entry is never released.
- `dircopy` does not copy the length, so a cloned, walked or created FILE
  reports the length it had before: 0 for a new FILE.

## Model

| member | source | states |
|---|---|---|
| Common.FnvFoldAppend | qmap.c:83-99 | hashing the three key fields one after another is hashing their concatenated bytes |
| QidMap.DirectPath | qmap.c:115-122 | an eligible key encodes below 2^63 (bit 63 clear), and dev and path come back out by shift and mask |
| QidMap.DirectInjective | qmap.c:115-122 | two eligible keys with the same direct encoding are the same key |
| QidMap.HashField | qmap.c:85-88 | the byte loop over one key field computes the FNV-1a fold of its bytes |
| QidMap.ComputeQHash | qmap.c:76-100 | qhash is FNV-1a (basis 14695981039346656037, prime 1099511628211) over type, dev, then qid.path |
| QidMap.BucketHash | qmap.c:129 | the bucket of a key is qhash(key) % 1024 |
| QidMap.ChainIndex | qmap.c:129 | computes the bucket index of a key |
| QidMap.FindNone | qmap.c:131-137 | the chain search misses exactly when no entry of the chain has the key |
| QidMap.FindSome | qmap.c:131-137 | a hit returns the stored path of an entry with that key |
| QidMap.FindFirst | qmap.c:131-137 | the search returns the first entry with the key, from the head |
| QidMap.Tagged | qmap.c:144-146 | a counter value tagged as a table path has bit 63 set |
| QidMap.InsertKeepsFind | qmap.c:147-148 | head insertion of a new key makes it found with its path and leaves every other key's lookup unchanged |
| QidMap.InsertKeepsChains | qmap.c:144-148 | head insertion into the key's bucket keeps every chain agreeing with the key-to-path map |
| QidMap.InsertKeepsUnique | qmap.c:144-146 | below 2^63, a fresh counter value keeps table paths distinct and below the new counter |
| QidMap.QidTable.constructor | qmap.c:73-74 | all 1024 chains start empty (the static `qidmap`), with the counter at 0 (the static `qpath` at qmap.c:125) |
| QidMap.QidTable.Encode | qmap.c:102-152 | copies vers and type; direct keys are packed statelessly; a known key returns its stored path and changes nothing; a new key gets (1<<63) \| counter at the head of its bucket, and the counter increments; no key loses its path; below 2^63 paths stay distinct |
| QidMap.DisjointSpaces | qmap.c:11-13 | a direct-encoded path never equals a table-mapped one |
| QidMap.CollisionFree | qmap.c:144-146 | while the counter is below 2^63, distinct keys hold distinct exported paths |
| DirList.FirstByteIgnored | dirlist.c:9-12 | hash skips the first byte, so equal-length names that differ only there collide |
| DirList.ComputeHash | dirlist.c:3-14 | the loop computes the name hash: FNV-1a over the bytes after the first, then the NUL |
| DirList.Home | dirlist.c:22 | the probe start hash(name) % mseen is a slot of the table, below mseen |
| DirList.FreeSlotExists | dirlist.c:23-27 | a table with fewer names than slots has a free slot, so the probe loop ends |
| DirList.NotStored | dirlist.c:22-27 | a probe that reaches a free slot without meeting the name shows that the name is absent |
| DirList.InsertKeepsLayout | dirlist.c:28-29 | storing a new name in the first free probe slot keeps the probe layout and adds exactly that name and that slot |
| DirList.DistinctFromPrefix | dirlist.c:36-38 | a stored name occurs only once in the old table, so re-inserting it during the rehash never finds it already there |
| DirList.ReenterFits | dirlist.c:36-38 | each re-inserted old name is new to the grown table, which still has room |
| DirList.Dirlist.constructor | dirlist.c:67-69 | dirs has nall + 1 nil slots; the name table has nall empty slots |
| DirList.Dirlist.Probe | dirlist.c:22-27 | the probe finds the name exactly when it is stored, else stops at the first free slot of its run |
| DirList.Dirlist.Seen | dirlist.c:16-42 | returns 1, changing nothing, exactly when the name is stored. Otherwise it stores the name in the first free probe slot, increments nseen and returns 0; past half full it doubles mseen. Either way nseen <= mseen/2 holds afterwards |
| DirList.Dirlist.Grow | dirlist.c:30-40 | the resize doubles mseen and keeps the set of stored names and their number |
| DirList.Dirlist.Reenter | dirlist.c:36-38 | re-inserting old slot i extends the new table to the names of old slots 0..i, without a second growth |
| DirList.Dirlist.Keep | dirlist.c:70-74 | one step of the dirlist loop: seen now holds the names of entries 0..i, and dirs gains i exactly when its name is new |
| DirList.Firsts | dirlist.c:70-76 | ndirs <= nall, and every kept index points into all |
| DirList.FirstsMember | dirlist.c:70-74 | an entry is kept exactly when no earlier entry has its name |
| DirList.FirstsIncreasing | dirlist.c:70-74 | kept entries stay in listing order |
| DirList.FirstsDistinct | dirlist.c:70-74 | the kept names are pairwise distinct |
| DirList.FirstsCover | dirlist.c:70-74 | the kept names are exactly the names of the whole listing |
| DirList.MakeDirlist | dirlist.c:55-78 | nil when dirreadall fails; otherwise dirs[0..ndirs) holds the first entries of each name, in order, with dirs[ndirs] nil, and seen holds every name |
| Host.Joined | unionfs.c:113-123 | walk is cleanname applied to Joined, the string the four s_append calls build: the string, "/", n0, "/", n1, each part at its place and nothing else |
| Mkdir.CutString | unionfs.c:320-321 | writing a NUL over a '/' makes the C string the path prefix before it |
| Mkdir.FindSlash | unionfs.c:320 | strchr returns the first '/' from the pointer on, or none |
| Mkdir.Cuts | unionfs.c:318-333 | the loop's prefix ends lie in the path, and the last is the full path |
| Mkdir.Steps | unionfs.c:318-333 | the full path is the last directory the loop visits |
| Mkdir.CutsRise | unionfs.c:318-333 | the visited prefixes grow strictly in length |
| Mkdir.CutsAtSlash | unionfs.c:320-321 | every visited prefix but the last ends just before a '/' |
| Mkdir.CutsComplete | unionfs.c:318-321 | every '/' that follows a non-'/' byte after the first byte ends a visited prefix |
| Mkdir.VisitAdds | unionfs.c:322-328 | the walk only adds missing, creatable visited directories and keeps what existed; nothing is removed after a failure |
| Mkdir.VisitOutcome | unionfs.c:318-334 | the result is 1 exactly when every visited directory exists at the end; on -1 some visited directory is missing and could not be created |
| Mkdir.MkdirRound | unionfs.c:319-332 | one loop round: a failed create ends with -1, the last prefix ends with 1, otherwise the walk goes on past the '/' |
| Mkdir.MkdirEffect | unionfs.c:305-336 | an existing path gives 1 and creates nothing. Otherwise 1 means every step exists. Existing entries are kept; new ones are creatable steps |
| Mkdir.Cut | unionfs.c:319-321 | the pointer steps over a '/', strchr finds the next one, and a NUL is written there |
| Mkdir.Make | unionfs.c:322-328 | stat, then create when missing; a failed create leaves the tree unchanged |
| Mkdir.MkdirP | unionfs.c:305-336 | the pointer loop over the NUL-cut copy computes exactly the visit of the path's steps |
| Branches.ScanArgs | unionfs.c:470-488 | the filled and dropped slots together never exceed argc |
| Branches.ScanBranches | unionfs.c:470-488 | the k-th branch is the k-th existing path argument, at its cleaned (or pivoted) path, with create set exactly when c == 1 there |
| Branches.AsWrittenCount | unionfs.c:470-481 | as written, nbranch exceeds the filled slots by the number of missing paths |
| Branches.BranchesAsWritten | unionfs.c:467-491 | main as written: argc slots, the existing paths' roots first and the rest nil; each filled slot is marked create when c was 1 at its path, and slot 0 also when c ends at 0; nbranch is argc minus what the scan dropped, one per "-c"; None exactly when no path exists |
| Branches.SkipMiscount | unionfs.c:478-481 | with "/a" and a missing "/gone", main keeps nbranch = 2 and slot 1 has a nil root |
| Branches.FixedCount | unionfs.c:470-481 | when a skipped path also decrements nbranch, nbranch equals the number of filled slots |
| Branches.NoMissingAgrees | unionfs.c:478-481 | without missing paths the fix changes nothing |
| Branches.MakeBranches | unionfs.c:467-491 | main's loop with the nbranch fix of ## Findings: fails when no path exists; otherwise branch[0..nbranch) is the existing paths in order with their create marks, and branch 0 is marked when c ends at 0 |
| MountPoints.DecimalInjective | unionfs.c:18 | %d prints distinct counter values differently |
| MountPoints.MtptPathInjective | unionfs.c:18 | /mnt/mtpt<n> names are equal exactly when their numbers are |
| MountPoints.MtptPool.constructor | unionfs.c:7-12 | the free list starts empty and the counter at 0 |
| MountPoints.MtptPool.Grab | unionfs.c:9-25 | pops the head of the free list; when it is empty, makes a fresh /mnt/mtpt<counter> and increments the counter |
| MountPoints.MtptPool.Free | unionfs.c:27-34 | pushes the mount point on the head, so the next grab returns it |
| MountPoints.MadeDistinct | unionfs.c:12-19 | mount points the pool made have pairwise distinct paths |
| Union.DirCopy | unionfs.c:63-84 | every field comes from the source except the length, which the target keeps |
| Union.File.constructor | unionfs.c:36-44 | filenew: a zeroed FILE with fd -1 |
| Union.Clone | unionfs.c:125-137 | the new FILE has the parent's metadata with length 0 and the parent's paths |
| Union.RealPath | unionfs.c:149-150 | the host path is cleanname of "/" root "/" path; the string is reset first, so its old contents play no part (also fscreate's `s_new` at unionfs.c:356-357) |
| Union.FirstHit | unionfs.c:148-157 | the first branch, in priority order, whose host path exists; None when none does |
| Union.WalkTo | unionfs.c:139-160 | extends the path by the name, then takes the first branch with a hit: its host path, its dircopied metadata and its encoded qid. On "not found" the metadata and the table stay, the path stays extended and realpath is the last one tried. The table keeps its valid state and every old assignment, changes its map of keys at most by giving this key its path, and keeps paths distinct while the counter stays below 2^63 |
| Union.Adopt | unionfs.c:153-155 | dircopy of the branch entry, then its encoded qid. The table keeps its valid state and every old assignment, changes its map of keys at most by giving this key its path, and keeps paths distinct while the counter stays below 2^63 |
| Union.CreateIndex | unionfs.c:353-355 | the first branch with create set, or nbranch when none has it |
| Union.CreateBranchExists | unionfs.c:484-490 | main's list has a create branch exactly when c ends at 0 or some existing path was scanned while c was 1 |
| Union.FsCreate | unionfs.c:338-383 | targets the first create branch whatever the parent's branch; mkdirp failure or create refusal fails and leaves the table as it was; the new FILE has the created metadata with length 0, its encoded qid, the descriptor, path parent + name and the host path. The table keeps its valid state and every old assignment, changes its map of keys at most by giving this key its path, and keeps paths distinct while the counter stays below 2^63 |
| Union.NewFile | unionfs.c:369-376 | the new FILE: dircopy onto filenew's zero, encoded qid, descriptor and both paths. The table keeps its valid state and every old assignment, changes its map of keys at most by giving this key its path, and keeps paths distinct while the counter stays below 2^63 |
| Union.Dirgen | unionfs.c:236-248 | -1 exactly at ndirs, leaving the table as it was; otherwise entry i is the i-th first-named entry, dircopied with its encoded qid. The table keeps its valid state and every old assignment, changes its map of keys at most by giving this key its path, and keeps paths distinct while the counter stays below 2^63 |
| Union.ReadDir | unionfs.c:262-271 | offset 0 rewinds and rebuilds the snapshot (nil on failure); other offsets keep it unchanged |

## Left out

- 9P plumbing is protocol I/O and is not part of this model: `fsattach`, `fsopen`, `fsremove`, `fswrite`, `fsstat`, `fswstat`, `walkandclone`, respond and the fid's qid field.
- Kernel namespace operations are not modelled: `bind`, the `unmount` in `mtptgrab`, and `pivot`. `pivot` is an oracle for the name it binds a branch to; its own counter is not modelled.
- `dirstat`, `create` and `cleanname` are oracles:
  - `create` is keyed by path only; its mode and permission are not modelled.
  - `dirfstat` after a successful create reads the created entry and cannot fail. The descriptor is a parameter of `FsCreate`.
- Locking is not modelled; everything runs sequentially. This leaves out the window between `runlock` and `wlock` in `qencode`.
- Flag parsing is not modelled. The `-c` flag is the starting counter `c0`; the mount point is a parameter.
- Memory release is not modelled: `filefree` (including the parent FILE that `fscreate` frees), `dirlistfree`, and returning a FILE's mount point to the pool.
- lib9p's `dirread9p`, which packs the `dirgen` entries into the reply, is not part of this model.
- Union.ReadDir: covers only the directory branch of `fsread`. The regular-file branch is `pread` I/O.
- MountPoints.MtptPool.Grab: the `next` links of the free list are modelled by the order of a sequence. The C `int` counter `mtptnext` is unbounded here, so its overflow after 2^31 mount points is not modelled.
- QidMap.QidTable.Encode: distinct table-mapped paths are promised only while the counter is below 2^63. The source does not handle overflow.
- Union.FsCreate: requires a create branch. Union.CreateBranchExists states when `main`'s list has one: c ends at 0, or some existing path was scanned while c was 1. Arguments such as `/a -c` or `/a -c -c /b` give a list without one. `fscreate`'s loop (unionfs.c:353-355) then stops at `nbranch` and uses the slot past the list, which is not modelled.
- Union.ReadDir: requires a snapshot at a nonzero offset. `fsread` can reach such a read with none: `dl` is nil before the first read at offset 0, and a failed rebuild leaves it nil (unionfs.c:268). It then passes nil to `dirread9p` (unionfs.c:271) and `dirgen` dereferences it (unionfs.c:242). Whether lib9p lets such a read through depends on its directory offset check, which is not part of this model, so this path is not modelled.

## Findings

| source | as written | input that shows it | evidently intended | confidence | as-written member | corrected member |
|---|---|---|---|---|---|---|
| unionfs.c:478-481 | a path argument that does not exist is skipped without decrementing `nbranch` | arguments `/a /gone`, where only `/a` exists: `nbranch` stays 2 and `branch[1].root` is nil, so walks and opens go through a branch with a nil root, which (with `s_append(s, nil)` appending nothing) walks to paths under the host's `/` | `nbranch` counts only the filled slots | high; not executed | Branches.SkipMiscount | Branches.MakeBranches |
