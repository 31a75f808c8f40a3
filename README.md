# Duplicate-file remover, modelled in Dafny

The system scans a directory tree, computes an MD5 digest for every file it
finds, and removes every file whose digest equals that of a file met earlier,
keeping one file per content. It exists in several versions:

- **C** (`ConcorrenteV1.c`, `GET_TIME/concorrente-v2.c`, `Sequencial.c`).
  Each keeps a growable registry of (path, digest) records filled by a
  recursive `readdir` walk. In `ConcorrenteV1.c` and `concorrente-v2.c` a
  pool of threads hashes the records in strides; `Sequencial.c` hashes them
  in order on one thread. The concurrent versions then run an all-pairs resolver that removes
  record `j` whenever an earlier record `i` has the same digest.
- **Python** (`Python/Concorrente-Threads.py`, `Concorrente-Processos.py`).
  These fill an insertion-ordered `dict` from path to digest. Files whose
  digest failed are skipped. The paths are then grouped by digest, and
  every path but the first of each group is removed.
- **Go** (`Go/walk0.go`, `walk1.go`). These keep the regular non-empty
  files of a `filepath.Walk` and key them by the hex rendering of their
  digest. They remove every bucket member but the first, visiting the
  buckets in Go's unspecified map order.

The model is imperative where the source is:
- `FileList` is a class over an array.
- `addFile`, the walk, the hash threads, the resolvers and the report are
  methods with loops, proved against reference functions.
- The policies are proved as lemmas about those functions.

MD5 is a function parameter `digestOf` from path to a 16-byte digest. The
file system is a tree datatype (C) or the sequence of walk-callback calls
(Go). Concurrency is replaced by the orders it can produce, passed in as
parameters:
- the completion order of the Python futures;
- the arrival order at Go's collector;
- Go's map range order;
- the order in which `concorrente-v2.c`'s crawler threads register paths.

Each thread of the C pool is run one after another; their strides are
proved disjoint and covering. A removal is recorded as an attempt: the
target's path (Python, Go) or record index (C).

Modules: `Types`, `Registry`, `Crawl`, `Hashing`, `Hex`, `AllPairs`,
`Buckets` (the grouping policy shared by Python and Go), `PyDedup`,
`GoDedup`, `Pipeline` (the C `main` functions).

**The C resolver attempts a record more than once.** The C resolver attempts a
record once for every earlier record with the same digest, because it compares
all pairs `i < j`; the Python and Go versions attempt each later copy exactly
once. The third copy of a file is therefore attempted twice, and the second `remove`
fails. The model follows the code: `AllPairs.AllPairsPolicy` counts the
attempts exactly, and `AllPairs.RepeatedAttempts` states the repetition. The
set of files removed is still the later copies, as
`AllPairs.PoliciesAgree` shows against the bucket policy.

## Model

| member | source | states |
|---|---|---|
| Registry.FileList.constructor | ConcorrenteV1.c:34-38 | `initFileList`: size 0, capacity as requested, no records |
| Registry.FileList.AddFile | ConcorrenteV1.c:41-49 | `addFile`: when `size >= capacity` the capacity doubles (and the array is replaced), otherwise it and the array stay; the path is stored at index `size`, `size` grows by one, earlier records are unchanged |
| Registry.Paths | Sequencial.c:12-21 | the registry's paths, one per record, in order |
| Registry.Hashes | Sequencial.c:12-21 | the registry's digests, one per record, in order |
| Crawl.Truncate | ConcorrenteV1.c:94 | `snprintf` keeps a text that fits unchanged, and of a longer text exactly its first (buffer length minus one) characters |
| Crawl.JoinPath | ConcorrenteV1.c:89-94 | the joined path always fits the MAX_PATH buffer; it is `base/name` when that fits and otherwise exactly the first MAX_PATH-1 characters of `base/name`; it starts with a `base` that fits |
| Crawl.WalkDirectory | ConcorrenteV1.c:79-108 | `walkDirectory` appends exactly the paths `Listed` describes, after the records already present, which it leaves unchanged |
| Crawl.WalkListing | ConcorrenteV1.c:88-107 | the `readdir` loop of a directory that opened appends exactly the listings of its entries, in order, and keeps the earlier records |
| Crawl.JoinAtLimitNamesDirectory | Sequencial.c:84 | when the directory path is two characters short of MAX_PATH, every entry's joined path is the directory path plus `/`, whatever the entry's name |
| Crawl.VisitEntry | ConcorrenteV1.c:89-105 | one `readdir` entry: skips `.`/`..` and unstatable entries, recurses into directories, appends anything else |
| Crawl.DotEntrySkipped | ConcorrenteV1.c:90-92 | an entry named `.` or `..` contributes nothing, wherever it sits |
| Crawl.StatFailureSkipped | ConcorrenteV1.c:95-99 | an entry whose `stat` fails contributes nothing |
| Crawl.UnopenableDirSkipped | ConcorrenteV1.c:83-86 | a directory `opendir` cannot open contributes nothing |
| Crawl.FileAppended | ConcorrenteV1.c:103-105 | a non-directory contributes exactly its joined path, between its siblings' contributions |
| Crawl.DirectoryInline | ConcorrenteV1.c:101-102 | a directory's whole subtree is listed in place, before later siblings (depth first) |
| Crawl.EntriesConcat | ConcorrenteV1.c:88-106 | the listing of consecutive entries is the concatenation of their listings |
| Crawl.WalkFindsReachable | Sequencial.c:69-98 | a path is listed exactly when it is the joined path of a non-directory reachable through readable directories |
| Crawl.VisitFindsReachable | Sequencial.c:79-96 | one entry contributes exactly the files reachable through it |
| Crawl.PathsFitBuffer | Sequencial.c:79-84 | every listed path fits the MAX_PATH buffer and extends the base path |
| Hashing.OwnerIsRemainder | ConcorrenteV1.c:117 | thread `k` of `n` visits index `i` exactly when `i % n == k` |
| Hashing.StrideIndices | ConcorrenteV1.c:117 | the stride of thread `k` holds exactly the owned indices below `size` |
| Hashing.StrideIncreasing | ConcorrenteV1.c:117 | a stride is strictly increasing and starts at the thread index or later |
| Hashing.StridesDisjoint | ConcorrenteV1.c:111-122 | two different threads never visit the same index |
| Hashing.VisitedExactlyOnce | GET_TIME/concorrente-v2.c:128-139 | every index below `size` is visited exactly once, by thread `i % n`, and by no other thread |
| Hashing.AllHashed | ConcorrenteV1.c:118 | (definition) after hashing, each record keeps its path and holds the digest of that path |
| Hashing.HashThread | ConcorrenteV1.c:111-122 | `hashThread`: writes the digest of exactly the records it owns, in place, and nothing else |
| Hashing.HashPool | ConcorrenteV1.c:170-185 | the pool of `n > 0` threads, joined: every record holds the digest of its path |
| Hashing.HashInOrder | Sequencial.c:111-113 | the in-order loop of `Sequencial.c` gives the same records as the pool |
| Hex.Digit | ConcorrenteV1.c:191 | a value 0..15 renders as the character at that position of the lowercase alphabet `0123456789abcdef` |
| Hex.DigitValue | ConcorrenteV1.c:191 | a character is read back exactly when it is a lowercase hex digit, inverting `Digit` |
| Hex.Encode | ConcorrenteV1.c:190-192 | `%02x` per byte: two lowercase hex digits per byte |
| Hex.EncodeAppend | ConcorrenteV1.c:190-192 | rendering one more byte appends its two digits |
| Hex.DecodeEncode | Sequencial.c:117-119 | the rendering decodes back to the bytes |
| Hex.EncodeDecode | Sequencial.c:117-119 | any string that decodes is the rendering of what it decodes to |
| Hex.EncodeInjective | walk1.go:34 | two digests render alike exactly when they are equal, so `%x` keys identify digests |
| Hex.FormatDigest | ConcorrenteV1.c:190-193 | the `%02x` loop prints `Encode(hash)`, 32 characters |
| AllPairs.CompareHashes | ConcorrenteV1.c:125-127 | `memcmp` of two digests is zero exactly when they are equal |
| AllPairs.CompareAntisymmetric | GET_TIME/concorrente-v2.c:142-144 | swapping the arguments negates the comparison |
| AllPairs.DeleteDuplicates | ConcorrenteV1.c:130-142 | `deleteDuplicates` attempts exactly the targets of the all-pairs loop, in loop order, reading the registry only |
| AllPairs.AllPairsPolicy | GET_TIME/concorrente-v2.c:147-159 | index `j` is attempted once per earlier index with the same digest; attempted iff it has an earlier twin; index 0 and indices past the registry never |
| AllPairs.RepeatedAttempts | ConcorrenteV1.c:131-133 | with three equal digests the last one is attempted at least twice |
| AllPairs.PoliciesAgree | ConcorrenteV1.c:130-142 | the all-pairs loop removes the same paths as the bucket policy over the registry order |
| AllPairs.AsEntries | ConcorrenteV1.c:15-18 | (definition) the records as (path, digest) pairs, in registry order |
| Buckets.Group | Python/Concorrente-Threads.py:34-36 | the grouping loop: every key's bucket lists the paths with that key in arrival order; the key order is first-insertion order |
| Buckets.RemoveAllButFirst | Python/Concorrente-Threads.py:38-45 | visiting buckets in order, attempts `paths[1:]` of each bucket with more than one path |
| Buckets.LaterMembers | Go/walk0.go:60-63 | a path is in the reference `Later` exactly when it is carried by an entry with an earlier entry of the same key |
| Buckets.LaterAtMostOnce | Go/walk0.go:72-81 | with distinct paths, no path is targeted twice |
| Buckets.LaterCount | Go/walk0.go:72-81 | targets plus distinct keys equal the number of entries |
| Buckets.FirstOccurrencesDistinct | Concorrente-Processos.py:34-38 | the dict's key order lists each key once, and every key |
| Buckets.TargetedIffTwin | Go/walk0.go:60-63 | with distinct paths, entry `j` is targeted exactly when an earlier entry has its key |
| Buckets.SurvivorsDistinct | Go/walk0.go:72-81 | two entries that are both kept have different keys |
| Buckets.EarliestSurvives | Go/walk0.go:72-81 | the earliest entry of every key is kept |
| Buckets.EarliestTwin | Go/walk0.go:60-63 | the earliest index with the same key |
| Buckets.TailsMatchLater | walk1.go:69-83 | in any order that lists every key once, the removal loop's targets are `Later` up to order |
| Buckets.BucketPolicy | walk1.go:71-80 | the targets are exactly the paths of `Later`, and their number is the entries minus the keys (the sum of `len - 1`) |
| Buckets.BucketPolicyDistinct | Concorrente-Processos.py:33-45 | with distinct paths, entry `j` is targeted iff it has an earlier twin, and no path is targeted twice |
| PyDedup.IndexOf | Python/Concorrente-Threads.py:66 | the position of a key in the dict, or its length when absent |
| PyDedup.Put | Python/Concorrente-Threads.py:66 | `hash_map[p] = h`: a new key goes last; an existing one keeps its place and takes the new value; keys stay distinct |
| PyDedup.FillHashMap | Python/Concorrente-Threads.py:61-68 | the filling loop: keys distinct, every entry from a successful result, every successful path present; with distinct paths the dict is the successes in delivery order |
| PyDedup.StoreStep | Python/Concorrente-Threads.py:65-66 | storing a digest keeps the loop's invariants |
| PyDedup.SkipStep | Concorrente-Processos.py:63 | skipping a `None` digest keeps the loop's invariants |
| PyDedup.DeleteDuplicates | Python/Concorrente-Threads.py:33-45 | `delete_duplicates`: the targets are `Later(hash_map)` up to order, each at most once, one per entry with an earlier equal digest |
| PyDedup.SurvivorsOnePerDigest | Concorrente-Processos.py:33-45 | after the removals one path per digest survives, the earliest inserted |
| PyDedup.SuccessKeys | Python/Concorrente-Threads.py:19-21 | a digest is a key of the dict exactly when some result carries it |
| PyDedup.LaterOfSuccesses | Python/Concorrente-Threads.py:58-68 | a path is targeted exactly when its digest succeeded and an earlier-delivered result had the same digest |
| PyDedup.FailureIgnored | Concorrente-Processos.py:19-21 | a failed result changes nothing: dropping it leaves the dict as it was |
| PyDedup.ResultsFor | Concorrente-Processos.py:61 | (definition) `pool.map` yields one result per listed path, in `file_list` order |
| PyDedup.TargetedInDeliveryOrder | Concorrente-Processos.py:60-64 | with distinct paths, path `j` is targeted iff its digest succeeded and an earlier path had the same one |
| PyDedup.RunProcesses | Concorrente-Processos.py:58-74 | `main`: the dict is the successes in listing order; a path is removed iff an earlier-listed path had its digest; each at most once |
| PyDedup.StoredPaths | Python/Concorrente-Threads.py:61-68 | whatever order the futures complete in, the dict holds exactly the listed paths whose digest was computed |
| PyDedup.RunThreads | Python/Concorrente-Threads.py:58-77 | `main`: the dict's keys are the listed paths with a digest; a path is removed iff a path completed earlier with its digest; each at most once |
| GoDedup.WalkSnoc | Go/walk0.go:43-51 | the walk over one more visit applies the callback once more |
| GoDedup.StoppedStays | Go/walk0.go:44-46 | once the callback returned an error, later visits change nothing |
| GoDedup.SearchWalk | walk1.go:52-67 | the `filepath.Walk` loop with `searchTree`'s callback yields the reference `Walk` |
| GoDedup.WalkKeeps | walk1.go:58-60 | a walk completes iff no visit errs or lacks its FileInfo; then it holds exactly the regular files of positive size |
| GoDedup.WalkAbortsAtFirstError | Go/walk0.go:44-46 | a failed walk reports the error of the first visit that stops it |
| GoDedup.HexEntries | Go/walk0.go:60-62 | (definition) `hashFile` per path, in order: the path with the `%x` rendering of its digest |
| GoDedup.HexTwinIffDigestTwin | walk1.go:34 | a path has an earlier path with the same hex key iff it has one with the same digest |
| GoDedup.SearchTree | Go/walk0.go:36-67 | `searchTree`: the walk; on success buckets grouping the kept paths by hex key in walk order; on error no buckets |
| GoDedup.DeleteDuplicates | Go/walk0.go:70-84 | `deleteDuplicates` over any range order: targets are `Later` up to order, as many as the sum of `len - 1`, each at most once with distinct paths |
| GoDedup.DeliveredPolicy | walk1.go:44-50 | over the delivered order, a path is targeted iff an earlier delivered path has the same digest |
| GoDedup.RunSequential | Go/walk0.go:86-101 | `main`: a walk error is fatal; a nil FileInfo panics; otherwise a path is removed iff an earlier-walked path has its digest |
| GoDedup.RunConcurrent | walk1.go:116-130 | `main`: a non-numeric or non-positive worker count is refused first; then as in `walk0.go`, but in arrival order |
| Pipeline.Registered | ConcorrenteV1.c:164-185 | the records after the walk and the hash phase: each listed path with its digest |
| Pipeline.ReportShape | ConcorrenteV1.c:188-194 | two report lines per record, `File: <path>` then `Hash: <hex>`, in registry order |
| Pipeline.ReportRoundTrip | Sequencial.c:115-121 | the digest of every record can be read back from its `Hash:` line |
| Pipeline.Report | GET_TIME/concorrente-v2.c:225-231 | the report loop prints exactly `ReportLines` of the registry |
| Pipeline.TargetsAreLaterTwins | ConcorrenteV1.c:197 | the resolver targets a record iff an earlier record has the same digest |
| Pipeline.RunV1 | ConcorrenteV1.c:150-197 | a thread count `<= 0` is refused before the walk; otherwise the walk, the pool, the report and the resolver, with the records, report and targets stated |
| Pipeline.RunV2 | GET_TIME/concorrente-v2.c:173-234 | the same guard; the registry receives the discovered paths in order, then the pool, report and resolver |
| Pipeline.RunSequential | Sequencial.c:106-121 | the walk with the 1024-byte buffer, the in-order hash loop and the report; nothing is deleted |

## Left out

- MD5 itself and the 32 KiB read loops are not modelled. A digest is the value of the parameter `digestOf` on the path.
- The real file system is not modelled: `opendir`/`readdir`/`stat`, `os.walk` and `filepath.Walk`. In its place are the tree `Crawl.Node` and the sequence of Go callback calls.
- Whether `remove`/`os.remove`/`os.Remove` succeeds, and the messages printed either way, are not modelled. A removal is recorded as attempted.
- Threads, processes, goroutines, channels and the mutex are not modelled. The C pool runs its threads one after another. The orders that concurrency produces are parameters.
- `concorrente-v2.c`'s crawl is not modelled: it detaches a thread per subdirectory and joins only the first. `Pipeline.RunV2` takes the discovered paths as input, in the order they were registered.
- Hashing.HashPool, Hashing.HashThread, Hashing.HashInOrder: when `fopen` or `malloc` fails in `calculateHash`, C leaves the digest slot as it was, which is uninitialised memory. The model writes `digestOf(path)` for every record.
- Timing (`GET_TIME`, `time.time`, `time.Since`) and the timing lines printed are not modelled.
- Argument-count checks are not modelled (`argc`, `argparse`, `len(os.Args)`). The C thread count is the integer `atoi` produced, so a non-number arrives as 0. Go's `strconv.Atoi` is an `Option<int>`.
- Python's `ValueError` for a non-positive worker count is not modelled. Neither Python program checks the count itself.
- Python's `list_files` is not modelled; `file_list` is a parameter with distinct paths.
- Python's result printing is not modelled. It uses the same lowercase hex rendering as `Hex.Encode`.
- An exception raised by `future.result()` is not modelled, since `calculate_hash` catches every `Exception` itself.
- Go's `log.Fatal` inside `hashFile` is not modelled: the process ends there. Every kept path gets a digest.
- AllPairs.CompareHashes: only the sign convention of `memcmp` is modelled, and zero exactly for equal digests. The magnitude returned by a C library may differ.
- Crawl.JoinPath: one model `char` stands for one byte of the C path. `snprintf` and MAX_PATH count bytes, so a path with non-ASCII names is cut at a different place in C, possibly inside a UTF-8 sequence; the model's cut is exact only for single-byte characters.
- Crawl.VisitEntry: the entry's node decides whether it is skipped, recursed into or appended. C instead runs `stat` on the joined path after `snprintf` has cut it, and recurses into or appends that path. Once a path is cut, it names another object: a sibling, nothing, or the directory itself. A directory path two characters short of MAX_PATH makes every entry's path `base/` (`Crawl.JoinAtLimitNamesDirectory`), so C lists the same directory again without end, until `opendir` fails. The finite `Crawl.Node` tree cannot express this; it is a defect of the C walk, and `Crawl.WalkFindsReachable` and `Crawl.PathsFitBuffer` describe the walk as if every entry were examined under its own name.
- The digest as a fixed C array and the path as a `char[MAX_PATH]` are not modelled. `strncpy` into the record is the identity, because the path already fits the buffer after `snprintf`.
