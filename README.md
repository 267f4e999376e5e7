# dupfinder: a verified model of the grouping core

dupfinder is a command-line duplicate-file finder. It is invoked as
`dupfinder <folder1> [folder2] [--fast]`. Duplicate candidates are found in
two grouping stages:

1. `group_by_size` files every collected regular file under its recorded
   byte size.
2. `group_by_hash_partial` walks the size groups and skips every group with
   exactly one member. It files each remaining file under a hash of its
   first `min(8192, size)` bytes. `calculate_partial_hash` computes that
   hash and gives the empty string to a file it cannot open.

`main` parses the arguments. `--fast` may appear anywhere and at most two
folders are accepted. `dir1` must then be an existing directory, even when
no folder was given. `dir2` is checked only when it is non-empty.

The model is split into three modules:

- `Bucketing` (`bucketing.dfy`). The `m[key(x)].push_back(x)` loop that
  both stages run over an `unordered_map<K, vector<T>>`.
  - `GroupBy` defines that loop recursively.
  - `Bucket` and `KeySet` are an independent filter-based definition of
    the same thing.
  - Lemmas relate the two and show that grouping loses and duplicates
    nothing.
- `DupFinder` (`dupfinder.dfy`). The two grouping stages and the partial
  hash of one file.
  - The file system is a map from path to byte contents. A path missing
    from the map cannot be opened.
  - `std::hash<std::string>` followed by `std::to_string` is a function
    parameter `hash`. No lemma assumes it is injective, and only the lemma
    about empty keys assumes it is never empty.
  - `group_by_size` and the two loops of `group_by_hash_partial` are
    methods with loops. Each is proved equal to `GroupBy` of its input.
  - The iteration order of the `unordered_map` of size groups is left
    open: the method picks any remaining key and returns the order it used
    as a ghost output. Its result is exact for that order. The lemmas about
    counts and membership hold for every order.
- `Cli` (`cli.dfy`). The argument loop of `main` and the folder checks
  after it.
  - `ParseArgs` is a reference definition over the list of non-flag
    arguments.
  - The method `ParseArguments` follows the loop and is proved equal to
    `ParseArgs`.
  - Whether a path is an existing directory is a parameter `isDir`.

Where the documented behaviour and the code differ, the model follows the
code:

- `--fast` is a plain flag and takes no byte count.
- `main` checks its folders and then stops. It never calls the grouping
  functions.
- There is no full-content hash stage.

## Model

| member | source | states |
|---|---|---|
| Bucketing.Push | main.cpp:38 | `m[k].push_back(x)`: adds key `k` if it is missing, appends `x` to its bucket, and leaves every other bucket unchanged |
| Bucketing.Bucket | main.cpp:37-39 | The bucket for `k` is no longer than the input, and every element in it has key `k` |
| Bucketing.GroupBy | main.cpp:37-39 | The push_back loop as a recursive definition: each element, in input order, pushed onto the bucket of its key. There are no buckets exactly when there are no elements. `GroupByIsFilter` gives its contents |
| Bucketing.GroupByIsFilter | main.cpp:37-39 | The push_back loop creates exactly the keys that occur in the input. The bucket for `k` is the subsequence of input elements with key `k`, in input order |
| Bucketing.GetGroupBy | main.cpp:37-39 | Looking up any key, present or not, gives the filter of the input by that key |
| Bucketing.GroupByBuckets | main.cpp:37-39 | A key exists iff some element has it. No bucket is empty, and every element is in the bucket of its own key |
| Bucketing.BucketCount | main.cpp:37-39 | Each element occurs in bucket `k` as often as in the input if its key is `k`, and 0 times otherwise |
| Bucketing.BucketMembers | main.cpp:37-39 | `x` is in bucket `k` iff `x` is in the input and has key `k` |
| Bucketing.BucketConcat | main.cpp:73-84 | Grouping a concatenation gives, per key, the buckets of the two parts one after the other |
| Bucketing.BucketCommutes | main.cpp:73-84 | Filtering by two keys gives the same subsequence in either order |
| Bucketing.BucketNonEmpty | main.cpp:37-39 | A bucket is non-empty iff its key occurs in the input |
| Bucketing.GroupBySnoc | main.cpp:37-39 | One more turn of the push_back loop is one more `Push` |
| Bucketing.GroupByStep | main.cpp:77-84 | Pushing element `j` of a batch extends the grouping of what was pushed before it |
| Bucketing.ConcatCount | main.cpp:37-39 | Concatenating the buckets under distinct keys gives each element as often as the input has it when its key is listed, and 0 times otherwise |
| Bucketing.GroupByPartition | main.cpp:37-39 | Concatenating all buckets, each key once and in any order, is a permutation of the input: nothing is lost or duplicated |
| Bucketing.EnumeratesStep | main.cpp:73 | Taking one more key from the set of unvisited keys extends a duplicate-free enumeration of the keys visited so far |
| DupFinder.GroupBySize | main.cpp:34-42 | `group_by_size` equals the push_back grouping of the input by size. Its keys are exactly the sizes that occur, and each bucket holds the files of that size in input order. Buckets are well keyed and never empty, and every file is in the bucket of its size |
| DupFinder.SizeGroupsShape | main.cpp:34-42 | The size grouping of any file list has exactly the sizes that occur as keys. Each bucket is the ordered list of files of that size and is non-empty, and every file is in the bucket of its size |
| DupFinder.SizeGroupsWellKeyed | main.cpp:34-42 | Every file in the group under size `k` has size `k` |
| DupFinder.ReadPrefix | main.cpp:54-59 | Reading `n` bytes keeps exactly the first `min(n, length)` bytes of the file, which is the `gcount()` bytes of the buffer |
| DupFinder.EffectiveRequest | main.cpp:45-46 | The number of bytes asked for is always positive: a request of 0 becomes 8192, and any other request is kept |
| DupFinder.CalculatePartialHash | main.cpp:44-66 | An unopenable file gets `""`. Otherwise the key is the hash of the first `min(EffectiveRequest(request), length)` bytes |
| DupFinder.ReadLength | main.cpp:78-80 | `size_to_read` is at most 8192 and at most the recorded size, and equals one of them |
| DupFinder.PartialKey | main.cpp:78-82 | The key the hash stage gives a file, asking for `min(8192, size)` bytes. It is `""` when the file cannot be opened, and the hash of the first `min(8192, size)` bytes when the file still has its recorded size |
| DupFinder.HashedBytes | main.cpp:44-46 | The bytes hashed for a file are a prefix of it and never more than 8192. They are no more than the recorded size unless that size is 0, where a full chunk is read. They are exactly the first `min(8192, size)` bytes when the file still has its recorded size |
| DupFinder.PartialKeyOfHashedBytes | main.cpp:61-65 | The key of an openable file is the hash of its hashed bytes, so equal hashed bytes give equal keys |
| DupFinder.TailBeyondChunkIgnored | main.cpp:54-65 | Two files of at least 8192 bytes whose first 8192 bytes agree get the same key, whatever follows |
| DupFinder.AnyFilesMayShareKey | main.cpp:61-65 | Keys are only as discriminating as the hash: for any two openable files, whatever their contents, some hash gives them the same key |
| DupFinder.EmptyKeyIffUnopenable | main.cpp:49-51 | If the hash never renders as `""`, the key is `""` exactly when the file cannot be opened |
| DupFinder.GroupByHashPartial | main.cpp:70-88 | `order` lists every size key exactly once. The result is the push_back grouping by partial key of the members of the non-singleton size groups, walked in that order. Whatever the order, when every group holds files of its own size, bucket `h` holds each file as often as its group does if that group has two or more members and the file's key is `h`, and 0 times otherwise |
| DupFinder.FilePartialKeys | main.cpp:77-84 | The inner loop pushes every file of one size group, in order, onto the bucket of its partial key. It asks for `min(8192, size)` bytes of each file |
| DupFinder.Eligible | main.cpp:74-75 | The members of a size group that are hashed: the whole group, unless it has exactly one member, in which case none. The result is never a single file |
| DupFinder.Candidates | main.cpp:73-76 | The files the outer loop visits, walking the size groups in a given order and skipping singletons. Every walked group with two or more members is wholly contained in it |
| DupFinder.CandidatesSnoc | main.cpp:73-76 | Walking one more size group appends its members, or nothing if it has exactly one member |
| DupFinder.CandidatesCount | main.cpp:73-76 | A file is visited as often as its size group holds it if that group was walked and has two or more members, and never otherwise |
| DupFinder.CandidatesOfSize | main.cpp:73-84 | The visited files of size `k` are exactly the group of `k`, in order, when that group was walked and has two or more members. Otherwise there are none |
| DupFinder.PartialGroupsCount | main.cpp:70-88 | For any walking order, bucket `h` holds a file as often as its size group does when that group has two or more members and the file's key is `h`, and 0 times otherwise |
| DupFinder.PartialGroupsPartition | main.cpp:70-88 | Across all hash buckets, each member of a size group with two or more members appears as often as in that group, and no other file appears |
| DupFinder.SizeGroupOrderKept | main.cpp:73-84 | Within a hash bucket, the files of one size appear in the order of their size group |
| DupFinder.UnopenableShareEmptyBucket | main.cpp:49-51 | Every unopenable member of a size group with two or more members lands in the bucket of `""` |
| DupFinder.EqualHashedBytesShareBucket | main.cpp:77-84 | Two members of size groups with two or more members whose hashed bytes agree share a bucket |
| DupFinder.PipelineKeepsSharedSizes | main.cpp:34-88 | From the collected list through both stages: a file whose size is unique reaches no hash bucket, and a file whose size is shared appears across the hash buckets as often as in the input |
| Cli.Folders | main.cpp:102-119 | The folder arguments are the non-flag arguments. There are no more of them than arguments, and none of them is `--fast` |
| Cli.ParseArgs | main.cpp:97-119 | The reference definition of the argument loop. It is `MissingArguments` exactly when `argv` has fewer than two entries, and a parsed folder is never `--fast` |
| Cli.ParseArguments | main.cpp:97-119 | The argument loop: fewer than two `argv` entries or a third folder is a usage error. Otherwise the first two folders become `dir1` and `dir2`, each `""` when not given, and `--fast` anywhere sets fast mode |
| Cli.FoldersAppend | main.cpp:102-119 | The folders of a concatenation are the folders of each part |
| Cli.FoldersStep | main.cpp:103-118 | One loop turn adds `argv[i]` as a folder unless it is `--fast`, and records whether `--fast` was seen |
| Cli.FoldersGrow | main.cpp:114-117 | The arguments read so far name no more folders than the whole command line, so the early exit agrees with the count of all folders |
| Cli.FolderAt | main.cpp:105-118 | A non-flag argument splits the folder list around itself |
| Cli.SkipFlags | main.cpp:105-106 | Leading `--fast` flags name no folder |
| Cli.FoldersOfFlags | main.cpp:105-106 | A command line of only `--fast` flags names no folder |
| Cli.FastFlagNeverFolder | main.cpp:105-106 | Fast mode is set iff `--fast` occurs somewhere among the user arguments, and neither folder is ever `--fast` |
| Cli.FirstFolderIsDir1 | main.cpp:108-110 | The first non-flag argument becomes `dir1` |
| Cli.SecondFolderIsDir2 | main.cpp:111-113 | The second non-flag argument becomes `dir2` |
| Cli.FirstTwoFolders | main.cpp:108-113 | With only flags before them, the non-flag arguments at `i` and `j` are the first two folders |
| Cli.ThirdFolderRejected | main.cpp:114-117 | Any three non-flag arguments make the command line a usage error, whatever the folders are |
| Cli.OnlyFlagsLeaveDir1Empty | main.cpp:102-119 | A command line of only `--fast` flags parses, with fast mode and both folders empty |
| Cli.OnlyFlagsFailFolderCheck | main.cpp:121-124 | A command line of only `--fast` flags sends the empty `dir1` to the folder check. Since the empty path is no existing directory, `main` fails with `InvalidFolder("")` and exit code 1 |
| Cli.ExitCode | main.cpp:97-139 | `main`'s return value, from its `return` statements, is 0 or 1. It is 0 exactly for a started search, and 1 for the usage errors and folder errors |
| Cli.MainOutcome | main.cpp:97-139 | The reference definition of `main`'s outcome. It is a usage error exactly when the arguments do not parse, and a rejected folder is never a directory. The exit code is 0 iff parsing succeeds, `dir1` is a directory and `dir2` is empty or a directory |
| Cli.Run | main.cpp:91-140 | `main` equals `MainOutcome`: parse errors are usage errors. Then `dir1` is always checked and `dir2` only when it is non-empty, and fast mode is passed on. The exit code is 0 iff parsing succeeds, `dir1` is a directory and `dir2` is empty or a directory |

## Left out

- `collect_files` (main.cpp:18-32): the recursive directory walk and `file_size` are I/O. The collected list is the input of `GroupBySize`.
- The concrete `std::hash<std::string>` and `std::to_string`: both are the `hash` parameter. Their values are implementation-defined.
- `std::ifstream` failures other than failing to open are not modelled. A file that opens yields its bytes, and a short read keeps what was read.
- `std::filesystem::exists` and `is_directory` are the single parameter `isDir`, which is meant to be true only for an existing directory.
- Cli.Run: `isDir` is an unconstrained function, so nothing forces `isDir("")` to be false. `exists("")` is always false, so a command line of only `--fast` flags always exits 1; `OnlyFlagsFailFolderCheck` proves this with `!isDir("")` as its hypothesis.
- Cli.Run: the throwing overloads of `exists` and `is_directory` raise `filesystem_error` when the status query fails for a reason other than "not found" (a permission error on a parent directory, a name that is too long, a symbolic-link loop). Nothing in `main` catches it, so the program ends in `std::terminate`. The model has no such outcome: `Run` always ends in `UsageError`, `InvalidFolder` or `Search`.
- Console output (usage text, error messages, the mode announcement) is not modelled. `main`'s return is modelled as the `Outcome` datatype and `ExitCode`.
- DupFinder.GroupByHashPartial: the `unordered_map` iteration order is not fixed. It is returned as a ghost `order` that enumerates the size keys, and the order within each size group is kept exactly.
- DupFinder.GroupBySize: `std::uintmax_t` sizes are unbounded `nat`s. Files over 2^64 bytes cannot exist, so no wrap-around is modelled.
- DupFinder.FilePartialKeys: the inner `for` loop of `group_by_hash_partial` is its own method, called once per non-singleton size group. `size_t size_to_read` cannot overflow, since it never exceeds 8192.
- DupFinder.CalculatePartialHash: the `std::vector<char>` buffer of `bytes_to_read` bytes is not modelled, only the `gcount()` bytes that reach the hash.
- DupFinder.HashedBytes: a file recorded with size 0 is asked for 0 bytes, which becomes a full 8192-byte request. This differs from `min(8192, size)` only when the file grew after it was collected.
- Cli.Run: `argv[0]`, the program name, is only used in the usage message and is otherwise ignored.
