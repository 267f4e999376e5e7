/**
 The duplicate finder's grouping pipeline: files are grouped by their
 recorded size, then every file of a size group with more than one member
 is filed under a hash of its first bytes (at most one 8192-byte chunk).

 The file system is a map from path to contents (a path without an entry
 cannot be opened), and `std::hash<std::string>` followed by
 `std::to_string` is the parameter `hash`, about which nothing is assumed
 except where a lemma says so.
 */
module DupFinder {
  import opened Bucketing

  newtype byte = x: int | 0 <= x < 256

  type Path = string

  /** A regular file found by the scan: its path and the size recorded when it was collected. */
  datatype FileInfo = FileInfo(fullPath: Path, size: nat)

  type SizeGroupMap = map<nat, seq<FileInfo>>

  type HashGroupMap = map<string, seq<FileInfo>>

  /** The contents of every file that can be opened, by path. */
  type Disk = map<Path, seq<byte>>

  /** The hash of a byte string, rendered as a string. */
  type Hasher = seq<byte> -> string

  /** The default and maximal number of leading bytes hashed per file. */
  const ChunkSize: nat := 8192

  function SizeOf(f: FileInfo): nat
  {
    f.size
  }

  function Min(a: nat, b: nat): nat
  {
    if a < b then a else b
  }

  // ---------------------------------------------------------------------
  // Grouping by size

  /** Every file stored under key `k` has size `k`. */
  ghost predicate WellKeyed(sgm: SizeGroupMap)
  {
    forall k :: k in sgm ==> forall i :: 0 <= i < |sgm[k]| ==> sgm[k][i].size == k
  }

  /**
   `group_by_size`: one bucket per size that occurs, holding the files of
   that size in input order; no bucket is empty and every file is filed.
   */
  method GroupBySize(allFiles: seq<FileInfo>) returns (sgm: SizeGroupMap)
    ensures sgm == GroupBy(allFiles, SizeOf)
    ensures sgm.Keys == KeySet(allFiles, SizeOf)
    ensures forall k :: k in sgm ==> sgm[k] == Bucket(allFiles, SizeOf, k)
    ensures WellKeyed(sgm)
    ensures forall k :: k in sgm ==> sgm[k] != []
    ensures forall f :: f in allFiles ==> f.size in sgm && f in sgm[f.size]
  {
    sgm := map[];
    for i := 0 to |allFiles|
      invariant sgm == GroupBy(allFiles[..i], SizeOf)
    {
      var currFile := allFiles[i];
      GroupBySnoc(allFiles[..i], SizeOf, currFile);
      assert allFiles[..i + 1] == allFiles[..i] + [currFile];
      sgm := Push(sgm, currFile.size, currFile);
    }
    assert allFiles[..|allFiles|] == allFiles;
    SizeGroupsShape(allFiles);
    SizeGroupsWellKeyed(allFiles);
  }

  /** The size grouping of any file list: the sizes that occur, each with its files in input order. */
  lemma SizeGroupsShape(files: seq<FileInfo>)
    ensures GroupBy(files, SizeOf).Keys == KeySet(files, SizeOf)
    ensures forall k :: k in GroupBy(files, SizeOf) ==> GroupBy(files, SizeOf)[k] == Bucket(files, SizeOf, k)
    ensures forall k :: k in GroupBy(files, SizeOf) ==> GroupBy(files, SizeOf)[k] != []
    ensures forall f :: f in files ==> f.size in GroupBy(files, SizeOf) && f in GroupBy(files, SizeOf)[f.size]
  {
    GroupByIsFilter(files, SizeOf);
    GroupByBuckets(files, SizeOf);
  }

  /** The size grouping of any file list is well keyed. */
  lemma SizeGroupsWellKeyed(files: seq<FileInfo>)
    ensures WellKeyed(GroupBy(files, SizeOf))
  {
    GroupByIsFilter(files, SizeOf);
    forall k | k in GroupBy(files, SizeOf)
      ensures forall i :: 0 <= i < |GroupBy(files, SizeOf)[k]| ==> GroupBy(files, SizeOf)[k][i].size == k
    {
      var b := Bucket(files, SizeOf, k);
      assert forall i :: 0 <= i < |b| ==> SizeOf(b[i]) == k;
    }
  }

  // ---------------------------------------------------------------------
  // Partial hash of one file

  /** What `read` of `n` bytes leaves in the buffer, `gcount()` bytes of it: a prefix of the file. */
  function ReadPrefix(data: seq<byte>, n: nat): (chunk: seq<byte>)
    ensures |chunk| == Min(n, |data|)
    ensures chunk == data[..|chunk|]
  {
    if n <= |data| then data[..n] else data
  }

  /** The number of bytes `calculate_partial_hash` asks for: a request of 0 stands for one chunk. */
  function EffectiveRequest(bytesToRead: nat): (n: nat)
    ensures n > 0
    ensures bytesToRead == 0 ==> n == ChunkSize
    ensures bytesToRead > 0 ==> n == bytesToRead
  {
    if bytesToRead == 0 then ChunkSize else bytesToRead
  }

  /**
   `calculate_partial_hash`: an unopenable file gets the empty key; otherwise
   the key is the hash of exactly the bytes read, the first
   min(request, length) bytes of the file.
   */
  function CalculatePartialHash(disk: Disk, hash: Hasher, filepath: Path, bytesToRead: nat): (key: string)
    ensures filepath !in disk ==> key == ""
    ensures filepath in disk ==>
              key == hash(disk[filepath][..Min(EffectiveRequest(bytesToRead), |disk[filepath]|)])
  {
    if filepath !in disk then "" else hash(ReadPrefix(disk[filepath], EffectiveRequest(bytesToRead)))
  }

  /** `size_to_read` in `group_by_hash_partial`: the recorded size, capped at one chunk. */
  function ReadLength(f: FileInfo): (n: nat)
    ensures n <= ChunkSize && n <= f.size
    ensures n == ChunkSize || n == f.size
  {
    if f.size < ChunkSize then f.size else ChunkSize
  }

  /**
   The key a file is filed under by the hash stage: empty for a file that
   cannot be opened, and the hash of its first min(8192, size) bytes for a
   file whose contents still have the recorded size.
   */
  function PartialKey(disk: Disk, hash: Hasher, f: FileInfo): (key: string)
    ensures f.fullPath !in disk ==> key == ""
    ensures f.fullPath in disk && |disk[f.fullPath]| == f.size ==>
              key == hash(disk[f.fullPath][..Min(ChunkSize, f.size)])
  {
    CalculatePartialHash(disk, hash, f.fullPath, ReadLength(f))
  }

  function PartialKeyOf(disk: Disk, hash: Hasher): FileInfo -> string
  {
    f => PartialKey(disk, hash, f)
  }

  /**
   The bytes the hash stage feeds to `hash` for an openable file: never more
   than one chunk; no more than the recorded size unless that size is 0 (a
   request of 0 becomes a full chunk); and exactly the first
   min(8192, size) bytes when the file still has its recorded size.
   */
  function HashedBytes(disk: Disk, f: FileInfo): (data: seq<byte>)
    requires f.fullPath in disk
    ensures |data| <= |disk[f.fullPath]| && data == disk[f.fullPath][..|data|]
    ensures |data| <= ChunkSize
    ensures f.size > 0 ==> |data| <= f.size
    ensures f.size == 0 ==> |data| == Min(ChunkSize, |disk[f.fullPath]|)
    ensures |disk[f.fullPath]| == f.size ==> data == disk[f.fullPath][..Min(ChunkSize, f.size)]
  {
    ReadPrefix(disk[f.fullPath], EffectiveRequest(ReadLength(f)))
  }

  /** The key of an openable file is the hash of its hashed bytes, so equal hashed bytes give equal keys. */
  lemma PartialKeyOfHashedBytes(disk: Disk, hash: Hasher, f: FileInfo, g: FileInfo)
    requires f.fullPath in disk && g.fullPath in disk
    ensures PartialKey(disk, hash, f) == hash(HashedBytes(disk, f))
    ensures HashedBytes(disk, f) == HashedBytes(disk, g) ==> PartialKey(disk, hash, f) == PartialKey(disk, hash, g)
  {
  }

  /**
   Only the first chunk matters: two files of at least a chunk, recorded and
   on disk, whose first 8192 bytes agree get the same key whatever follows.
   */
  lemma TailBeyondChunkIgnored(disk: Disk, hash: Hasher, f: FileInfo, g: FileInfo)
    requires f.fullPath in disk && g.fullPath in disk
    requires f.size >= ChunkSize && g.size >= ChunkSize
    requires |disk[f.fullPath]| >= ChunkSize && |disk[g.fullPath]| >= ChunkSize
    requires disk[f.fullPath][..ChunkSize] == disk[g.fullPath][..ChunkSize]
    ensures PartialKey(disk, hash, f) == PartialKey(disk, hash, g)
  {
    assert HashedBytes(disk, f) == disk[f.fullPath][..ChunkSize];
    assert HashedBytes(disk, g) == disk[g.fullPath][..ChunkSize];
  }

  /**
   Nothing but the hash tells keys apart: any two openable files, whatever
   their contents, share a key under some hash (a constant one).
   */
  lemma AnyFilesMayShareKey(disk: Disk, f: FileInfo, g: FileInfo)
    requires f.fullPath in disk && g.fullPath in disk
    ensures exists hash: Hasher :: PartialKey(disk, hash, f) == PartialKey(disk, hash, g)
  {
    var constant: Hasher := d => "0";
    assert PartialKey(disk, constant, f) == "0" == PartialKey(disk, constant, g);
  }

  /** `std::to_string` never produces the empty string. */
  ghost predicate NonEmptyHashes(hash: Hasher)
  {
    forall d :: hash(d) != ""
  }

  /** With such a hash, the empty key means exactly that the file could not be opened. */
  lemma EmptyKeyIffUnopenable(disk: Disk, hash: Hasher, f: FileInfo)
    requires NonEmptyHashes(hash)
    ensures PartialKey(disk, hash, f) == "" <==> f.fullPath !in disk
  {
    if f.fullPath in disk {
      assert PartialKey(disk, hash, f) == hash(HashedBytes(disk, f));
    }
  }

  // ---------------------------------------------------------------------
  // Regrouping by partial hash

  /**
   The members of a size group that take part in hashing: all of them,
   unless there is exactly one. Never a lone file.
   */
  function Eligible(group: seq<FileInfo>): (members: seq<FileInfo>)
    ensures |members| != 1
    ensures members == group || members == []
    ensures |group| >= 2 ==> members == group
  {
    if |group| == 1 then [] else group
  }

  /**
   The files the hash stage visits when it walks the size groups in the
   order `order`, skipping singleton groups.
   */
  function Candidates(sgm: SizeGroupMap, order: seq<nat>): (visited: seq<FileInfo>)
    requires forall i :: 0 <= i < |order| ==> order[i] in sgm
    ensures forall i :: 0 <= i < |order| && |sgm[order[i]]| >= 2 ==> multiset(sgm[order[i]]) <= multiset(visited)
  {
    if order == [] then []
    else Candidates(sgm, order[..|order| - 1]) + Eligible(sgm[order[|order| - 1]])
  }

  /**
   `group_by_hash_partial`. The size groups are visited in an unspecified
   order, returned as `order`; the result is the grouping, by partial key, of
   the members of the non-singleton groups in that visiting order. Whatever
   the order, when every group holds files of its own size, each bucket holds
   exactly the members of non-singleton groups that have its key.
   */
  method GroupByHashPartial(sizeGroups: SizeGroupMap, disk: Disk, hash: Hasher)
    returns (hgm: HashGroupMap, ghost order: seq<nat>)
    ensures Enumerates(order, sizeGroups.Keys)
    ensures hgm == GroupBy(Candidates(sizeGroups, order), PartialKeyOf(disk, hash))
    ensures WellKeyed(sizeGroups) ==>
              forall h, x :: multiset(Get(hgm, h))[x]
                             == if PartialKey(disk, hash, x) == h && x.size in sizeGroups && |sizeGroups[x.size]| >= 2
                                then multiset(sizeGroups[x.size])[x] else 0
  {
    hgm := map[];
    order := [];
    var remaining := sizeGroups.Keys;
    while remaining != {}
      invariant remaining <= sizeGroups.Keys
      invariant Enumerates(order, sizeGroups.Keys - remaining)
      invariant hgm == GroupBy(Candidates(sizeGroups, order), PartialKeyOf(disk, hash))
      decreases remaining
    {
      var size :| size in remaining;
      var files := sizeGroups[size];
      ghost var visited := Candidates(sizeGroups, order);
      CandidatesSnoc(sizeGroups, order, size);
      EnumeratesStep(order, sizeGroups.Keys, remaining, size);
      remaining := remaining - {size};
      order := order + [size];
      if |files| == 1 {
        assert visited + [] == visited;
        continue;
      }
      hgm := FilePartialKeys(hgm, files, disk, hash, visited);
    }
    assert sizeGroups.Keys - remaining == sizeGroups.Keys;
    if WellKeyed(sizeGroups) {
      forall h, x {
        PartialGroupsCount(sizeGroups, order, disk, hash, h, x);
      }
    }
  }

  /**
   The inner loop of `group_by_hash_partial`: push every member of one size
   group, in order, onto the bucket of its partial key, asking for
   min(8192, size) bytes of it.
   */
  method FilePartialKeys(hgm0: HashGroupMap, files: seq<FileInfo>, disk: Disk, hash: Hasher, ghost visited: seq<FileInfo>)
    returns (hgm: HashGroupMap)
    requires hgm0 == GroupBy(visited, PartialKeyOf(disk, hash))
    ensures hgm == GroupBy(visited + files, PartialKeyOf(disk, hash))
  {
    hgm := hgm0;
    assert visited + files[..0] == visited;
    for j := 0 to |files|
      invariant hgm == GroupBy(visited + files[..j], PartialKeyOf(disk, hash))
    {
      var file := files[j];
      var sizeToRead := ChunkSize;
      if file.size < sizeToRead {
        sizeToRead := file.size;
      }
      var h := CalculatePartialHash(disk, hash, file.fullPath, sizeToRead);
      assert sizeToRead == ReadLength(file);
      assert h == PartialKeyOf(disk, hash)(file);
      GroupByStep(visited, files, j, PartialKeyOf(disk, hash));
      hgm := Push(hgm, h, file);
    }
    assert files[..|files|] == files;
  }

  /** Walking one more size group visits its members after the earlier ones. */
  lemma CandidatesSnoc(sgm: SizeGroupMap, order: seq<nat>, k: nat)
    requires forall i :: 0 <= i < |order| ==> order[i] in sgm
    requires k in sgm
    ensures Candidates(sgm, order + [k]) == Candidates(sgm, order) + Eligible(sgm[k])
  {
    assert (order + [k])[..|order|] == order;
  }

  /**
   A file is visited as often as it occurs in its own size group if that
   group has two or more members and was walked, and never otherwise.
   */
  lemma {:induction false} CandidatesCount(sgm: SizeGroupMap, order: seq<nat>, x: FileInfo)
    requires WellKeyed(sgm)
    requires Distinct(order)
    requires forall i :: 0 <= i < |order| ==> order[i] in sgm
    ensures multiset(Candidates(sgm, order))[x]
            == if x.size in order && |sgm[x.size]| >= 2 then multiset(sgm[x.size])[x] else 0
    decreases |order|
  {
    if order != [] {
      var order', k := order[..|order| - 1], order[|order| - 1];
      assert order == order' + [k];
      CandidatesCount(sgm, order', x);
      assert x.size in order <==> x.size in order' || x.size == k;
      if k == x.size {
        assert x.size !in order';
      } else {
        assert x !in sgm[k];
      }
    }
  }

  /**
   Up to the order of size groups, each hash bucket is determined: it holds
   a file as often as the file's size group does when that group has two or
   more members and the file's key is the bucket's, and never otherwise.
   */
  lemma PartialGroupsCount(sgm: SizeGroupMap, order: seq<nat>, disk: Disk, hash: Hasher, h: string, x: FileInfo)
    requires WellKeyed(sgm)
    requires Enumerates(order, sgm.Keys)
    ensures multiset(Get(GroupBy(Candidates(sgm, order), PartialKeyOf(disk, hash)), h))[x]
            == if PartialKey(disk, hash, x) == h && x.size in sgm && |sgm[x.size]| >= 2
               then multiset(sgm[x.size])[x] else 0
  {
    var c := Candidates(sgm, order);
    GetGroupBy(c, PartialKeyOf(disk, hash), h);
    BucketCount(c, PartialKeyOf(disk, hash), h, x);
    CandidatesCount(sgm, order, x);
  }

  /**
   No file is lost or duplicated by the hash stage: over all hash buckets,
   each member of a size group with two or more members appears as often as
   in that group, and nothing else appears.
   */
  lemma PartialGroupsPartition(sgm: SizeGroupMap, order: seq<nat>, disk: Disk, hash: Hasher, hs: seq<string>)
    requires WellKeyed(sgm)
    requires Enumerates(order, sgm.Keys)
    requires Enumerates(hs, GroupBy(Candidates(sgm, order), PartialKeyOf(disk, hash)).Keys)
    ensures forall x :: multiset(Concat(GroupBy(Candidates(sgm, order), PartialKeyOf(disk, hash)), hs))[x]
                        == if x.size in sgm && |sgm[x.size]| >= 2 then multiset(sgm[x.size])[x] else 0
  {
    var c := Candidates(sgm, order);
    GroupByPartition(c, PartialKeyOf(disk, hash), hs);
    forall x: FileInfo ensures multiset(c)[x] == if x.size in sgm && |sgm[x.size]| >= 2 then multiset(sgm[x.size])[x] else 0 {
      CandidatesCount(sgm, order, x);
    }
  }

  /** Each file's size group, restricted to one hash key, appears in that hash bucket in its original order. */
  lemma SizeGroupOrderKept(sgm: SizeGroupMap, order: seq<nat>, disk: Disk, hash: Hasher, h: string, k: nat)
    requires WellKeyed(sgm)
    requires Enumerates(order, sgm.Keys)
    requires k in sgm && |sgm[k]| >= 2
    ensures Bucket(Get(GroupBy(Candidates(sgm, order), PartialKeyOf(disk, hash)), h), SizeOf, k)
            == Bucket(sgm[k], PartialKeyOf(disk, hash), h)
  {
    var c := Candidates(sgm, order);
    GetGroupBy(c, PartialKeyOf(disk, hash), h);
    BucketCommutes(c, PartialKeyOf(disk, hash), h, SizeOf, k);
    CandidatesOfSize(sgm, order, k);
  }

  /** The visited files of size `k` are exactly the group of `k`, if it was walked and is not a singleton. */
  lemma {:induction false} CandidatesOfSize(sgm: SizeGroupMap, order: seq<nat>, k: nat)
    requires WellKeyed(sgm)
    requires Distinct(order)
    requires forall i :: 0 <= i < |order| ==> order[i] in sgm
    ensures Bucket(Candidates(sgm, order), SizeOf, k) == if k in order then Eligible(sgm[k]) else []
    decreases |order|
  {
    if order != [] {
      var order', j := order[..|order| - 1], order[|order| - 1];
      assert order == order' + [j];
      CandidatesOfSize(sgm, order', k);
      CandidatesSnoc(sgm, order', j);
      var group := Eligible(sgm[j]);
      BucketConcat(Candidates(sgm, order'), group, SizeOf, k);
      assert forall i :: 0 <= i < |group| ==> SizeOf(group[i]) == j by {
        assert forall i :: 0 <= i < |sgm[j]| ==> sgm[j][i].size == j;
      }
      BucketUniformKey(group, SizeOf, j, k);
      assert k in order <==> k in order' || k == j;
      if k == j {
        assert k !in order';
      }
    }
  }

  /** Every unopenable member of a size group with two or more members lands in the bucket of the empty key. */
  lemma UnopenableShareEmptyBucket(sgm: SizeGroupMap, order: seq<nat>, disk: Disk, hash: Hasher, x: FileInfo)
    requires WellKeyed(sgm)
    requires Enumerates(order, sgm.Keys)
    requires x.size in sgm && x in sgm[x.size] && |sgm[x.size]| >= 2
    requires x.fullPath !in disk
    ensures "" in GroupBy(Candidates(sgm, order), PartialKeyOf(disk, hash))
    ensures x in GroupBy(Candidates(sgm, order), PartialKeyOf(disk, hash))[""]
  {
    PartialGroupsCount(sgm, order, disk, hash, "", x);
  }

  /** Files of one multi-member size group whose hashed bytes agree share a bucket. */
  lemma EqualHashedBytesShareBucket(sgm: SizeGroupMap, order: seq<nat>, disk: Disk, hash: Hasher, x: FileInfo, y: FileInfo)
    requires WellKeyed(sgm)
    requires Enumerates(order, sgm.Keys)
    requires x.size in sgm && x in sgm[x.size] && |sgm[x.size]| >= 2
    requires y.size in sgm && y in sgm[y.size] && |sgm[y.size]| >= 2
    requires x.fullPath in disk && y.fullPath in disk
    requires HashedBytes(disk, x) == HashedBytes(disk, y)
    ensures var hgm := GroupBy(Candidates(sgm, order), PartialKeyOf(disk, hash));
            exists h :: h in hgm && x in hgm[h] && y in hgm[h]
  {
    var h := PartialKey(disk, hash, x);
    PartialKeyOfHashedBytes(disk, hash, x, y);
    PartialGroupsCount(sgm, order, disk, hash, h, x);
    PartialGroupsCount(sgm, order, disk, hash, h, y);
  }

  /**
   The two stages together, from the collected file list: a file whose size
   is unique never reaches a hash bucket, and a file whose size is shared
   appears across all hash buckets exactly as often as in the input.
   */
  lemma PipelineKeepsSharedSizes(files: seq<FileInfo>, order: seq<nat>, disk: Disk, hash: Hasher, hs: seq<string>, x: FileInfo)
    requires Enumerates(order, GroupBy(files, SizeOf).Keys)
    requires Enumerates(hs, GroupBy(Candidates(GroupBy(files, SizeOf), order), PartialKeyOf(disk, hash)).Keys)
    ensures var hgm := GroupBy(Candidates(GroupBy(files, SizeOf), order), PartialKeyOf(disk, hash));
            multiset(Concat(hgm, hs))[x]
            == if |Bucket(files, SizeOf, x.size)| >= 2 then multiset(files)[x] else 0
    ensures var hgm := GroupBy(Candidates(GroupBy(files, SizeOf), order), PartialKeyOf(disk, hash));
            |Bucket(files, SizeOf, x.size)| == 1 ==> forall h :: h in hgm ==> x !in hgm[h]
  {
    var sgm := GroupBy(files, SizeOf);
    var hgm := GroupBy(Candidates(sgm, order), PartialKeyOf(disk, hash));
    SizeGroupsWellKeyed(files);
    GetGroupBy(files, SizeOf, x.size);
    BucketCount(files, SizeOf, x.size, x);
    assert multiset(Concat(hgm, hs))[x] == if x.size in sgm && |sgm[x.size]| >= 2 then multiset(sgm[x.size])[x] else 0 by {
      PartialGroupsPartition(sgm, order, disk, hash, hs);
    }
    if |Bucket(files, SizeOf, x.size)| == 1 {
      forall h | h in hgm ensures x !in hgm[h] {
        PartialGroupsCount(sgm, order, disk, hash, h, x);
        assert Get(hgm, h) == hgm[h];
      }
    }
  }
}
