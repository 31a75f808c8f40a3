/** The `main` functions of the three C programs: check the thread count,
    fill the registry (by the sequential walk in `ConcorrenteV1.c` and
    `Sequencial.c`; by the crawler threads in `concorrente-v2.c`), hash
    every record, print a `File:`/`Hash:` report, and, in the concurrent
    programs, run the all-pairs resolver. */
module Pipeline {
  import opened Types
  import opened Registry
  import Hex
  import Crawl
  import Hashing
  import AllPairs

  /** How a run ends: refused by the thread-count guard, or with the final
      records, the report lines and the removal targets (record indices). */
  datatype Outcome =
    | InvalidThreads
    | Completed(records: seq<FileInfo>, report: seq<string>, attempted: seq<int>)

  /** The records a run ends with: every path with its digest, in order. */
  function Registered(paths: seq<string>, digestOf: string -> Digest): (rs: seq<FileInfo>)
    ensures |rs| == |paths| && Paths(rs) == paths
    ensures forall i :: 0 <= i < |rs| ==> rs[i].hash == digestOf(rs[i].path)
  {
    var rs := seq(|paths|, i requires 0 <= i < |paths| => FileInfo(paths[i], digestOf(paths[i])));
    assert Paths(rs) == paths;
    rs
  }

  /** Hashing every record of a registry gives the records of its paths. */
  lemma AllHashedRegistered(rs: seq<FileInfo>, digestOf: string -> Digest)
    ensures Hashing.AllHashed(rs, digestOf) == Registered(Paths(rs), digestOf)
  {
  }

  /** The report: for each record, `File: <path>` and then `Hash: ` with the
      32 lowercase hex digits of the digest. */
  function ReportLines(rs: seq<FileInfo>): seq<string> {
    if rs == [] then []
    else
      var n := |rs| - 1;
      ReportLines(rs[..n]) + ["File: " + rs[n].path, "Hash: " + Hex.Encode(rs[n].hash)]
  }

  /** Two lines per record, in record order. */
  lemma {:induction false} ReportShape(rs: seq<FileInfo>)
    ensures |ReportLines(rs)| == 2 * |rs|
    ensures forall i :: 0 <= i < |rs| ==>
      ReportLines(rs)[2 * i] == "File: " + rs[i].path && ReportLines(rs)[2 * i + 1] == "Hash: " + Hex.Encode(rs[i].hash)
  {
    if rs != [] {
      var n := |rs| - 1;
      ReportShape(rs[..n]);
    }
  }

  /** The digest of every record can be read back from its `Hash:` line. */
  lemma ReportRoundTrip(rs: seq<FileInfo>, i: nat)
    requires i < |rs|
    ensures |ReportLines(rs)| == 2 * |rs|
    ensures var line := ReportLines(rs)[2 * i + 1];
      |"Hash: "| <= |line| && Hex.Decode(line[|"Hash: "|..]) == Some(rs[i].hash)
  {
    ReportShape(rs);
    var line := ReportLines(rs)[2 * i + 1];
    assert line == "Hash: " + Hex.Encode(rs[i].hash);
    assert line[|"Hash: "|..] == Hex.Encode(rs[i].hash);
    Hex.DecodeEncode(rs[i].hash);
  }

  /** The report loop: `printf("File: %s\nHash: ")` and the `%02x` loop for
      every record. */
  method Report(list: FileList) returns (lines: seq<string>)
    requires list.Valid()
    ensures lines == ReportLines(list.Records())
  {
    ghost var rs := list.Records();
    lines := [];
    var i := 0;
    while i < list.size
      invariant 0 <= i <= list.size
      invariant lines == ReportLines(rs[..i])
    {
      var hex := Hex.FormatDigest(list.files[i].hash);
      assert rs[..i + 1][..i] == rs[..i];
      lines := lines + ["File: " + list.files[i].path, "Hash: " + hex];
      i := i + 1;
    }
    assert rs[..i] == rs;
  }

  /** `deleteDuplicates` targets a record exactly when an earlier record has
      the same digest. */
  lemma TargetsAreLaterTwins(rs: seq<FileInfo>, j: nat)
    requires j < |rs|
    ensures j in AllPairs.AllPairsTargets(Hashes(rs)) <==> exists i :: 0 <= i < j && rs[i].hash == rs[j].hash
  {
    AllPairs.AllPairsPolicy(Hashes(rs));
    if exists i :: 0 <= i < j && rs[i].hash == rs[j].hash {
      var i :| 0 <= i < j && rs[i].hash == rs[j].hash;
      assert Hashes(rs)[i] == Hashes(rs)[j];
    }
  }

  /** `ConcorrenteV1.c`'s `main`: a thread count `<= 0` (including what
      `atoi` makes of a non-number) is refused before the walk; otherwise
      the registry starts with capacity 10, the walk lists the tree, the
      thread pool hashes every record, the report is printed, and the
      records with an earlier equal digest are targeted. */
  method RunV1(root: string, tree: Crawl.Node, numThreads: int, digestOf: string -> Digest)
    returns (outcome: Outcome)
    ensures numThreads <= 0 ==> outcome == InvalidThreads
    ensures numThreads > 0 ==> (outcome.Completed? &&
      outcome.records == Registered(Crawl.Listed(root, tree, Crawl.MaxPathConcurrent), digestOf) &&
      outcome.report == ReportLines(outcome.records) &&
      outcome.attempted == AllPairs.AllPairsTargets(Hashes(outcome.records)))
  {
    if numThreads <= 0 {
      return InvalidThreads;
    }
    var list := new FileList(InitialCapacity);
    Crawl.WalkDirectory(root, tree, list, Crawl.MaxPathConcurrent);
    ghost var listed := list.Records();
    assert Paths(listed) == Crawl.Listed(root, tree, Crawl.MaxPathConcurrent);
    Hashing.HashPool(list, numThreads, digestOf);
    AllHashedRegistered(listed, digestOf);
    var report := Report(list);
    var attempted := AllPairs.DeleteDuplicates(list);
    outcome := Completed(list.Records(), report, attempted);
  }

  /** `concorrente-v2.c`'s `main` after its crawl: the crawler threads call
      `addFile` once per discovered path, under the mutex, in the order
      `discovered`; then come the same pool, report and resolver as in
      `ConcorrenteV1.c`. */
  method RunV2(discovered: seq<string>, numThreads: int, digestOf: string -> Digest)
    returns (outcome: Outcome)
    ensures numThreads <= 0 ==> outcome == InvalidThreads
    ensures numThreads > 0 ==> (outcome.Completed? &&
      outcome.records == Registered(discovered, digestOf) &&
      outcome.report == ReportLines(outcome.records) &&
      outcome.attempted == AllPairs.AllPairsTargets(Hashes(outcome.records)))
  {
    if numThreads <= 0 {
      return InvalidThreads;
    }
    var list := new FileList(InitialCapacity);
    var k := 0;
    while k < |discovered|
      invariant 0 <= k <= |discovered|
      invariant list.Valid() && fresh(list) && fresh(list.files)
      invariant Paths(list.Records()) == discovered[..k]
    {
      ghost var before := list.Records();
      list.AddFile(discovered[k]);
      assert list.Records() == before + [list.Records()[k]];
      assert Paths(list.Records()) == Paths(before) + [discovered[k]];
      assert discovered[..k + 1] == discovered[..k] + [discovered[k]];
      k := k + 1;
    }
    assert discovered[..k] == discovered;
    ghost var listed := list.Records();
    Hashing.HashPool(list, numThreads, digestOf);
    AllHashedRegistered(listed, digestOf);
    var report := Report(list);
    var attempted := AllPairs.DeleteDuplicates(list);
    outcome := Completed(list.Records(), report, attempted);
  }

  /** `Sequencial.c`'s `main`: the walk with its 1024-byte buffer, hashing
      in record order, and the report; this program deletes nothing. */
  method RunSequential(root: string, tree: Crawl.Node, digestOf: string -> Digest)
    returns (outcome: Outcome)
    ensures outcome.Completed?
    ensures outcome.records == Registered(Crawl.Listed(root, tree, Crawl.MaxPathSequential), digestOf)
    ensures outcome.report == ReportLines(outcome.records)
    ensures outcome.attempted == []
  {
    var list := new FileList(InitialCapacity);
    Crawl.WalkDirectory(root, tree, list, Crawl.MaxPathSequential);
    ghost var listed := list.Records();
    assert Paths(listed) == Crawl.Listed(root, tree, Crawl.MaxPathSequential);
    Hashing.HashInOrder(list, digestOf);
    AllHashedRegistered(listed, digestOf);
    var report := Report(list);
    outcome := Completed(list.Records(), report, []);
  }
}
