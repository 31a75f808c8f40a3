/** The Python programs (`Python/Concorrente-Threads.py` and
    `Concorrente-Processos.py`). Each builds `hash_map`, a `dict` from path
    to digest, from the results of `calculate_hash`, leaving out every path
    whose digest could not be computed (`None`), and then runs
    `delete_duplicates`, which groups the paths by digest and targets all
    but the first path of every group. A `dict` remembers the order in
    which its keys were first inserted; it is modelled as a sequence of
    entries with distinct paths in that order. */
module PyDedup {
  import opened Types
  import opened Buckets

  /** What `calculate_hash` yields for one path: its digest, or `None`
      after any error while opening or reading the file. */
  datatype HashResult = HashResult(path: string, hash: Option<Digest>)

  /** The position of the key `p` in the dict, or `|d|` when it is absent. */
  function IndexOf(d: seq<Entry<Digest>>, p: string): (i: nat)
    ensures i <= |d|
    ensures i < |d| ==> d[i].path == p
    ensures i == |d| ==> forall j :: 0 <= j < |d| ==> d[j].path != p
  {
    if d == [] then 0
    else if d[0].path == p then 0
    else 1 + IndexOf(d[1..], p)
  }

  /** `hash_map[file_path] = hash_value`: a new key goes at the end; a key
      already present keeps its place and takes the new value. */
  function Put(d: seq<Entry<Digest>>, p: string, h: Digest): (r: seq<Entry<Digest>>)
    requires DistinctPaths(d)
    ensures DistinctPaths(r)
    ensures |r| == |d| || |r| == |d| + 1
    ensures forall j :: 0 <= j < |d| ==> r[j] == if d[j].path == p then Entry(p, h) else d[j]
    ensures |r| == |d| + 1 <==> forall j :: 0 <= j < |d| ==> d[j].path != p
    ensures |r| == |d| + 1 ==> r[|d|] == Entry(p, h)
  {
    var i := IndexOf(d, p);
    if i < |d| then d[i := Entry(p, h)] else d + [Entry(p, h)]
  }

  /** The successful results, in order: what `hash_map` holds when no path
      occurs twice among the results. */
  function Successes(results: seq<HashResult>): seq<Entry<Digest>> {
    if results == [] then []
    else
      var n := |results| - 1;
      Successes(results[..n]) + if results[n].hash.Some? then [Entry(results[n].path, results[n].hash.value)] else []
  }

  predicate DistinctResultPaths(results: seq<HashResult>) {
    forall a, b :: 0 <= a < b < |results| ==> results[a].path != results[b].path
  }

  /** A prefix of results with distinct paths has distinct paths. */
  lemma DistinctResultPrefix(results: seq<HashResult>, n: nat)
    requires n <= |results| && DistinctResultPaths(results)
    ensures DistinctResultPaths(results[..n])
  {
    forall a, b | 0 <= a < b < n ensures results[..n][a].path != results[..n][b].path {
      assert results[..n][a] == results[a] && results[..n][b] == results[b];
    }
  }

  /** Every entry of the dict comes from a successful result. */
  predicate FromResults(d: seq<Entry<Digest>>, results: seq<HashResult>) {
    forall j :: 0 <= j < |d| ==> HashResult(d[j].path, Some(d[j].key)) in results
  }

  /** Every successful result has its path among the dict's keys. */
  predicate HoldsSuccesses(d: seq<Entry<Digest>>, results: seq<HashResult>) {
    forall k :: 0 <= k < |results| && results[k].hash.Some? ==>
      exists j :: 0 <= j < |d| && d[j].path == results[k].path
  }

  /** An iteration that stores a digest keeps the dict's keys distinct,
      made of successful results, covering every successful result, and
      equal to the successes while no path repeats. */
  lemma StoreStep(d: seq<Entry<Digest>>, results: seq<HashResult>, r: HashResult)
    requires DistinctPaths(d) && FromResults(d, results) && HoldsSuccesses(d, results)
    requires r.hash.Some?
    ensures var d' := Put(d, r.path, r.hash.value);
      FromResults(d', results + [r]) && HoldsSuccesses(d', results + [r]) &&
      (DistinctResultPaths(results + [r]) && d == Successes(results) ==> d' == Successes(results + [r]))
  {
    var rs := results + [r];
    SuccessesSnoc(results, r);
    var d' := Put(d, r.path, r.hash.value);
    forall j | 0 <= j < |d'| ensures HashResult(d'[j].path, Some(d'[j].key)) in rs {
      if j < |d| && d[j].path != r.path {
        assert HashResult(d[j].path, Some(d[j].key)) in results;
      } else {
        assert rs[|results|] == r;
      }
    }
    forall k | 0 <= k < |rs| && rs[k].hash.Some?
      ensures exists j :: 0 <= j < |d'| && d'[j].path == rs[k].path
    {
      if k == |results| {
        PutHasKey(d, r.path, r.hash.value);
      } else {
        var j :| 0 <= j < |d| && d[j].path == results[k].path;
        assert d'[j].path == rs[k].path;
      }
    }
    if DistinctResultPaths(rs) && d == Successes(results) {
      forall j | 0 <= j < |d| ensures d[j].path != r.path {
        var k :| 0 <= k < |results| && results[k] == HashResult(d[j].path, Some(d[j].key));
        assert rs[k].path != rs[|results|].path;
      }
      assert d' == d + [Entry(r.path, r.hash.value)];
    }
  }

  /** An iteration that skips a failed result leaves the invariants intact. */
  lemma SkipStep(d: seq<Entry<Digest>>, results: seq<HashResult>, r: HashResult)
    requires FromResults(d, results) && HoldsSuccesses(d, results)
    requires r.hash.None?
    ensures FromResults(d, results + [r]) && HoldsSuccesses(d, results + [r])
    ensures d == Successes(results) ==> d == Successes(results + [r])
  {
    var rs := results + [r];
    SuccessesSnoc(results, r);
    forall j | 0 <= j < |d| ensures HashResult(d[j].path, Some(d[j].key)) in rs {
      assert HashResult(d[j].path, Some(d[j].key)) in results;
    }
    forall k | 0 <= k < |rs| && rs[k].hash.Some?
      ensures exists j :: 0 <= j < |d| && d[j].path == rs[k].path
    {
      assert rs[k] == results[k];
    }
  }

  /** After `Put`, the key is present. */
  lemma PutHasKey(d: seq<Entry<Digest>>, p: string, h: Digest)
    requires DistinctPaths(d)
    ensures exists j :: 0 <= j < |Put(d, p, h)| && Put(d, p, h)[j].path == p
  {
    var r := Put(d, p, h);
    if |r| == |d| {
      var j :| 0 <= j < |d| && d[j].path == p;
      assert r[j].path == p;
    } else {
      assert r[|d|].path == p;
    }
  }

  /** What the filling loop keeps after consuming `done`: distinct keys,
      each from a successful result, every successful result present, and,
      while no path repeats, exactly the successes in order. */
  predicate Filled(d: seq<Entry<Digest>>, done: seq<HashResult>, distinct: bool) {
    DistinctPaths(d) && FromResults(d, done) && HoldsSuccesses(d, done) &&
    (distinct ==> d == Successes(done))
  }

  /** One iteration of the filling loop keeps `Filled`. */
  lemma FillStep(d: seq<Entry<Digest>>, done: seq<HashResult>, r: HashResult, distinct: bool)
    requires Filled(d, done, distinct)
    requires distinct ==> DistinctResultPaths(done + [r])
    ensures r.hash.Some? ==> Filled(Put(d, r.path, r.hash.value), done + [r], distinct)
    ensures r.hash.None? ==> Filled(d, done + [r], distinct)
  {
    if r.hash.Some? {
      StoreStep(d, done, r);
    } else {
      SkipStep(d, done, r);
    }
  }

  /** The loop that fills `hash_map` from the results, in the order they
      are delivered, skipping those whose digest is `None`. */
  method FillHashMap(results: seq<HashResult>) returns (hashMap: seq<Entry<Digest>>)
    ensures DistinctPaths(hashMap) && FromResults(hashMap, results) && HoldsSuccesses(hashMap, results)
    ensures DistinctResultPaths(results) ==> hashMap == Successes(results)
  {
    ghost var distinct := DistinctResultPaths(results);
    hashMap := [];
    var i := 0;
    while i < |results|
      invariant 0 <= i <= |results|
      invariant Filled(hashMap, results[..i], distinct)
    {
      var r := results[i];
      ghost var done := results[..i];
      assert results[..i + 1] == done + [r];
      if distinct {
        DistinctResultPrefix(results, i + 1);
      }
      FillStep(hashMap, done, r, distinct);
      if r.hash.Some? {
        hashMap := Put(hashMap, r.path, r.hash.value);
      }
      i := i + 1;
    }
    assert results[..i] == results;
  }

  /** `delete_duplicates`: group the dict's paths by digest in insertion
      order, then target all but the first path of every group. The
      targets are, up to order, the paths whose digest occurred under an
      earlier key; each at most once; and the paths not targeted keep
      exactly one path per digest, the earliest inserted. */
  method DeleteDuplicates(hashMap: seq<Entry<Digest>>) returns (attempted: seq<string>)
    requires DistinctPaths(hashMap)
    ensures multiset(attempted) == multiset(Later(hashMap))
    ensures |attempted| == |hashMap| - |FirstOccurrences(hashMap)|
    ensures forall j :: 0 <= j < |hashMap| ==> (hashMap[j].path in attempted <==> HasEarlierTwin(Keys(hashMap), j))
    ensures forall p :: multiset(attempted)[p] <= 1
  {
    var hashToPaths, order := Group(hashMap);
    FirstOccurrencesDistinct(hashMap);
    attempted := RemoveAllButFirst(hashToPaths, order);
    TailsMatchLater(hashToPaths, hashMap, order);
    BucketPolicy(hashToPaths, hashMap, order);
    BucketPolicyDistinct(hashToPaths, hashMap, order);
  }

  /** The paths not targeted keep one path per digest: no two survivors
      share a digest, and the earliest entry of every digest survives. */
  lemma SurvivorsOnePerDigest(hashMap: seq<Entry<Digest>>, attempted: seq<string>)
    requires DistinctPaths(hashMap)
    requires forall j :: 0 <= j < |hashMap| ==> (hashMap[j].path in attempted <==> HasEarlierTwin(Keys(hashMap), j))
    ensures forall a, b :: 0 <= a < b < |hashMap| && hashMap[a].path !in attempted && hashMap[b].path !in attempted ==>
      hashMap[a].key != hashMap[b].key
    ensures forall j :: 0 <= j < |hashMap| ==> hashMap[EarliestTwin(Keys(hashMap), j)].path !in attempted
  {
    forall a, b | 0 <= a < b < |hashMap| && hashMap[a].path !in attempted && hashMap[b].path !in attempted
      ensures hashMap[a].key != hashMap[b].key
    {
      assert Keys(hashMap)[a] == hashMap[a].key;
    }
  }

  lemma SuccessesSnoc(results: seq<HashResult>, r: HashResult)
    ensures Successes(results + [r]) == Successes(results) + if r.hash.Some? then [Entry(r.path, r.hash.value)] else []
  {
    assert (results + [r])[..|results|] == results;
  }

  /** A digest is a key of the successes exactly when some result carries it. */
  lemma {:induction false} SuccessKeys(results: seq<HashResult>, v: Digest)
    ensures v in Keys(Successes(results)) <==> exists i :: 0 <= i < |results| && results[i].hash == Some(v)
  {
    if results != [] {
      var n := |results| - 1;
      var rs, r := results[..n], results[n];
      assert results == rs + [r];
      SuccessesSnoc(rs, r);
      SuccessKeys(rs, v);
      var s := Successes(rs);
      if r.hash.Some? {
        var e := Entry(r.path, r.hash.value);
        assert Keys(s + [e]) == Keys(s) + [r.hash.value];
        assert Successes(results) == s + [e];
        assert v in Keys(s + [e]) <==> v in Keys(s) || v == r.hash.value;
      } else {
        assert Successes(results) == s;
      }
      if exists i :: 0 <= i < |results| && results[i].hash == Some(v) {
        var i :| 0 <= i < |results| && results[i].hash == Some(v);
        if i < n {
          assert rs[i].hash == Some(v);
        }
      }
      if exists i :: 0 <= i < |rs| && rs[i].hash == Some(v) {
        var i :| 0 <= i < |rs| && rs[i].hash == Some(v);
        assert results[i].hash == Some(v);
      }
    }
  }

  /** Result `j` succeeded and an earlier result has the same digest. */
  predicate EarlierSameDigest(results: seq<HashResult>, j: nat)
    requires j < |results|
  {
    results[j].hash.Some? && exists i :: 0 <= i < j && results[i].hash == results[j].hash
  }

  /** The paths of the results that succeeded with a digest seen before. */
  predicate TargetedResult(results: seq<HashResult>, p: string) {
    exists j :: 0 <= j < |results| && results[j].path == p && EarlierSameDigest(results, j)
  }

  /** Appending a result: the earlier results keep their standing, and the
      new one is targeted when its digest was seen before. */
  lemma TargetedResultSnoc(rs: seq<HashResult>, r: HashResult, p: string)
    ensures TargetedResult(rs + [r], p) <==>
      TargetedResult(rs, p) || (r.path == p && r.hash.Some? && exists i :: 0 <= i < |rs| && rs[i].hash == r.hash)
  {
    var results := rs + [r];
    var n := |rs|;
    forall j | 0 <= j < n ensures EarlierSameDigest(results, j) <==> EarlierSameDigest(rs, j) {
      if EarlierSameDigest(results, j) {
        var i :| 0 <= i < j && results[i].hash == results[j].hash;
        assert rs[i].hash == rs[j].hash;
      }
      if EarlierSameDigest(rs, j) {
        var i :| 0 <= i < j && rs[i].hash == rs[j].hash;
        assert results[i].hash == results[j].hash;
      }
    }
    if EarlierSameDigest(results, n) {
      var i :| 0 <= i < n && results[i].hash == results[n].hash;
      assert rs[i].hash == r.hash;
    }
    if r.hash.Some? && exists i :: 0 <= i < |rs| && rs[i].hash == r.hash {
      var i :| 0 <= i < |rs| && rs[i].hash == r.hash;
      assert results[i].hash == results[n].hash;
    }
    if TargetedResult(results, p) {
      var j :| 0 <= j < |results| && results[j].path == p && EarlierSameDigest(results, j);
      if j < n {
        assert rs[j].path == p;
      }
    }
    if TargetedResult(rs, p) {
      var j :| 0 <= j < |rs| && rs[j].path == p && EarlierSameDigest(rs, j);
      assert results[j].path == p;
    }
  }

  /** Over the results in delivery order, the reference targets exactly
      the paths of results that succeeded with a digest some earlier
      result already had. A failed result is never targeted and causes no
      target. */
  lemma {:induction false} LaterOfSuccesses(results: seq<HashResult>, p: string)
    ensures p in Later(Successes(results)) <==> TargetedResult(results, p)
  {
    if results != [] {
      var n := |results| - 1;
      var rs, r := results[..n], results[n];
      assert results == rs + [r];
      SuccessesSnoc(rs, r);
      LaterOfSuccesses(rs, p);
      TargetedResultSnoc(rs, r, p);
      if r.hash.Some? {
        var e := Entry(r.path, r.hash.value);
        LaterSnoc(Successes(rs), e);
        SuccessKeys(rs, r.hash.value);
        var extra := if r.hash.value in Keys(Successes(rs)) then [r.path] else [];
        assert Successes(results) == Successes(rs) + [e];
        assert p in Later(Successes(rs)) + extra <==> p in Later(Successes(rs)) || p in extra;
      } else {
        assert Successes(results) == Successes(rs);
      }
    }
  }

  /** A failed result contributes nothing: dropping it leaves `hash_map`,
      and so what is deleted, unchanged. */
  lemma {:induction false} FailureIgnored(results: seq<HashResult>, k: nat)
    requires k < |results| && results[k].hash.None?
    ensures Successes(results) == Successes(results[..k] + results[k + 1..])
    decreases |results|
  {
    var n := |results| - 1;
    var rs, r := results[..n], results[n];
    assert results == rs + [r];
    SuccessesSnoc(rs, r);
    if k == n {
      assert results[..k] + results[k + 1..] == rs;
    } else {
      FailureIgnored(rs, k);
      assert results[..k] + results[k + 1..] == (rs[..k] + rs[k + 1..]) + [r];
      SuccessesSnoc(rs[..k] + rs[k + 1..], r);
    }
  }

  /** The results `calculate_hash` yields for `paths`, in that order. */
  function ResultsFor(paths: seq<string>, calculateHash: string -> Option<Digest>): (rs: seq<HashResult>)
    ensures |rs| == |paths|
    ensures forall j :: 0 <= j < |paths| ==> rs[j] == HashResult(paths[j], calculateHash(paths[j]))
  {
    seq(|paths|, j requires 0 <= j < |paths| => HashResult(paths[j], calculateHash(paths[j])))
  }

  /** With distinct paths delivered in the order `delivered`, a path is
      targeted exactly when its digest was computed and an earlier
      delivered path has the same digest. */
  lemma TargetedInDeliveryOrder(delivered: seq<string>, calculateHash: string -> Option<Digest>, hashMap: seq<Entry<Digest>>, attempted: seq<string>, j: nat)
    requires NoDuplicates(delivered) && j < |delivered|
    requires hashMap == Successes(ResultsFor(delivered, calculateHash))
    requires multiset(attempted) == multiset(Later(hashMap))
    ensures delivered[j] in attempted <==>
      calculateHash(delivered[j]).Some? && exists i :: 0 <= i < j && calculateHash(delivered[i]) == calculateHash(delivered[j])
  {
    var results := ResultsFor(delivered, calculateHash);
    LaterOfSuccesses(results, delivered[j]);
    assert delivered[j] in attempted <==> delivered[j] in multiset(attempted);
    if TargetedResult(results, delivered[j]) {
      var j' :| 0 <= j' < |results| && results[j'].path == delivered[j] && EarlierSameDigest(results, j');
      assert delivered[j'] == delivered[j];
      var i :| 0 <= i < j' && results[i].hash == results[j'].hash;
      assert calculateHash(delivered[i]) == calculateHash(delivered[j]);
    }
    if calculateHash(delivered[j]).Some? && exists i :: 0 <= i < j && calculateHash(delivered[i]) == calculateHash(delivered[j]) {
      var i :| 0 <= i < j && calculateHash(delivered[i]) == calculateHash(delivered[j]);
      assert results[i].hash == results[j].hash;
      assert EarlierSameDigest(results, j);
    }
  }

  /** `Concorrente-Processos.py`'s `main` after the listing: `pool.map`
      delivers the results in `file_list` order, `hash_map` is filled from
      them, and `delete_duplicates` runs. With the distinct paths a
      directory listing yields, the survivor of every group is the
      earliest-listed path, and a file whose digest failed is never
      targeted. */
  method RunProcesses(fileList: seq<string>, calculateHash: string -> Option<Digest>)
    returns (hashMap: seq<Entry<Digest>>, attempted: seq<string>)
    requires NoDuplicates(fileList)
    ensures hashMap == Successes(ResultsFor(fileList, calculateHash))
    ensures forall j :: 0 <= j < |fileList| ==> (fileList[j] in attempted <==>
      calculateHash(fileList[j]).Some? && exists i :: 0 <= i < j && calculateHash(fileList[i]) == calculateHash(fileList[j]))
    ensures forall p :: multiset(attempted)[p] <= 1
  {
    var results := ResultsFor(fileList, calculateHash);
    hashMap := FillHashMap(results);
    attempted := DeleteDuplicates(hashMap);
    forall j | 0 <= j < |fileList|
      ensures fileList[j] in attempted <==>
        calculateHash(fileList[j]).Some? && exists i :: 0 <= i < j && calculateHash(fileList[i]) == calculateHash(fileList[j])
    {
      TargetedInDeliveryOrder(fileList, calculateHash, hashMap, attempted, j);
    }
  }

  /** `Python/Concorrente-Threads.py`'s `main` after the listing: the
      futures complete in the order `completed`, one per listed path, and
      `hash_map` is filled in that order. The survivor of every group is
      then the path whose digest completed first. */
  method RunThreads(fileList: seq<string>, completed: seq<string>, calculateHash: string -> Option<Digest>)
    returns (hashMap: seq<Entry<Digest>>, attempted: seq<string>)
    requires NoDuplicates(fileList) && multiset(completed) == multiset(fileList)
    ensures forall p :: (exists j :: 0 <= j < |hashMap| && hashMap[j].path == p) <==>
      p in fileList && calculateHash(p).Some?
    ensures forall j :: 0 <= j < |completed| ==> (completed[j] in attempted <==>
      calculateHash(completed[j]).Some? && exists i :: 0 <= i < j && calculateHash(completed[i]) == calculateHash(completed[j]))
    ensures forall p :: multiset(attempted)[p] <= 1
  {
    PermutationNoDuplicates(fileList, completed);
    var results := ResultsFor(completed, calculateHash);
    hashMap := FillHashMap(results);
    attempted := DeleteDuplicates(hashMap);
    StoredPaths(fileList, completed, calculateHash, hashMap);
    forall j | 0 <= j < |completed|
      ensures completed[j] in attempted <==>
        calculateHash(completed[j]).Some? && exists i :: 0 <= i < j && calculateHash(completed[i]) == calculateHash(completed[j])
    {
      TargetedInDeliveryOrder(completed, calculateHash, hashMap, attempted, j);
    }
  }

  /** A reordering of a duplicate-free sequence is duplicate-free. */
  lemma PermutationNoDuplicates<T>(s: seq<T>, t: seq<T>)
    requires NoDuplicates(s) && multiset(t) == multiset(s)
    ensures NoDuplicates(t)
  {
    forall a, b | 0 <= a < b < |t| ensures t[a] != t[b] {
      if t[a] == t[b] {
        var x := t[a];
        assert multiset(t)[x] >= 2 by {
          assert t == t[..a] + [x] + t[a + 1..b] + [x] + t[b + 1..];
        }
        NoDuplicatesOnce(s, x);
        assert false;
      }
    }
  }

  /** The dict filled from the futures, whatever order they complete in,
      holds exactly the listed paths whose digest was computed. */
  lemma StoredPaths(fileList: seq<string>, completed: seq<string>, calculateHash: string -> Option<Digest>, hashMap: seq<Entry<Digest>>)
    requires multiset(completed) == multiset(fileList)
    requires FromResults(hashMap, ResultsFor(completed, calculateHash))
    requires HoldsSuccesses(hashMap, ResultsFor(completed, calculateHash))
    ensures forall p :: (exists j :: 0 <= j < |hashMap| && hashMap[j].path == p) <==>
      p in fileList && calculateHash(p).Some?
  {
    var results := ResultsFor(completed, calculateHash);
    forall p ensures (exists j :: 0 <= j < |hashMap| && hashMap[j].path == p) <==> p in fileList && calculateHash(p).Some? {
      assert p in fileList <==> p in multiset(completed);
      if exists j :: 0 <= j < |hashMap| && hashMap[j].path == p {
        var j :| 0 <= j < |hashMap| && hashMap[j].path == p;
        assert HashResult(p, Some(hashMap[j].key)) in results;
      }
      if p in fileList && calculateHash(p).Some? {
        var i :| 0 <= i < |completed| && completed[i] == p;
        assert results[i].hash.Some?;
      }
    }
  }

  /** In a duplicate-free sequence every element occurs once. */
  lemma {:induction false} NoDuplicatesOnce<T>(s: seq<T>, x: T)
    requires NoDuplicates(s)
    ensures multiset(s)[x] <= 1
  {
    if s != [] {
      var n := |s| - 1;
      assert s == s[..n] + [s[n]];
      assert NoDuplicates(s[..n]) by {
        forall a, b | 0 <= a < b < n ensures s[..n][a] != s[..n][b] { assert s[a] != s[b]; }
      }
      NoDuplicatesOnce(s[..n], x);
      if x == s[n] {
        assert x !in s[..n] by {
          forall a | 0 <= a < n ensures s[..n][a] != x { assert s[a] != s[n]; }
        }
      }
    }
  }
}
