/** The Go programs (`Go/walk0.go` sequential, `walk1.go` with worker
    goroutines). `filepath.Walk` calls a callback for every path it meets;
    the callback keeps the regular files of positive size and turns any
    error other than `os.ErrNotExist` into the error that ends the walk.
    Each kept path is hashed, the digest rendered as lowercase hex (`%x`)
    is the bucket key, and `deleteDuplicates` targets every bucket member
    but the first, visiting the buckets in Go's unspecified map order. */
module GoDedup {
  import opened Types
  import opened Buckets
  import Hex

  /** The `err` argument of the walk callback. `NotExist` is the sentinel
      `os.ErrNotExist` itself, which the callback lets through. */
  datatype WalkError = NoError | NotExist | Failure(code: int)

  /** The parts of `os.FileInfo` the callback reads. */
  datatype FileMeta = FileMeta(regular: bool, size: int)

  /** One call of the walk callback: the path, the error, and the file
      information, which `filepath.Walk` passes as nil when `lstat` failed. */
  datatype Visit = Visit(path: string, err: WalkError, info: Option<FileMeta>)

  /** How a walk ends: with the kept paths in walk order; with the first
      error the callback returned; or in a panic, when the callback reads
      the mode of a nil `FileInfo`. */
  datatype Walked = Found(paths: seq<string>) | Aborted(err: WalkError) | Panicked

  /** How a whole program run ends. `Rejected` is the worker-count guard of
      `walk1.go`; `Fatal` is `log.Fatal` on the walk's error. */
  datatype Outcome = Rejected | Fatal(err: WalkError) | Crashed | Finished(attempted: seq<string>)

  /** The callback keeps this path: no stopping error, and a regular file
      of positive size. */
  predicate Kept(v: Visit) {
    !v.err.Failure? && v.info.Some? && v.info.value.regular && v.info.value.size > 0
  }

  /** The callback's effect on the walk so far. */
  function VisitStep(w: Walked, v: Visit): Walked {
    match w
    case Found(ps) =>
      if v.err.Failure? then Aborted(v.err)
      else if v.info.None? then Panicked
      else if v.info.value.regular && v.info.value.size > 0 then Found(ps + [v.path])
      else Found(ps)
    case _ => w
  }

  /** The reference walk: the callback applied to every visit in order. */
  function Walk(visits: seq<Visit>): Walked {
    if visits == [] then Found([])
    else VisitStep(Walk(visits[..|visits| - 1]), visits[|visits| - 1])
  }

  lemma WalkSnoc(visits: seq<Visit>, v: Visit)
    ensures Walk(visits + [v]) == VisitStep(Walk(visits), v)
  {
    assert (visits + [v])[..|visits|] == visits;
  }

  /** Once the walk has stopped, later visits change nothing. */
  lemma {:induction false} StoppedStays(visits: seq<Visit>, i: nat)
    requires i <= |visits| && !Walk(visits[..i]).Found?
    ensures Walk(visits) == Walk(visits[..i])
    decreases |visits|
  {
    if i < |visits| {
      var n := |visits| - 1;
      assert visits[..n][..i] == visits[..i];
      StoppedStays(visits[..n], i);
      assert visits == visits[..n] + [visits[n]];
      WalkSnoc(visits[..n], visits[n]);
    } else {
      assert visits[..i] == visits;
    }
  }

  /** The `filepath.Walk` call with `searchTree`'s callback, which appends
      each kept path (`walk0.go`) or sends it to the workers (`walk1.go`). */
  method SearchWalk(visits: seq<Visit>) returns (walked: Walked)
    ensures walked == Walk(visits)
  {
    var paths: seq<string> := [];
    var i := 0;
    while i < |visits|
      invariant 0 <= i <= |visits|
      invariant Walk(visits[..i]) == Found(paths)
    {
      var v := visits[i];
      assert visits[..i + 1] == visits[..i] + [v];
      WalkSnoc(visits[..i], v);
      if v.err.Failure? {
        StoppedStays(visits, i + 1);
        return Aborted(v.err);
      }
      if v.info.None? {
        StoppedStays(visits, i + 1);
        return Panicked;
      }
      if v.info.value.regular && v.info.value.size > 0 {
        paths := paths + [v.path];
      }
      i := i + 1;
    }
    assert visits[..i] == visits;
    walked := Found(paths);
  }

  /** A walk completes exactly when no visit carries a stopping error or a
      nil `FileInfo`; it then holds the kept paths and nothing else, so
      directories, special files and empty files never reach hashing. */
  lemma {:induction false} WalkKeeps(visits: seq<Visit>, p: string)
    ensures Walk(visits).Found? <==> forall i :: 0 <= i < |visits| ==> !visits[i].err.Failure? && visits[i].info.Some?
    ensures Walk(visits).Found? ==>
      (p in Walk(visits).paths <==> exists i :: 0 <= i < |visits| && visits[i].path == p && Kept(visits[i]))
  {
    if visits != [] {
      var n := |visits| - 1;
      var vs, v := visits[..n], visits[n];
      assert visits == vs + [v];
      WalkKeeps(vs, p);
      if Walk(visits).Found? {
        forall i | 0 <= i < n ensures !visits[i].err.Failure? && visits[i].info.Some? {
          assert vs[i] == visits[i];
        }
        if exists i :: 0 <= i < |visits| && visits[i].path == p && Kept(visits[i]) {
          var i :| 0 <= i < |visits| && visits[i].path == p && Kept(visits[i]);
          if i < n {
            assert vs[i].path == p;
          }
        }
        if exists i :: 0 <= i < |vs| && vs[i].path == p && Kept(vs[i]) {
          var i :| 0 <= i < |vs| && vs[i].path == p && Kept(vs[i]);
          assert visits[i].path == p;
        }
      }
    }
  }

  /** A walk that ends in error ends with the error of the first visit
      that stops it, after which nothing else is visited. */
  lemma {:induction false} WalkAbortsAtFirstError(visits: seq<Visit>)
    requires Walk(visits).Aborted?
    ensures exists i :: (0 <= i < |visits| && visits[i].err == Walk(visits).err && visits[i].err.Failure? &&
      Walk(visits[..i]).Found?)
  {
    var n := |visits| - 1;
    var vs := visits[..n];
    assert visits == vs + [visits[n]];
    if Walk(vs).Found? {
      assert visits[..n] == vs;
    } else {
      WalkAbortsAtFirstError(vs);
      var i :| 0 <= i < |vs| && vs[i].err == Walk(vs).err && vs[i].err.Failure? && Walk(vs[..i]).Found?;
      assert vs[..i] == visits[..i];
    }
  }

  /** `hashFile` for each path, in order: the pair of the path and the hex
      rendering of its digest. */
  function HexEntries(paths: seq<string>, digestOf: string -> Digest): (e: seq<Entry<string>>)
    ensures |e| == |paths|
    ensures forall j :: 0 <= j < |paths| ==> e[j] == Entry(paths[j], Hex.Encode(digestOf(paths[j])))
  {
    seq(|paths|, j requires 0 <= j < |paths| => Entry(paths[j], Hex.Encode(digestOf(paths[j]))))
  }

  /** Keying by the hex string loses nothing: a path has an earlier path
      with the same key exactly when it has one with the same digest. */
  lemma HexTwinIffDigestTwin(paths: seq<string>, digestOf: string -> Digest, j: nat)
    requires j < |paths|
    ensures HasEarlierTwin(Keys(HexEntries(paths, digestOf)), j) <==>
      exists i :: 0 <= i < j && digestOf(paths[i]) == digestOf(paths[j])
  {
    var ks := Keys(HexEntries(paths, digestOf));
    if HasEarlierTwin(ks, j) {
      var i :| 0 <= i < j && ks[i] == ks[j];
      Hex.EncodeInjective(digestOf(paths[i]), digestOf(paths[j]));
    }
    if exists i :: 0 <= i < j && digestOf(paths[i]) == digestOf(paths[j]) {
      var i :| 0 <= i < j && digestOf(paths[i]) == digestOf(paths[j]);
      assert ks[i] == ks[j];
    }
  }

  /** `walk0.go`'s `searchTree`: the walk, then `hashFile` for every kept
      path in walk order, appending each to its bucket. On a walk error it
      returns no buckets. */
  method SearchTree(visits: seq<Visit>, digestOf: string -> Digest)
    returns (walked: Walked, hashes: map<string, seq<string>>)
    ensures walked == Walk(visits)
    ensures walked.Found? ==> Groups(hashes, HexEntries(walked.paths, digestOf))
    ensures !walked.Found? ==> hashes == map[]
  {
    walked := SearchWalk(visits);
    if !walked.Found? {
      return walked, map[];
    }
    var order;
    hashes, order := Group(HexEntries(walked.paths, digestOf));
  }

  /** `deleteDuplicates`: range over the buckets in the order `order`,
      which visits every key once, and attempt to remove `files[1:]` of
      every bucket. With buckets built from the entries `e` in order, the
      targets are, up to order, the paths whose key occurred earlier;
      there are as many as the sum over buckets of `len - 1`. */
  method DeleteDuplicates(hashes: map<string, seq<string>>, order: seq<string>, ghost e: seq<Entry<string>>)
    returns (attempted: seq<string>)
    requires Groups(hashes, e)
    requires NoDuplicates(order) && forall k :: k in order <==> k in hashes
    ensures multiset(attempted) == multiset(Later(e))
    ensures |attempted| == |e| - |order|
    ensures DistinctPaths(e) ==> forall p :: multiset(attempted)[p] <= 1
  {
    attempted := RemoveAllButFirst(hashes, order);
    TailsMatchLater(hashes, e, order);
    BucketPolicy(hashes, e, order);
    if DistinctPaths(e) {
      BucketPolicyDistinct(hashes, e, order);
    }
  }

  /** The buckets, visited in `order`, delete exactly the delivered paths
      that have an earlier delivered path with the same digest. */
  lemma DeliveredPolicy(paths: seq<string>, digestOf: string -> Digest, attempted: seq<string>, p: string)
    requires multiset(attempted) == multiset(Later(HexEntries(paths, digestOf)))
    ensures p in attempted <==> exists j :: (0 <= j < |paths| && paths[j] == p &&
      exists i :: 0 <= i < j && digestOf(paths[i]) == digestOf(paths[j]))
  {
    var e := HexEntries(paths, digestOf);
    assert p in attempted <==> p in multiset(attempted);
    LaterMembers(e, p);
    forall j | 0 <= j < |paths| ensures HasEarlierTwin(Keys(e), j) <==> exists i :: 0 <= i < j && digestOf(paths[i]) == digestOf(paths[j]) {
      HexTwinIffDigestTwin(paths, digestOf, j);
    }
  }

  /** `walk0.go`'s `main` after the argument check: search, then delete,
      or `log.Fatal` on a walk error. Every later path of a digest is
      targeted and no first one is. */
  method RunSequential(visits: seq<Visit>, digestOf: string -> Digest, order: seq<string>)
    returns (outcome: Outcome)
    requires Walk(visits).Found? ==>
      NoDuplicates(order) && forall k :: k in order <==> k in Keys(HexEntries(Walk(visits).paths, digestOf))
    ensures Walk(visits).Aborted? ==> outcome == Fatal(Walk(visits).err)
    ensures Walk(visits).Panicked? ==> outcome == Crashed
    ensures Walk(visits).Found? ==> (outcome.Finished? &&
      var ps := Walk(visits).paths;
      (forall p :: p in outcome.attempted <==> exists j :: (0 <= j < |ps| && ps[j] == p &&
        exists i :: 0 <= i < j && digestOf(ps[i]) == digestOf(ps[j]))) &&
      |outcome.attempted| == |ps| - |order|)
  {
    var walked, hashes := SearchTree(visits, digestOf);
    if walked.Aborted? {
      return Fatal(walked.err);
    }
    if walked.Panicked? {
      return Crashed;
    }
    var e := HexEntries(walked.paths, digestOf);
    var attempted := DeleteDuplicates(hashes, order, e);
    forall p ensures p in attempted <==> exists j :: (0 <= j < |walked.paths| && walked.paths[j] == p &&
      exists i :: 0 <= i < j && digestOf(walked.paths[i]) == digestOf(walked.paths[j]))
    {
      DeliveredPolicy(walked.paths, digestOf, attempted, p);
    }
    outcome := Finished(attempted);
  }

  /** `walk1.go`'s `main`: `strconv.Atoi` of the worker count (`None` when
      it is not a number) is checked before anything runs; then `run` walks
      and hashes concurrently, the pairs reaching `collectHashes` in the
      order `arrival`, a permutation of the kept paths; a walk error is
      fatal; otherwise the buckets are deleted. The survivor of every
      digest is the first of its paths to arrive. */
  method RunConcurrent(visits: seq<Visit>, digestOf: string -> Digest, workers: Option<int>,
                       arrival: seq<string>, order: seq<string>)
    returns (outcome: Outcome)
    requires Walk(visits).Found? ==> multiset(arrival) == multiset(Walk(visits).paths)
    requires Walk(visits).Found? ==>
      NoDuplicates(order) && forall k :: k in order <==> k in Keys(HexEntries(arrival, digestOf))
    ensures workers.None? || workers.value <= 0 ==> outcome == Rejected
    ensures workers.Some? && workers.value > 0 ==>
      (Walk(visits).Aborted? ==> outcome == Fatal(Walk(visits).err)) &&
      (Walk(visits).Panicked? ==> outcome == Crashed) &&
      (Walk(visits).Found? ==> (outcome.Finished? &&
        (forall p :: p in outcome.attempted <==> exists j :: (0 <= j < |arrival| && arrival[j] == p &&
          exists i :: 0 <= i < j && digestOf(arrival[i]) == digestOf(arrival[j]))) &&
        |outcome.attempted| == |arrival| - |order|))
  {
    if workers.None? || workers.value <= 0 {
      return Rejected;
    }
    var walked := SearchWalk(visits);
    if walked.Aborted? {
      return Fatal(walked.err);
    }
    if walked.Panicked? {
      return Crashed;
    }
    var e := HexEntries(arrival, digestOf);
    var hashes, firstSeen := Group(e);
    var attempted := DeleteDuplicates(hashes, order, e);
    forall p ensures p in attempted <==> exists j :: (0 <= j < |arrival| && arrival[j] == p &&
      exists i :: 0 <= i < j && digestOf(arrival[i]) == digestOf(arrival[j]))
    {
      DeliveredPolicy(arrival, digestOf, attempted, p);
    }
    outcome := Finished(attempted);
  }
}
