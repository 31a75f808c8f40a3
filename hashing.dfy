/** The hash phase. In the concurrent C programs `hashThread` number `k`
    of `NUM_THREADS` hashes the records at indices k, k+N, k+2N, ... below
    `size`, writing each digest in place; `main` starts workers 0..N-1 and
    joins them all. Because the workers' index sets are disjoint, running
    them one after another gives the same registry as running them in
    parallel, which is how `HashPool` models the pool. `Sequencial.c`
    hashes every index in order instead (`HashInOrder`). The digest
    function itself (MD5 over the file's bytes) is the parameter
    `digestOf`. */
module Hashing {
  import opened Types
  import opened Registry

  /** Worker `k` of `n` owns index `i`: `i` is one of k, k+n, k+2n, ... */
  predicate Owns(k: nat, n: nat, i: nat)
    requires n > 0
  {
    k <= i && (i - k) % n == 0
  }

  /** The indices worker `k` visits, in the order its loop visits them. */
  function Stride(k: nat, n: nat, size: nat): seq<nat>
    requires n > 0
    decreases size - k
  {
    if k >= size then [] else [k] + Stride(k + n, n, size)
  }

  /** A positive multiple of `n` is at least `n`. */
  lemma {:induction false} MulAtLeast(n: int, d: int)
    requires n > 0 && d >= 1
    ensures n * d >= n
    decreases d
  {
    if d > 1 {
      MulAtLeast(n, d - 1);
      assert n * d == n * (d - 1) + n;
    }
  }

  /** Division facts: the quotient and remainder are unique. */
  lemma DivModUnique(x: int, n: int, q: int, r: int)
    requires n > 0 && x == n * q + r && 0 <= r < n
    ensures x % n == r && x / n == q
  {
    var q', r' := x / n, x % n;
    assert x == n * q' + r';
    if q' > q {
      MulAtLeast(n, q' - q);
    } else if q' < q {
      MulAtLeast(n, q - q');
    }
  }

  /** The index after an owned index that the same worker owns is `n`
      further on; nothing in between is owned. */
  lemma OwnsStep(k: nat, n: nat, i: nat, j: nat)
    requires n > 0 && Owns(k, n, i) && i < j
    ensures Owns(k, n, j) && j < i + n ==> false
    ensures Owns(k, n, i + n)
  {
    var q := (i - k) / n;
    assert i - k == n * q;
    DivModUnique(i + n - k, n, q + 1, 0);
    if j < i + n {
      DivModUnique(j - k, n, q, j - i);
    }
  }

  /** For a worker index below `n`, ownership is exactly "remainder mod n". */
  lemma OwnerIsRemainder(k: nat, n: nat, i: nat)
    requires k < n
    ensures Owns(k, n, i) <==> i % n == k
  {
    var q, r := i / n, i % n;
    assert i == n * q + r;
    if i % n == k {
      DivModUnique(i - k, n, q, 0);
    }
    if Owns(k, n, i) {
      var q' := (i - k) / n;
      assert i - k == n * q';
      DivModUnique(i, n, q', k);
    }
  }

  /** Worker `k` visits exactly the owned indices below `size`. */
  lemma {:induction false} StrideIndices(k: nat, n: nat, size: nat, x: nat)
    requires n > 0
    ensures x in Stride(k, n, size) <==> x < size && Owns(k, n, x)
    decreases size - k
  {
    if k < size {
      StrideIndices(k + n, n, size, x);
      assert Owns(k, n, k) by { assert k - k == 0; }
      if x != k && Owns(k, n, x) {
        OwnsStep(k, n, k, x);
        assert Owns(k + n, n, x) by {
          var q := (x - k) / n;
          assert x - k == n * q;
          assert q != 0;
          assert q >= 1 by {
            if q < 0 { MulAtLeast(n, -q); }
          }
          DivModUnique(x - (k + n), n, q - 1, 0);
        }
      }
      if x in Stride(k + n, n, size) {
        assert Owns(k + n, n, x);
        var q := (x - (k + n)) / n;
        assert x - (k + n) == n * q;
        DivModUnique(x - k, n, q + 1, 0);
      }
    }
  }

  /** A worker's visiting order is strictly increasing, so it visits no
      index twice. */
  lemma {:induction false} StrideIncreasing(k: nat, n: nat, size: nat)
    requires n > 0
    ensures forall a, b :: 0 <= a < b < |Stride(k, n, size)| ==> Stride(k, n, size)[a] < Stride(k, n, size)[b]
    ensures forall x :: x in Stride(k, n, size) ==> k <= x
    decreases size - k
  {
    if k < size {
      StrideIncreasing(k + n, n, size);
      var s, rest := Stride(k, n, size), Stride(k + n, n, size);
      assert s == [k] + rest;
      forall b | 0 < b < |s| ensures s[b] == rest[b - 1] && k < s[b] {
        assert rest[b - 1] in rest;
      }
    }
  }

  /** Two different workers never visit the same index. */
  lemma StridesDisjoint(k1: nat, k2: nat, n: nat, size: nat, x: nat)
    requires k1 < n && k2 < n && k1 != k2
    ensures !(x in Stride(k1, n, size) && x in Stride(k2, n, size))
  {
    StrideIndices(k1, n, size, x);
    StrideIndices(k2, n, size, x);
    OwnerIsRemainder(k1, n, x);
    OwnerIsRemainder(k2, n, x);
  }

  /** In a strictly increasing sequence an element occurs once. */
  lemma OnceInIncreasing(s: seq<nat>, a: nat)
    requires a < |s|
    requires forall x, y :: 0 <= x < y < |s| ==> s[x] < s[y]
    ensures multiset(s)[s[a]] == 1
  {
    var v := s[a];
    assert s == s[..a] + [v] + s[a + 1..];
    assert v !in s[..a] by {
      forall x | 0 <= x < a ensures s[..a][x] != v { assert s[..a][x] == s[x]; }
    }
    var after := s[a + 1..];
    assert v !in after by {
      forall x | 0 <= x < |after| ensures after[x] != v { assert after[x] == s[a + 1 + x]; }
    }
    assert multiset(s) == multiset(s[..a]) + multiset([v]) + multiset(after);
  }

  /** Across workers 0..n-1 every index below `size` is visited exactly
      once: by worker `i % n`, once, and by no other worker. */
  lemma VisitedExactlyOnce(n: nat, size: nat, i: nat)
    requires n > 0 && i < size
    ensures multiset(Stride(i % n, n, size))[i] == 1
    ensures forall k :: 0 <= k < n && k != i % n ==> i !in Stride(k, n, size)
  {
    var s := Stride(i % n, n, size);
    StrideIndices(i % n, n, size, i);
    OwnerIsRemainder(i % n, n, i);
    StrideIncreasing(i % n, n, size);
    var a :| 0 <= a < |s| && s[a] == i;
    OnceInIncreasing(s, a);
    forall k | 0 <= k < n && k != i % n
      ensures i !in Stride(k, n, size)
    {
      StridesDisjoint(k, i % n, n, size, i);
    }
  }

  /** A record with its digest computed. */
  function Hashed(r: FileInfo, digestOf: string -> Digest): FileInfo {
    FileInfo(r.path, digestOf(r.path))
  }

  /** The registry after worker `k` alone has run. */
  function StrideHashed(rs: seq<FileInfo>, k: nat, n: nat, digestOf: string -> Digest): (out: seq<FileInfo>)
    requires n > 0
  {
    seq(|rs|, i requires 0 <= i < |rs| => if Owns(k, n, i) then Hashed(rs[i], digestOf) else rs[i])
  }

  /** The registry after workers 0..k-1 have run. */
  function HashedBelow(rs: seq<FileInfo>, k: nat, n: nat, digestOf: string -> Digest): seq<FileInfo>
    requires n > 0
  {
    seq(|rs|, i requires 0 <= i < |rs| => if i % n < k then Hashed(rs[i], digestOf) else rs[i])
  }

  /** Every record hashed: what the hash phase must produce. */
  function AllHashed(rs: seq<FileInfo>, digestOf: string -> Digest): (out: seq<FileInfo>)
    ensures |out| == |rs|
    ensures forall i :: 0 <= i < |rs| ==> out[i].path == rs[i].path && out[i].hash == digestOf(rs[i].path)
  {
    seq(|rs|, i requires 0 <= i < |rs| => Hashed(rs[i], digestOf))
  }

  /** The registry while worker `k` stands at index `i`: the records it
      owns below `i` are hashed, the others are as they were. */
  function StrideHashedBelow(rs: seq<FileInfo>, k: nat, n: nat, i: nat, digestOf: string -> Digest): seq<FileInfo>
    requires n > 0
  {
    seq(|rs|, j requires 0 <= j < |rs| => if Owns(k, n, j) && j < i then Hashed(rs[j], digestOf) else rs[j])
  }

  /** Hashing the owned index `i` brings the worker to index `i + n`,
      because it owns nothing in between. */
  lemma StrideHashedStep(rs: seq<FileInfo>, k: nat, n: nat, i: nat, digestOf: string -> Digest)
    requires n > 0 && Owns(k, n, i) && i < |rs|
    ensures Owns(k, n, i + n)
    ensures StrideHashedBelow(rs, k, n, i, digestOf)[i := Hashed(rs[i], digestOf)] == StrideHashedBelow(rs, k, n, i + n, digestOf)
  {
    forall j | i < j < i + n ensures !Owns(k, n, j) {
      OwnsStep(k, n, i, j);
    }
    OwnsStep(k, n, i, i + n);
  }

  /** Past the last record, the worker has hashed everything it owns. */
  lemma StrideHashedDone(rs: seq<FileInfo>, k: nat, n: nat, i: nat, digestOf: string -> Digest)
    requires n > 0 && i >= |rs|
    ensures StrideHashedBelow(rs, k, n, i, digestOf) == StrideHashed(rs, k, n, digestOf)
  {
  }

  /** `hashThread`: worker `k` computes the digest of every record it owns,
      in place, and touches no other record. */
  method HashThread(list: FileList, k: nat, n: nat, digestOf: string -> Digest) returns (ghost visited: seq<nat>)
    requires list.Valid() && n > 0
    modifies list.files
    ensures list.Valid()
    ensures list.Records() == StrideHashed(old(list.Records()), k, n, digestOf)
    ensures visited == Stride(k, n, list.size)
  {
    ghost var start := list.Records();
    var i: nat := k;
    visited := [];
    assert Owns(k, n, k) by { assert k - k == 0; }
    assert start == StrideHashedBelow(start, k, n, k, digestOf);
    ghost var size := list.size;
    while i < list.size
      invariant list.Valid() && list.size == size && k <= i && Owns(k, n, i)
      invariant list.Records() == StrideHashedBelow(start, k, n, i, digestOf)
      invariant visited + Stride(i, n, size) == Stride(k, n, size)
      decreases size - i
    {
      ghost var before := list.Records();
      StrideHashedStep(start, k, n, i, digestOf);
      list.files[i] := FileInfo(list.files[i].path, digestOf(list.files[i].path));
      assert list.Records() == before[i := Hashed(start[i], digestOf)];
      ghost var rest := Stride(i + n, n, size);
      assert Stride(i, n, size) == [i] + rest;
      assert (visited + [i]) + rest == visited + ([i] + rest);
      visited := visited + [i];
      i := i + n;
    }
    StrideHashedDone(start, k, n, i, digestOf);
  }

  /** The pool of `n` workers, run one after another. Each worker rewrites
      only its own indices, so afterwards every record has its digest. */
  method HashPool(list: FileList, n: nat, digestOf: string -> Digest)
    requires list.Valid() && n > 0
    modifies list.files
    ensures list.Valid()
    ensures list.Records() == AllHashed(old(list.Records()), digestOf)
  {
    ghost var start := list.Records();
    var k := 0;
    assert list.Records() == HashedBelow(start, 0, n, digestOf);
    while k < n
      invariant 0 <= k <= n && list.Valid()
      invariant list.Records() == HashedBelow(start, k, n, digestOf)
    {
      ghost var before := list.Records();
      ghost var visited := HashThread(list, k, n, digestOf);
      forall i | 0 <= i < |start|
        ensures list.Records()[i] == HashedBelow(start, k + 1, n, digestOf)[i]
      {
        OwnerIsRemainder(k, n, i);
      }
      k := k + 1;
    }
    forall i | 0 <= i < |start|
      ensures list.Records()[i] == AllHashed(start, digestOf)[i]
    {
      assert i % n < n;
    }
  }

  /** The hash loop of `Sequencial.c`: indices 0..size-1 in order. */
  method HashInOrder(list: FileList, digestOf: string -> Digest)
    requires list.Valid()
    modifies list.files
    ensures list.Valid()
    ensures list.Records() == AllHashed(old(list.Records()), digestOf)
  {
    ghost var start := list.Records();
    var i := 0;
    while i < list.size
      invariant 0 <= i <= list.size && list.Valid()
      invariant |list.Records()| == |start|
      invariant forall j :: 0 <= j < list.size ==>
        list.files[j] == if j < i then Hashed(start[j], digestOf) else start[j]
    {
      list.files[i] := FileInfo(list.files[i].path, digestOf(list.files[i].path));
      i := i + 1;
    }
    assert list.Records() == AllHashed(start, digestOf);
  }
}
