/** The duplicate resolver of the concurrent C programs (`compareHashes`,
    `deleteDuplicates`): for every pair i < j of records whose digests
    compare equal, attempt to remove the file of record j. The records are
    only read. The targets are returned as record indices in the order the
    nested loop reaches them; the file removed for index j is the path of
    record j. */
module AllPairs {
  import opened Types
  import opened Registry
  import Buckets

  /** `memcmp` over two equally long byte strings: zero when they are
      equal, otherwise the difference of the first pair of bytes that
      differ (so its sign orders them). */
  function CompareHashes(h1: seq<Byte>, h2: seq<Byte>): (r: int)
    requires |h1| == |h2|
    ensures r == 0 <==> h1 == h2
  {
    if h1 == [] then 0
    else if h1[0] != h2[0] then h1[0] - h2[0]
    else
      assert h1 == [h1[0]] + h1[1..] && h2 == [h2[0]] + h2[1..];
      CompareHashes(h1[1..], h2[1..])
  }

  /** Swapping the arguments negates the comparison. */
  lemma {:induction false} CompareAntisymmetric(h1: seq<Byte>, h2: seq<Byte>)
    requires |h1| == |h2|
    ensures CompareHashes(h2, h1) == -CompareHashes(h1, h2)
  {
    if h1 != [] && h1[0] == h2[0] {
      CompareAntisymmetric(h1[1..], h2[1..]);
    }
  }

  /** Row `i` of the nested loop, for `j` from i+1 below `upTo`: the indices
      whose digest equals that of index `i`, increasing. */
  function Row<T(==)>(hs: seq<T>, i: nat, upTo: nat): seq<int>
    requires i < |hs| && upTo <= |hs|
  {
    if upTo <= i + 1 then []
    else Row(hs, i, upTo - 1) + if hs[i] == hs[upTo - 1] then [upTo - 1] else []
  }

  /** Rows 0..rows-1, one after another. */
  function Rows<T(==)>(hs: seq<T>, rows: nat): seq<int>
    requires rows <= |hs|
  {
    if rows == 0 then [] else Rows(hs, rows - 1) + Row(hs, rows - 1, |hs|)
  }

  /** Every removal `deleteDuplicates` attempts, in order. */
  function AllPairsTargets<T(==)>(hs: seq<T>): seq<int> {
    Rows(hs, |hs|)
  }

  /** How many indices below `below`, and below `j`, hold the digest of
      index `j`. */
  function EarlierCount<T(==)>(hs: seq<T>, j: nat, below: nat): nat
    requires j < |hs| && below <= |hs|
  {
    if below == 0 then 0
    else EarlierCount(hs, j, below - 1) + if below - 1 < j && hs[below - 1] == hs[j] then 1 else 0
  }

  /** `deleteDuplicates`: the nested loop over i < j. */
  method DeleteDuplicates(list: FileList) returns (attempted: seq<int>)
    requires list.Valid()
    ensures attempted == AllPairsTargets(Hashes(list.Records()))
  {
    ghost var hs := Hashes(list.Records());
    ghost var size := list.size;
    attempted := [];
    var i := 0;
    while i < list.size
      invariant 0 <= i <= size && |hs| == size
      invariant attempted == Rows(hs, i)
    {
      var j := i + 1;
      ghost var start := attempted;
      while j < list.size
        invariant i + 1 <= j <= size
        invariant attempted == start + Row(hs, i, j)
      {
        assert Row(hs, i, j + 1) == Row(hs, i, j) + if hs[i] == hs[j] then [j] else [];
        if CompareHashes(list.files[i].hash, list.files[j].hash) == 0 {
          attempted := attempted + [j];
        }
        j := j + 1;
      }
      assert Rows(hs, i + 1) == Rows(hs, i) + Row(hs, i, size);
      i := i + 1;
    }
  }

  /** Index `j` occurs in row `i` at most once, and exactly when it lies
      after `i`, below `upTo`, and has the same digest. */
  lemma {:induction false} RowCount<T>(hs: seq<T>, i: nat, upTo: nat, j: nat)
    requires i < |hs| && upTo <= |hs|
    ensures Count(Row(hs, i, upTo), j) == if i < j < upTo && hs[i] == hs[j] then 1 else 0
    decreases upTo
  {
    if upTo > i + 1 {
      var k := upTo - 1;
      RowCount(hs, i, k, j);
      var last: seq<int> := if hs[i] == hs[k] then [k] else [];
      CountConcat(Row(hs, i, k), last, j);
      assert Count(last, j) == if j == k && hs[i] == hs[k] then 1 else 0 by {
        if last != [] { assert last[..0] == []; }
      }
    }
  }

  /** Rows 0..rows-1 attempt index `j` once for each earlier equal digest
      among them. */
  lemma {:induction false} RowsCount<T>(hs: seq<T>, rows: nat, j: nat)
    requires rows <= |hs| && j < |hs|
    ensures Count(Rows(hs, rows), j) == EarlierCount(hs, j, rows)
  {
    if rows > 0 {
      RowsCount(hs, rows - 1, j);
      RowCount(hs, rows - 1, |hs|, j);
      CountConcat(Rows(hs, rows - 1), Row(hs, rows - 1, |hs|), j);
      assert EarlierCount(hs, j, rows) == EarlierCount(hs, j, rows - 1) + if rows - 1 < j && hs[rows - 1] == hs[j] then 1 else 0;
    }
  }

  /** Only indices after the first row's start and below the registry
      size are ever targeted. */
  lemma {:induction false} RowsInRange<T>(hs: seq<T>, rows: nat, x: int)
    requires rows <= |hs| && x in Rows(hs, rows)
    ensures 0 < x < |hs|
  {
    var r := rows - 1;
    CountPositive(Rows(hs, rows), x);
    CountConcat(Rows(hs, r), Row(hs, r, |hs|), x);
    CountPositive(Rows(hs, r), x);
    if x !in Rows(hs, r) {
      RowXInRange(hs, r, |hs|, x);
    } else {
      RowsInRange(hs, r, x);
    }
  }

  /** Row `i` holds only indices after `i` and below `upTo`. */
  lemma {:induction false} RowXInRange<T>(hs: seq<T>, i: nat, upTo: nat, x: int)
    requires i < |hs| && upTo <= |hs| && Count(Row(hs, i, upTo), x) > 0
    ensures i < x < upTo
    decreases upTo
  {
    var k := upTo - 1;
    var last: seq<int> := if hs[i] == hs[k] then [k] else [];
    CountConcat(Row(hs, i, k), last, x);
    if Count(Row(hs, i, k), x) > 0 {
      RowXInRange(hs, i, k, x);
    } else {
      assert last[..0] == [];
    }
  }

  /** The count is positive exactly when some earlier index below `below`
      has the same digest. */
  lemma {:induction false} EarlierCountPositive<T>(hs: seq<T>, j: nat, below: nat)
    requires j < |hs| && below <= |hs|
    ensures EarlierCount(hs, j, below) > 0 <==> exists i :: 0 <= i < below && i < j && hs[i] == hs[j]
  {
    if below > 0 {
      EarlierCountPositive(hs, j, below - 1);
    }
  }

  /** `deleteDuplicates` attempts to remove index `j` once for every earlier
      index with the same digest, so it targets exactly the indices that
      have an earlier twin; the lowest index of each class of equal digests
      is never targeted; and nothing outside the registry is. */
  lemma AllPairsPolicy<T>(hs: seq<T>)
    ensures forall j :: 0 <= j < |hs| ==> Count(AllPairsTargets(hs), j) == EarlierCount(hs, j, j)
    ensures forall j :: 0 <= j < |hs| ==> (j in AllPairsTargets(hs) <==> Buckets.HasEarlierTwin(hs, j))
    ensures forall x :: x in AllPairsTargets(hs) ==> 0 < x < |hs|
  {
    forall j | 0 <= j < |hs|
      ensures Count(AllPairsTargets(hs), j) == EarlierCount(hs, j, j)
      ensures j in AllPairsTargets(hs) <==> Buckets.HasEarlierTwin(hs, j)
    {
      RowsCount(hs, |hs|, j);
      EarlierCountAfter(hs, j, |hs|);
      EarlierCountPositive(hs, j, j);
      CountPositive(AllPairsTargets(hs), j);
    }
    forall x | x in AllPairsTargets(hs) ensures 0 < x < |hs| {
      RowsInRange(hs, |hs|, x);
    }
  }

  /** Indices at or after `j` never add to the count for `j`. */
  lemma {:induction false} EarlierCountAfter<T>(hs: seq<T>, j: nat, below: nat)
    requires j < |hs| && j <= below <= |hs|
    ensures EarlierCount(hs, j, below) == EarlierCount(hs, j, j)
    decreases below
  {
    if below > j {
      EarlierCountAfter(hs, j, below - 1);
    }
  }

  /** The count grows by one for each earlier twin: with two earlier
      indices of the same digest it is at least two. */
  lemma {:induction false} EarlierCountTwo<T>(hs: seq<T>, a: nat, b: nat, c: nat, below: nat)
    requires a < b < c < |hs| && below <= |hs|
    requires hs[a] == hs[c] && hs[b] == hs[c]
    ensures EarlierCount(hs, c, below) >= (if a < below then 1 else 0) + (if b < below then 1 else 0)
  {
    if below > 0 {
      EarlierCountTwo(hs, a, b, c, below - 1);
    }
  }

  /** Unlike the bucket resolvers, `deleteDuplicates` attempts the removal
      of a record more than once when its class has three or more members:
      the third member of a class is attempted at least twice. */
  lemma RepeatedAttempts<T>(hs: seq<T>, a: nat, b: nat, c: nat)
    requires a < b < c < |hs| && hs[a] == hs[b] == hs[c]
    ensures Count(AllPairsTargets(hs), c) >= 2
  {
    AllPairsPolicy(hs);
    EarlierCountTwo(hs, a, b, c, c);
  }

  /** The records as (path, digest) entries, in registry order. */
  function AsEntries(rs: seq<FileInfo>): (e: seq<Buckets.Entry<Digest>>)
    ensures |e| == |rs|
    ensures forall j :: 0 <= j < |rs| ==> e[j] == Buckets.Entry(rs[j].path, rs[j].hash)
  {
    seq(|rs|, j requires 0 <= j < |rs| => Buckets.Entry(rs[j].path, rs[j].hash))
  }

  /** The two policies remove the same files: a path is targeted by the
      all-pairs loop over the registry exactly when the bucket policy, fed
      the records in registry order, targets it. */
  lemma PoliciesAgree(rs: seq<FileInfo>, p: string)
    ensures p in Buckets.Later(AsEntries(rs)) <==>
            exists j :: 0 <= j < |rs| && j in AllPairsTargets(Hashes(rs)) && rs[j].path == p
  {
    var e, hs := AsEntries(rs), Hashes(rs);
    assert Buckets.Keys(e) == hs;
    Buckets.LaterMembers(e, p);
    AllPairsPolicy(hs);
  }
}
