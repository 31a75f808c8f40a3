/** The bucket policy shared by the Python and Go resolvers, stated once for
    any key type. Paths are filed under their key in arrival order (Python's
    `defaultdict(list)`, Go's `map[string]fileList`), then every member of a
    bucket except the first is targeted for removal. The reference the
    policy is proved against is `Later`: walking the entries in order, the
    path of every entry whose key was already seen. Whatever order the
    buckets are visited in, the targets are `Later` up to order. */
module Buckets {
  import opened Types

  /** One (path, key) pair: a `hash_map` item in Python, a `pair` in Go. */
  datatype Entry<K> = Entry(path: string, key: K)

  function Keys<K>(e: seq<Entry<K>>): seq<K> {
    seq(|e|, i requires 0 <= i < |e| => e[i].key)
  }

  /** No two entries carry the same path. */
  predicate DistinctPaths<K>(e: seq<Entry<K>>) {
    forall a, b :: 0 <= a < b < |e| ==> e[a].path != e[b].path
  }

  /** Index `j` has an equal key at some earlier index. */
  predicate HasEarlierTwin<K(==)>(ks: seq<K>, j: nat)
    requires j < |ks|
  {
    exists i :: 0 <= i < j && ks[i] == ks[j]
  }

  /** The paths whose key is `k`, in arrival order. */
  function PathsWith<K(==)>(e: seq<Entry<K>>, k: K): seq<string> {
    if e == [] then []
    else PathsWith(e[..|e| - 1], k) + if e[|e| - 1].key == k then [e[|e| - 1].path] else []
  }

  /** The reference result: in arrival order, the path of every entry whose
      key occurred earlier. */
  function Later<K(==)>(e: seq<Entry<K>>): seq<string> {
    if e == [] then []
    else
      var n := |e| - 1;
      Later(e[..n]) + if e[n].key in Keys(e[..n]) then [e[n].path] else []
  }

  /** The distinct keys in order of first occurrence: the order in which a
      Python `dict` remembers its keys. */
  function FirstOccurrences<K(==)>(e: seq<Entry<K>>): seq<K> {
    if e == [] then []
    else
      var n := |e| - 1;
      FirstOccurrences(e[..n]) + if e[n].key in Keys(e[..n]) then [] else [e[n].key]
  }

  /** `m` files every entry of `e` under its key: a key is present exactly
      when some entry has it, and its bucket lists the paths with that key
      in arrival order. */
  ghost predicate Groups<K>(m: map<K, seq<string>>, e: seq<Entry<K>>) {
    m.Keys == (set k | k in Keys(e)) &&
    forall k :: k in m ==> m[k] == PathsWith(e, k)
  }

  /** What the bucket of `k` contributes: every path but the first, and
      nothing for a bucket of one. */
  function Tail<K(==)>(m: map<K, seq<string>>, k: K): seq<string> {
    if k in m && |m[k]| > 1 then m[k][1..] else []
  }

  /** The removal targets when the buckets are visited in the key order
      `order`. */
  function Tails<K(==)>(m: map<K, seq<string>>, order: seq<K>): seq<string> {
    if order == [] then [] else Tails(m, order[..|order| - 1]) + Tail(m, order[|order| - 1])
  }

  // ---------------------------------------------------------------------
  // The two loops of the resolver.

  /** The grouping loop (`hash_to_paths[hash_value].append(file_path)` in
      Python, `hashes[p.hash] = append(hashes[p.hash], p.path)` in Go).
      `order` is the order in which keys were first inserted, which is the
      order a Python `dict` iterates in. */
  method Group<K(==)>(e: seq<Entry<K>>) returns (m: map<K, seq<string>>, order: seq<K>)
    ensures Groups(m, e)
    ensures order == FirstOccurrences(e)
  {
    m, order := map[], [];
    var i := 0;
    while i < |e|
      invariant 0 <= i <= |e|
      invariant Groups(m, e[..i])
      invariant order == FirstOccurrences(e[..i])
    {
      var x := e[i];
      assert e[..i + 1] == e[..i] + [x];
      if x.key in m {
        GroupOld(m, e[..i], x);
        m := m[x.key := m[x.key] + [x.path]];
      } else {
        GroupNew(m, e[..i], x);
        m := m[x.key := [x.path]];
        order := order + [x.key];
      }
      i := i + 1;
    }
    assert e[..i] == e;
  }

  /** Filing an entry whose key has a bucket appends its path there. */
  lemma GroupOld<K>(m: map<K, seq<string>>, e: seq<Entry<K>>, x: Entry<K>)
    requires Groups(m, e) && x.key in m
    ensures Groups(m[x.key := m[x.key] + [x.path]], e + [x])
    ensures FirstOccurrences(e + [x]) == FirstOccurrences(e)
  {
    var m' := m[x.key := m[x.key] + [x.path]];
    assert Keys(e + [x]) == Keys(e) + [x.key];
    assert x.key in Keys(e);
    FirstOccurrencesSnoc(e, x);
    forall k | k in m' ensures m'[k] == PathsWith(e + [x], k) {
      PathsWithSnoc(e, x, k);
    }
  }

  /** Filing an entry with a new key opens a bucket holding its path, and
      the key joins the order. */
  lemma GroupNew<K>(m: map<K, seq<string>>, e: seq<Entry<K>>, x: Entry<K>)
    requires Groups(m, e) && x.key !in m
    ensures Groups(m[x.key := [x.path]], e + [x])
    ensures FirstOccurrences(e + [x]) == FirstOccurrences(e) + [x.key]
  {
    var m' := m[x.key := [x.path]];
    assert Keys(e + [x]) == Keys(e) + [x.key];
    assert x.key !in Keys(e);
    FirstOccurrencesSnoc(e, x);
    PathsWithEmpty(e, x.key);
    forall k | k in m' ensures m'[k] == PathsWith(e + [x], k) {
      PathsWithSnoc(e, x, k);
    }
  }

  /** The removal loop: for each bucket in `order`, when it holds more than
      one path, attempt to remove `paths[1:]`. */
  method RemoveAllButFirst<K(==)>(m: map<K, seq<string>>, order: seq<K>) returns (attempted: seq<string>)
    requires forall k :: k in order ==> k in m
    ensures attempted == Tails(m, order)
  {
    attempted := [];
    var b := 0;
    while b < |order|
      invariant 0 <= b <= |order|
      invariant attempted == Tails(m, order[..b])
    {
      var paths := m[order[b]];
      assert order[..b + 1][..b] == order[..b];
      if |paths| > 1 {
        var i := 1;
        ghost var start := attempted;
        while i < |paths|
          invariant 1 <= i <= |paths|
          invariant attempted == start + paths[1..i]
        {
          assert paths[1..i + 1] == paths[1..i] + [paths[i]];
          attempted := attempted + [paths[i]];
          i := i + 1;
        }
      }
      b := b + 1;
    }
    assert order[..b] == order;
  }

  // ---------------------------------------------------------------------
  // Facts about the reference functions.

  lemma PathsWithSnoc<K>(e: seq<Entry<K>>, x: Entry<K>, k: K)
    ensures PathsWith(e + [x], k) == PathsWith(e, k) + if x.key == k then [x.path] else []
  {
    assert (e + [x])[..|e|] == e;
  }

  lemma LaterSnoc<K>(e: seq<Entry<K>>, x: Entry<K>)
    ensures Later(e + [x]) == Later(e) + if x.key in Keys(e) then [x.path] else []
  {
    assert (e + [x])[..|e|] == e;
  }

  lemma FirstOccurrencesSnoc<K>(e: seq<Entry<K>>, x: Entry<K>)
    ensures FirstOccurrences(e + [x]) == FirstOccurrences(e) + if x.key in Keys(e) then [] else [x.key]
  {
    assert (e + [x])[..|e|] == e;
  }

  /** A bucket is empty exactly when no entry carries its key. */
  lemma {:induction false} PathsWithEmpty<K>(e: seq<Entry<K>>, k: K)
    ensures PathsWith(e, k) == [] <==> k !in Keys(e)
  {
    if e != [] {
      var e', x := e[..|e| - 1], e[|e| - 1];
      assert e == e' + [x];
      assert Keys(e) == Keys(e') + [x.key];
      PathsWithSnoc(e', x, k);
      PathsWithEmpty(e', k);
    }
  }

  /** A key occurs earlier exactly when it is a key of the prefix. */
  lemma EarlierTwinInPrefix<K>(e: seq<Entry<K>>, j: nat)
    requires j < |e|
    ensures HasEarlierTwin(Keys(e), j) <==> e[j].key in Keys(e[..j])
  {
    if e[j].key in Keys(e[..j]) {
      var i :| 0 <= i < j && Keys(e[..j])[i] == e[j].key;
      assert Keys(e)[i] == Keys(e)[j];
    }
    if HasEarlierTwin(Keys(e), j) {
      var i :| 0 <= i < j && Keys(e)[i] == Keys(e)[j];
      assert Keys(e[..j])[i] == e[j].key;
    }
  }

  /** Membership in the reference: `p` is targeted exactly when it is the
      path of an entry whose key occurred earlier. */
  lemma {:induction false} LaterMembers<K>(e: seq<Entry<K>>, p: string)
    ensures p in Later(e) <==> exists j :: 0 <= j < |e| && e[j].path == p && HasEarlierTwin(Keys(e), j)
  {
    if e != [] {
      var n := |e| - 1;
      var e', x := e[..n], e[n];
      assert e == e' + [x];
      LaterMembers(e', p);
      LaterSnoc(e', x);
      EarlierTwinInPrefix(e, n);
      if p in Later(e') {
        var j :| 0 <= j < |e'| && e'[j].path == p && HasEarlierTwin(Keys(e'), j);
        var i :| 0 <= i < j && Keys(e')[i] == Keys(e')[j];
        assert Keys(e)[i] == Keys(e)[j];
      }
      if exists j :: 0 <= j < |e| && e[j].path == p && HasEarlierTwin(Keys(e), j) {
        var j :| 0 <= j < |e| && e[j].path == p && HasEarlierTwin(Keys(e), j);
        if j < n {
          var i :| 0 <= i < j && Keys(e)[i] == Keys(e)[j];
          assert Keys(e')[i] == Keys(e')[j];
        }
      }
    }
  }

  /** With distinct paths, each path occurs in the reference at most once. */
  lemma {:induction false} LaterAtMostOnce<K>(e: seq<Entry<K>>, q: string)
    requires DistinctPaths(e)
    ensures multiset(Later(e))[q] <= 1
  {
    if e != [] {
      var n := |e| - 1;
      var e', x := e[..n], e[n];
      assert e == e' + [x];
      LaterAtMostOnce(e', q);
      LaterSnoc(e', x);
      LaterMembers(e', x.path);
      forall j | 0 <= j < n ensures e'[j].path != x.path {
        assert e[j].path != e[n].path;
      }
    }
  }

  /** The reference targets all entries but the first of each key. */
  lemma {:induction false} LaterCount<K>(e: seq<Entry<K>>)
    ensures |Later(e)| + |FirstOccurrences(e)| == |e|
  {
    if e != [] {
      var e', x := e[..|e| - 1], e[|e| - 1];
      assert e == e' + [x];
      LaterCount(e');
      LaterSnoc(e', x);
      FirstOccurrencesSnoc(e', x);
    }
  }

  /** The first-occurrence list names each key once, and every key. */
  lemma {:induction false} FirstOccurrencesDistinct<K>(e: seq<Entry<K>>)
    ensures NoDuplicates(FirstOccurrences(e))
    ensures forall k :: k in FirstOccurrences(e) <==> k in Keys(e)
  {
    if e != [] {
      var e', x := e[..|e| - 1], e[|e| - 1];
      assert e == e' + [x];
      assert Keys(e) == Keys(e') + [x.key];
      FirstOccurrencesDistinct(e');
      FirstOccurrencesSnoc(e', x);
    }
  }

  /** With distinct paths, a path is targeted exactly when an earlier entry
      has its key. */
  lemma TargetedIffTwin<K>(e: seq<Entry<K>>, j: nat)
    requires DistinctPaths(e) && j < |e|
    ensures e[j].path in Later(e) <==> HasEarlierTwin(Keys(e), j)
  {
    LaterMembers(e, e[j].path);
    forall j' | 0 <= j' < |e| && e[j'].path == e[j].path ensures j' == j {
    }
  }

  /** With distinct paths, the entries that are not targeted keep one path
      per key: no two untargeted entries share a key. */
  lemma SurvivorsDistinct<K>(e: seq<Entry<K>>, a: nat, b: nat)
    requires DistinctPaths(e) && a < b < |e|
    requires e[a].path !in Later(e) && e[b].path !in Later(e)
    ensures e[a].key != e[b].key
  {
    TargetedIffTwin(e, b);
    assert Keys(e)[a] == e[a].key && Keys(e)[b] == e[b].key;
  }

  /** With distinct paths, every key keeps a survivor: the earliest entry
      with that key is not targeted. */
  lemma EarliestSurvives<K>(e: seq<Entry<K>>, j: nat)
    requires DistinctPaths(e) && j < |e|
    ensures e[EarliestTwin(Keys(e), j)].path !in Later(e)
    ensures e[EarliestTwin(Keys(e), j)].key == e[j].key
  {
    var i := EarliestTwin(Keys(e), j);
    TargetedIffTwin(e, i);
    assert Keys(e)[i] == Keys(e)[j];
  }

  /** The earliest index holding the same key as index `j`. */
  function EarliestTwin<K(==)>(ks: seq<K>, j: nat): (i: nat)
    requires j < |ks|
    ensures i <= j && ks[i] == ks[j] && !HasEarlierTwin(ks, i)
    decreases j
  {
    if HasEarlierTwin(ks, j) then
      var i :| 0 <= i < j && ks[i] == ks[j];
      EarliestTwin(ks, i)
    else j
  }

  // ---------------------------------------------------------------------
  // The policy theorem.

  lemma TailsSnoc<K>(m: map<K, seq<string>>, order: seq<K>, k: K)
    ensures Tails(m, order + [k]) == Tails(m, order) + Tail(m, k)
  {
    assert (order + [k])[..|order|] == order;
  }

  /** Two bucket maps whose buckets contribute the same along `order`
      target the same paths. */
  lemma {:induction false} TailsAgree<K>(m: map<K, seq<string>>, m': map<K, seq<string>>, order: seq<K>)
    requires forall k :: k in order ==> Tail(m, k) == Tail(m', k)
    ensures Tails(m, order) == Tails(m', order)
  {
    if order != [] {
      var n := |order| - 1;
      var front, last := order[..n], order[n];
      forall k | k in front ensures Tail(m, k) == Tail(m', k) {
        assert k in order;
      }
      TailsAgree(m, m', front);
      assert Tail(m, last) == Tail(m', last);
      assert Tails(m, order) == Tails(m, front) + Tail(m, last);
      assert Tails(m', order) == Tails(m', front) + Tail(m', last);
    }
  }

  /** Buckets that contribute nothing along `order` target nothing. */
  lemma {:induction false} TailsNone<K>(m: map<K, seq<string>>, order: seq<K>)
    requires forall k :: k in order ==> Tail(m, k) == []
    ensures Tails(m, order) == []
  {
    if order != [] {
      var n := |order| - 1;
      var front, last := order[..n], order[n];
      forall k | k in front ensures Tail(m, k) == [] {
        assert k in order;
      }
      TailsNone(m, front);
      assert Tail(m, last) == [];
      assert Tails(m, order) == Tails(m, front) + Tail(m, last);
    }
  }

  /** One bucket visited once along `order` gains the path `p` at its end;
      the targets gain `p` once. */
  lemma {:induction false} TailsGrow<K>(m: map<K, seq<string>>, m': map<K, seq<string>>, order: seq<K>, k: K, p: string)
    requires NoDuplicates(order) && k in order
    requires Tail(m, k) == Tail(m', k) + [p]
    requires forall k' :: k' in order && k' != k ==> Tail(m, k') == Tail(m', k')
    ensures multiset(Tails(m, order)) == multiset(Tails(m', order)) + multiset{p}
  {
    var n := |order| - 1;
    var front, last := order[..n], order[n];
    assert order == front + [last];
    if last == k {
      TailsGrowAtLast(m, m', order, k, p);
    } else {
      assert k in front;
      assert NoDuplicates(front) by {
        forall a, b | 0 <= a < b < |front| ensures front[a] != front[b] { assert order[a] != order[b]; }
      }
      assert forall k' :: k' in front && k' != k ==> k' in order;
      TailsGrow(m, m', front, k, p);
      TailsGrowBefore(m, m', front, last, p);
    }
  }

  /** A bucket that did not grow, visited after the one that did. */
  lemma TailsGrowBefore<K>(m: map<K, seq<string>>, m': map<K, seq<string>>, front: seq<K>, last: K, p: string)
    requires multiset(Tails(m, front)) == multiset(Tails(m', front)) + multiset{p}
    requires Tail(m, last) == Tail(m', last)
    ensures multiset(Tails(m, front + [last])) == multiset(Tails(m', front + [last])) + multiset{p}
  {
    TailsSnoc(m, front, last);
    TailsSnoc(m', front, last);
  }

  /** The grown bucket is the last one visited: the buckets before it agree. */
  lemma TailsGrowAtLast<K>(m: map<K, seq<string>>, m': map<K, seq<string>>, order: seq<K>, k: K, p: string)
    requires NoDuplicates(order) && order != [] && order[|order| - 1] == k
    requires Tail(m, k) == Tail(m', k) + [p]
    requires forall k' :: k' in order && k' != k ==> Tail(m, k') == Tail(m', k')
    ensures multiset(Tails(m, order)) == multiset(Tails(m', order)) + multiset{p}
  {
    var n := |order| - 1;
    var front := order[..n];
    assert order == front + [k];
    TailsSnoc(m, front, k);
    TailsSnoc(m', front, k);
    assert k !in front by {
      forall a | 0 <= a < n ensures front[a] != k { assert order[a] != order[n]; }
    }
    assert forall k' :: k' in front ==> k' in order && k' != k;
    TailsAgree(m, m', front);
  }

  /** Taking back the last entry when its key was seen before: its bucket
      loses its last path, which is the last path of that bucket's tail. */
  lemma GroupsDropOld<K>(m: map<K, seq<string>>, e: seq<Entry<K>>, x: Entry<K>)
    requires Groups(m, e + [x]) && x.key in Keys(e)
    ensures Groups(m[x.key := PathsWith(e, x.key)], e)
    ensures Tail(m, x.key) == Tail(m[x.key := PathsWith(e, x.key)], x.key) + [x.path]
    ensures forall k :: k != x.key ==> Tail(m, k) == Tail(m[x.key := PathsWith(e, x.key)], k)
  {
    var q := PathsWith(e, x.key);
    var m' := m[x.key := q];
    assert Keys(e + [x]) == Keys(e) + [x.key];
    forall k | k in m' ensures m'[k] == PathsWith(e, k) {
      PathsWithSnoc(e, x, k);
    }
    assert Groups(m', e);
    PathsWithSnoc(e, x, x.key);
    PathsWithEmpty(e, x.key);
    assert m[x.key] == q + [x.path];
    if |q| > 1 {
      assert (q + [x.path])[1..] == q[1..] + [x.path];
    }
  }

  /** Taking back the last entry when its key is new: its bucket of one
      goes, and it contributed nothing. */
  lemma GroupsDropNew<K>(m: map<K, seq<string>>, e: seq<Entry<K>>, x: Entry<K>)
    requires Groups(m, e + [x]) && x.key !in Keys(e)
    ensures Groups(m - {x.key}, e)
    ensures forall k :: Tail(m, k) == Tail(m - {x.key}, k)
  {
    assert Keys(e + [x]) == Keys(e) + [x.key];
    forall k | k in m - {x.key} ensures m[k] == PathsWith(e, k) {
      PathsWithSnoc(e, x, k);
    }
    PathsWithSnoc(e, x, x.key);
    PathsWithEmpty(e, x.key);
    assert m[x.key] == [x.path];
  }

  /** Whatever order the buckets are visited in, as long as each key comes
      once, a grouping of `e` targets exactly the reference paths, each as
      often as the reference does. */
  lemma {:induction false} TailsMatchLater<K>(m: map<K, seq<string>>, e: seq<Entry<K>>, order: seq<K>)
    requires Groups(m, e) && NoDuplicates(order)
    requires forall k :: k in m ==> k in order
    ensures multiset(Tails(m, order)) == multiset(Later(e))
    decreases |e|
  {
    if e == [] {
      TailsNone(m, order);
    } else {
      var e', x := e[..|e| - 1], e[|e| - 1];
      assert e == e' + [x];
      LaterSnoc(e', x);
      if x.key in Keys(e') {
        GroupsDropOld(m, e', x);
        var m' := m[x.key := PathsWith(e', x.key)];
        TailsMatchLater(m', e', order);
        TailsGrow(m, m', order, x.key, x.path);
      } else {
        GroupsDropNew(m, e', x);
        TailsAgree(m, m - {x.key}, order);
        TailsMatchLater(m - {x.key}, e', order);
      }
    }
  }

  /** A duplicate-free sequence has as many distinct elements as entries. */
  lemma {:induction false} DistinctCard<T>(s: seq<T>)
    requires NoDuplicates(s)
    ensures |set x | x in s| == |s|
  {
    if s != [] {
      var s', y := s[..|s| - 1], s[|s| - 1];
      assert s == s' + [y];
      assert NoDuplicates(s') by {
        forall a, b | 0 <= a < b < |s'| ensures s'[a] != s'[b] { assert s[a] != s[b]; }
      }
      assert y !in s' by {
        forall a | 0 <= a < |s'| ensures s'[a] != y { assert s[a] != s[|s| - 1]; }
      }
      DistinctCard(s');
      assert (set x | x in s) == (set x | x in s') + {y};
    }
  }

  /** What callers rely on: the targets are, up to order, the reference
      paths, and their number is the number of entries minus the number of
      buckets (the sum over buckets of `len - 1`). */
  lemma BucketPolicy<K>(m: map<K, seq<string>>, e: seq<Entry<K>>, order: seq<K>)
    requires Groups(m, e) && NoDuplicates(order)
    requires forall k :: k in order <==> k in m
    ensures forall p :: p in Tails(m, order) <==> p in Later(e)
    ensures |Tails(m, order)| == |e| - |order|
  {
    var t := Tails(m, order);
    TailsMatchLater(m, e, order);
    assert |t| == |multiset(t)|;
    assert |Later(e)| == |multiset(Later(e))|;
    forall p ensures p in t <==> p in Later(e) {
      assert p in t <==> p in multiset(t);
      assert p in Later(e) <==> p in multiset(Later(e));
    }
    LaterCount(e);
    FirstOccurrencesDistinct(e);
    SameElementsSameLength(order, FirstOccurrences(e));
  }

  /** Two duplicate-free sequences with the same elements are equally long. */
  lemma SameElementsSameLength<T>(a: seq<T>, b: seq<T>)
    requires NoDuplicates(a) && NoDuplicates(b)
    requires forall x :: x in a <==> x in b
    ensures |a| == |b|
  {
    DistinctCard(a);
    DistinctCard(b);
    assert (set x | x in a) == (set x | x in b);
  }

  /** With distinct paths, a path is targeted exactly when an earlier entry
      has its key, and no path is targeted twice. */
  lemma BucketPolicyDistinct<K>(m: map<K, seq<string>>, e: seq<Entry<K>>, order: seq<K>)
    requires Groups(m, e) && NoDuplicates(order) && DistinctPaths(e)
    requires forall k :: k in order <==> k in m
    ensures forall j :: 0 <= j < |e| ==> (e[j].path in Tails(m, order) <==> HasEarlierTwin(Keys(e), j))
    ensures forall p :: multiset(Tails(m, order))[p] <= 1
  {
    TailsMatchLater(m, e, order);
    forall j | 0 <= j < |e| ensures e[j].path in Tails(m, order) <==> HasEarlierTwin(Keys(e), j) {
      TargetedIffTwin(e, j);
      assert e[j].path in Tails(m, order) <==> e[j].path in multiset(Tails(m, order));
    }
    forall p ensures multiset(Tails(m, order))[p] <= 1 {
      LaterAtMostOnce(e, p);
    }
  }
}
