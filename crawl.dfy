/** The sequential directory walk of `Sequencial.c` and `ConcorrenteV1.c`
    (`walkDirectory`). The file system is an abstract tree: a directory
    lists its entries in `readdir` order (the `.` and `..` entries
    included), and each entry is what `stat` reports for it. The walk skips
    `.` and `..`, forms `base/name` with `snprintf` into a MAX_PATH buffer,
    skips entries whose `stat` fails, recurses into directories on the
    spot, and appends everything else to the registry. */
module Crawl {
  import opened Types
  import opened Registry

  /** One directory entry as `stat` classifies it. `File` is anything that
      is not a directory; `Dir` records whether `opendir` succeeds on it
      and, if so, its listing. */
  datatype Node =
    | File(name: string)
    | Dir(name: string, readable: bool, children: seq<Node>)
    | Unstatable(name: string)

  /** MAX_PATH in `ConcorrenteV1.c` and `concorrente-v2.c`. */
  const MaxPathConcurrent: nat := 2032
  /** MAX_PATH in `Sequencial.c`. */
  const MaxPathSequential: nat := 1024

  predicate IsDotEntry(name: string) {
    name == "." || name == ".."
  }

  /** `s` cut to at most `n` characters. */
  function Truncate(s: string, n: nat): (t: string)
    ensures |t| <= n && t <= s
    ensures |s| <= n ==> t == s
    ensures |s| > n ==> t == s[..n]
  {
    if |s| <= n then s else s[..n]
  }

  /** `snprintf(path, maxPath, "%s/%s", base, name)`: the joined path, cut
      so that it and its terminating NUL fit the buffer. */
  function JoinPath(base: string, name: string, maxPath: nat): (p: string)
    requires maxPath > 0
    ensures |p| < maxPath
    ensures |base| + 1 + |name| < maxPath ==> p == base + "/" + name
    ensures |base| < maxPath ==> base <= p
    ensures |base| + 1 + |name| >= maxPath ==> p == (base + "/" + name)[..maxPath - 1]
  {
    Truncate(base + "/" + name, maxPath - 1)
  }

  /** A directory path two characters short of the buffer leaves no room for
      any entry name: every joined path is the directory itself plus `/`. */
  lemma JoinAtLimitNamesDirectory(base: string, name: string, maxPath: nat)
    requires |base| + 2 == maxPath
    ensures JoinPath(base, name, maxPath) == base + "/"
  {
    assert (base + "/" + name)[..maxPath - 1] == base + "/";
  }

  /** What the walk appends for the listing `es` of directory `base`, in
      order: nothing for `.`, `..`, an entry whose `stat` fails or a
      directory that does not open; everything below a directory, on the
      spot; the joined path of anything else. */
  function Entries(base: string, es: seq<Node>, maxPath: nat): seq<string>
    requires maxPath > 0
    decreases es
  {
    if es == [] then []
    else Entries(base, es[..|es| - 1], maxPath) + Visit(base, es[|es| - 1], maxPath)
  }

  /** What one entry of directory `base` contributes. */
  function Visit(base: string, e: Node, maxPath: nat): seq<string>
    requires maxPath > 0
    decreases e
  {
    if IsDotEntry(e.name) then []
    else match e
      case Unstatable(_) => []
      case File(_) => [JoinPath(base, e.name, maxPath)]
      case Dir(_, readable, children) =>
        if readable then Entries(JoinPath(base, e.name, maxPath), children, maxPath) else []
  }

  /** What `walkDirectory(base, ...)` appends for `node`: its listing if it
      is a directory that opens, nothing otherwise. */
  function Listed(base: string, node: Node, maxPath: nat): seq<string>
    requires maxPath > 0
  {
    if node.Dir? && node.readable then Entries(base, node.children, maxPath) else []
  }

  /** `walkDirectory`: the `readdir` loop. Appends to `list`, in place,
      exactly the paths `Listed` describes, and keeps every earlier record. */
  method WalkDirectory(basePath: string, dir: Node, list: FileList, maxPath: nat)
    requires list.Valid() && maxPath > 0
    modifies list, list.files
    ensures list.Valid()
    ensures Paths(list.Records()) == old(Paths(list.Records())) + Listed(basePath, dir, maxPath)
    ensures list.Records()[..old(list.size)] == old(list.Records())
    ensures list.files == old(list.files) || fresh(list.files)
    decreases dir, 2
  {
    if dir.Dir? && dir.readable {
      WalkListing(basePath, dir, list, maxPath);
    }
  }

  /** The `readdir` loop over a directory that opened. */
  method WalkListing(basePath: string, dir: Node, list: FileList, maxPath: nat)
    requires list.Valid() && maxPath > 0 && dir.Dir?
    modifies list, list.files
    ensures list.Valid()
    ensures Paths(list.Records()) == old(Paths(list.Records())) + Entries(basePath, dir.children, maxPath)
    ensures list.Records()[..old(list.size)] == old(list.Records())
    ensures list.files == old(list.files) || fresh(list.files)
    decreases dir, 1
  {
    ghost var before := list.Records();
    var i := 0;
    while i < |dir.children|
      invariant 0 <= i <= |dir.children| && list.Valid()
      invariant Paths(list.Records()) == Paths(before) + Entries(basePath, dir.children[..i], maxPath)
      invariant |before| <= list.size && list.Records()[..|before|] == before
      invariant list.files == old(list.files) || fresh(list.files)
    {
      ghost var mid := list.Records();
      VisitEntry(basePath, dir.children[i], list, maxPath);
      WalkStep(basePath, dir.children, i, maxPath, Paths(before), Paths(mid), Paths(list.Records()));
      PrefixOfPrefix(before, mid, list.Records());
      i := i + 1;
    }
    assert dir.children[..i] == dir.children;
  }

  /** One turn of the `readdir` loop extends what has been appended by the
      contribution of the next entry. */
  lemma WalkStep(base: string, es: seq<Node>, i: nat, maxPath: nat, before: seq<string>, mid: seq<string>, after: seq<string>)
    requires maxPath > 0 && i < |es|
    requires mid == before + Entries(base, es[..i], maxPath)
    requires after == mid + Visit(base, es[i], maxPath)
    ensures after == before + Entries(base, es[..i + 1], maxPath)
  {
    assert es[..i + 1][..i] == es[..i];
  }

  /** The body of the `readdir` loop for one entry: skip `.` and `..`, join
      the path, skip the entry if `stat` fails, recurse into a directory,
      append anything else. */
  method VisitEntry(basePath: string, entry: Node, list: FileList, maxPath: nat)
    requires list.Valid() && maxPath > 0
    modifies list, list.files
    ensures list.Valid()
    ensures Paths(list.Records()) == old(Paths(list.Records())) + Visit(basePath, entry, maxPath)
    ensures list.Records()[..old(list.size)] == old(list.Records())
    ensures list.files == old(list.files) || fresh(list.files)
    decreases entry, 3
  {
    if IsDotEntry(entry.name) {
      return;
    }
    var path := JoinPath(basePath, entry.name, maxPath);
    match entry {
      case Unstatable(_) =>
      case File(_) =>
        ghost var mid := list.Records();
        list.AddFile(path);
        assert list.Records() == mid + [list.Records()[|mid|]];
      case Dir(_, _, _) =>
        WalkDirectory(path, entry, list, maxPath);
    }
  }

  /** A prefix of a prefix is a prefix. */
  lemma PrefixOfPrefix<T>(a: seq<T>, b: seq<T>, c: seq<T>)
    requires |a| <= |b| <= |c| && b[..|a|] == a && c[..|b|] == b
    ensures c[..|a|] == a
  {
    assert c[..|b|][..|a|] == c[..|a|];
  }

  /** Sibling listings concatenate: everything contributed by earlier
      entries comes before everything contributed by later ones. */
  lemma {:induction false} EntriesConcat(base: string, a: seq<Node>, b: seq<Node>, maxPath: nat)
    requires maxPath > 0
    ensures Entries(base, a + b, maxPath) == Entries(base, a, maxPath) + Entries(base, b, maxPath)
    decreases |b|
  {
    if b == [] {
      assert a + b == a;
    } else {
      var b' := b[..|b| - 1];
      assert (a + b)[..|a + b| - 1] == a + b';
      assert (a + b)[|a + b| - 1] == b[|b| - 1];
      EntriesConcat(base, a, b', maxPath);
    }
  }

  /** `.` and `..` contribute nothing and do not disturb their siblings. */
  lemma DotEntrySkipped(base: string, a: seq<Node>, e: Node, b: seq<Node>, maxPath: nat)
    requires maxPath > 0 && IsDotEntry(e.name)
    ensures Entries(base, a + [e] + b, maxPath) == Entries(base, a, maxPath) + Entries(base, b, maxPath)
  {
    EntriesConcat(base, a + [e], b, maxPath);
    EntriesConcat(base, a, [e], maxPath);
  }

  /** An entry whose `stat` fails is skipped alone: the loop goes on. */
  lemma StatFailureSkipped(base: string, a: seq<Node>, name: string, b: seq<Node>, maxPath: nat)
    requires maxPath > 0
    ensures Entries(base, a + [Unstatable(name)] + b, maxPath) == Entries(base, a, maxPath) + Entries(base, b, maxPath)
  {
    EntriesConcat(base, a + [Unstatable(name)], b, maxPath);
    EntriesConcat(base, a, [Unstatable(name)], maxPath);
  }

  /** A subdirectory that does not open contributes nothing. */
  lemma UnopenableDirSkipped(base: string, a: seq<Node>, name: string, children: seq<Node>, b: seq<Node>, maxPath: nat)
    requires maxPath > 0
    ensures Entries(base, a + [Dir(name, false, children)] + b, maxPath) == Entries(base, a, maxPath) + Entries(base, b, maxPath)
  {
    EntriesConcat(base, a + [Dir(name, false, children)], b, maxPath);
    EntriesConcat(base, a, [Dir(name, false, children)], maxPath);
  }

  /** A non-directory entry appends its joined path, in listing order. */
  lemma FileAppended(base: string, a: seq<Node>, name: string, b: seq<Node>, maxPath: nat)
    requires maxPath > 0 && !IsDotEntry(name)
    ensures Entries(base, a + [File(name)] + b, maxPath)
         == Entries(base, a, maxPath) + [JoinPath(base, name, maxPath)] + Entries(base, b, maxPath)
  {
    EntriesConcat(base, a + [File(name)], b, maxPath);
    EntriesConcat(base, a, [File(name)], maxPath);
  }

  /** A directory that opens is walked depth-first on the spot: its whole
      subtree comes after the earlier siblings and before the later ones. */
  lemma DirectoryInline(base: string, a: seq<Node>, name: string, children: seq<Node>, b: seq<Node>, maxPath: nat)
    requires maxPath > 0 && !IsDotEntry(name)
    ensures Entries(base, a + [Dir(name, true, children)] + b, maxPath)
         == Entries(base, a, maxPath) + Entries(JoinPath(base, name, maxPath), children, maxPath) + Entries(base, b, maxPath)
  {
    EntriesConcat(base, a + [Dir(name, true, children)], b, maxPath);
    EntriesConcat(base, a, [Dir(name, true, children)], maxPath);
  }

  /** An independent description of the walk's result as a set: `p` is the
      joined path of a non-directory entry reached through `.`/`..`-free
      chains of directories that open. */
  ghost predicate Reaches(base: string, es: seq<Node>, p: string, maxPath: nat)
    requires maxPath > 0
    decreases es
  {
    exists i :: 0 <= i < |es| && ReachesVia(base, es[i], p, maxPath)
  }

  /** `p` is reached through the entry `e` of directory `base`. */
  ghost predicate ReachesVia(base: string, e: Node, p: string, maxPath: nat)
    requires maxPath > 0
    decreases e
  {
    !IsDotEntry(e.name) &&
    ((e.File? && p == JoinPath(base, e.name, maxPath)) ||
     (e.Dir? && e.readable && Reaches(JoinPath(base, e.name, maxPath), e.children, p, maxPath)))
  }

  /** Reaching through a listing is reaching through its front or its last
      entry. */
  lemma ReachesSnoc(base: string, es: seq<Node>, p: string, maxPath: nat)
    requires maxPath > 0 && es != []
    ensures Reaches(base, es, p, maxPath) <==>
      Reaches(base, es[..|es| - 1], p, maxPath) || ReachesVia(base, es[|es| - 1], p, maxPath)
  {
    var n := |es| - 1;
    if Reaches(base, es, p, maxPath) {
      var i :| 0 <= i < |es| && ReachesVia(base, es[i], p, maxPath);
      ReachesSplit(base, es, p, maxPath, i);
    }
    ReachesFront(base, es, p, maxPath);
    if ReachesVia(base, es[n], p, maxPath) {
      assert 0 <= n < |es| && ReachesVia(base, es[n], p, maxPath);
    }
  }

  /** A witness before the last entry is a witness in the front. */
  lemma ReachesSplit(base: string, es: seq<Node>, p: string, maxPath: nat, i: nat)
    requires maxPath > 0 && i < |es| && ReachesVia(base, es[i], p, maxPath)
    ensures Reaches(base, es[..|es| - 1], p, maxPath) || ReachesVia(base, es[|es| - 1], p, maxPath)
  {
    if i < |es| - 1 {
      assert es[..|es| - 1][i] == es[i];
    }
  }

  /** What the front reaches, the whole listing reaches. */
  lemma ReachesFront(base: string, es: seq<Node>, p: string, maxPath: nat)
    requires maxPath > 0 && es != []
    ensures Reaches(base, es[..|es| - 1], p, maxPath) ==> Reaches(base, es, p, maxPath)
  {
    var init := es[..|es| - 1];
    if Reaches(base, init, p, maxPath) {
      var i :| 0 <= i < |init| && ReachesVia(base, init[i], p, maxPath);
      assert es[i] == init[i];
    }
  }

  /** Completeness and soundness: the walk appends exactly the reachable
      files. */
  lemma {:induction false} WalkFindsReachable(base: string, es: seq<Node>, p: string, maxPath: nat)
    requires maxPath > 0
    ensures p in Entries(base, es, maxPath) <==> Reaches(base, es, p, maxPath)
    decreases es
  {
    if es != [] {
      var n := |es| - 1;
      WalkFindsReachable(base, es[..n], p, maxPath);
      VisitFindsReachable(base, es[n], p, maxPath);
      ReachesSnoc(base, es, p, maxPath);
    }
  }

  /** One entry contributes exactly the files reachable through it. */
  lemma {:induction false} VisitFindsReachable(base: string, e: Node, p: string, maxPath: nat)
    requires maxPath > 0
    ensures p in Visit(base, e, maxPath) <==> ReachesVia(base, e, p, maxPath)
    decreases e
  {
    if e.Dir? && e.readable && !IsDotEntry(e.name) {
      WalkFindsReachable(JoinPath(base, e.name, maxPath), e.children, p, maxPath);
    }
  }

  /** Every appended path fits the MAX_PATH buffer and starts with the base
      path, provided the base path itself fits. */
  lemma {:induction false} PathsFitBuffer(base: string, es: seq<Node>, maxPath: nat)
    requires maxPath > 0 && |base| < maxPath
    ensures forall p :: p in Entries(base, es, maxPath) ==> |p| < maxPath && base <= p
    decreases es
  {
    if es != [] {
      var n := |es| - 1;
      var e := es[n];
      PathsFitBuffer(base, es[..n], maxPath);
      if e.Dir? && e.readable && !IsDotEntry(e.name) {
        var sub := JoinPath(base, e.name, maxPath);
        PathsFitBuffer(sub, e.children, maxPath);
        forall p | p in Entries(sub, e.children, maxPath)
          ensures base <= p
        {
          assert base <= sub && sub <= p;
          assert p[..|base|] == sub[..|base|];
        }
      }
    }
  }
}
