/** The growable file registry of the C programs (`FileList`, `initFileList`,
    `addFile`): an array of (path, digest) records with explicit `size` and
    `capacity` fields, doubled when full. */
module Registry {
  import opened Types

  /** `FileInfo`: a path and the digest slot written by the hash phase. */
  datatype FileInfo = FileInfo(path: string, hash: Digest)

  /** The initial capacity every `main` passes to `initFileList`. */
  const InitialCapacity: nat := 10

  /** The paths of a sequence of records, in order. */
  function Paths(rs: seq<FileInfo>): (ps: seq<string>)
    ensures |ps| == |rs|
    ensures forall i :: 0 <= i < |rs| ==> ps[i] == rs[i].path
  {
    if rs == [] then [] else Paths(rs[..|rs| - 1]) + [rs[|rs| - 1].path]
  }

  /** The digests of a sequence of records, in order. */
  function Hashes(rs: seq<FileInfo>): (hs: seq<Digest>)
    ensures |hs| == |rs|
    ensures forall i :: 0 <= i < |rs| ==> hs[i] == rs[i].hash
  {
    if rs == [] then [] else Hashes(rs[..|rs| - 1]) + [rs[|rs| - 1].hash]
  }

  class FileList {
    var files: array<FileInfo>
    var size: nat
    var capacity: nat

    /** The registry invariant: the array is exactly `capacity` long, never
        empty (doubling an empty array would not make room), and the
        `size` used records fit in it. */
    ghost predicate Valid()
      reads this
    {
      files.Length == capacity && 0 < capacity && size <= capacity
    }

    /** The records in use, in insertion order. */
    function Records(): (rs: seq<FileInfo>)
      reads this, files
      requires Valid()
      ensures |rs| == size
    {
      files[..size]
    }

    /** `initFileList`: an empty list with the requested capacity. The slots
        are `malloc`ed and uninitialised in C; here they hold a blank record. */
    constructor (capacity: nat)
      requires capacity > 0
      ensures Valid() && fresh(files)
      ensures size == 0 && this.capacity == capacity
      ensures Records() == []
    {
      files := new FileInfo[capacity](_ => FileInfo("", ZeroDigest));
      size := 0;
      this.capacity := capacity;
    }

    /** `addFile`: when the list is full the capacity doubles and the
        records move to a new array (`realloc`); then the path is written at
        index `size` and `size` grows by one. The digest slot of the new
        record is left as it was, which in C is uninitialised memory. */
    method AddFile(path: string)
      requires Valid()
      modifies this, files
      ensures Valid()
      ensures size == old(size) + 1
      ensures capacity == if old(size) >= old(capacity) then 2 * old(capacity) else old(capacity)
      ensures Records()[..old(size)] == old(Records())
      ensures Records()[old(size)].path == path
      ensures old(size) < old(capacity) ==> files == old(files)
      ensures files == old(files) || fresh(files)
    {
      if size >= capacity {
        var grown := new FileInfo[2 * capacity](_ => FileInfo("", ZeroDigest));
        var i := 0;
        while i < size
          invariant 0 <= i <= size
          invariant Valid() && size == capacity && grown.Length == 2 * capacity
          invariant files == old(files) && Records() == old(Records())
          invariant forall k :: 0 <= k < i ==> grown[k] == files[k]
        {
          grown[i] := files[i];
          i := i + 1;
        }
        files := grown;
        capacity := 2 * capacity;
      }
      files[size] := FileInfo(path, files[size].hash);
      size := size + 1;
    }
  }
}
