/** The file records both nodes keep, and the part of them that travels in a FILE packet. */
module Fsys {
  import opened Wrappers
  import opened Bytes
  import CleanPaths
  import Paths

  /** A value of the File record. `sent` counts bytes sent (sender) or written (receiver). */
  datatype FileInfo = FileInfo(id: nat, name: Bytes, path: Bytes, rel: Bytes, size: nat, checksum: Bytes, sent: nat)

  /** What a FILE packet says about a file. */
  datatype FileMeta = FileMeta(id: nat, name: Bytes, size: nat, checksum: Bytes, rel: Bytes)

  datatype Link = Link(path: Bytes, target: Bytes)

  function Meta(f: FileInfo): FileMeta {
    FileMeta(f.id, f.name, f.size, f.checksum, f.rel)
  }

  /** A symlink as SetRelativePaths leaves it: both its paths relative to the base; None is filepath.Rel's error. */
  function RelativeLink(base: Bytes, l: Link): Option<Link> {
    var target :- CleanPaths.Rel(base, l.target);
    Some(Link(Paths.Rel(base, l.path), target))
  }

  /** The File record itself, shared by reference and updated in place. */
  class File {
    var id: nat
    var name: Bytes
    var path: Bytes
    var rel: Bytes
    var size: nat
    var checksum: Bytes
    var sent: nat

    constructor (f: FileInfo)
      ensures View() == f
    {
      id, name, path, rel, size, checksum, sent := f.id, f.name, f.path, f.rel, f.size, f.checksum, f.sent;
    }

    function View(): FileInfo
      reads this
    {
      FileInfo(id, name, path, rel, size, checksum, sent)
    }
  }

  function Views(files: seq<File>): (v: seq<FileInfo>)
    reads files
    ensures |v| == |files|
    ensures forall k | 0 <= k < |files| :: v[k] == files[k].View()
  {
    seq(|files|, k requires 0 <= k < |files| reads files => files[k].View())
  }

  predicate Differ(files: seq<File>, i: nat, j: nat)
    requires i < |files| && j < |files|
  {
    files[i] != files[j]
  }

  /** No two entries are the same record. */
  ghost predicate Distinct(files: seq<File>) {
    forall i, j | 0 <= i < j < |files| :: Differ(files, i, j)
  }

  predicate IdsDiffer(files: seq<FileInfo>, i: nat, j: nat)
    requires i < |files| && j < |files|
  {
    files[i].id != files[j].id
  }

  ghost predicate DistinctIds(files: seq<FileInfo>) {
    forall i, j | 0 <= i < j < |files| :: IdsDiffer(files, i, j)
  }

  lemma OthersDiffer(files: seq<File>, i: nat)
    requires Distinct(files) && i < |files|
    ensures forall k | 0 <= k < |files| && k != i :: files[k] != files[i]
  {
    forall k | 0 <= k < |files| && k != i
      ensures files[k] != files[i]
    {
      assert if k < i then Differ(files, k, i) else Differ(files, i, k);
    }
  }

  lemma OtherIdsDiffer(files: seq<FileInfo>, i: nat)
    requires DistinctIds(files) && i < |files|
    ensures forall k | 0 <= k < |files| && k != i :: files[k].id != files[i].id
  {
    forall k | 0 <= k < |files| && k != i
      ensures files[k].id != files[i].id
    {
      assert if k < i then IdsDiffer(files, k, i) else IdsDiffer(files, i, k);
    }
  }

  function RemoveAt<T>(s: seq<T>, i: nat): seq<T>
    requires i < |s|
  {
    s[..i] + s[i + 1..]
  }

  lemma RemovalKeepsDistinct(files: seq<FileInfo>, i: nat)
    requires DistinctIds(files) && i < |files|
    ensures DistinctIds(RemoveAt(files, i))
  {
    var r := RemoveAt(files, i);
    forall a, b | 0 <= a < b < |r|
      ensures IdsDiffer(r, a, b)
    {
      assert IdsDiffer(files, if a < i then a else a + 1, if b < i then b else b + 1);
    }
  }

  lemma RemovalKeepsShape(files: seq<File>, i: nat)
    requires i < |files| && Distinct(files)
    ensures Distinct(RemoveAt(files, i))
  {
    var r := RemoveAt(files, i);
    forall a, b | 0 <= a < b < |r|
      ensures Differ(r, a, b)
    {
      assert Differ(files, if a < i then a else a + 1, if b < i then b else b + 1);
    }
  }

  /** os.File.WriteAt: the old content with `data` laid over it at `off`, zero filled up to there; no data, no change. */
  function WriteAt(old_: Bytes, off: nat, data: Bytes): (r: Bytes)
    ensures off == |old_| ==> r == old_ + data
  {
    var base := if |old_| < off then old_ + Zeros(off - |old_|) else old_;
    if data == [] then old_
    else if off + |data| < |base| then base[..off] + data + base[off + |data|..] else base[..off] + data
  }

  /** Byte by byte: the data where it goes, the old bytes elsewhere, and zeros in a gap. */
  lemma WriteAtIs(old_: Bytes, off: nat, data: Bytes)
    ensures WriteAt(old_, off, []) == old_
    ensures data != [] ==>
            var r := WriteAt(old_, off, data);
            && |r| == (if off + |data| > |old_| then off + |data| else |old_|)
            && forall k | 0 <= k < |r| ::
                 r[k] == if off <= k < off + |data| then data[k - off] else if k < |old_| then old_[k] else 0
  {
  }
}
