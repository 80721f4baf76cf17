/** Directory trees in memory: how GetDir builds one and how GetAllFiles puts its files in a row. */
module Trees {
  import opened Wrappers
  import opened Bytes
  import opened Fsys
  import opened Listings
  import Checksums
  import Paths

  // ---------------------------------------------------------- Go's slices

  /** A Go slice: the first `len` slots of an array that may be longer and may be shared. */
  datatype Slice = Slice(arr: array<File>, len: nat)

  predicate Fits(s: Slice) {
    s.len <= s.arr.Length
  }

  function Files(s: Slice): (fs: seq<File>)
    requires Fits(s)
    reads s.arr
    ensures |fs| == s.len
  {
    s.arr[..s.len]
  }

  /** A new array with room for n files that starts with the slice; its capacity is up to the run time. */
  method Grow(s: Slice, n: nat, filler: File) returns (bigger: array<File>)
    requires Fits(s) && s.len <= n
    ensures fresh(bigger) && bigger.Length >= n && bigger[..s.len] == Files(s)
  {
    var capacity :| capacity >= n;
    bigger := new File[capacity](_ => filler);
    for k := 0 to s.len
      invariant bigger[..k] == s.arr[..k]
    {
      bigger[k] := s.arr[k];
    }
  }

  /** append(s, more...): writes behind the slice when there is room, otherwise into a new and larger array. */
  method Append(s: Slice, more: seq<File>) returns (r: Slice)
    requires Fits(s)
    modifies s.arr
    ensures Fits(r) && Files(r) == old(Files(s)) + more && r.len == s.len + |more|
    ensures Files(s) == old(Files(s))
    ensures r.arr == s.arr || fresh(r.arr)
  {
    var n := s.len + |more|;
    var arr := s.arr;
    if n > s.arr.Length {
      arr := Grow(s, n, more[0]);
    }
    r := Slice(arr, n);
    for k := 0 to |more|
      invariant forall j | 0 <= j < s.len :: s.arr[j] == old(s.arr[j]) && arr[j] == old(s.arr[j])
      invariant forall j | 0 <= j < k :: arr[s.len + j] == more[j]
    {
      arr[s.len + k] := more[k];
    }
  }

  // ------------------------------------------------------- the tree in memory

  datatype Directory = Directory(
    name: Bytes, path: Bytes, size: nat, links: seq<Link>, files: Slice, dirs: seq<Directory>)

  /** The visible files of a directory and of all directories in it. */
  datatype Shelf = Shelf(files: seq<File>, dirs: seq<Shelf>)

  ghost function Arrays(d: Directory): set<array<File>> {
    {d.files.arr} + set i, a | 0 <= i < |d.dirs| && a in Arrays(d.dirs[i]) :: a
  }

  ghost predicate Apart(ds: seq<Directory>, i: nat, j: nat)
    requires i < |ds| && j < |ds|
  {
    Arrays(ds[i]) !! Arrays(ds[j])
  }

  /** No two directories share an array. */
  ghost predicate Separate(d: Directory)
    decreases d, 0
  {
    && Fits(d.files)
    && (forall i | 0 <= i < |d.dirs| :: InnerSeparate(d, i))
    && (forall i, j | 0 <= i < j < |d.dirs| :: Apart(d.dirs, i, j))
  }

  ghost predicate InnerSeparate(d: Directory, i: nat)
    requires i < |d.dirs|
    decreases d.dirs, 1
  {
    Separate(d.dirs[i]) && d.files.arr !in Arrays(d.dirs[i])
  }

  ghost function Shown(d: Directory): Shelf
    requires Separate(d)
    reads Arrays(d)
    decreases d, 1
  {
    Shelf(Files(d.files), seq(|d.dirs|, i requires 0 <= i < |d.dirs| reads Arrays(d) => ShownAt(d, i)))
  }

  ghost function ShownAt(d: Directory, i: nat): Shelf
    requires Separate(d) && i < |d.dirs|
    reads Arrays(d)
    decreases d, 0
  {
    assert InnerSeparate(d, i);
    Shown(d.dirs[i])
  }

  function Preorder(s: Shelf): seq<File>
    decreases s, 0
  {
    s.files + Forest(s.dirs, |s.dirs|)
  }

  function Forest(ss: seq<Shelf>, k: nat): seq<File>
    requires k <= |ss|
    decreases ss, k
  {
    if k == 0 then [] else Forest(ss, k - 1) + Preorder(ss[k - 1])
  }

  /** What GetAllFiles returns. */
  function Flattened(s: Shelf, recursive: bool): seq<File> {
    if recursive then Preorder(s) else s.files
  }

  lemma {:induction false} Allocated(d: Directory)
    ensures forall a | a in Arrays(d) :: allocated(a)
  {
    forall i | 0 <= i < |d.dirs|
      ensures forall a | a in Arrays(d.dirs[i]) :: allocated(a)
    {
      Allocated(d.dirs[i]);
    }
  }

  twostate lemma {:induction false} ShownKept(d: Directory)
    requires Separate(d)
    requires Files(d.files) == old(Files(d.files))
    requires forall i | 0 <= i < |d.dirs| :: ShownAt(d, i) == old(ShownAt(d, i))
    ensures Shown(d) == old(Shown(d))
  {
    assert Shown(d).dirs == old(Shown(d).dirs);
  }

  lemma {:induction false} OthersApart(d: Directory, i: nat)
    requires Separate(d) && i < |d.dirs|
    ensures forall j | 0 <= j < |d.dirs| && j != i :: Arrays(d.dirs[i]) !! Arrays(d.dirs[j])
  {
    forall j | 0 <= j < |d.dirs| && j != i
      ensures Arrays(d.dirs[i]) !! Arrays(d.dirs[j])
    {
      assert if i < j then Apart(d.dirs, i, j) else Apart(d.dirs, j, i);
    }
  }

  /** Writing only into the directory's own array, behind its files, leaves the tree as it was. */
  twostate lemma {:induction false} InnerKept(d: Directory)
    requires Separate(d) && Files(d.files) == old(Files(d.files))
    requires forall a | a in Arrays(d) && a != d.files.arr :: old(allocated(a)) && unchanged(a)
    ensures Shown(d) == old(Shown(d))
  {
    forall j | 0 <= j < |d.dirs|
      ensures ShownAt(d, j) == old(ShownAt(d, j))
    {
      assert InnerSeparate(d, j);
      assert forall a | a in Arrays(d.dirs[j]) :: a in Arrays(d) && a != d.files.arr;
    }
    ShownKept(d);
  }

  /** Appends to the files collected so far, which may share the array of the directory's own files. */
  method AppendBehind(d: Directory, was: Slice, more: seq<File>) returns (r: Slice)
    requires Separate(d) && Fits(was)
    requires if was.arr == d.files.arr then was.len >= d.files.len else was.arr !in Arrays(d)
    modifies was.arr
    ensures Fits(r) && (r.arr == was.arr || fresh(r.arr)) && r.len >= was.len
    ensures Shown(d) == old(Shown(d))
    ensures Files(r) == old(Files(was)) + more
  {
    Allocated(d);
    r := Append(was, more);
    if was.arr == d.files.arr {
      assert Files(d.files) == Files(was)[..d.files.len];
    }
    InnerKept(d);
  }

  method CollectFrom(d: Directory, i: nat) returns (inner: Slice)
    requires Separate(d) && i < |d.dirs|
    modifies Arrays(d.dirs[i])
    ensures Fits(inner) && Shown(d) == old(Shown(d)) && Files(inner) == Preorder(Shown(d).dirs[i])
    decreases d, 0
  {
    Allocated(d);
    assert InnerSeparate(d, i);
    inner := GetAllFiles(d.dirs[i], true);
    OthersApart(d, i);
    forall j | 0 <= j < |d.dirs| && j != i
      ensures ShownAt(d, j) == old(ShownAt(d, j))
    {
      assert InnerSeparate(d, j);
      assert forall a | a in Arrays(d.dirs[j]) :: a in Arrays(d) && unchanged(a);
    }
    ShownKept(d);
  }

  /** One round of the loop: the files of inner directory i go behind those collected so far. */
  method Collect(d: Directory, i: nat, was: Slice) returns (r: Slice)
    requires Separate(d) && i < |d.dirs| && Fits(was)
    requires if was.arr == d.files.arr then was.len >= d.files.len else was.arr !in Arrays(d)
    modifies Arrays(d), was.arr
    ensures Fits(r) && (r.arr == was.arr || fresh(r.arr)) && r.len >= was.len
    ensures Shown(d) == old(Shown(d))
    ensures Files(r) == old(Files(was)) + Preorder(Shown(d).dirs[i])
    decreases d, 1
  {
    assert InnerSeparate(d, i);
    var inner := CollectFrom(d, i);
    assert Files(was) == old(Files(was));
    r := AppendBehind(d, was, Files(inner));
  }

  method GetAllFiles(d: Directory, recursive: bool) returns (r: Slice)
    requires Separate(d)
    modifies Arrays(d)
    ensures Fits(r) && (r.arr == d.files.arr || fresh(r.arr)) && r.len >= d.files.len
    ensures Shown(d) == old(Shown(d))
    ensures Files(r) == Flattened(Shown(d), recursive)
    decreases d, 2
  {
    ghost var shelf := Shown(d);
    Allocated(d);
    r := d.files;
    if recursive {
      if |d.dirs| == 0 {
        return;
      }
      for i := 0 to |d.dirs|
        invariant Fits(r) && (r.arr == d.files.arr || fresh(r.arr)) && r.len >= d.files.len
        invariant Shown(d) == shelf && Files(r) == shelf.files + Forest(shelf.dirs, i)
      {
        r := Collect(d, i, r);
      }
    }
  }

  function LinksIn(d: Directory, recursive: bool): seq<Link>
    decreases d, 1
  {
    d.links + if recursive then LinksOf(d.dirs, |d.dirs|) else []
  }

  function LinksOf(ds: seq<Directory>, k: nat): seq<Link>
    requires k <= |ds|
    decreases ds, 0, k
  {
    if k == 0 then [] else LinksOf(ds, k - 1) + LinksIn(ds[k - 1], true)
  }

  method GetAllSymlinks(d: Directory, recursive: bool) returns (r: seq<Link>)
    ensures r == LinksIn(d, recursive)
  {
    r := d.links;
    if recursive {
      if |d.dirs| == 0 {
        return;
      }
      for i := 0 to |d.dirs|
        invariant r == d.links + LinksOf(d.dirs, i)
      {
        var inner := GetAllSymlinks(d.dirs[i], recursive);
        r := r + inner;
      }
    }
  }

  // ---------------------------------------------------- reading from disk

  lemma {:induction false} ForestPrefix(a: seq<Shelf>, b: seq<Shelf>, k: nat)
    requires k <= |a|
    ensures Forest(a + b, k) == Forest(a, k)
  {
    if k > 0 {
      ForestPrefix(a, b, k - 1);
    }
  }

  lemma {:induction false} LinksPrefix(a: seq<Directory>, b: seq<Directory>, k: nat)
    requires k <= |a|
    ensures LinksOf(a + b, k) == LinksOf(a, k)
  {
    if k > 0 {
      LinksPrefix(a, b, k - 1);
      assert (a + b)[k - 1] == a[k - 1];
    }
  }

  lemma {:induction false} DistinctBoth(a: seq<File>, b: seq<File>)
    requires Distinct(a) && Distinct(b) && forall f | f in a :: f !in b
    ensures Distinct(a + b)
  {
    forall i, j | 0 <= i < j < |a + b|
      ensures Differ(a + b, i, j)
    {
      if j < |a| {
        assert Differ(a, i, j);
      } else if i >= |a| {
        assert Differ(b, i - |a|, j - |a|);
      } else {
        assert a[i] in a && b[j - |a|] in b;
      }
    }
  }

  lemma {:induction false} DistinctInserted(a: seq<File>, f: File, b: seq<File>)
    requires Distinct(a + b) && f !in a && f !in b
    ensures Distinct(a + [f] + b)
  {
    var r := a + [f] + b;
    forall i, j | 0 <= i < j < |r|
      ensures Differ(r, i, j)
    {
      if i != |a| && j != |a| {
        assert Differ(a + b, if i < |a| then i else i - 1, if j < |a| then j else j - 1);
      } else {
        assert forall k | 0 <= k < |r| && k != |a| :: r[k] in a || r[k] in b;
      }
    }
  }

  method GetFile(v: Volume, dir: Bytes, name: Bytes) returns (f: Option<File>)
    ensures f.Some? <==> FileAt(v, dir, name).Some?
    ensures f.Some? ==> fresh(f.value) && f.value.View() == FileAt(v, dir, name).value
  {
    var path := Paths.Join(dir, name);
    if path !in v.files {
      return None;
    }
    var checksum := Checksums.GetPartialCheckSum(v.digest, v.files[path]);
    var file := new File(FileInfo(0, name, path, [], |v.files[path]|, checksum, 0));
    f := Some(file);
  }

  /** Other files of its own do not concern what a directory holds below. */
  lemma {:induction false} OwnReplaced(d: Directory, r: Directory)
    requires Separate(d) && r.dirs == d.dirs && Fits(r.files)
    requires r.files.arr == d.files.arr || r.files.arr !in Arrays(d)
    ensures Separate(r) && Shown(r) == Shown(d).(files := Files(r.files))
    ensures forall a | a in Arrays(r) :: a in Arrays(d) || a == r.files.arr
  {
    forall i | 0 <= i < |d.dirs|
      ensures InnerSeparate(r, i)
    {
      assert InnerSeparate(d, i);
      assert r.files.arr in Arrays(d.dirs[i]) ==> r.files.arr in Arrays(d);
    }
    assert forall i, j | 0 <= i < j < |d.dirs| :: Apart(d.dirs, i, j) == Apart(r.dirs, i, j);
    assert Separate(r);
    assert forall i | 0 <= i < |d.dirs| :: ShownAt(r, i) == ShownAt(d, i);
    assert Shown(r).dirs == Shown(d).dirs;
  }

  lemma {:induction false} AddedDir(d: Directory, x: Directory, total: nat)
    requires Separate(d) && Separate(x) && Arrays(d) !! Arrays(x)
    ensures var r := d.(size := total, dirs := d.dirs + [x]);
            && Separate(r) && Arrays(r) == Arrays(d) + Arrays(x)
            && Shown(r) == Shown(d).(dirs := Shown(d).dirs + [Shown(x)])
  {
    var r := d.(size := total, dirs := d.dirs + [x]);
    forall i | 0 <= i < |r.dirs|
      ensures InnerSeparate(r, i)
    {
      if i < |d.dirs| {
        assert InnerSeparate(d, i);
      }
    }
    forall i, j | 0 <= i < j < |r.dirs|
      ensures Apart(r.dirs, i, j)
    {
      if j < |d.dirs| {
        assert Apart(d.dirs, i, j);
      }
    }
    forall i | 0 <= i < |d.dirs|
      ensures ShownAt(r, i) == ShownAt(d, i)
    {
    }
    assert Shown(r).dirs == Shown(d).dirs + [Shown(x)];
    ArraysOfBoth(d, x, total);
  }

  lemma {:induction false} ArraysOfBoth(d: Directory, x: Directory, total: nat)
    ensures Arrays(d.(size := total, dirs := d.dirs + [x])) == Arrays(d) + Arrays(x)
  {
    var r := d.(size := total, dirs := d.dirs + [x]);
    assert r.dirs[|d.dirs|] == x;
    forall i | 0 <= i < |d.dirs|
      ensures r.dirs[i] == d.dirs[i]
    {
    }
  }

  /** The files of inner directories. */
  function Inner(s: Shelf): seq<File> {
    Forest(s.dirs, |s.dirs|)
  }

  predicate RecordedAt(files: seq<File>, infos: seq<FileInfo>, k: nat)
    requires k < |files| == |infos|
    reads files
  {
    files[k].View() == infos[k]
  }

  ghost predicate Recorded(files: seq<File>, infos: seq<FileInfo>)
    reads files
  {
    |files| == |infos| && forall k | 0 <= k < |files| :: RecordedAt(files, infos, k)
  }

  /** The size field, which wraps as a uint64 does. */
  function SizeOf(own: seq<FileInfo>, inner: seq<FileInfo>): nat {
    Wrap(TotalSize(own) + TotalSize(inner))
  }

  function Wanted(v: Volume, path: Bytes, es: seq<Entry>, k: nat, recursive: bool): seq<FileInfo>
    requires k <= |es|
  {
    if recursive then InnerFiles(v, path, es, k) else []
  }

  /** A directory at `path` of that size that shows s holds what its first k entries, read in order, call for. */
  ghost predicate HasRead(v: Volume, path: Bytes, size: nat, s: Shelf, es: seq<Entry>, k: nat, recursive: bool)
    requires k <= |es|
    reads s.files, Inner(s)
  {
    && Distinct(Preorder(s))
    && Recorded(s.files, OwnFiles(v, path, es, k))
    && Recorded(Inner(s), Wanted(v, path, es, k, recursive))
    && size == SizeOf(OwnFiles(v, path, es, k), Wanted(v, path, es, k, recursive))
  }

  lemma {:induction false} RecordedBoth(a: seq<File>, b: seq<File>, x: seq<FileInfo>, y: seq<FileInfo>)
    requires Recorded(a, x) && Recorded(b, y)
    ensures Recorded(a + b, x + y)
  {
    forall k | 0 <= k < |a + b|
      ensures RecordedAt(a + b, x + y, k)
    {
      assert if k < |a| then RecordedAt(a, x, k) else RecordedAt(b, y, k - |a|);
    }
  }

  lemma {:induction false} SizeWithFile(own: seq<FileInfo>, inner: seq<FileInfo>, f: FileInfo, both: seq<FileInfo>)
    requires both == own + [f]
    ensures SizeOf(both, inner) == Wrap(SizeOf(own, inner) + f.size)
  {
    TotalSizeOfBoth(own, [f]);
    assert TotalSize([f]) == f.size;
    WrappedSum(TotalSize(own) + TotalSize(inner), f.size);
  }

  lemma {:induction false} WrapBoth(a: nat, b: nat, c: nat)
    ensures Wrap(a + (b + c)) == Wrap(Wrap(a + b) + Wrap(c))
  {
    WrappedSum(a + b, Wrap(c));
    WrappedSum(c, a + b);
  }

  lemma {:induction false} SizeWithInner(own: seq<FileInfo>, inner: seq<FileInfo>, more: seq<FileInfo>, both: seq<FileInfo>)
    requires both == inner + more
    ensures SizeOf(own, both) == Wrap(SizeOf(own, inner) + Wrap(TotalSize(more)))
  {
    TotalSizeOfBoth(inner, more);
    WrapBoth(TotalSize(own), TotalSize(inner), TotalSize(more));
  }

  // One more file, part by part.

  /** Entry k is this file, which is none of those read before. */
  ghost predicate NextFile(v: Volume, path: Bytes, size: nat, s: Shelf, es: seq<Entry>, k: nat, recursive: bool, f: File)
    reads s.files, Inner(s), f
  {
    && k < |es| && es[k].FileEntry? && OwnFile(v, path, es[k]) == [f.View()]
    && HasRead(v, path, size, s, es, k, recursive) && f !in Preorder(s)
  }

  /** The shelf with this file behind its own. */
  ghost predicate WithFile(s: Shelf, f: File, t: Shelf) {
    t == s.(files := s.files + [f])
  }

  lemma {:induction false} FileDistinct(v: Volume, path: Bytes, size: nat, s: Shelf, es: seq<Entry>, k: nat, recursive: bool, f: File, t: Shelf)
    requires NextFile(v, path, size, s, es, k, recursive, f) && WithFile(s, f, t)
    ensures Distinct(Preorder(t))
  {
    DistinctInserted(s.files, f, Inner(s));
  }

  lemma {:induction false} FileRecorded(v: Volume, path: Bytes, size: nat, s: Shelf, es: seq<Entry>, k: nat, recursive: bool, f: File, t: Shelf)
    requires NextFile(v, path, size, s, es, k, recursive, f) && WithFile(s, f, t)
    ensures k < |es| && Recorded(t.files, OwnFiles(v, path, es, k + 1))
  {
    OneMore(v, path, es, k);
    assert RecordedAt([f], [f.View()], 0);
    RecordedBoth(s.files, [f], OwnFiles(v, path, es, k), [f.View()]);
  }

  lemma {:induction false} InnerStays(v: Volume, path: Bytes, size: nat, s: Shelf, es: seq<Entry>, k: nat, recursive: bool, f: File, t: Shelf)
    requires NextFile(v, path, size, s, es, k, recursive, f) && WithFile(s, f, t)
    ensures k < |es| && Recorded(Inner(t), Wanted(v, path, es, k + 1, recursive))
  {
    OneMore(v, path, es, k);
  }

  lemma {:induction false} CountedWithFile(v: Volume, path: Bytes, size: nat, es: seq<Entry>, k: nat, recursive: bool, f: FileInfo, n: nat)
    requires k < |es| && es[k].FileEntry? && OwnFile(v, path, es[k]) == [f] && f.size == n
    requires size == SizeOf(OwnFiles(v, path, es, k), Wanted(v, path, es, k, recursive))
    ensures SizeOf(OwnFiles(v, path, es, k + 1), Wanted(v, path, es, k + 1, recursive)) == Wrap(size + n)
    ensures Wanted(v, path, es, k + 1, recursive) == Wanted(v, path, es, k, recursive)
  {
    OneMore(v, path, es, k);
    SizeWithFile(OwnFiles(v, path, es, k), Wanted(v, path, es, k, recursive), f, OwnFiles(v, path, es, k + 1));
  }

  lemma {:induction false} CountedOfFile(v: Volume, path: Bytes, size: nat, s: Shelf, es: seq<Entry>, k: nat, recursive: bool, f: File)
    returns (info: FileInfo)
    requires NextFile(v, path, size, s, es, k, recursive, f)
    ensures k < |es| && es[k].FileEntry? && OwnFile(v, path, es[k]) == [info] && info.size == f.size
    ensures size == SizeOf(OwnFiles(v, path, es, k), Wanted(v, path, es, k, recursive))
  {
    info := f.View();
  }

  lemma {:induction false} FileCounted(v: Volume, path: Bytes, size: nat, s: Shelf, es: seq<Entry>, k: nat, recursive: bool, f: File, n: nat)
    requires NextFile(v, path, size, s, es, k, recursive, f) && n == f.size
    ensures SizeOf(OwnFiles(v, path, es, k + 1), Wanted(v, path, es, k + 1, recursive)) == Wrap(size + n)
    ensures Wanted(v, path, es, k + 1, recursive) == Wanted(v, path, es, k, recursive)
  {
    var info := CountedOfFile(v, path, size, s, es, k, recursive, f);
    CountedWithFile(v, path, size, es, k, recursive, info, n);
  }

  lemma {:induction false} AllPartsRead(v: Volume, path: Bytes, total: nat, t: Shelf, es: seq<Entry>, k: nat, recursive: bool)
    requires k <= |es| && Distinct(Preorder(t)) && Recorded(t.files, OwnFiles(v, path, es, k))
    requires Recorded(Inner(t), Wanted(v, path, es, k, recursive))
    requires SizeOf(OwnFiles(v, path, es, k), Wanted(v, path, es, k, recursive)) == total
    ensures HasRead(v, path, total, t, es, k, recursive)
  {
  }

  lemma {:induction false} FileIsRead(v: Volume, path: Bytes, size: nat, s: Shelf, es: seq<Entry>, k: nat, recursive: bool, f: File, n: nat, t: Shelf)
    requires NextFile(v, path, size, s, es, k, recursive, f) && n == f.size && WithFile(s, f, t)
    ensures k < |es| && HasRead(v, path, Wrap(size + n), t, es, k + 1, recursive)
  {
    FileDistinct(v, path, size, s, es, k, recursive, f, t);
    FileRecorded(v, path, size, s, es, k, recursive, f, t);
    InnerStays(v, path, size, s, es, k, recursive, f, t);
    FileCounted(v, path, size, s, es, k, recursive, f, n);
    AllPartsRead(v, path, Wrap(size + n), t, es, k + 1, recursive);
  }

  lemma {:induction false} PreorderWith(s: Shelf, t: Shelf)
    ensures Preorder(s.(dirs := s.dirs + [t])) == Preorder(s) + Preorder(t)
    ensures Inner(s.(dirs := s.dirs + [t])) == Inner(s) + Preorder(t)
  {
    ForestPrefix(s.dirs, [t], |s.dirs|);
  }

  // One more inner directory, part by part.

  /** Entry k is an inner directory that shows t, whose files are none of those read before. */
  ghost predicate NextInner(v: Volume, path: Bytes, size: nat, s: Shelf, es: seq<Entry>, k: nat, t: Shelf)
    reads s.files, Inner(s), Preorder(t)
  {
    && k < |es| && es[k].DirEntry? && HasRead(v, path, size, s, es, k, true)
    && Distinct(Preorder(t)) && (forall f | f in Preorder(s) :: f !in Preorder(t))
    && Recorded(Preorder(t), InnerOf(v, path, es[k]))
  }

  lemma {:induction false} InnerDistinct(v: Volume, path: Bytes, size: nat, s: Shelf, es: seq<Entry>, k: nat, t: Shelf)
    requires NextInner(v, path, size, s, es, k, t)
    ensures Distinct(Preorder(s.(dirs := s.dirs + [t])))
  {
    PreorderWith(s, t);
    DistinctBoth(Preorder(s), Preorder(t));
  }

  lemma {:induction false} InnerRecorded(v: Volume, path: Bytes, size: nat, s: Shelf, es: seq<Entry>, k: nat, t: Shelf)
    requires NextInner(v, path, size, s, es, k, t)
    ensures Recorded(Inner(s.(dirs := s.dirs + [t])), InnerFiles(v, path, es, k + 1))
  {
    OneMore(v, path, es, k);
    PreorderWith(s, t);
    RecordedBoth(Inner(s), Preorder(t), InnerFiles(v, path, es, k), InnerOf(v, path, es[k]));
  }

  lemma {:induction false} CountedSoFar(v: Volume, path: Bytes, size: nat, s: Shelf, es: seq<Entry>, k: nat, t: Shelf)
    requires NextInner(v, path, size, s, es, k, t)
    ensures size == SizeOf(OwnFiles(v, path, es, k), InnerFiles(v, path, es, k)) && OwnFile(v, path, es[k]) == []
  {
  }

  lemma {:induction false} InnerCounted(v: Volume, path: Bytes, size: nat, s: Shelf, es: seq<Entry>, k: nat, t: Shelf)
    requires NextInner(v, path, size, s, es, k, t)
    ensures SizeOf(OwnFiles(v, path, es, k + 1), InnerFiles(v, path, es, k + 1))
         == Wrap(size + Wrap(TotalSize(InnerOf(v, path, es[k]))))
    ensures OwnFiles(v, path, es, k + 1) == OwnFiles(v, path, es, k)
  {
    CountedSoFar(v, path, size, s, es, k, t);
    CountedNext(v, path, size, es, k);
  }

  lemma {:induction false} CountedNext(v: Volume, path: Bytes, size: nat, es: seq<Entry>, k: nat)
    requires k < |es| && size == SizeOf(OwnFiles(v, path, es, k), InnerFiles(v, path, es, k)) && OwnFile(v, path, es[k]) == []
    ensures SizeOf(OwnFiles(v, path, es, k + 1), InnerFiles(v, path, es, k + 1))
         == Wrap(size + Wrap(TotalSize(InnerOf(v, path, es[k]))))
    ensures OwnFiles(v, path, es, k + 1) == OwnFiles(v, path, es, k)
  {
    OneMore(v, path, es, k);
    SizeWithInner(OwnFiles(v, path, es, k), InnerFiles(v, path, es, k), InnerOf(v, path, es[k]), InnerFiles(v, path, es, k + 1));
  }

  lemma {:induction false} InnerIsRead(v: Volume, path: Bytes, size: nat, s: Shelf, es: seq<Entry>, k: nat, t: Shelf)
    requires NextInner(v, path, size, s, es, k, t)
    ensures HasRead(v, path, Wrap(size + Wrap(TotalSize(InnerOf(v, path, es[k])))), s.(dirs := s.dirs + [t]), es, k + 1, true)
  {
    InnerDistinct(v, path, size, s, es, k, t);
    InnerRecorded(v, path, size, s, es, k, t);
    InnerCounted(v, path, size, s, es, k, t);
  }

  lemma {:induction false} FilesAllocated(s: Shelf)
    ensures forall f | f in Preorder(s) :: allocated(f)
    ensures forall i | 0 <= i < |Inner(s)| :: allocated(Inner(s)[i])
    decreases s, 0
  {
    ForestAllocated(s.dirs, |s.dirs|);
    forall i | 0 <= i < |Inner(s)|
      ensures allocated(Inner(s)[i])
    {
      assert Inner(s)[i] in Inner(s);
    }
  }

  lemma {:induction false} ForestAllocated(ss: seq<Shelf>, k: nat)
    requires k <= |ss|
    ensures forall f | f in Forest(ss, k) :: allocated(f)
    decreases ss, k
  {
    if k > 0 {
      ForestAllocated(ss, k - 1);
      FilesAllocated(ss[k - 1]);
    }
  }

  method Keep(own: seq<File>) returns (files: Slice)
    ensures Fits(files) && fresh(files.arr) && Files(files) == own
  {
    var none := new File[0];
    files := Append(Slice(none, 0), own);
  }

  /** Reads the file behind entry k, which is none of those read before. */
  method GetOwn(v: Volume, path: Bytes, size: nat, ghost s: Shelf, es: seq<Entry>, k: nat, recursive: bool) returns (file: Option<File>)
    requires k < |es| && es[k].FileEntry? && HasRead(v, path, size, s, es, k, recursive)
    ensures file.None? ==> OwnFile(v, path, es[k]) == [] && HasRead(v, path, size, s, es, k, recursive)
    ensures file.Some? ==> fresh(file.value) && NextFile(v, path, size, s, es, k, recursive, file.value)
  {
    FilesAllocated(s);
    file := GetFile(v, path, es[k].name);
  }

  lemma {:induction false} NothingRead(v: Volume, path: Bytes, size: nat, s: Shelf, es: seq<Entry>, k: nat, recursive: bool)
    requires k < |es| && es[k].FileEntry? && HasRead(v, path, size, s, es, k, recursive) && OwnFile(v, path, es[k]) == []
    ensures HasRead(v, path, size, s, es, k + 1, recursive)
  {
    OneMore(v, path, es, k);
  }

  /** One file entry: a file that cannot be read is passed over. */
  method ReadFile(v: Volume, path: Bytes, size: nat, ghost s: Shelf, es: seq<Entry>, k: nat, recursive: bool, own: seq<File>)
    returns (now: seq<File>, total: nat, ghost t: Shelf)
    requires k < |es| && es[k].FileEntry? && HasRead(v, path, size, s, es, k, recursive) && s.files == own
    ensures HasRead(v, path, total, t, es, k + 1, recursive) && t == s.(files := now)
    ensures forall f | f in now :: f in own || fresh(f)
  {
    var file := GetOwn(v, path, size, s, es, k, recursive);
    now, total, t := own, size, s;
    if file.None? {
      NothingRead(v, path, size, s, es, k, recursive);
    } else {
      var n := file.value.size;
      now, total, t := own + [file.value], Wrap(size + n), s.(files := own + [file.value]);
      FileIsRead(v, path, size, s, es, k, recursive, file.value, n, t);
    }
  }

  /** x can be added to d, which is being built and shows s but for its own files. */
  ghost predicate Joins(d: Directory, s: Shelf, x: Directory)
    reads Arrays(d), Arrays(x)
  {
    Separate(d) && Shown(d) == s.(files := []) && Separate(x) && Arrays(d) !! Arrays(x)
  }

  lemma {:induction false} InnerJoined(d: Directory, s: Shelf, x: Directory, r: Directory)
    requires Joins(d, s, x) && r == d.(size := r.size, dirs := d.dirs + [x])
    ensures Separate(r) && Arrays(r) == Arrays(d) + Arrays(x)
    ensures Shown(r) == s.(files := [], dirs := s.dirs + [Shown(x)])
    ensures LinksOf(r.dirs, |r.dirs|) == LinksOf(d.dirs, |d.dirs|) + LinksIn(x, true)
  {
    AddedDir(d, x, r.size);
    LinksPrefix(d.dirs, [x], |d.dirs|);
  }

  /** Reads the inner directory behind entry k, which shares nothing with the one being built. */
  method GetInner(v: Volume, path: Bytes, d: Directory, ghost s: Shelf, es: seq<Entry>, k: nat) returns (inner: Option<Directory>)
    requires Separate(d) && Shown(d) == s.(files := [])
    requires k < |es| && es[k].DirEntry? && HasRead(v, path, d.size, s, es, k, true)
    ensures inner.Some? <==> ListableEntry(es[k])
    ensures inner.Some? ==>
              var x := inner.value;
              && Joins(d, s, x) && NextInner(v, path, d.size, s, es, k, Shown(x))
              && (forall a | a in Arrays(x) :: fresh(a)) && (forall f | f in Preorder(Shown(x)) :: fresh(f))
              && LinksIn(x, true) == InnerLinksOf(path, es[k]) && x.size == Wrap(TotalSize(InnerOf(v, path, es[k])))
    decreases es, 0
  {
    Allocated(d);
    FilesAllocated(s);
    inner := GetDir(v, es[k].name, Paths.Join(path, es[k].name), es[k].readable, es[k].entries, true);
  }

  lemma {:induction false} InnerAdded(v: Volume, path: Bytes, d: Directory, s: Shelf, es: seq<Entry>, k: nat, x: Directory, r: Directory)
    requires Joins(d, s, x) && NextInner(v, path, d.size, s, es, k, Shown(x))
    requires x.size == Wrap(TotalSize(InnerOf(v, path, es[k]))) && r == d.(size := Wrap(d.size + x.size), dirs := d.dirs + [x])
    ensures HasRead(v, path, r.size, s.(dirs := s.dirs + [Shown(x)]), es, k + 1, true)
  {
    InnerIsRead(v, path, d.size, s, es, k, Shown(x));
  }

  /** One directory entry, when inner directories are wanted. */
  method ReadInner(v: Volume, path: Bytes, d: Directory, ghost s: Shelf, es: seq<Entry>, k: nat)
    returns (ok: bool, r: Directory, ghost t: Shelf)
    requires Separate(d) && Shown(d) == s.(files := [])
    requires k < |es| && es[k].DirEntry? && HasRead(v, path, d.size, s, es, k, true)
    ensures ok <==> ListableEntry(es[k])
    ensures ok ==> Separate(r) && Shown(r) == t.(files := []) && t.files == s.files && r == d.(size := r.size, dirs := r.dirs)
    ensures ok ==> HasRead(v, path, r.size, t, es, k + 1, true)
    ensures ok ==> LinksOf(r.dirs, |r.dirs|) == LinksOf(d.dirs, |d.dirs|) + InnerLinksOf(path, es[k])
    ensures ok ==> forall a | a in Arrays(r) :: a in Arrays(d) || fresh(a)
    ensures ok ==> forall f | f in Preorder(t) :: f in Preorder(s) || fresh(f)
    decreases es, 1
  {
    var inner := GetInner(v, path, d, s, es, k);
    if inner.None? {
      return false, d, s;
    }
    var x := inner.value;
    ok, r, t := true, d.(size := Wrap(d.size + x.size), dirs := d.dirs + [x]), s.(dirs := s.dirs + [Shown(x)]);
    InnerJoined(d, s, x, r);
    PreorderWith(s, Shown(x));
    InnerAdded(v, path, d, s, es, k, x, r);
  }

  /** The symlinks of the first k entries. */
  predicate LinksRead(d: Directory, path: Bytes, es: seq<Entry>, k: nat, recursive: bool)
    requires k <= |es|
  {
    && d.links == OwnLinks(path, es, k)
    && if recursive then LinksOf(d.dirs, |d.dirs|) == InnerLinks(path, es, k) else d.dirs == []
  }

  /** d is the directory built so far; its own files, `own`, have no array yet. */
  ghost predicate Building(v: Volume, path: Bytes, d: Directory, s: Shelf, es: seq<Entry>, k: nat, recursive: bool)
    requires k <= |es|
    reads Arrays(d), s.files, Inner(s)
  {
    match d
    case Directory(_, _, size, _, _, _) =>
      && Separate(d) && Shown(d) == s.(files := []) && HasRead(v, path, size, s, es, k, recursive)
      && LinksRead(d, path, es, k, recursive)
  }

  method ReadEntry(v: Volume, path: Bytes, d: Directory, ghost s: Shelf, own: seq<File>, es: seq<Entry>, k: nat, recursive: bool)
    returns (ok: bool, r: Directory, ghost t: Shelf, now: seq<File>)
    requires k < |es| && Building(v, path, d, s, es, k, recursive) && s.files == own
    ensures ok <==> (recursive ==> ListableEntry(es[k]))
    ensures ok ==> Building(v, path, r, t, es, k + 1, recursive) && t.files == now && r.name == d.name && r.path == d.path
    ensures ok ==> forall a | a in Arrays(r) :: a in Arrays(d) || fresh(a)
    ensures ok ==> forall f | f in Preorder(t) :: f in Preorder(s) || fresh(f)
    decreases es, 2
  {
    ok, r, t, now := true, d, s, own;
    LinksStay(path, es, k);
    match es[k]
    case DirEntry(_, _, _) =>
      if recursive {
        ok, r, t := ReadInner(v, path, d, s, es, k);
      } else {
        OneMore(v, path, es, k);
      }
    case LinkEntry(name, target) =>
      OneMore(v, path, es, k);
      if target.Some? {
        r := d.(links := d.links + [Link(Paths.Join(path, name), target.value)]);
        OwnReplaced(d, r);
      }
    case FileEntry(_) =>
      FilesAllocated(s);
      Allocated(d);
      var total;
      now, total, t := ReadFile(v, path, d.size, s, es, k, recursive, own);
      r := d.(size := total);
      OwnReplaced(d, r);
  }

  /** The entry after those read is read too. */
  method ReadNext(v: Volume, name: Bytes, path: Bytes, d: Directory, ghost s: Shelf, own: seq<File>, es: seq<Entry>, k: nat, recursive: bool)
    returns (ok: bool, r: Directory, ghost t: Shelf, now: seq<File>)
    requires k < |es| && Started(v, name, path, d, s, own, es, k, recursive)
    ensures ok <==> (recursive ==> ListableEntry(es[k]))
    ensures ok ==> Started(v, name, path, r, t, now, es, k + 1, recursive)
    ensures ok ==> forall a | a in Arrays(r) :: a in Arrays(d) || fresh(a)
    ensures ok ==> forall f | f in Preorder(t) :: f in Preorder(s) || fresh(f)
    decreases es, 3
  {
    ok, r, t, now := ReadEntry(v, path, d, s, own, es, k, recursive);
  }

  ghost predicate Started(v: Volume, name: Bytes, path: Bytes, d: Directory, s: Shelf, own: seq<File>, es: seq<Entry>, k: nat, recursive: bool)
    requires k <= |es|
    reads Arrays(d), s.files, Inner(s)
  {
    Building(v, path, d, s, es, k, recursive) && s.files == own && d.name == name && d.path == path && Listable(es, k, recursive)
  }

  method Empty(v: Volume, name: Bytes, path: Bytes, es: seq<Entry>, recursive: bool) returns (d: Directory)
    ensures Started(v, name, path, d, Shelf([], []), [], es, 0, recursive) && Preorder(Shelf([], [])) == []
    ensures forall a | a in Arrays(d) :: fresh(a)
  {
    var none := new File[0];
    d := Directory(name, path, 0, [], Slice(none, 0), []);
  }

  /** The loop over the entries: the files themselves are handed over separately, before they get their array. */
  method ReadEntries(v: Volume, name: Bytes, path: Bytes, es: seq<Entry>, recursive: bool)
    returns (ok: bool, own: seq<File>, d: Directory, ghost s: Shelf)
    ensures ok <==> Listable(es, |es|, recursive)
    ensures ok ==> Started(v, name, path, d, s, own, es, |es|, recursive)
    ensures ok ==> (forall a | a in Arrays(d) :: fresh(a)) && (forall f | f in Preorder(s) :: fresh(f))
    decreases es, 4
  {
    ok, own, s := true, [], Shelf([], []);
    d := Empty(v, name, path, es, recursive);
    for i := 0 to |es|
      invariant Started(v, name, path, d, s, own, es, i, recursive)
      invariant forall a | a in Arrays(d) :: fresh(a)
      invariant forall f | f in Preorder(s) :: fresh(f)
    {
      var r, now;
      ghost var t;
      ok, r, t, now := ReadNext(v, name, path, d, s, own, es, i, recursive);
      if !ok {
        OneUnlistable(es, i, |es|);
        return;
      }
      d, s, own := r, t, now;
    }
  }

  lemma {:induction false} AllRead(v: Volume, path: Bytes, size: nat, s: Shelf, es: seq<Entry>, recursive: bool)
    requires HasRead(v, path, size, s, es, |es|, recursive)
    ensures Recorded(Preorder(s), AllFiles(v, path, es, recursive)) && size == Wrap(TotalSize(AllFiles(v, path, es, recursive)))
  {
    RecordedBoth(s.files, Inner(s), OwnFiles(v, path, es, |es|), Wanted(v, path, es, |es|, recursive));
    TotalSizeOfBoth(OwnFiles(v, path, es, |es|), Wanted(v, path, es, |es|, recursive));
  }

  method GetDir(v: Volume, name: Bytes, path: Bytes, readable: bool, es: seq<Entry>, recursive: bool) returns (r: Option<Directory>)
    ensures r.Some? <==> readable && Listable(es, |es|, recursive)
    ensures r.Some? ==>
              var d := r.value;
              && Separate(d) && (forall a | a in Arrays(d) :: fresh(a))
              && Distinct(Preorder(Shown(d))) && (forall f | f in Preorder(Shown(d)) :: fresh(f))
              && d.name == name && d.path == path
              && Recorded(Preorder(Shown(d)), AllFiles(v, path, es, recursive))
              && Flattened(Shown(d), recursive) == Preorder(Shown(d))
              && LinksIn(d, recursive) == AllLinks(path, es, recursive)
              && d.size == Wrap(TotalSize(AllFiles(v, path, es, recursive)))
    decreases es, 5
  {
    if !readable {
      return None;
    }
    var ok, own, d;
    ghost var s;
    ok, own, d, s := ReadEntries(v, name, path, es, recursive);
    if !ok {
      return None;
    }
    AllRead(v, path, d.size, s, es, recursive);
    FilesAllocated(s);
    Allocated(d);
    var files := Keep(own);
    r := Some(d.(files := files));
    OwnReplaced(d, r.value);
  }
}
