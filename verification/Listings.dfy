/** What is served from a directory, as a function of what is on disk. */
module Listings {
  import opened Wrappers
  import opened Bytes
  import opened Fsys
  import Checksums
  import Paths

  /** One entry of a directory listing. */
  datatype Entry =
    | FileEntry(name: Bytes)
    | LinkEntry(name: Bytes, target: Option<Bytes>)                 // no target: it cannot be read
    | DirEntry(name: Bytes, readable: bool, entries: seq<Entry>)

  /** The readable files by path, and the digest their checksums are made with. */
  datatype Volume = Volume(files: map<Bytes, Bytes>, digest: Bytes -> Bytes)

  function CheckSum(v: Volume, x: Bytes): Bytes {
    Checksums.PartialCheckSum(v.digest, x)
  }

  /** GetFile. */
  function FileAt(v: Volume, dir: Bytes, name: Bytes): Option<FileInfo> {
    var path := Paths.Join(dir, name);
    if path in v.files then Some(FileInfo(0, name, path, [], |v.files[path]|, CheckSum(v, v.files[path]), 0)) else None
  }

  /** The file behind one entry, if there is one that can be read. */
  function OwnFile(v: Volume, dir: Bytes, e: Entry): seq<FileInfo> {
    if e.FileEntry? && FileAt(v, dir, e.name).Some? then [FileAt(v, dir, e.name).value] else []
  }

  /** The files lying directly in `dir`, from its first k entries. */
  function OwnFiles(v: Volume, dir: Bytes, es: seq<Entry>, k: nat): seq<FileInfo>
    requires k <= |es|
  {
    if k == 0 then [] else OwnFiles(v, dir, es, k - 1) + OwnFile(v, dir, es[k - 1])
  }

  /** The files below the directories among the first k entries. */
  function InnerFiles(v: Volume, dir: Bytes, es: seq<Entry>, k: nat): seq<FileInfo>
    requires k <= |es|
    decreases es, 0, k
  {
    if k == 0 then [] else InnerFiles(v, dir, es, k - 1) + InnerOf(v, dir, es[k - 1])
  }

  function InnerOf(v: Volume, dir: Bytes, e: Entry): seq<FileInfo>
    decreases e, 2
  {
    if e.DirEntry? then AllFiles(v, Paths.Join(dir, e.name), e.entries, true) else []
  }

  /** Every file to be served from `dir`: its own first, then those of each inner directory in turn. */
  function AllFiles(v: Volume, dir: Bytes, es: seq<Entry>, recursive: bool): seq<FileInfo>
    decreases es, 1, 0
  {
    OwnFiles(v, dir, es, |es|) + if recursive then InnerFiles(v, dir, es, |es|) else []
  }

  /** The symlink behind one entry, if it can be read. */
  function OwnLink(dir: Bytes, e: Entry): seq<Link> {
    if e.LinkEntry? && e.target.Some? then [Link(Paths.Join(dir, e.name), e.target.value)] else []
  }

  function OwnLinks(dir: Bytes, es: seq<Entry>, k: nat): seq<Link>
    requires k <= |es|
  {
    if k == 0 then [] else OwnLinks(dir, es, k - 1) + OwnLink(dir, es[k - 1])
  }

  function InnerLinks(dir: Bytes, es: seq<Entry>, k: nat): seq<Link>
    requires k <= |es|
    decreases es, 0, k
  {
    if k == 0 then [] else InnerLinks(dir, es, k - 1) + InnerLinksOf(dir, es[k - 1])
  }

  function InnerLinksOf(dir: Bytes, e: Entry): seq<Link>
    decreases e, 2
  {
    if e.DirEntry? then AllLinks(Paths.Join(dir, e.name), e.entries, true) else []
  }

  /** Every symlink to be served from `dir`, in the order of AllFiles. */
  function AllLinks(dir: Bytes, es: seq<Entry>, recursive: bool): seq<Link>
    decreases es, 1, 0
  {
    OwnLinks(dir, es, |es|) + if recursive then InnerLinks(dir, es, |es|) else []
  }

  /** Every directory that has to be listed, among the first k entries and below them, can be listed. */
  predicate Listable(es: seq<Entry>, k: nat, recursive: bool)
    requires k <= |es|
    decreases es, k
  {
    k == 0 || !recursive || (Listable(es, k - 1, recursive) && ListableEntry(es[k - 1]))
  }

  predicate ListableEntry(e: Entry) {
    e.DirEntry? ==> e.readable && Listable(e.entries, |e.entries|, true)
  }

  lemma {:induction false} OneUnlistable(es: seq<Entry>, i: nat, k: nat)
    requires i < k <= |es| && !ListableEntry(es[i])
    ensures !Listable(es, k, true)
  {
    if i < k - 1 {
      OneUnlistable(es, i, k - 1);
    }
  }

  function TotalSize(fs: seq<FileInfo>): nat {
    if fs == [] then 0 else TotalSize(fs[..|fs| - 1]) + fs[|fs| - 1].size
  }

  lemma {:induction false} TotalSizeOfBoth(a: seq<FileInfo>, b: seq<FileInfo>)
    ensures TotalSize(a + b) == TotalSize(a) + TotalSize(b)
  {
    if b == [] {
      assert a + b == a;
    } else {
      assert (a + b)[..|a + b| - 1] == a + b[..|b| - 1];
      TotalSizeOfBoth(a, b[..|b| - 1]);
    }
  }

  /** A uint64 sum, which wraps around. */
  function Wrap(n: nat): (r: nat)
    ensures r < U64_LIMIT && (n < U64_LIMIT ==> r == n)
  {
    if n < U64_LIMIT then n else Wrap(n - U64_LIMIT)
  }

  lemma {:induction false} WrapIsRemainder(n: nat)
    ensures Wrap(n) == n % U64_LIMIT
  {
    if n >= U64_LIMIT {
      WrapIsRemainder(n - U64_LIMIT);
    }
  }

  lemma {:induction false} WrappedSum(a: nat, b: nat)
    ensures Wrap(Wrap(a) + b) == Wrap(a + b)
  {
    if a >= U64_LIMIT {
      WrappedSum(a - U64_LIMIT, b);
    }
  }

  /** Each entry adds to one of the two lists only, or to none. */
  lemma {:induction false} OneMore(v: Volume, path: Bytes, es: seq<Entry>, k: nat)
    requires k < |es|
    ensures OwnFiles(v, path, es, k + 1) == OwnFiles(v, path, es, k) + OwnFile(v, path, es[k])
    ensures InnerFiles(v, path, es, k + 1) == InnerFiles(v, path, es, k) + InnerOf(v, path, es[k])
    ensures OwnFile(v, path, es[k]) == [] ==> OwnFiles(v, path, es, k + 1) == OwnFiles(v, path, es, k)
    ensures !es[k].DirEntry? ==> InnerFiles(v, path, es, k + 1) == InnerFiles(v, path, es, k)
  {
  }

  lemma {:induction false} LinksStay(path: Bytes, es: seq<Entry>, k: nat)
    requires k < |es|
    ensures OwnLink(path, es[k]) == [] ==> OwnLinks(path, es, k + 1) == OwnLinks(path, es, k)
    ensures !es[k].DirEntry? ==> InnerLinks(path, es, k + 1) == InnerLinks(path, es, k)
  {
  }
}
