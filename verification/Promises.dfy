/**
 * What a transfer is for, in the user's terms: names in directories, paths, files and symlinks.  None of these
 * definitions is used by the nodes or by what feeds them; the theorems about transfers are stated in them.
 */
module Promises {
  import opened Wrappers
  import opened Bytes
  import opened Listings
  import Checksums
  import CleanPaths

  // ----------------------------------------------------------------- the tree

  /** The path of an entry of a directory. */
  function Child(dir: Bytes, name: Bytes): Bytes {
    if dir == [0x2F] then [0x2F] + name else dir + [0x2F] + name
  }

  /** The path reached from a directory by these names. */
  function PathOf(dir: Bytes, names: seq<Bytes>): Bytes
    decreases |names|
  {
    if names == [] then dir else PathOf(Child(dir, names[0]), names[1..])
  }

  /** What every file system guarantees of names: no separator, not "." or "..", and different in one directory. */
  predicate EntryName(n: Bytes) {
    n != [] && n != [0x2E] && n != [0x2E, 0x2E] && 0x2F !in n
  }

  predicate OtherName(es: seq<Entry>, i: nat, j: nat)
    requires i < |es| && j < |es|
  {
    i != j ==> es[i].name != es[j].name
  }

  predicate GoodTree(es: seq<Entry>) {
    && (forall i | 0 <= i < |es| :: EntryName(es[i].name) && (es[i].DirEntry? ==> GoodTree(es[i].entries)))
    && (forall i, j | 0 <= i < |es| && 0 <= j < |es| :: OtherName(es, i, j))
  }

  /** Every directory that is to be gone into can be listed. */
  predicate CanBeListed(es: seq<Entry>) {
    forall i | 0 <= i < |es| :: es[i].DirEntry? ==> es[i].readable && CanBeListed(es[i].entries)
  }

  /** These names lead from one directory entry to the next and end at the entry e; one name only unless recursive. */
  ghost predicate Reached(es: seq<Entry>, recursive: bool, names: seq<Bytes>, e: Entry)
    decreases |names|, 1
  {
    exists i :: 0 <= i < |es| && Leads(es[i], recursive, names, e)
  }

  ghost predicate Leads(first: Entry, recursive: bool, names: seq<Bytes>, e: Entry)
    decreases |names|, 0
  {
    && names != [] && first.name == names[0]
    && if |names| == 1 then first == e else recursive && first.DirEntry? && Reached(first.entries, true, names[1..], e)
  }

  /** These names lead to a regular file that can be read. */
  ghost predicate FileAtEnd(v: Volume, dir: Bytes, es: seq<Entry>, recursive: bool, names: seq<Bytes>) {
    && names != [] && Reached(es, recursive, names, FileEntry(names[|names| - 1]))
    && PathOf(dir, names) in v.files
  }

  /** These names lead to a symlink with this target. */
  ghost predicate LinkAtEnd(es: seq<Entry>, recursive: bool, names: seq<Bytes>, target: Bytes) {
    names != [] && Reached(es, recursive, names, LinkEntry(names[|names| - 1], Some(target)))
  }

  // ------------------------------------------------------------- the receiver

  /** A file stands where a folder above the place must be, or there are files below the place: it is a folder. */
  ghost predicate Barred(files: map<Bytes, Bytes>, place: Bytes) {
    exists p | p in files :: p + [0x2F] <= place || place + [0x2F] <= p
  }

  /** The receiver's folder: the download folder, or the one in it named after the directory if that could be made. */
  function FolderFor(downloads: Bytes, name: Bytes, yes: bool, made: bool): Bytes {
    if yes && made then Child(downloads, name) else downloads
  }

  /** The place holds the sender's bytes, or what it held before if the digest of both is the same. */
  predicate Arrived(v: Volume, content: Bytes, before: map<Bytes, Bytes>, store: map<Bytes, Bytes>, p: Bytes) {
    && p in store
    && store[p] == if p in before && v.digest(Checksums.Hashed(before[p])) == v.digest(Checksums.Hashed(content)) then before[p]
                   else content
  }

  predicate Untouched(before: map<Bytes, Bytes>, store: map<Bytes, Bytes>, p: Bytes) {
    (p in store <==> p in before) && (p in before ==> store[p] == before[p])
  }

  /** A symlink is made if nothing was in its way, and leads as far up, and then down, as the one served. */
  ghost predicate Linked(base: Bytes, target: Bytes, before: map<Bytes, Bytes>, folder: Bytes, links: map<Bytes, Bytes>, p: Bytes) {
    && (p in links <==> p !in before && !Barred(before, p))
    && (p in links ==> CleanPaths.LeadsTo(folder, base, target, links[p]))
  }

  // ------------------------------------------------------------ the transfer

  ghost predicate FilesThere(v: Volume, base: Bytes, es: seq<Entry>, recursive: bool, before: map<Bytes, Bytes>, folder: Bytes, store: map<Bytes, Bytes>) {
    forall names | FileAtEnd(v, base, es, recursive, names) ::
      Arrived(v, v.files[PathOf(base, names)], before, store, PathOf(folder, names))
  }

  ghost predicate OthersAsBefore(v: Volume, base: Bytes, es: seq<Entry>, recursive: bool, before: map<Bytes, Bytes>, folder: Bytes, store: map<Bytes, Bytes>) {
    forall p | (forall names | FileAtEnd(v, base, es, recursive, names) :: p != PathOf(folder, names)) :: Untouched(before, store, p)
  }

  ghost predicate LinksThere(base: Bytes, es: seq<Entry>, recursive: bool, before: map<Bytes, Bytes>, folder: Bytes, links: map<Bytes, Bytes>) {
    && (forall names, target | LinkAtEnd(es, recursive, names, target) :: Linked(base, target, before, folder, links, PathOf(folder, names)))
    && (forall p | p in links :: exists names, target :: LinkAtEnd(es, recursive, names, target) && p == PathOf(folder, names))
  }

  /** The directory is in the folder, file by file and symlink by symlink, and nothing else has changed. */
  ghost predicate DirectoryThere(v: Volume, base: Bytes, es: seq<Entry>, recursive: bool, before: map<Bytes, Bytes>, folder: Bytes,
                                 store: map<Bytes, Bytes>, links: map<Bytes, Bytes>)
  {
    && FilesThere(v, base, es, recursive, before, folder, store)
    && OthersAsBefore(v, base, es, recursive, before, folder, store)
    && LinksThere(base, es, recursive, before, folder, links)
  }

  ghost predicate RelativeLinkServed(es: seq<Entry>, recursive: bool) {
    exists names, target :: LinkAtEnd(es, recursive, names, target) && (target == [] || target[0] != 0x2F)
  }

  ghost predicate PlaceBarred(v: Volume, base: Bytes, es: seq<Entry>, recursive: bool, before: map<Bytes, Bytes>, folder: Bytes) {
    exists names :: FileAtEnd(v, base, es, recursive, names) && Barred(before, PathOf(folder, names))
  }

  /** What keeps a directory from being transferred into this folder. */
  ghost predicate CannotGo(v: Volume, base: Bytes, es: seq<Entry>, recursive: bool, before: map<Bytes, Bytes>, folder: Bytes) {
    RelativeLinkServed(es, recursive) || PlaceBarred(v, base, es, recursive, before, folder)
  }
}
