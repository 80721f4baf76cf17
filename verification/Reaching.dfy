/** The listing of a directory holds exactly what names lead to in it, and goes where these names lead at the receiver. */
module Reaching {
  import opened Wrappers
  import opened Bytes
  import opened Fsys
  import opened Listings
  import opened Served
  import opened Promises
  import CleanPaths
  import Paths
  import Places

  // --------------------------------------------------------- names and lists

  lemma {:induction false} TreeIsWellNamed(es: seq<Entry>)
    ensures GoodTree(es) <==> WellNamed(es)
  {
    forall i | 0 <= i < |es|
      ensures es[i].DirEntry? ==> (GoodTree(es[i].entries) <==> WellNamed(es[i].entries))
    {
      if es[i].DirEntry? {
        TreeIsWellNamed(es[i].entries);
      }
    }
    if GoodTree(es) {
      forall i | 0 <= i < |es|
        ensures WellNamedEntry(es[i])
      {
      }
      forall i, j | 0 <= i < j < |es|
        ensures NamesDiffer(es, i, j)
      {
        assert OtherName(es, i, j);
      }
    }
    if WellNamed(es) {
      forall i | 0 <= i < |es|
        ensures EntryName(es[i].name) && (es[i].DirEntry? ==> GoodTree(es[i].entries))
      {
        assert WellNamedEntry(es[i]);
      }
      forall i, j | 0 <= i < |es| && 0 <= j < |es|
        ensures OtherName(es, i, j)
      {
        if i < j {
          assert NamesDiffer(es, i, j);
        } else if j < i {
          assert NamesDiffer(es, j, i);
        }
      }
    }
  }

  lemma {:induction false} ListableAll(es: seq<Entry>, k: nat)
    requires k <= |es|
    ensures Listable(es, k, true) <==> forall i | 0 <= i < k :: ListableEntry(es[i])
  {
    if k > 0 {
      ListableAll(es, k - 1);
    }
  }

  /** GetDir succeeds below a directory exactly if every directory it goes into can be listed. */
  lemma {:induction false} ListableIff(es: seq<Entry>)
    ensures Listable(es, |es|, true) <==> CanBeListed(es)
  {
    ListableAll(es, |es|);
    forall i | 0 <= i < |es|
      ensures ListableEntry(es[i]) <==> (es[i].DirEntry? ==> es[i].readable && CanBeListed(es[i].entries))
    {
      if es[i].DirEntry? {
        ListableIff(es[i].entries);
      }
    }
  }

  // ----------------------------------------------------------- files listed

  lemma {:induction false} OwnHas(v: Volume, dir: Bytes, es: seq<Entry>, k: nat, i: nat, f: FileInfo)
    requires i < k <= |es| && f in OwnFile(v, dir, es[i])
    ensures f in OwnFiles(v, dir, es, k)
  {
    if i < k - 1 {
      OwnHas(v, dir, es, k - 1, i, f);
    }
  }

  lemma {:induction false} InnerHas(v: Volume, dir: Bytes, es: seq<Entry>, k: nat, i: nat, f: FileInfo)
    requires i < k <= |es| && f in InnerOf(v, dir, es[i])
    ensures f in InnerFiles(v, dir, es, k)
    decreases k
  {
    if i < k - 1 {
      InnerHas(v, dir, es, k - 1, i, f);
    }
  }

  lemma PathOfMore(dir: Bytes, names: seq<Bytes>)
    requires names != []
    ensures PathOf(dir, names) == PathOf(Paths.Join(dir, names[0]), names[1..])
  {
    assert Child(dir, names[0]) == Paths.Join(dir, names[0]);
  }

  lemma OwnIsListed(v: Volume, dir: Bytes, es: seq<Entry>, recursive: bool, i: nat) returns (f: FileInfo)
    requires i < |es| && es[i].FileEntry? && Paths.Join(dir, es[i].name) in v.files
    ensures f in AllFiles(v, dir, es, recursive) && f.path == Paths.Join(dir, es[i].name)
  {
    f := FileAt(v, dir, es[i].name).value;
    assert OwnFile(v, dir, es[i]) == [f];
    OwnHas(v, dir, es, |es|, i, f);
  }

  lemma InnerIsListed(v: Volume, dir: Bytes, es: seq<Entry>, i: nat, f: FileInfo)
    requires i < |es| && es[i].DirEntry? && f in AllFiles(v, Paths.Join(dir, es[i].name), es[i].entries, true)
    ensures f in AllFiles(v, dir, es, true)
  {
    InnerHas(v, dir, es, |es|, i, f);
  }

  /** The first step of the way to a file. */
  lemma FirstStep(v: Volume, dir: Bytes, es: seq<Entry>, recursive: bool, names: seq<Bytes>) returns (i: nat)
    requires FileAtEnd(v, dir, es, recursive, names)
    ensures i < |es| && es[i].name == names[0]
    ensures |names| == 1 ==> es[i].FileEntry? && Paths.Join(dir, es[i].name) in v.files && PathOf(dir, names) == Paths.Join(dir, es[i].name)
    ensures |names| > 1 ==> recursive && es[i].DirEntry? && FileAtEnd(v, Paths.Join(dir, es[i].name), es[i].entries, true, names[1..])
    ensures |names| > 1 ==> PathOf(dir, names) == PathOf(Paths.Join(dir, es[i].name), names[1..])
  {
    i :| 0 <= i < |es| && Leads(es[i], recursive, names, FileEntry(names[|names| - 1]));
    PathOfMore(dir, names);
  }

  /** A readable file is listed, wherever in the tree it is and whatever its name. */
  lemma {:induction false} ReachedIsListed(v: Volume, dir: Bytes, es: seq<Entry>, recursive: bool, names: seq<Bytes>) returns (f: FileInfo)
    requires FileAtEnd(v, dir, es, recursive, names)
    ensures f in AllFiles(v, dir, es, recursive) && f.path == PathOf(dir, names)
    decreases |names|
  {
    var i := FirstStep(v, dir, es, recursive, names);
    if |names| == 1 {
      f := OwnIsListed(v, dir, es, recursive, i);
    } else {
      f := ReachedIsListed(v, Paths.Join(dir, es[i].name), es[i].entries, true, names[1..]);
      InnerIsListed(v, dir, es, i, f);
    }
  }

  /** Whatever is listed is a readable file that names lead to. */
  lemma {:induction false} ListedIsReached(v: Volume, dir: Bytes, es: seq<Entry>, recursive: bool, f: FileInfo) returns (names: seq<Bytes>)
    requires f in AllFiles(v, dir, es, recursive)
    ensures FileAtEnd(v, dir, es, recursive, names) && f.path == PathOf(dir, names)
    ensures f == FileInfo(0, names[|names| - 1], f.path, [], |v.files[f.path]|, CheckSum(v, v.files[f.path]), 0)
    decreases es
  {
    if f in OwnFiles(v, dir, es, |es|) {
      var m := OwnIn(v, dir, es, |es|, f);
      names := [es[m].name];
      assert Leads(es[m], recursive, names, FileEntry(names[0]));
    } else {
      var m := InnerIn(v, dir, es, |es|, f);
      var rest := ListedIsReached(v, Paths.Join(dir, es[m].name), es[m].entries, true, f);
      names := [es[m].name] + rest;
      assert names[1..] == rest && names[|names| - 1] == rest[|rest| - 1];
      assert Leads(es[m], recursive, names, FileEntry(rest[|rest| - 1]));
    }
    PathOfMore(dir, names);
  }

  /** The files served are exactly the readable files of the directory, those below it too if it is served recursively. */
  lemma ListedIff(v: Volume, dir: Bytes, es: seq<Entry>, recursive: bool, p: Bytes)
    ensures (exists f :: f in AllFiles(v, dir, es, recursive) && f.path == p) <==>
            (exists names :: FileAtEnd(v, dir, es, recursive, names) && PathOf(dir, names) == p)
  {
    if f :| f in AllFiles(v, dir, es, recursive) && f.path == p {
      var names := ListedIsReached(v, dir, es, recursive, f);
    }
    if names :| FileAtEnd(v, dir, es, recursive, names) && PathOf(dir, names) == p {
      var f := ReachedIsListed(v, dir, es, recursive, names);
    }
  }

  // -------------------------------------------------------- symlinks listed

  lemma {:induction false} OwnLinksHave(dir: Bytes, es: seq<Entry>, k: nat, i: nat, l: Link)
    requires i < k <= |es| && l in OwnLink(dir, es[i])
    ensures l in OwnLinks(dir, es, k)
  {
    if i < k - 1 {
      OwnLinksHave(dir, es, k - 1, i, l);
    }
  }

  lemma {:induction false} InnerLinksHave(dir: Bytes, es: seq<Entry>, k: nat, i: nat, l: Link)
    requires i < k <= |es| && l in InnerLinksOf(dir, es[i])
    ensures l in InnerLinks(dir, es, k)
    decreases k
  {
    if i < k - 1 {
      InnerLinksHave(dir, es, k - 1, i, l);
    }
  }

  lemma {:induction false} ReachedLinkIsListed(dir: Bytes, es: seq<Entry>, recursive: bool, names: seq<Bytes>, target: Bytes)
    requires LinkAtEnd(es, recursive, names, target)
    ensures Link(PathOf(dir, names), target) in AllLinks(dir, es, recursive)
    decreases |names|
  {
    var last, l := LinkEntry(names[|names| - 1], Some(target)), Link(PathOf(dir, names), target);
    var i :| 0 <= i < |es| && Leads(es[i], recursive, names, last);
    PathOfMore(dir, names);
    if |names| == 1 {
      OwnLinksHave(dir, es, |es|, i, l);
    } else {
      ReachedLinkIsListed(Paths.Join(dir, names[0]), es[i].entries, true, names[1..], target);
      InnerLinksHave(dir, es, |es|, i, l);
    }
  }

  lemma {:induction false} ListedLinkIsReached(dir: Bytes, es: seq<Entry>, recursive: bool, l: Link) returns (names: seq<Bytes>)
    requires l in AllLinks(dir, es, recursive)
    ensures LinkAtEnd(es, recursive, names, l.target) && l.path == PathOf(dir, names)
    decreases es
  {
    if l in OwnLinks(dir, es, |es|) {
      var m := OwnLinkIn(dir, es, |es|, l);
      names := [es[m].name];
      assert Leads(es[m], recursive, names, LinkEntry(names[0], Some(l.target)));
    } else {
      var m := InnerLinkIn(dir, es, |es|, l);
      var rest := ListedLinkIsReached(Paths.Join(dir, es[m].name), es[m].entries, true, l);
      names := [es[m].name] + rest;
      assert names[1..] == rest && names[|names| - 1] == rest[|rest| - 1];
      assert Leads(es[m], recursive, names, LinkEntry(rest[|rest| - 1], Some(l.target)));
    }
    PathOfMore(dir, names);
  }

  /** The symlinks served are exactly those of the directory whose target can be read. */
  lemma ListedLinkIff(dir: Bytes, es: seq<Entry>, recursive: bool, l: Link)
    ensures l in AllLinks(dir, es, recursive) <==>
            exists names :: LinkAtEnd(es, recursive, names, l.target) && PathOf(dir, names) == l.path
  {
    if l in AllLinks(dir, es, recursive) {
      var names := ListedLinkIsReached(dir, es, recursive, l);
    }
    if names :| LinkAtEnd(es, recursive, names, l.target) && PathOf(dir, names) == l.path {
      ReachedLinkIsListed(dir, es, recursive, names, l.target);
    }
  }

  // ------------------------------------------------------ paths and places

  lemma {:induction false} NamesAreGood(es: seq<Entry>, recursive: bool, names: seq<Bytes>, e: Entry)
    requires GoodTree(es) && Reached(es, recursive, names, e)
    ensures names != [] && forall k | 0 <= k < |names| :: names[k] != []
    decreases |names|
  {
    var i :| 0 <= i < |es| && Leads(es[i], recursive, names, e);
    assert EntryName(es[i].name);
    if |names| > 1 {
      NamesAreGood(es[i].entries, true, names[1..], e);
      assert forall k | 1 <= k < |names| :: names[k] == names[1..][k - 1];
    }
  }

  /** A path by names is that of the directory, and the names with separators between them. */
  lemma {:induction false} PathIs(dir: Bytes, names: seq<Bytes>)
    requires names != [] && forall k | 0 <= k < |names| :: names[k] != []
    ensures PathOf(dir, names) == Paths.Join(dir, CleanPaths.Joined(names))
    decreases |names|
  {
    PathOfMore(dir, names);
    if |names| > 1 {
      PathIs(Paths.Join(dir, names[0]), names[1..]);
      JoinInner(dir, names[0], names[1..]);
      assert [names[0]] + names[1..] == names;
    }
  }

  /** What names lead to in the directory served goes where they lead in the folder. */
  lemma PlaceOfNames(base: Bytes, es: seq<Entry>, recursive: bool, names: seq<Bytes>, e: Entry, root: Bytes)
    requires GoodTree(es) && Reached(es, recursive, names, e)
    ensures Paths.Join(root, Paths.Rel(base, PathOf(base, names))) == PathOf(root, names)
  {
    NamesAreGood(es, recursive, names, e);
    PathIs(base, names);
    PathIs(root, names);
    Paths.RelOfJoin(base, CleanPaths.Joined(names));
  }

  // ------------------------------------------------------------- the receiver

  /** A file cannot be put at a place exactly if a file is above it or files are below it. */
  lemma NoFileIff(files: map<Bytes, Bytes>, place: Bytes)
    ensures Places.NoFile(files, place) <==> exists p :: p in files && (p + [0x2F] <= place || place + [0x2F] <= p)
    ensures Places.NoFile(files, place) <==> Barred(files, place)
    ensures Places.NoLink(files, place) <==> place in files || Barred(files, place)
  {
    if p :| p in files && (p + [0x2F] <= place || place + [0x2F] <= p) {
      assert Places.NoFile(files, place);
    }
  }
}
