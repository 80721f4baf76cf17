/** A directory or a file as it is served: every such thing meets what the protocol needs. */
module Served {
  import opened Wrappers
  import opened Bytes
  import opened Fsys
  import opened Listings
  import opened Protocol
  import opened Invariant
  import CleanPaths
  import Paths
  import Places

  // ------------------------------------------------ distinct files, distinct paths

  /** A name a directory entry can have. */
  predicate GoodName(n: Bytes) {
    CleanPaths.Proper(n)
  }

  predicate NamesDiffer(es: seq<Entry>, i: nat, j: nat)
    requires i < |es| && j < |es|
  {
    es[i].name != es[j].name
  }

  predicate WellNamedEntry(e: Entry) {
    GoodName(e.name) && (e.DirEntry? ==> WellNamed(e.entries))
  }

  /** Names are good and differ within each directory: what every file system guarantees. */
  predicate WellNamed(es: seq<Entry>) {
    && (forall i | 0 <= i < |es| :: WellNamedEntry(es[i]))
    && (forall i, j | 0 <= i < j < |es| :: NamesDiffer(es, i, j))
  }

  /** p is the entry n of dir, or lies below it. */
  predicate Under(dir: Bytes, n: Bytes, p: Bytes) {
    p == Paths.Join(dir, n) || Paths.Below(Paths.Join(dir, n)) <= p
  }

  lemma NoLonger(rest: Bytes, n: Bytes, m: Bytes)
    requires n <= rest && m <= rest && GoodName(m) && (|n| < |rest| ==> rest[|n|] == Paths.SLASH)
    ensures |m| <= |n|
  {
  }

  /** Nothing lies under two entries of one directory. */
  lemma UnderOne(dir: Bytes, n: Bytes, m: Bytes, p: Bytes)
    requires GoodName(n) && GoodName(m) && Under(dir, n, p) && Under(dir, m, p)
    ensures n == m
  {
    var rest := p[|Paths.Below(dir)|..];
    NoLonger(rest, n, m);
    NoLonger(rest, m, n);
    assert n == rest[..|n|] && m == rest[..|m|];
  }

  // Every file comes from one entry, and lies under it.

  /** f is what GetFile says about the file at its path. */
  predicate AsFound(v: Volume, f: FileInfo) {
    f.path in v.files && f == FileInfo(0, f.name, f.path, [], |v.files[f.path]|, CheckSum(v, v.files[f.path]), 0)
  }

  predicate FromEntry(v: Volume, dir: Bytes, es: seq<Entry>, m: nat, inner: bool, f: FileInfo)
    requires m < |es|
  {
    && (if inner then es[m].DirEntry? else es[m].FileEntry? && f.name == es[m].name && f.path == Paths.Join(dir, f.name))
    && (inner ==> Paths.Below(Paths.Join(dir, es[m].name)) <= f.path)
    && AsFound(v, f)
  }

  ghost predicate From(v: Volume, dir: Bytes, es: seq<Entry>, k: nat, inner: bool, f: FileInfo)
    requires k <= |es|
  {
    exists m :: 0 <= m < k && FromEntry(v, dir, es, m, inner, f)
  }

  ghost predicate AllFrom(v: Volume, dir: Bytes, es: seq<Entry>, k: nat, inner: bool, fs: seq<FileInfo>)
    requires k <= |es|
  {
    forall i | 0 <= i < |fs| :: From(v, dir, es, k, inner, fs[i])
  }

  lemma {:induction false} OwnFrom(v: Volume, dir: Bytes, es: seq<Entry>, k: nat)
    requires k <= |es|
    ensures AllFrom(v, dir, es, k, false, OwnFiles(v, dir, es, k))
  {
    if k > 0 {
      OwnFrom(v, dir, es, k - 1);
      forall i | 0 <= i < |OwnFiles(v, dir, es, k)|
        ensures From(v, dir, es, k, false, OwnFiles(v, dir, es, k)[i])
      {
        if i < |OwnFiles(v, dir, es, k - 1)| {
          assert From(v, dir, es, k - 1, false, OwnFiles(v, dir, es, k - 1)[i]);
        } else {
          assert FromEntry(v, dir, es, k - 1, false, OwnFile(v, dir, es[k - 1])[0]);
        }
      }
    }
  }

  lemma FromIsBelow(v: Volume, dir: Bytes, es: seq<Entry>, k: nat, inner: bool, f: FileInfo)
    requires WellNamed(es) && k <= |es| && From(v, dir, es, k, inner, f)
    ensures Paths.Below(dir) <= f.path && AsFound(v, f)
  {
    var m :| 0 <= m < k && FromEntry(v, dir, es, m, inner, f);
    assert WellNamedEntry(es[m]);
    assert Paths.Below(dir) <= Paths.Join(dir, es[m].name);
  }

  /** Everything below a directory has a path below it. */
  lemma {:induction false} AllBelow(v: Volume, dir: Bytes, es: seq<Entry>, i: nat)
    requires WellNamed(es) && i < |AllFiles(v, dir, es, true)|
    ensures Paths.Below(dir) <= AllFiles(v, dir, es, true)[i].path
    ensures AsFound(v, AllFiles(v, dir, es, true)[i])
    decreases es, 1, 0
  {
    var own := OwnFiles(v, dir, es, |es|);
    if i < |own| {
      OwnFrom(v, dir, es, |es|);
      FromIsBelow(v, dir, es, |es|, false, own[i]);
    } else {
      InnerFrom(v, dir, es, |es|);
      FromIsBelow(v, dir, es, |es|, true, InnerFiles(v, dir, es, |es|)[i - |own|]);
    }
  }

  lemma {:induction false} InnerFrom(v: Volume, dir: Bytes, es: seq<Entry>, k: nat)
    requires WellNamed(es) && k <= |es|
    ensures AllFrom(v, dir, es, k, true, InnerFiles(v, dir, es, k))
    decreases es, 0, k
  {
    if k > 0 {
      InnerFrom(v, dir, es, k - 1);
      var was, e := InnerFiles(v, dir, es, k - 1), es[k - 1];
      assert WellNamedEntry(e) && InnerFiles(v, dir, es, k) == was + InnerOf(v, dir, e);
      forall i | 0 <= i < |InnerFiles(v, dir, es, k)|
        ensures From(v, dir, es, k, true, InnerFiles(v, dir, es, k)[i])
      {
        if i < |was| {
          assert From(v, dir, es, k - 1, true, was[i]);
        } else {
          AllBelow(v, Paths.Join(dir, e.name), e.entries, i - |was|);
          assert FromEntry(v, dir, es, k - 1, true, InnerOf(v, dir, e)[i - |was|]);
        }
      }
    }
  }

  predicate PathsDiffer(fs: seq<FileInfo>, i: nat, j: nat)
    requires i < |fs| && j < |fs|
  {
    fs[i].path != fs[j].path
  }

  ghost predicate DistinctPaths(fs: seq<FileInfo>) {
    forall i, j | 0 <= i < j < |fs| :: PathsDiffer(fs, i, j)
  }

  lemma {:induction false} DistinctBoth(a: seq<FileInfo>, b: seq<FileInfo>)
    requires DistinctPaths(a) && DistinctPaths(b)
    requires forall i, j | 0 <= i < |a| && 0 <= j < |b| :: a[i].path != b[j].path
    ensures DistinctPaths(a + b)
  {
    forall i, j | 0 <= i < j < |a + b|
      ensures PathsDiffer(a + b, i, j)
    {
      if j < |a| {
        assert PathsDiffer(a, i, j);
      } else if i >= |a| {
        assert PathsDiffer(b, i - |a|, j - |a|);
      } else {
        assert a[i].path != b[j - |a|].path;
      }
    }
  }

  /** Files from different entries have different paths. */
  lemma {:induction false} EntriesApart(v: Volume, dir: Bytes, es: seq<Entry>, x: FileInfo, m: nat, xi: bool, y: FileInfo, n: nat, yi: bool)
    requires WellNamed(es) && m < |es| && n < |es| && m != n
    requires FromEntry(v, dir, es, m, xi, x) && FromEntry(v, dir, es, n, yi, y)
    ensures x.path != y.path
  {
    assert WellNamedEntry(es[m]) && WellNamedEntry(es[n]);
    assert if m < n then NamesDiffer(es, m, n) else NamesDiffer(es, n, m);
    if x.path == y.path {
      UnderOne(dir, es[m].name, es[n].name, x.path);
    }
  }

  lemma OwnApart(v: Volume, dir: Bytes, es: seq<Entry>, k: nat, f: FileInfo, g: FileInfo)
    requires WellNamed(es) && k < |es| && From(v, dir, es, k, false, f) && OwnFile(v, dir, es[k]) == [g]
    ensures f.path != g.path
  {
    var m :| 0 <= m < k && FromEntry(v, dir, es, m, false, f);
    assert FromEntry(v, dir, es, k, false, g);
    EntriesApart(v, dir, es, f, m, false, g, k, false);
  }

  lemma {:induction false} OwnDistinct(v: Volume, dir: Bytes, es: seq<Entry>, k: nat)
    requires WellNamed(es) && k <= |es|
    ensures DistinctPaths(OwnFiles(v, dir, es, k))
  {
    if k > 0 {
      OwnDistinct(v, dir, es, k - 1);
      OwnFrom(v, dir, es, k - 1);
      var was, more := OwnFiles(v, dir, es, k - 1), OwnFile(v, dir, es[k - 1]);
      forall i, j | 0 <= i < |was| && 0 <= j < |more|
        ensures was[i].path != more[j].path
      {
        assert From(v, dir, es, k - 1, false, was[i]);
        OwnApart(v, dir, es, k - 1, was[i], more[j]);
      }
      DistinctBoth(was, more);
    }
  }

  lemma {:induction false} InnerApart(v: Volume, dir: Bytes, es: seq<Entry>, k: nat, f: FileInfo, j: nat)
    requires WellNamed(es) && k < |es| && From(v, dir, es, k, true, f) && j < |InnerOf(v, dir, es[k])|
    ensures f.path != InnerOf(v, dir, es[k])[j].path
  {
    assert WellNamedEntry(es[k]);
    AllBelow(v, Paths.Join(dir, es[k].name), es[k].entries, j);
    var m :| 0 <= m < k && FromEntry(v, dir, es, m, true, f);
    EntriesApart(v, dir, es, f, m, true, InnerOf(v, dir, es[k])[j], k, true);
  }

  lemma {:induction false} InnerDistinct(v: Volume, dir: Bytes, es: seq<Entry>, k: nat)
    requires WellNamed(es) && k <= |es|
    ensures DistinctPaths(InnerFiles(v, dir, es, k))
    decreases es, 0, k
  {
    if k > 0 {
      InnerDistinct(v, dir, es, k - 1);
      InnerOfDistinct(v, dir, es, k - 1);
      InnerFrom(v, dir, es, k - 1);
      AddInner(v, dir, es, k - 1, InnerFiles(v, dir, es, k - 1), InnerOf(v, dir, es[k - 1]));
    }
  }

  lemma {:induction false} AddInner(v: Volume, dir: Bytes, es: seq<Entry>, k: nat, was: seq<FileInfo>, more: seq<FileInfo>)
    requires WellNamed(es) && k < |es| && AllFrom(v, dir, es, k, true, was) && more == InnerOf(v, dir, es[k])
    requires DistinctPaths(was) && DistinctPaths(more)
    ensures DistinctPaths(was + more)
  {
    forall i, j | 0 <= i < |was| && 0 <= j < |more|
      ensures was[i].path != more[j].path
    {
      assert From(v, dir, es, k, true, was[i]);
      InnerApart(v, dir, es, k, was[i], j);
    }
    DistinctBoth(was, more);
  }

  lemma {:induction false} InnerOfDistinct(v: Volume, dir: Bytes, es: seq<Entry>, k: nat)
    requires WellNamed(es) && k < |es|
    ensures DistinctPaths(InnerOf(v, dir, es[k]))
    decreases es, 0, k
  {
    assert WellNamedEntry(es[k]);
    if es[k].DirEntry? {
      AllDistinct(v, Paths.Join(dir, es[k].name), es[k].entries, true);
    }
  }

  /** No two files served from a directory have the same path. */
  lemma {:induction false} AllDistinct(v: Volume, dir: Bytes, es: seq<Entry>, recursive: bool)
    requires WellNamed(es)
    ensures DistinctPaths(AllFiles(v, dir, es, recursive))
    decreases es, 1, 0
  {
    var own, inner := OwnFiles(v, dir, es, |es|), InnerFiles(v, dir, es, |es|);
    OwnDistinct(v, dir, es, |es|);
    assert own + [] == own;
    if recursive {
      InnerDistinct(v, dir, es, |es|);
      OwnFrom(v, dir, es, |es|);
      InnerFrom(v, dir, es, |es|);
      forall i, j | 0 <= i < |own| && 0 <= j < |inner|
        ensures own[i].path != inner[j].path
      {
        assert From(v, dir, es, |es|, false, own[i]) && From(v, dir, es, |es|, true, inner[j]);
        var m :| 0 <= m < |es| && FromEntry(v, dir, es, m, false, own[i]);
        var n :| 0 <= n < |es| && FromEntry(v, dir, es, n, true, inner[j]);
        EntriesApart(v, dir, es, own[i], m, false, inner[j], n, true);
      }
      DistinctBoth(own, inner);
    }
  }

  // ------------------------------- files and symlinks keep out of each other's way

  /** Which of the first k entries a file lying directly in dir, or below it, comes from. */
  lemma {:induction false} OwnIn(v: Volume, dir: Bytes, es: seq<Entry>, k: nat, f: FileInfo) returns (m: nat)
    requires k <= |es| && f in OwnFiles(v, dir, es, k)
    ensures m < k && OwnFile(v, dir, es[m]) == [f] && es[m].FileEntry? && f.path == Paths.Join(dir, es[m].name)
  {
    if f in OwnFile(v, dir, es[k - 1]) {
      m := k - 1;
    } else {
      m := OwnIn(v, dir, es, k - 1, f);
    }
  }

  lemma {:induction false} InnerIn(v: Volume, dir: Bytes, es: seq<Entry>, k: nat, f: FileInfo) returns (m: nat)
    requires k <= |es| && f in InnerFiles(v, dir, es, k)
    ensures m < k && es[m].DirEntry? && f in AllFiles(v, Paths.Join(dir, es[m].name), es[m].entries, true)
  {
    if f in InnerOf(v, dir, es[k - 1]) {
      m := k - 1;
    } else {
      m := InnerIn(v, dir, es, k - 1, f);
    }
  }

  lemma {:induction false} OwnLinkIn(dir: Bytes, es: seq<Entry>, k: nat, l: Link) returns (m: nat)
    requires k <= |es| && l in OwnLinks(dir, es, k)
    ensures m < k && OwnLink(dir, es[m]) == [l] && es[m].LinkEntry? && l.path == Paths.Join(dir, es[m].name)
  {
    if l in OwnLink(dir, es[k - 1]) {
      m := k - 1;
    } else {
      m := OwnLinkIn(dir, es, k - 1, l);
    }
  }

  lemma {:induction false} InnerLinkIn(dir: Bytes, es: seq<Entry>, k: nat, l: Link) returns (m: nat)
    requires k <= |es| && l in InnerLinks(dir, es, k)
    ensures m < k && es[m].DirEntry? && l in AllLinks(Paths.Join(dir, es[m].name), es[m].entries, true)
  {
    if l in InnerLinksOf(dir, es[k - 1]) {
      m := k - 1;
    } else {
      m := InnerLinkIn(dir, es, k - 1, l);
    }
  }

  /** Entry m is where a file of the listing comes from. */
  predicate FileVia(v: Volume, dir: Bytes, es: seq<Entry>, m: nat, f: FileInfo)
    requires m < |es|
  {
    if es[m].DirEntry? then f in AllFiles(v, Paths.Join(dir, es[m].name), es[m].entries, true)
    else es[m].FileEntry? && f.path == Paths.Join(dir, es[m].name)
  }

  predicate LinkVia(dir: Bytes, es: seq<Entry>, m: nat, l: Link)
    requires m < |es|
  {
    if es[m].DirEntry? then l in AllLinks(Paths.Join(dir, es[m].name), es[m].entries, true)
    else es[m].LinkEntry? && l.path == Paths.Join(dir, es[m].name)
  }

  lemma {:induction false} ViaOf(v: Volume, dir: Bytes, es: seq<Entry>, recursive: bool, f: FileInfo) returns (m: nat)
    requires f in AllFiles(v, dir, es, recursive)
    ensures m < |es| && FileVia(v, dir, es, m, f)
  {
    if f in OwnFiles(v, dir, es, |es|) {
      m := OwnIn(v, dir, es, |es|, f);
    } else {
      m := InnerIn(v, dir, es, |es|, f);
    }
  }

  lemma {:induction false} LinkViaOf(dir: Bytes, es: seq<Entry>, recursive: bool, l: Link) returns (m: nat)
    requires l in AllLinks(dir, es, recursive)
    ensures m < |es| && LinkVia(dir, es, m, l)
  {
    if l in OwnLinks(dir, es, |es|) {
      m := OwnLinkIn(dir, es, |es|, l);
    } else {
      m := InnerLinkIn(dir, es, |es|, l);
    }
  }

  lemma {:induction false} FileUnder(v: Volume, dir: Bytes, es: seq<Entry>, m: nat, f: FileInfo)
    requires WellNamed(es) && m < |es| && FileVia(v, dir, es, m, f)
    ensures Under(dir, es[m].name, f.path)
  {
    assert WellNamedEntry(es[m]);
    if es[m].DirEntry? {
      var fs := AllFiles(v, Paths.Join(dir, es[m].name), es[m].entries, true);
      var i :| 0 <= i < |fs| && fs[i] == f;
      AllBelow(v, Paths.Join(dir, es[m].name), es[m].entries, i);
    }
  }

  lemma {:induction false} LinkBelow(dir: Bytes, es: seq<Entry>, recursive: bool, l: Link)
    requires l in AllLinks(dir, es, recursive)
    ensures Paths.Below(dir) <= l.path
    decreases es
  {
    var m := LinkViaOf(dir, es, recursive, l);
    if es[m].DirEntry? {
      LinkBelow(Paths.Join(dir, es[m].name), es[m].entries, true, l);
    }
  }

  lemma {:induction false} LinkUnder(dir: Bytes, es: seq<Entry>, m: nat, l: Link)
    requires m < |es| && LinkVia(dir, es, m, l)
    ensures Under(dir, es[m].name, l.path)
  {
    if es[m].DirEntry? {
      LinkBelow(Paths.Join(dir, es[m].name), es[m].entries, true, l);
    }
  }

  /** What lies below something that is under entry n is itself under entry n. */
  lemma UnderAbove(dir: Bytes, n: Bytes, p: Bytes, q: Bytes)
    requires n != [] && Under(dir, n, p) && Paths.Below(p) <= q
    ensures Under(dir, n, q)
  {
  }

  lemma SameEntry(dir: Bytes, es: seq<Entry>, m: nat, n: nat, p: Bytes)
    requires WellNamed(es) && m < |es| && n < |es| && Under(dir, es[m].name, p) && Under(dir, es[n].name, p)
    ensures m == n
  {
    assert WellNamedEntry(es[m]) && WellNamedEntry(es[n]);
    UnderOne(dir, es[m].name, es[n].name, p);
    assert m < n ==> NamesDiffer(es, m, n);
    assert n < m ==> NamesDiffer(es, n, m);
  }

  /** No file of a listing lies below another one. */
  lemma {:induction false} FilesNotAbove(v: Volume, dir: Bytes, es: seq<Entry>, recursive: bool, f: FileInfo, g: FileInfo)
    requires WellNamed(es) && f in AllFiles(v, dir, es, recursive) && g in AllFiles(v, dir, es, recursive)
    ensures !(Paths.Below(f.path) <= g.path)
    decreases es
  {
    var m := ViaOf(v, dir, es, recursive, f);
    var n := ViaOf(v, dir, es, recursive, g);
    FileUnder(v, dir, es, m, f);
    FileUnder(v, dir, es, n, g);
    assert WellNamedEntry(es[m]);
    if Paths.Below(f.path) <= g.path {
      UnderAbove(dir, es[m].name, f.path, g.path);
      SameEntry(dir, es, m, n, g.path);
      if es[m].DirEntry? {
        FilesNotAbove(v, Paths.Join(dir, es[m].name), es[m].entries, true, f, g);
      }
    }
  }

  /** No symlink of a listing has the path of a file. */
  lemma {:induction false} LinkIsNoFile(v: Volume, dir: Bytes, es: seq<Entry>, recursive: bool, l: Link, f: FileInfo)
    requires WellNamed(es) && l in AllLinks(dir, es, recursive) && f in AllFiles(v, dir, es, recursive)
    ensures l.path != f.path
    decreases es
  {
    var m := LinkViaOf(dir, es, recursive, l);
    var n := ViaOf(v, dir, es, recursive, f);
    LinkUnder(dir, es, m, l);
    FileUnder(v, dir, es, n, f);
    if l.path == f.path {
      SameEntry(dir, es, m, n, f.path);
      assert WellNamedEntry(es[m]);
      if es[m].DirEntry? {
        LinkIsNoFile(v, Paths.Join(dir, es[m].name), es[m].entries, true, l, f);
      }
    }
  }

  /** No symlink of a listing lies below a file of it. */
  lemma {:induction false} FileNotAboveLink(v: Volume, dir: Bytes, es: seq<Entry>, recursive: bool, f: FileInfo, l: Link)
    requires WellNamed(es) && f in AllFiles(v, dir, es, recursive) && l in AllLinks(dir, es, recursive)
    ensures !(Paths.Below(f.path) <= l.path)
    decreases es
  {
    var m := ViaOf(v, dir, es, recursive, f);
    var n := LinkViaOf(dir, es, recursive, l);
    FileUnder(v, dir, es, m, f);
    LinkUnder(dir, es, n, l);
    assert WellNamedEntry(es[m]);
    if Paths.Below(f.path) <= l.path {
      UnderAbove(dir, es[m].name, f.path, l.path);
      SameEntry(dir, es, m, n, l.path);
      if es[m].DirEntry? {
        FileNotAboveLink(v, Paths.Join(dir, es[m].name), es[m].entries, true, f, l);
      }
    }
  }

  /** No file of a listing lies below a symlink of it. */
  lemma {:induction false} LinkNotAboveFile(v: Volume, dir: Bytes, es: seq<Entry>, recursive: bool, l: Link, f: FileInfo)
    requires WellNamed(es) && l in AllLinks(dir, es, recursive) && f in AllFiles(v, dir, es, recursive)
    ensures !(Paths.Below(l.path) <= f.path)
    decreases es
  {
    var m := LinkViaOf(dir, es, recursive, l);
    var n := ViaOf(v, dir, es, recursive, f);
    LinkUnder(dir, es, m, l);
    FileUnder(v, dir, es, n, f);
    assert WellNamedEntry(es[m]);
    if Paths.Below(l.path) <= f.path {
      UnderAbove(dir, es[m].name, l.path, f.path);
      SameEntry(dir, es, m, n, f.path);
      if es[m].DirEntry? {
        LinkNotAboveFile(v, Paths.Join(dir, es[m].name), es[m].entries, true, l, f);
      }
    }
  }

  /** The path of an inner entry, by names. */
  lemma JoinInner(dir: Bytes, n: Bytes, names: seq<Bytes>)
    requires n != [] && names != []
    ensures Paths.Join(Paths.Join(dir, n), CleanPaths.Joined(names)) == Paths.Join(dir, CleanPaths.Joined([n] + names))
  {
    assert ([n] + names)[1..] == names;
    assert |Paths.Join(dir, n)| > 1;
  }

  /** The path of a file in a tree is that of the tree and names of entries: nothing in it needs cleaning. */
  lemma {:induction false} TreeNames(v: Volume, dir: Bytes, es: seq<Entry>, recursive: bool, f: FileInfo) returns (names: seq<Bytes>)
    requires WellNamed(es) && f in AllFiles(v, dir, es, recursive)
    ensures names != [] && CleanPaths.AllProper(names) && f.path == Paths.Join(dir, CleanPaths.Joined(names))
    decreases es
  {
    var m := ViaOf(v, dir, es, recursive, f);
    var n := es[m].name;
    assert WellNamedEntry(es[m]);
    if es[m].DirEntry? {
      var inner := TreeNames(v, Paths.Join(dir, n), es[m].entries, true, f);
      JoinInner(dir, n, inner);
      names := [n] + inner;
    } else {
      names := [n];
    }
  }

  lemma {:induction false} LinkNames(dir: Bytes, es: seq<Entry>, recursive: bool, l: Link) returns (names: seq<Bytes>)
    requires WellNamed(es) && l in AllLinks(dir, es, recursive)
    ensures names != [] && CleanPaths.AllProper(names) && l.path == Paths.Join(dir, CleanPaths.Joined(names))
    decreases es
  {
    var m := LinkViaOf(dir, es, recursive, l);
    var n := es[m].name;
    assert WellNamedEntry(es[m]);
    if es[m].DirEntry? {
      var inner := LinkNames(Paths.Join(dir, n), es[m].entries, true, l);
      JoinInner(dir, n, inner);
      names := [n] + inner;
    } else {
      names := [n];
    }
  }

  /** For the files of a tree under a clean path filepath.Rel and filepath.Join do what Paths says, with any clean root. */
  lemma FilePathIsPlain(v: Volume, base: Bytes, es: seq<Entry>, recursive: bool, f: FileInfo, root: Bytes)
    requires WellNamed(es) && f in AllFiles(v, base, es, recursive)
    requires CleanPaths.Absolute(base) && CleanPaths.Clean(base) == base && CleanPaths.Clean(root) == root
    ensures CleanPaths.Rel(base, f.path) == Some(Paths.Rel(base, f.path))
    ensures CleanPaths.Join(root, Paths.Rel(base, f.path)) == Paths.Join(root, Paths.Rel(base, f.path))
  {
    var names := TreeNames(v, base, es, recursive, f);
    CleanPaths.PlainRel(base, names);
    CleanPaths.PlainJoin(root, names);
    Paths.RelOfJoin(base, CleanPaths.Joined(names));
  }

  lemma LinkPathIsPlain(base: Bytes, es: seq<Entry>, recursive: bool, l: Link, root: Bytes)
    requires WellNamed(es) && l in AllLinks(base, es, recursive)
    requires CleanPaths.Absolute(base) && CleanPaths.Clean(base) == base && CleanPaths.Clean(root) == root
    ensures CleanPaths.Rel(base, l.path) == Some(Paths.Rel(base, l.path))
    ensures CleanPaths.Join(root, Paths.Rel(base, l.path)) == Paths.Join(root, Paths.Rel(base, l.path))
  {
    var names := LinkNames(base, es, recursive, l);
    CleanPaths.PlainRel(base, names);
    CleanPaths.PlainJoin(root, names);
    Paths.RelOfJoin(base, CleanPaths.Joined(names));
  }

  predicate LinksDiffer(ls: seq<Link>, i: nat, j: nat)
    requires i < |ls| && j < |ls|
  {
    ls[i].path != ls[j].path
  }

  ghost predicate DistinctLinks(ls: seq<Link>) {
    forall i, j | 0 <= i < j < |ls| :: LinksDiffer(ls, i, j)
  }

  lemma {:induction false} LinksOfBoth(a: seq<Link>, b: seq<Link>)
    requires DistinctLinks(a) && DistinctLinks(b) && forall x, y | x in a && y in b :: x.path != y.path
    ensures DistinctLinks(a + b)
  {
    forall i, j | 0 <= i < j < |a + b|
      ensures LinksDiffer(a + b, i, j)
    {
      if j < |a| {
        assert LinksDiffer(a, i, j);
      } else if i >= |a| {
        assert LinksDiffer(b, i - |a|, j - |a|);
      } else {
        assert a[i] in a && b[j - |a|] in b;
      }
    }
  }

  lemma {:induction false} OwnLinksApart(dir: Bytes, es: seq<Entry>, k: nat, x: Link, y: Link)
    requires WellNamed(es) && k < |es| && x in OwnLinks(dir, es, k) && y in OwnLink(dir, es[k])
    ensures x.path != y.path
  {
    var m := OwnLinkIn(dir, es, k, x);
    LinkUnder(dir, es, m, x);
    LinkUnder(dir, es, k, y);
    if x.path == y.path {
      SameEntry(dir, es, m, k, x.path);
    }
  }

  lemma {:induction false} OwnLinksDistinct(dir: Bytes, es: seq<Entry>, k: nat)
    requires WellNamed(es) && k <= |es|
    ensures DistinctLinks(OwnLinks(dir, es, k))
  {
    if k > 0 {
      OwnLinksDistinct(dir, es, k - 1);
      var was, more := OwnLinks(dir, es, k - 1), OwnLink(dir, es[k - 1]);
      forall x, y | x in was && y in more
        ensures x.path != y.path
      {
        OwnLinksApart(dir, es, k - 1, x, y);
      }
      LinksOfBoth(was, more);
    }
  }

  lemma {:induction false} InnerLinksDistinct(dir: Bytes, es: seq<Entry>, k: nat)
    requires WellNamed(es) && k <= |es|
    ensures DistinctLinks(InnerLinks(dir, es, k))
    decreases es, 0, k
  {
    if k > 0 {
      InnerLinksDistinct(dir, es, k - 1);
      assert WellNamedEntry(es[k - 1]);
      if es[k - 1].DirEntry? {
        AllLinksDistinct(Paths.Join(dir, es[k - 1].name), es[k - 1].entries, true);
      }
      forall x, y | x in InnerLinks(dir, es, k - 1) && y in InnerLinksOf(dir, es[k - 1])
        ensures x.path != y.path
      {
        InnerLinksApart(dir, es, k - 1, x, y);
      }
      LinksOfBoth(InnerLinks(dir, es, k - 1), InnerLinksOf(dir, es[k - 1]));
    }
  }

  lemma {:induction false} InnerLinksApart(dir: Bytes, es: seq<Entry>, k: nat, x: Link, y: Link)
    requires WellNamed(es) && k < |es| && x in InnerLinks(dir, es, k) && y in InnerLinksOf(dir, es[k])
    ensures x.path != y.path
  {
    var m := InnerLinkIn(dir, es, k, x);
    LinkUnder(dir, es, m, x);
    LinkUnder(dir, es, k, y);
    if x.path == y.path {
      SameEntry(dir, es, m, k, x.path);
    }
  }

  /** No two symlinks of a listing have the same path. */
  lemma {:induction false} AllLinksDistinct(dir: Bytes, es: seq<Entry>, recursive: bool)
    requires WellNamed(es)
    ensures DistinctLinks(AllLinks(dir, es, recursive))
    decreases es, 1, 0
  {
    var own, inner := OwnLinks(dir, es, |es|), InnerLinks(dir, es, |es|);
    OwnLinksDistinct(dir, es, |es|);
    assert own + [] == own;
    if recursive {
      InnerLinksDistinct(dir, es, |es|);
      forall x, y | x in own && y in inner
        ensures x.path != y.path
      {
        var m := OwnLinkIn(dir, es, |es|, x);
        var n := InnerLinkIn(dir, es, |es|, y);
        LinkUnder(dir, es, m, x);
        LinkUnder(dir, es, n, y);
        if x.path == y.path {
          SameEntry(dir, es, m, n, x.path);
        }
      }
      LinksOfBoth(own, inner);
    }
  }

  // ------------------------------------------------------------ destinations

  /** The file with its path below the directory served, as SetRelativePaths leaves it. */
  function Relative(base: Bytes, f: FileInfo): FileInfo {
    f.(rel := Paths.Rel(base, f.path))
  }

  /** White space names or not: a file goes below the download folder where it lies below the directory served. */
  lemma {:induction false} LocalIsRel(v: Volume, base: Bytes, es: seq<Entry>, recursive: bool, i: nat)
    requires WellNamed(es) && i < |AllFiles(v, base, es, recursive)|
    ensures var f := AllFiles(v, base, es, recursive)[i];
            && AsFound(v, f)
            && Places.Local(Meta(Relative(base, f))) == Paths.Rel(base, f.path)
            && f.path == Paths.Join(base, Paths.Rel(base, f.path))
  {
    var own, f := OwnFiles(v, base, es, |es|), AllFiles(v, base, es, recursive)[i];
    if i < |own| {
      OwnFrom(v, base, es, |es|);
      assert From(v, base, es, |es|, false, own[i]);
      Paths.RelOfJoin(base, f.name);
    } else {
      InnerFrom(v, base, es, |es|);
      assert From(v, base, es, |es|, true, InnerFiles(v, base, es, |es|)[i - |own|]);
      var m :| 0 <= m < |es| && FromEntry(v, base, es, m, true, f);
      BelowEntry(base, es[m].name, f.path);
    }
  }

  lemma BelowEntry(base: Bytes, n: Bytes, p: Bytes)
    requires GoodName(n) && Paths.Below(Paths.Join(base, n)) <= p
    ensures p == Paths.Join(base, Paths.Rel(base, p)) && !Paths.IsBlank(Paths.Rel(base, p))
  {
    var r := Paths.Rel(base, p);
    assert p == Paths.Join(base, r) && r[|n|] == Paths.SLASH;
    if Paths.IsBlank(r) {
      Paths.BlankHasNoSlash(r, 0);
    }
  }

  // ---------------------------------------------------------------- settings

  /** Every target is absolute, as filepath.Rel demands. */
  predicate AllAbsolute(ls: seq<Link>) {
    forall i | 0 <= i < |ls| :: CleanPaths.Absolute(ls[i].target)
  }

  function Related(base: Bytes, l: Link): Link {
    match RelativeLink(base, l) case Some(r) => r case None => l
  }

  /** A run that serves the directory `base`, named `name`, with these entries. */
  function DirSetting(v: Volume, name: Bytes, base: Bytes, es: seq<Entry>, recursive: bool,
                      key: Bytes, downloads: Bytes, before: map<Bytes, Bytes>): Setting
  {
    var fs, ls := AllFiles(v, base, es, recursive), AllLinks(base, es, recursive);
    Setting(true, name, Wrap(TotalSize(fs)),
            seq(|fs|, i requires 0 <= i < |fs| => Relative(base, fs[i])),
            seq(|ls|, i requires 0 <= i < |ls| => Related(base, ls[i])), AllAbsolute(ls),
            v.files, key, x => CheckSum(v, x), Places.Dest, Places.NoFile, Places.NoLink, downloads, before)
  }

  /** A run that serves one file. */
  function FileSetting(v: Volume, f: FileInfo, key: Bytes, downloads: Bytes, before: map<Bytes, Bytes>): Setting {
    Setting(false, [], f.size, [f], [], true, v.files, key, x => CheckSum(v, x), Places.Dest, Places.NoFile, Places.NoLink, downloads, before)
  }

  lemma {:induction false} SizesAgree(c: Setting, base: Bytes, fs: seq<FileInfo>, k: nat)
    requires |c.served| == |fs| && k <= |fs|
    requires forall i | 0 <= i < |fs| :: c.served[i] == Relative(base, fs[i])
    ensures SizeUpTo(c, k) == TotalSize(fs[..k])
  {
    if k > 0 {
      SizesAgree(c, base, fs, k - 1);
      assert fs[..k][..k - 1] == fs[..k - 1];
    }
  }

  /** File i of a served directory goes to the place below the download folder that it has below the directory. */
  lemma DestinationIs(v: Volume, name: Bytes, base: Bytes, es: seq<Entry>, recursive: bool,
                      key: Bytes, downloads: Bytes, before: map<Bytes, Bytes>, root: Bytes, i: nat)
    requires WellNamed(es) && i < |AllFiles(v, base, es, recursive)|
    ensures DestOf(DirSetting(v, name, base, es, recursive, key, downloads, before), root, i)
         == Paths.Join(root, Paths.Rel(base, AllFiles(v, base, es, recursive)[i].path))
  {
    LocalIsRel(v, base, es, recursive, i);
  }

  /** A directory has what the protocol needs exactly if it has at most 2^64 files and fewer than 2^64 bytes. */
  lemma TreeSized(v: Volume, name: Bytes, base: Bytes, es: seq<Entry>, recursive: bool,
                     key: Bytes, downloads: Bytes, before: map<Bytes, Bytes>)
    requires WellNamed(es)
    ensures Sized(DirSetting(v, name, base, es, recursive, key, downloads, before)) <==>
            |AllFiles(v, base, es, recursive)| <= U64_LIMIT && TotalSize(AllFiles(v, base, es, recursive)) < U64_LIMIT
  {
    var fs := AllFiles(v, base, es, recursive);
    var c := DirSetting(v, name, base, es, recursive, key, downloads, before);
    forall i | 0 <= i < |fs|
      ensures FileOk(c, i)
    {
      LocalIsRel(v, base, es, recursive, i);
    }
    SizesAgree(c, base, fs, |fs|);
    assert fs[..|fs|] == fs;
    AllDistinct(v, base, es, recursive);
    forall root: Bytes, i, j | 0 <= i < j < |fs|
      ensures Invariant.Apart(c, root, i, j)
    {
      assert PathsDiffer(fs, i, j);
      LocalIsRel(v, base, es, recursive, i);
      LocalIsRel(v, base, es, recursive, j);
      Places.DestInjective(root, Meta(Relative(base, fs[i])), Meta(Relative(base, fs[j])));
    }
  }

  lemma FileSized(v: Volume, dir: Bytes, name: Bytes, key: Bytes, downloads: Bytes, before: map<Bytes, Bytes>)
    requires FileAt(v, dir, name).Some? && FileAt(v, dir, name).value.size < U64_LIMIT
    ensures var c := FileSetting(v, FileAt(v, dir, name).value, key, downloads, before);
            Sized(c) && forall root: Bytes :: DestOf(c, root, 0) == Paths.Join(root, name)
  {
    var c := FileSetting(v, FileAt(v, dir, name).value, key, downloads, before);
    assert SizeUpTo(c, 1) == SizeUpTo(c, 0) + c.total;
    assert FileOk(c, 0) && Paths.IsBlank([]);
  }
}
