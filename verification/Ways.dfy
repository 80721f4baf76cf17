/** What goes where when a directory is transferred, what can be in its way, and what becomes of it then. */
module Ways {
  import opened Wrappers
  import opened Bytes
  import opened Fsys
  import opened Listings
  import opened Served
  import opened Promises
  import opened Reaching
  import opened Protocol
  import opened Invariant
  import opened Runs
  import opened Hindrances
  import CleanPaths
  import Paths
  import Places

  /** Where a path of the directory served goes: below the receiver's folder as it lies below that directory. */
  function Target(base: Bytes, path: Bytes, root: Bytes): Bytes {
    Paths.Join(root, Paths.Rel(base, path))
  }

  ghost predicate IsTarget(base: Bytes, fs: seq<FileInfo>, root: Bytes, p: Bytes) {
    exists i :: 0 <= i < |fs| && p == Target(base, fs[i].path, root)
  }

  ghost predicate AllArrived(v: Volume, base: Bytes, fs: seq<FileInfo>, before: map<Bytes, Bytes>, root: Bytes, store: map<Bytes, Bytes>) {
    forall i | 0 <= i < |fs| ::
      fs[i].path in v.files && Arrived(v, v.files[fs[i].path], before, store, Target(base, fs[i].path, root))
  }

  ghost predicate NothingElse(base: Bytes, fs: seq<FileInfo>, before: map<Bytes, Bytes>, root: Bytes, store: map<Bytes, Bytes>) {
    forall p :: !IsTarget(base, fs, root, p) ==> SameAt(before, store, p)
  }

  /**
   * A symlink is at its place exactly if nothing of the receiver's was in its way, and it points as far up from the
   * receiver's folder, and then down, as the one served does from the directory served; there are no other symlinks.
   */
  ghost predicate AllLinked(base: Bytes, ls: seq<Link>, before: map<Bytes, Bytes>, root: Bytes, links: map<Bytes, Bytes>) {
    && (forall i | 0 <= i < |ls| :: LinkedAt(base, ls[i], before, root, links))
    && (forall p | p in links :: exists i :: 0 <= i < |ls| && p == Target(base, ls[i].path, root))
  }

  ghost predicate LinkedAt(base: Bytes, l: Link, before: map<Bytes, Bytes>, root: Bytes, links: map<Bytes, Bytes>) {
    Linked(base, l.target, before, root, links, Target(base, l.path, root))
  }

  ghost predicate RelativeAmong(ls: seq<Link>) {
    exists i :: 0 <= i < |ls| && (ls[i].target == [] || ls[i].target[0] != 0x2F)
  }

  /** What keeps a directory from being transferred into this folder: a relative symlink, or a place that is blocked. */
  ghost predicate InTheWay(base: Bytes, fs: seq<FileInfo>, ls: seq<Link>, before: map<Bytes, Bytes>, root: Bytes) {
    || RelativeAmong(ls)
    || (exists i :: 0 <= i < |fs| && Barred(before, Target(base, fs[i].path, root)))
  }

  // ------------------------------------------------- places and their ways

  lemma TargetInjective(base: Bytes, p: Bytes, q: Bytes, root: Bytes)
    requires Paths.Below(base) <= p && Paths.Below(base) <= q && Target(base, p, root) == Target(base, q, root)
    ensures p == q
  {
    Paths.JoinInjective(root, Paths.Rel(base, p), Paths.Rel(base, q));
    IsBelow(base, p);
    IsBelow(base, q);
  }

  lemma FileIsBelow(v: Volume, base: Bytes, es: seq<Entry>, recursive: bool, i: nat)
    requires WellNamed(es) && i < |AllFiles(v, base, es, recursive)|
    ensures Paths.Below(base) < AllFiles(v, base, es, recursive)[i].path
  {
    var f := AllFiles(v, base, es, recursive)[i];
    LocalIsRel(v, base, es, recursive, i);
    var m := ViaOf(v, base, es, recursive, f);
    FileUnder(v, base, es, m, f);
    assert WellNamedEntry(es[m]);
  }

  lemma LinkIsBelow(base: Bytes, es: seq<Entry>, recursive: bool, i: nat)
    requires WellNamed(es) && i < |AllLinks(base, es, recursive)|
    ensures Paths.Below(base) < AllLinks(base, es, recursive)[i].path
  {
    var l := AllLinks(base, es, recursive)[i];
    LinkBelow(base, es, recursive, l);
    var m := LinkViaOf(base, es, recursive, l);
    LinkUnder(base, es, m, l);
    assert WellNamedEntry(es[m]);
  }

  /** What it takes for one path below a folder to lie below another. */
  lemma BelowInFolder(a: Bytes, x: Bytes, y: Bytes)
    requires |a| > 0 && |x| > 0
    ensures Paths.Below(a + x) <= a + y <==> x + [Paths.SLASH] <= y
  {
    Appended(a, x);
    SameFront(a, x + [Paths.SLASH], y);
  }

  lemma IsBelow(base: Bytes, p: Bytes)
    requires Paths.Below(base) <= p
    ensures p == Paths.Below(base) + Paths.Rel(base, p)
  {
  }

  /** Places lie below each other as the paths they come from do. */
  lemma AboveBelow(base: Bytes, root: Bytes, p: Bytes, q: Bytes)
    requires Paths.Below(base) < p && Paths.Below(base) <= q
    requires Paths.Below(Target(base, p, root)) <= Target(base, q, root)
    ensures Paths.Below(p) <= q
  {
    IsBelow(base, p);
    IsBelow(base, q);
    BelowInFolder(Paths.Below(root), Paths.Rel(base, p), Paths.Rel(base, q));
    BelowInFolder(Paths.Below(base), Paths.Rel(base, p), Paths.Rel(base, q));
  }

  lemma Appended(a: Bytes, x: Bytes)
    requires |a| > 0 && |x| > 0
    ensures Paths.Below(a + x) == a + (x + [Paths.SLASH])
  {
    assert |a + x| > 1;
  }

  lemma SameFront(a: Bytes, x: Bytes, y: Bytes)
    ensures a + x <= a + y <==> x <= y
  {
    assert (a + x)[|a|..] == x && (a + y)[|a|..] == y;
    if a + x <= a + y {
      assert (a + y)[..|a + x|] == a + x;
      assert y[..|x|] == (a + y)[|a|..|a| + |x|];
    }
  }

  /** A place is no file's destination, and neither above one nor below one. */
  ghost predicate Clear(base: Bytes, fs: seq<FileInfo>, root: Bytes, p: Bytes) {
    forall q | Paths.Below(q) <= p || Paths.Below(p) <= q :: !IsTarget(base, fs, root, q)
  }

  /** No file goes to a place above or below another file's. */
  lemma TargetsAreClear(v: Volume, base: Bytes, es: seq<Entry>, recursive: bool, root: Bytes, i: nat)
    requires WellNamed(es) && i < |AllFiles(v, base, es, recursive)|
    ensures Clear(base, AllFiles(v, base, es, recursive), root, Target(base, AllFiles(v, base, es, recursive)[i].path, root))
  {
    var fs := AllFiles(v, base, es, recursive);
    var p := Target(base, fs[i].path, root);
    forall q | Paths.Below(q) <= p || Paths.Below(p) <= q
      ensures !IsTarget(base, fs, root, q)
    {
      if IsTarget(base, fs, root, q) {
        var j :| 0 <= j < |fs| && q == Target(base, fs[j].path, root);
        FilesCross(v, base, es, recursive, root, i, j);
      }
    }
  }

  lemma FilesCross(v: Volume, base: Bytes, es: seq<Entry>, recursive: bool, root: Bytes, i: nat, j: nat)
    requires WellNamed(es) && i < |AllFiles(v, base, es, recursive)| && j < |AllFiles(v, base, es, recursive)|
    ensures var p, q := Target(base, AllFiles(v, base, es, recursive)[i].path, root), Target(base, AllFiles(v, base, es, recursive)[j].path, root);
            !(Paths.Below(q) <= p) && !(Paths.Below(p) <= q)
  {
    var fs := AllFiles(v, base, es, recursive);
    FileIsBelow(v, base, es, recursive, i);
    FileIsBelow(v, base, es, recursive, j);
    FilesNotAbove(v, base, es, recursive, fs[j], fs[i]);
    FilesNotAbove(v, base, es, recursive, fs[i], fs[j]);
    if Paths.Below(Target(base, fs[j].path, root)) <= Target(base, fs[i].path, root) {
      AboveBelow(base, root, fs[j].path, fs[i].path);
    }
    if Paths.Below(Target(base, fs[i].path, root)) <= Target(base, fs[j].path, root) {
      AboveBelow(base, root, fs[i].path, fs[j].path);
    }
  }

  /** A symlink goes to no file's destination, and neither above nor below one. */
  lemma LinkIsClear(v: Volume, base: Bytes, es: seq<Entry>, recursive: bool, root: Bytes, i: nat)
    requires WellNamed(es) && i < |AllLinks(base, es, recursive)|
    ensures var p := Target(base, AllLinks(base, es, recursive)[i].path, root);
            && !IsTarget(base, AllFiles(v, base, es, recursive), root, p)
            && Clear(base, AllFiles(v, base, es, recursive), root, p)
  {
    var fs, p := AllFiles(v, base, es, recursive), Target(base, AllLinks(base, es, recursive)[i].path, root);
    forall q | q == p || Paths.Below(q) <= p || Paths.Below(p) <= q
      ensures !IsTarget(base, fs, root, q)
    {
      if IsTarget(base, fs, root, q) {
        var j :| 0 <= j < |fs| && q == Target(base, fs[j].path, root);
        LinkCrosses(v, base, es, recursive, root, i, j);
      }
    }
  }

  lemma LinkCrosses(v: Volume, base: Bytes, es: seq<Entry>, recursive: bool, root: Bytes, i: nat, j: nat)
    requires WellNamed(es) && i < |AllLinks(base, es, recursive)| && j < |AllFiles(v, base, es, recursive)|
    ensures var p, q := Target(base, AllLinks(base, es, recursive)[i].path, root), Target(base, AllFiles(v, base, es, recursive)[j].path, root);
            p != q && !(Paths.Below(q) <= p) && !(Paths.Below(p) <= q)
  {
    var l, f := AllLinks(base, es, recursive)[i], AllFiles(v, base, es, recursive)[j];
    LinkIsBelow(base, es, recursive, i);
    FileIsBelow(v, base, es, recursive, j);
    LinkIsNoFile(v, base, es, recursive, l, f);
    FileNotAboveLink(v, base, es, recursive, f, l);
    LinkNotAboveFile(v, base, es, recursive, l, f);
    var p, q := Target(base, l.path, root), Target(base, f.path, root);
    if p == q {
      TargetInjective(base, l.path, f.path, root);
    }
    if Paths.Below(q) <= p {
      AboveBelow(base, root, f.path, l.path);
    }
    if Paths.Below(p) <= q {
      AboveBelow(base, root, l.path, f.path);
    }
  }

  /** Symlinks go to different places. */
  lemma LinkTargetsDiffer(base: Bytes, es: seq<Entry>, recursive: bool, root: Bytes, i: nat, j: nat)
    requires WellNamed(es) && i < j < |AllLinks(base, es, recursive)|
    ensures Target(base, AllLinks(base, es, recursive)[i].path, root) != Target(base, AllLinks(base, es, recursive)[j].path, root)
  {
    var ls := AllLinks(base, es, recursive);
    AllLinksDistinct(base, es, recursive);
    assert LinksDiffer(ls, i, j);
    LinkIsBelow(base, es, recursive, i);
    LinkIsBelow(base, es, recursive, j);
    if Target(base, ls[i].path, root) == Target(base, ls[j].path, root) {
      TargetInjective(base, ls[i].path, ls[j].path, root);
    }
  }

  /** What is in the way of a clear place is in its way before and after. */
  lemma SameWay(base: Bytes, fs: seq<FileInfo>, before: map<Bytes, Bytes>, root: Bytes, store: map<Bytes, Bytes>, p: Bytes)
    requires NothingElse(base, fs, before, root, store) && Clear(base, fs, root, p)
    ensures Places.NoFile(store, p) <==> Places.NoFile(before, p)
  {
    forall q | q + [Paths.SLASH] <= p || p + [Paths.SLASH] <= q
      ensures q in store <==> q in before
    {
      assert Paths.Below(q) <= p || Paths.Below(p) <= q;
      assert SameAt(before, store, q);
    }
  }

  // --------------------------------------------- directories and single files

  lemma NothingElseIff(v: Volume, name: Bytes, base: Bytes, es: seq<Entry>, recursive: bool, c: Setting, root: Bytes, store: map<Bytes, Bytes>)
    requires WellNamed(es) && c == DirSetting(v, name, base, es, recursive, c.key, c.downloads, c.before)
    requires OnlyDests(c, root, store)
    ensures NothingElse(base, AllFiles(v, base, es, recursive), c.before, root, store)
  {
    var fs := AllFiles(v, base, es, recursive);
    forall p | !IsTarget(base, fs, root, p)
      ensures SameAt(c.before, store, p)
    {
      forall i | 0 <= i < |c.served|
        ensures p != DestOf(c, root, i)
      {
        DestinationIs(v, name, base, es, recursive, c.key, c.downloads, c.before, root, i);
      }
    }
  }

  /** The files of a directory are never in each other's way at the receiver. */
  lemma DirectoryLocal(v: Volume, name: Bytes, base: Bytes, es: seq<Entry>, recursive: bool, c: Setting)
    requires WellNamed(es) && c == DirSetting(v, name, base, es, recursive, c.key, c.downloads, c.before)
    ensures Local(c)
  {
    forall root, store, i | 0 <= i < |c.served| && OnlyDests(c, root, store)
      ensures LocalAt(c, root, store, i)
    {
      var fs := AllFiles(v, base, es, recursive);
      NothingElseIff(v, name, base, es, recursive, c, root, store);
      DestinationIs(v, name, base, es, recursive, c.key, c.downloads, c.before, root, i);
      TargetsAreClear(v, base, es, recursive, root, i);
      SameWay(base, fs, c.before, root, store, Target(base, fs[i].path, root));
    }
  }

  /** In the way, by names instead of by the listing. */
  lemma InTheWayIff(v: Volume, base: Bytes, es: seq<Entry>, recursive: bool, before: map<Bytes, Bytes>, root: Bytes)
    requires GoodTree(es)
    ensures InTheWay(base, AllFiles(v, base, es, recursive), AllLinks(base, es, recursive), before, root) <==>
            CannotGo(v, base, es, recursive, before, root)
  {
    RelativeIff(base, es, recursive);
    BarredIff(v, base, es, recursive, before, root);
  }

  lemma RelativeIff(base: Bytes, es: seq<Entry>, recursive: bool)
    ensures var ls := AllLinks(base, es, recursive);
            RelativeAmong(ls) <==> RelativeLinkServed(es, recursive)
  {
    var ls := AllLinks(base, es, recursive);
    if i :| 0 <= i < |ls| && (ls[i].target == [] || ls[i].target[0] != 0x2F) {
      var names := ListedLinkIsReached(base, es, recursive, ls[i]);
    }
    if names, target :| LinkAtEnd(es, recursive, names, target) && (target == [] || target[0] != 0x2F) {
      ReachedLinkIsListed(base, es, recursive, names, target);
      var i :| 0 <= i < |ls| && ls[i] == Link(PathOf(base, names), target);
    }
  }

  lemma BarredIff(v: Volume, base: Bytes, es: seq<Entry>, recursive: bool, before: map<Bytes, Bytes>, root: Bytes)
    requires GoodTree(es)
    ensures var fs := AllFiles(v, base, es, recursive);
            (exists i :: 0 <= i < |fs| && Barred(before, Target(base, fs[i].path, root))) <==>
            PlaceBarred(v, base, es, recursive, before, root)
  {
    var fs := AllFiles(v, base, es, recursive);
    if i :| 0 <= i < |fs| && Barred(before, Target(base, fs[i].path, root)) {
      var names := FileTarget(v, base, es, recursive, fs[i], root);
    }
    if names :| FileAtEnd(v, base, es, recursive, names) && Barred(before, PathOf(root, names)) {
      var i := FileOfNames(v, base, es, recursive, names, root);
    }
  }

  /** The names behind a file of the listing, and its place by them. */
  lemma FileTarget(v: Volume, base: Bytes, es: seq<Entry>, recursive: bool, f: FileInfo, root: Bytes) returns (names: seq<Bytes>)
    requires GoodTree(es) && f in AllFiles(v, base, es, recursive)
    ensures FileAtEnd(v, base, es, recursive, names) && f.path == PathOf(base, names) && Target(base, f.path, root) == PathOf(root, names)
  {
    names := ListedIsReached(v, base, es, recursive, f);
    PlaceOfNames(base, es, recursive, names, FileEntry(names[|names| - 1]), root);
  }

  /** The file of the listing that names lead to, and its place. */
  lemma FileOfNames(v: Volume, base: Bytes, es: seq<Entry>, recursive: bool, names: seq<Bytes>, root: Bytes) returns (i: nat)
    requires GoodTree(es) && FileAtEnd(v, base, es, recursive, names)
    ensures var fs := AllFiles(v, base, es, recursive);
            i < |fs| && fs[i].path == PathOf(base, names) && Target(base, fs[i].path, root) == PathOf(root, names)
  {
    var fs := AllFiles(v, base, es, recursive);
    var f := ReachedIsListed(v, base, es, recursive, names);
    i :| 0 <= i < |fs| && fs[i] == f;
    PlaceOfNames(base, es, recursive, names, FileEntry(names[|names| - 1]), root);
  }

  /**
   * What stops the transfer of a directory: a symlink in it with a relative target, or at the receiver a file above the
   * place of one of its files, or files below it.
   */
  lemma DirectoryHindered(v: Volume, name: Bytes, base: Bytes, es: seq<Entry>, recursive: bool, c: Setting, root: Bytes)
    requires GoodTree(es) && c == DirSetting(v, name, base, es, recursive, c.key, c.downloads, c.before)
    ensures Hindered(c, root) <==> CannotGo(v, base, es, recursive, c.before, root)
  {
    var fs, ls := AllFiles(v, base, es, recursive), AllLinks(base, es, recursive);
    TreeIsWellNamed(es);
    forall i | 0 <= i < |fs|
      ensures c.noFile(c.before, DestOf(c, root, i)) <==> Barred(c.before, Target(base, fs[i].path, root))
    {
      DestinationIs(v, name, base, es, recursive, c.key, c.downloads, c.before, root, i);
      NoFileIff(c.before, Target(base, fs[i].path, root));
    }
    RelatableIs(v, name, base, es, recursive, c);
    InTheWayIff(v, base, es, recursive, c.before, root);
  }

  lemma RelatableIs(v: Volume, name: Bytes, base: Bytes, es: seq<Entry>, recursive: bool, c: Setting)
    requires c == DirSetting(v, name, base, es, recursive, c.key, c.downloads, c.before)
    ensures var ls := AllLinks(base, es, recursive);
            c.isDir && (!c.relatable <==> RelativeAmong(ls))
  {
    NotAllAbsolute(AllLinks(base, es, recursive));
  }

  lemma NotAllAbsolute(ls: seq<Link>)
    ensures !AllAbsolute(ls) <==> RelativeAmong(ls)
  {
    forall i | 0 <= i < |ls|
      ensures CleanPaths.Absolute(ls[i].target) <==> !(ls[i].target == [] || ls[i].target[0] != 0x2F)
    {
    }
  }

  /** The same of a single file, whose name is the name of something. */
  lemma FileLocal(v: Volume, dir: Bytes, name: Bytes, c: Setting)
    requires FileAt(v, dir, name).Some? && c == FileSetting(v, FileAt(v, dir, name).value, c.key, c.downloads, c.before)
    requires EntryName(name) && FileAt(v, dir, name).value.size < U64_LIMIT
    ensures Local(c)
  {
    FileSized(v, dir, name, c.key, c.downloads, c.before);
    forall root, store, i | 0 <= i < |c.served| && OnlyDests(c, root, store)
      ensures LocalAt(c, root, store, i)
    {
      var p := DestOf(c, root, 0);
      assert p == Paths.Join(root, name) && |p| >= 2;
      forall q | Paths.Below(q) <= p || Paths.Below(p) <= q
        ensures q in store <==> q in c.before
      {
        assert q != p;
        assert SameAt(c.before, store, q);
      }
    }
  }

  lemma FileHindered(v: Volume, dir: Bytes, name: Bytes, c: Setting, root: Bytes)
    requires FileAt(v, dir, name).Some? && c == FileSetting(v, FileAt(v, dir, name).value, c.key, c.downloads, c.before)
    requires FileAt(v, dir, name).value.size < U64_LIMIT
    ensures Hindered(c, root) <==> Barred(c.before, Child(root, name))
  {
    FileSized(v, dir, name, c.key, c.downloads, c.before);
    assert DestOf(c, root, 0) == Paths.Join(root, name) == Child(root, name);
    NoFileIff(c.before, Child(root, name));
  }

  /** FILE makes the receiver panic exactly if at that moment some file is above the place of this one, or below it. */
  lemma StoreFails(v: Volume, name: Bytes, base: Bytes, es: seq<Entry>, recursive: bool, f: FileInfo, c: Setting, r: Receiver, m: FileMeta)
    requires c == DirSetting(v, name, base, es, recursive, c.key, c.downloads, c.before) || c == FileSetting(v, f, c.key, c.downloads, c.before)
    ensures CannotStore(c, r, FileMsg(m)) <==>
            var place := Places.Dest(r.downloads, m);
            exists p :: p in r.store && (p + [0x2F] <= place || place + [0x2F] <= p)
  {
    NoFileIff(r.store, Places.Dest(r.downloads, m));
  }

  // ------------------------------------------------------- the fate of a transfer

  /**
   * The transfer of a directory ends in a panic if and only if the user agrees and the directory has a symlink with a
   * relative target, or at the receiver a file is where a folder must be or a folder where a file must be.
   */
  lemma DirectoryFate(v: Volume, name: Bytes, base: Bytes, es: seq<Entry>, recursive: bool, c: Setting,
                      run: seq<System>, ls: seq<Label>, yes: bool, made: bool)
    requires GoodTree(es) && c == DirSetting(v, name, base, es, recursive, c.key, c.downloads, c.before)
    requires Sized(c) && AnsweredBy(c, run, ls, yes, made) && forall l :: !Step(c, Last(run), l).Took?
    ensures (exists l :: Step(c, Last(run), l).Panicked?) <==>
            yes && CannotGo(v, base, es, recursive, c.before, FolderFor(c.downloads, name, yes, made))
    ensures Final(Last(run)) <==> !exists l :: Step(c, Last(run), l).Panicked?
  {
    TreeIsWellNamed(es);
    FolderIs(c, name, yes, made);
    DirectoryLocal(v, name, base, es, recursive, c);
    Fate(c, run, ls, yes, made);
    DirectoryHindered(v, name, base, es, recursive, c, FolderOf(c, yes, made));
  }

  lemma FolderIs(c: Setting, name: Bytes, yes: bool, made: bool)
    requires c.isDir && c.dirName == name
    ensures FolderOf(c, yes, made) == FolderFor(c.downloads, name, yes, made)
  {
  }

  // ----------------------------------------------------------------- examples

  /** A directory /d with nothing in it but the symlink b, which points to a, cannot be transferred anywhere. */
  lemma RelativeLinkStops(v: Volume, before: map<Bytes, Bytes>, root: Bytes)
    ensures var base: Bytes, es := [0x2F, 0x64], [LinkEntry([0x62], Some([0x61]))];
            GoodTree(es) && CannotGo(v, base, es, true, before, root)
  {
    var es: seq<Entry> := [LinkEntry([0x62], Some([0x61]))];
    assert Leads(es[0], true, [[0x62]], LinkEntry([0x62], Some([0x61])));
    assert LinkAtEnd(es, true, [[0x62]], [0x61]);
    assert RelativeLinkServed(es, true);
  }

  /** A directory /d with the file s/f in it cannot be transferred into /r where there is a file s. */
  lemma FileInPlaceOfFolderStops(v: Volume, before: map<Bytes, Bytes>)
    requires [0x2F, 0x64, 0x2F, 0x73, 0x2F, 0x66] in v.files && [0x2F, 0x72, 0x2F, 0x73] in before
    ensures var base: Bytes, root: Bytes, es := [0x2F, 0x64], [0x2F, 0x72], [DirEntry([0x73], true, [FileEntry([0x66])])];
            GoodTree(es) && CannotGo(v, base, es, true, before, root)
  {
    var base: Bytes, root: Bytes, above: Bytes := [0x2F, 0x64], [0x2F, 0x72], [0x2F, 0x72, 0x2F, 0x73];
    var inner: seq<Entry> := [FileEntry([0x66])];
    var es: seq<Entry>, names: seq<Bytes> := [DirEntry([0x73], true, inner)], [[0x73], [0x66]];
    TwoNamesDown(base, 0x73, 0x66);
    TwoNamesDown(root, 0x73, 0x66);
    assert names[1..] == [[0x66]] && Leads(inner[0], true, names[1..], FileEntry([0x66]));
    assert Leads(es[0], true, names, FileEntry([0x66]));
    assert PathOf(base, names) == [0x2F, 0x64, 0x2F, 0x73, 0x2F, 0x66];
    assert FileAtEnd(v, base, es, true, names);
    assert above in before && above + [0x2F] <= PathOf(root, names);
    assert PlaceBarred(v, base, es, true, before, root);
  }

  lemma TwoNamesDown(dir: Bytes, a: byte, b: byte)
    requires dir != [0x2F]
    ensures PathOf(dir, [[a], [b]]) == dir + [0x2F, a, 0x2F, b]
  {
    var names: seq<Bytes> := [[a], [b]];
    assert names[1..] == [[b]];
    assert PathOf(dir, names) == PathOf(Child(dir, [a]), [[b]]) == Child(Child(dir, [a]), [b]);
  }

  /** The single file f cannot be transferred into /r where there is a folder f with a file x in it. */
  lemma FolderInPlaceOfFileStops(before: map<Bytes, Bytes>)
    requires [0x2F, 0x72, 0x2F, 0x66, 0x2F, 0x78] in before
    ensures Barred(before, Child([0x2F, 0x72], [0x66])) && Places.NoFile(before, Paths.Join([0x2F, 0x72], [0x66]))
  {
    var place: Bytes, below: Bytes := [0x2F, 0x72, 0x2F, 0x66], [0x2F, 0x72, 0x2F, 0x66, 0x2F, 0x78];
    assert Child([0x2F, 0x72], [0x66]) == place == Paths.Join([0x2F, 0x72], [0x66]);
    assert below in before && place + [0x2F] <= below;
    NoFileIff(before, place);
  }

  // ------------------------------------------------------ by names, at the end

  /** A directory that is there by its listing is there by names. */
  lemma ThereByNames(v: Volume, base: Bytes, es: seq<Entry>, recursive: bool, before: map<Bytes, Bytes>, root: Bytes,
                     store: map<Bytes, Bytes>, links: map<Bytes, Bytes>)
    requires GoodTree(es)
    requires AllArrived(v, base, AllFiles(v, base, es, recursive), before, root, store)
    requires NothingElse(base, AllFiles(v, base, es, recursive), before, root, store)
    requires AllLinked(base, AllLinks(base, es, recursive), before, root, links)
    ensures DirectoryThere(v, base, es, recursive, before, root, store, links)
  {
    FilesByNames(v, base, es, recursive, before, root, store);
    OthersByNames(v, base, es, recursive, before, root, store);
    LinksByNames(base, es, recursive, before, root, links);
  }

  lemma FilesByNames(v: Volume, base: Bytes, es: seq<Entry>, recursive: bool, before: map<Bytes, Bytes>, root: Bytes, store: map<Bytes, Bytes>)
    requires GoodTree(es) && AllArrived(v, base, AllFiles(v, base, es, recursive), before, root, store)
    ensures FilesThere(v, base, es, recursive, before, root, store)
  {
    forall names | FileAtEnd(v, base, es, recursive, names)
      ensures Arrived(v, v.files[PathOf(base, names)], before, store, PathOf(root, names))
    {
      var i := FileOfNames(v, base, es, recursive, names, root);
    }
  }

  lemma OthersByNames(v: Volume, base: Bytes, es: seq<Entry>, recursive: bool, before: map<Bytes, Bytes>, root: Bytes, store: map<Bytes, Bytes>)
    requires GoodTree(es) && NothingElse(base, AllFiles(v, base, es, recursive), before, root, store)
    ensures OthersAsBefore(v, base, es, recursive, before, root, store)
  {
    var fs := AllFiles(v, base, es, recursive);
    forall p | forall names | FileAtEnd(v, base, es, recursive, names) :: p != PathOf(root, names)
      ensures Untouched(before, store, p)
    {
      if i :| 0 <= i < |fs| && p == Target(base, fs[i].path, root) {
        var names := FileTarget(v, base, es, recursive, fs[i], root);
      }
      assert !IsTarget(base, fs, root, p);
      assert SameAt(before, store, p);
    }
  }

  lemma LinkByNames(base: Bytes, es: seq<Entry>, recursive: bool, before: map<Bytes, Bytes>, root: Bytes, links: map<Bytes, Bytes>,
                    names: seq<Bytes>, target: Bytes)
    requires GoodTree(es) && AllLinked(base, AllLinks(base, es, recursive), before, root, links)
    requires LinkAtEnd(es, recursive, names, target)
    ensures Linked(base, target, before, root, links, PathOf(root, names))
  {
    var ls := AllLinks(base, es, recursive);
    ReachedLinkIsListed(base, es, recursive, names, target);
    var i :| 0 <= i < |ls| && ls[i] == Link(PathOf(base, names), target);
    PlaceOfNames(base, es, recursive, names, LinkEntry(names[|names| - 1], Some(target)), root);
    assert LinkedAt(base, ls[i], before, root, links);
  }

  /** The names behind a symlink that has been made. */
  lemma NamesOfLink(base: Bytes, es: seq<Entry>, recursive: bool, before: map<Bytes, Bytes>, root: Bytes, links: map<Bytes, Bytes>, p: Bytes)
    returns (names: seq<Bytes>, target: Bytes)
    requires GoodTree(es) && AllLinked(base, AllLinks(base, es, recursive), before, root, links) && p in links
    ensures LinkAtEnd(es, recursive, names, target) && p == PathOf(root, names)
  {
    var ls := AllLinks(base, es, recursive);
    var i :| 0 <= i < |ls| && p == Target(base, ls[i].path, root);
    target := ls[i].target;
    names := ListedLinkIsReached(base, es, recursive, ls[i]);
    PlaceOfNames(base, es, recursive, names, LinkEntry(names[|names| - 1], Some(target)), root);
  }

  lemma LinksByNames(base: Bytes, es: seq<Entry>, recursive: bool, before: map<Bytes, Bytes>, root: Bytes, links: map<Bytes, Bytes>)
    requires GoodTree(es) && AllLinked(base, AllLinks(base, es, recursive), before, root, links)
    ensures LinksThere(base, es, recursive, before, root, links)
  {
    forall names, target | LinkAtEnd(es, recursive, names, target)
      ensures Linked(base, target, before, root, links, PathOf(root, names))
    {
      LinkByNames(base, es, recursive, before, root, links, names, target);
    }
    forall p | p in links
      ensures exists names, target :: LinkAtEnd(es, recursive, names, target) && p == PathOf(root, names)
    {
      var names, target := NamesOfLink(base, es, recursive, before, root, links, p);
    }
  }
}
