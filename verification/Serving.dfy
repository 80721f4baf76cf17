/** From a directory on the sender's disk to the files on the receiver's: the pieces put together. */
module Serving {
  import opened Wrappers
  import opened Bytes
  import opened Fsys
  import opened Ciphers
  import opened Listings
  import opened Trees
  import opened Served
  import opened Promises
  import opened Reaching
  import opened Ways
  import opened Lengths
  import opened Protocol
  import opened Invariant
  import opened SenderNodes
  import opened ReceiverNodes
  import opened Sessions
  import opened Transfers
  import opened ByteRuns
  import opened Hindrances
  import opened ByteFates
  import opened Links
  import Checksums
  import CleanPaths
  import Paths
  import Send

  /** Flattening writes into arrays only: the files are as GetFile made them. */
  method FilesToSend(d: Directory, recursive: bool, ghost infos: seq<FileInfo>) returns (found: seq<File>)
    requires Separate(d) && Flattened(Shown(d), recursive) == Preorder(Shown(d)) && Recorded(Preorder(Shown(d)), infos)
    modifies Arrays(d)
    ensures found == old(Preorder(Shown(d))) && Recorded(found, infos)
  {
    ghost var all := Preorder(Shown(d));
    FilesAllocated(Shown(d));
    forall i | 0 <= i < |all|
      ensures allocated(all[i])
    {
      assert all[i] in all;
    }
    var files := GetAllFiles(d, recursive);
    found := Files(files);
    assert Recorded(all, infos);
  }

  /** Relative paths can be had for symlinks exactly if their targets are absolute. */
  lemma RelatableIffAbsolute(base: Bytes, ls: seq<Link>)
    ensures AllRelatable(base, ls) <==> AllAbsolute(ls)
  {
    assert forall i | 0 <= i < |ls| :: RelativeLink(base, ls[i]).Some? <==> CleanPaths.Absolute(ls[i].target);
  }

  /** Reads the directory and makes the node that serves it; fails if a directory cannot be listed. */
  method ServeDirectory(v: Volume, name: Bytes, base: Bytes, readable: bool, es: seq<Entry>, recursive: bool, c: Setting, cipher: Cipher, conn: Send.Outgoing)
    returns (node: Option<SenderNode>)
    requires KeyOk(c.key)
    requires c == DirSetting(v, name, base, es, recursive, c.key, c.downloads, c.before)
    ensures node.Some? <==> readable && Listable(es, |es|, recursive)
    ensures node.Some? ==> node.value.Valid() && node.value.View() == InitialSender()
    ensures node.Some? ==> node.value.c == c && node.value.cipher == cipher && node.value.base == base && node.value.conn == conn
    ensures node.Some? ==> fresh(node.value) && forall f | f in node.value.pool :: fresh(f)
  {
    var dir := GetDir(v, name, base, readable, es, recursive);
    if dir.None? {
      return None;
    }
    var d := dir.value;
    var found := FilesToSend(d, recursive, AllFiles(v, base, es, recursive));
    forall i | 0 <= i < |found|
      ensures Announces(c, base, found[i].View(), i)
    {
      assert RecordedAt(found, AllFiles(v, base, es, recursive), i);
    }
    var symlinks := GetAllSymlinks(d, recursive);
    RelatableIffAbsolute(base, symlinks);
    var n := new SenderNode(c, cipher, base, d.name, d.size, found, symlinks, conn);
    node := Some(n);
  }

  // ------------------------------------------------- what is announced

  lemma DirectoryOffered(v: Volume, name: Bytes, base: Bytes, es: seq<Entry>, recursive: bool, c: Setting)
    requires c == DirSetting(v, name, base, es, recursive, c.key, c.downloads, c.before)
    ensures OfferOf(c) == DirOffer(name, TotalSize(AllFiles(v, base, es, recursive)) % 0x1_0000_0000_0000_0000)
  {
    WrapIsRemainder(TotalSize(AllFiles(v, base, es, recursive)));
  }

  lemma FileOffered(v: Volume, dir: Bytes, name: Bytes, c: Setting)
    requires Child(dir, name) in v.files && FileAt(v, dir, name).Some?
    requires c == FileSetting(v, FileAt(v, dir, name).value, c.key, c.downloads, c.before)
    ensures var content := v.files[Child(dir, name)];
            OfferOf(c) == FileOffer(FileMeta(0, name, |content|, v.digest(Checksums.Hashed(content)), []))
  {
    assert Child(dir, name) == Paths.Join(dir, name);
    Checksums.SampleIs(v.files[Child(dir, name)]);
  }

  /** What a FILE packet says of file i of a directory: the last of the names that lead to it, size, checksum, all names. */
  lemma FileAnnounced(v: Volume, name: Bytes, base: Bytes, es: seq<Entry>, recursive: bool, c: Setting, i: nat) returns (names: seq<Bytes>)
    requires GoodTree(es) && c == DirSetting(v, name, base, es, recursive, c.key, c.downloads, c.before) && i < |c.served|
    ensures FileAtEnd(v, base, es, recursive, names)
    ensures var content := v.files[PathOf(base, names)];
            Meta(Prepared(c, i)) ==
            FileMeta(i, names[|names| - 1], |content|, v.digest(Checksums.Hashed(content)), CleanPaths.Joined(names))
  {
    var f := AllFiles(v, base, es, recursive)[i];
    names := ListedIsReached(v, base, es, recursive, f);
    NamesAreGood(es, recursive, names, FileEntry(names[|names| - 1]));
    PathIs(base, names);
    Paths.RelOfJoin(base, CleanPaths.Joined(names));
    Checksums.SampleIs(v.files[f.path]);
  }

  // ------------------------------------------------------ a finished job

  /** A file is held if what is at its place has the same digest. */
  lemma HeldIsAlike(v: Volume, c: Setting, root: Bytes, i: nat)
    requires i < |c.served| && c.served[i].path in v.files && (forall x :: c.sum(x) == CheckSum(v, x))
    requires c.served[i].checksum == CheckSum(v, v.files[c.served[i].path])
    ensures Held(c, root, i) <==>
            var p := DestOf(c, root, i);
            && p in c.before
            && v.digest(Checksums.Hashed(c.before[p])) == v.digest(Checksums.Hashed(v.files[c.served[i].path]))
  {
    var p := DestOf(c, root, i);
    Checksums.SampleIs(v.files[c.served[i].path]);
    if p in c.before {
      Checksums.SampleIs(c.before[p]);
    }
  }

  /** What a finished job means for a directory. */
  lemma DirectoryIsThere(v: Volume, name: Bytes, base: Bytes, es: seq<Entry>, recursive: bool, c: Setting, s: Sender, r: Receiver)
    requires WellNamed(es) && c == DirSetting(v, name, base, es, recursive, c.key, c.downloads, c.before)
    requires JobDone(c, s, r)
    ensures AllArrived(v, base, AllFiles(v, base, es, recursive), c.before, r.downloads, r.store)
    ensures NothingElse(base, AllFiles(v, base, es, recursive), c.before, r.downloads, r.store)
  {
    var fs := AllFiles(v, base, es, recursive);
    forall i | 0 <= i < |fs|
      ensures fs[i].path in v.files && Arrived(v, v.files[fs[i].path], c.before, r.store, Target(base, fs[i].path, r.downloads))
    {
      DestinationIs(v, name, base, es, recursive, c.key, c.downloads, c.before, r.downloads, i);
      LocalIsRel(v, base, es, recursive, i);
      assert Delivered(c, r.downloads, r.store, i);
      HeldIsAlike(v, c, r.downloads, i);
    }
    forall p | !IsTarget(base, fs, r.downloads, p)
      ensures SameAt(c.before, r.store, p)
    {
      if Touched(c, r.downloads, |fs|, p) {
        var i :| 0 <= i < |fs| && p == DestOf(c, r.downloads, i);
        DestinationIs(v, name, base, es, recursive, c.key, c.downloads, c.before, r.downloads, i);
      }
    }
  }

  /** One symlink of a directory whose job is finished. */
  lemma LinkIsThere(v: Volume, name: Bytes, base: Bytes, es: seq<Entry>, recursive: bool, c: Setting, r: Receiver, i: nat)
    requires WellNamed(es) && c == DirSetting(v, name, base, es, recursive, c.key, c.downloads, c.before) && c.relatable
    requires NothingElse(base, AllFiles(v, base, es, recursive), c.before, r.downloads, r.store)
    requires r.links == LinksMade(c, r.downloads, r.store, |c.links|) && i < |AllLinks(base, es, recursive)|
    ensures LinkedAt(base, AllLinks(base, es, recursive)[i], c.before, r.downloads, r.links)
  {
    var fs, ls, root := AllFiles(v, base, es, recursive), AllLinks(base, es, recursive), r.downloads;
    var p := Target(base, ls[i].path, root);
    assert CleanPaths.Absolute(ls[i].target);
    CleanPaths.JoinRelLeads(root, base, ls[i].target);
    assert LinkPlace(c, root, i) == p && CleanPaths.LeadsTo(root, base, ls[i].target, LinkTarget(c, root, i));
    NoFileIff(c.before, p);
    LinkIsClear(v, base, es, recursive, root, i);
    SameWay(base, fs, c.before, root, r.store, p);
    assert SameAt(c.before, r.store, p);
    NotLinkedBefore(v, name, base, es, recursive, c, root, i);
    LinksMadeAt(c, root, r.store, |ls|, p);
    assert LinkedBefore(c, root, |ls|, p);
    if !c.noLink(r.store, p) {
      FirstLinkStays(c, root, r.store, |ls|, i);
    }
  }

  lemma NotLinkedBefore(v: Volume, name: Bytes, base: Bytes, es: seq<Entry>, recursive: bool, c: Setting, root: Bytes, i: nat)
    requires WellNamed(es) && c == DirSetting(v, name, base, es, recursive, c.key, c.downloads, c.before) && c.relatable
    requires i < |AllLinks(base, es, recursive)|
    ensures !LinkedBefore(c, root, i, LinkPlace(c, root, i))
  {
    if LinkedBefore(c, root, i, LinkPlace(c, root, i)) {
      var j :| 0 <= j < i && LinkPlace(c, root, i) == LinkPlace(c, root, j);
      assert CleanPaths.Absolute(AllLinks(base, es, recursive)[i].target) && CleanPaths.Absolute(AllLinks(base, es, recursive)[j].target);
      LinkTargetsDiffer(base, es, recursive, root, j, i);
    }
  }

  /** The symlinks of a directory whose job is finished. */
  lemma LinksAreThere(v: Volume, name: Bytes, base: Bytes, es: seq<Entry>, recursive: bool, c: Setting, r: Receiver)
    requires WellNamed(es) && c == DirSetting(v, name, base, es, recursive, c.key, c.downloads, c.before) && c.relatable
    requires NothingElse(base, AllFiles(v, base, es, recursive), c.before, r.downloads, r.store)
    requires r.links == LinksMade(c, r.downloads, r.store, |c.links|)
    ensures AllLinked(base, AllLinks(base, es, recursive), c.before, r.downloads, r.links)
  {
    var ls, root := AllLinks(base, es, recursive), r.downloads;
    forall i | 0 <= i < |ls|
      ensures LinkedAt(base, ls[i], c.before, root, r.links)
    {
      LinkIsThere(v, name, base, es, recursive, c, r, i);
    }
    forall p | p in r.links
      ensures exists i :: 0 <= i < |ls| && p == Target(base, ls[i].path, root)
    {
      LinksMadeAt(c, root, r.store, |ls|, p);
      var i :| 0 <= i < |ls| && p == LinkPlace(c, root, i);
      assert CleanPaths.Absolute(ls[i].target);
      assert p == Target(base, ls[i].path, root);
    }
  }

  lemma FileIsThere(v: Volume, dir: Bytes, name: Bytes, c: Setting, s: Sender, r: Receiver)
    requires FileAt(v, dir, name).Some? && c == FileSetting(v, FileAt(v, dir, name).value, c.key, c.downloads, c.before)
    requires FileAt(v, dir, name).value.size < U64_LIMIT
    requires JobDone(c, s, r)
    ensures Child(dir, name) in v.files && Arrived(v, v.files[Child(dir, name)], c.before, r.store, Child(r.downloads, name))
    ensures forall p | p != Child(r.downloads, name) :: Untouched(c.before, r.store, p)
    ensures r.links == map[] && s.sentBytes == r.received == |v.files[Child(dir, name)]|
  {
    FileSized(v, dir, name, c.key, c.downloads, c.before);
    assert Child(dir, name) == Paths.Join(dir, name);
    assert DestOf(c, r.downloads, 0) == Paths.Join(r.downloads, name) == Child(r.downloads, name);
    assert Delivered(c, r.downloads, r.store, 0);
    HeldIsAlike(v, c, r.downloads, 0);
    forall p | p != Child(r.downloads, name)
      ensures Untouched(c.before, r.store, p)
    {
      assert !Touched(c, r.downloads, 1, p);
      assert SameAt(c.before, r.store, p);
    }
  }

  // --------------------------------------------------------- runs on bytes

  /**
   * On bytes: a directory whose transfer was agreed to and has ended is there at the receiver, each readable file at its
   * own place, with the sender's bytes or with older bytes of the same digest; its symlinks are there; nothing else has
   * changed; the bytes both nodes counted are the size GetDir announced; and nothing was in its way.
   */
  lemma DirectoryDelivery(v: Volume, name: Bytes, base: Bytes, es: seq<Entry>, recursive: bool,
                          c: Setting, cipher: Cipher, brun: seq<ByteSystem>, ls: seq<Label>, made: bool)
    requires GoodTree(es) && c == DirSetting(v, name, base, es, recursive, c.key, c.downloads, c.before)
    requires Sized(c) && Transmissible(c) && Sound(cipher)
    requires ByteAnswered(c, WireCarrier(cipher), brun, ls, true, made)
    requires brun[|brun| - 1].sender.closed && brun[|brun| - 1].receiver.closed
    ensures var b, folder := brun[|brun| - 1], FolderFor(c.downloads, name, true, made);
            && DirectoryThere(v, base, es, recursive, c.before, folder, b.receiver.store, b.receiver.links)
            && b.sender.sentBytes == b.receiver.received == TotalSize(AllFiles(v, base, es, recursive)) % 0x1_0000_0000_0000_0000
            && !CannotGo(v, base, es, recursive, c.before, folder)
  {
    TreeIsWellNamed(es);
    FolderIs(c, name, true, made);
    DirectoryLocal(v, name, base, es, recursive, c);
    EndIsUnhindered(c, cipher, brun, ls, true, made);
    DirectoryHindered(v, name, base, es, recursive, c, FolderOf(c, true, made));
    var b := brun[|brun| - 1];
    ThereAtLast(v, name, base, es, recursive, c, b.sender, b.receiver);
    WrapIsRemainder(TotalSize(AllFiles(v, base, es, recursive)));
  }

  lemma ThereAtLast(v: Volume, name: Bytes, base: Bytes, es: seq<Entry>, recursive: bool, c: Setting, s: Sender, r: Receiver)
    requires GoodTree(es) && c == DirSetting(v, name, base, es, recursive, c.key, c.downloads, c.before)
    requires JobDone(c, s, r) && !CannotGo(v, base, es, recursive, c.before, r.downloads)
    ensures DirectoryThere(v, base, es, recursive, c.before, r.downloads, r.store, r.links)
  {
    TreeIsWellNamed(es);
    RelatableIs(v, name, base, es, recursive, c);
    RelativeIff(base, es, recursive);
    DirectoryIsThere(v, name, base, es, recursive, c, s, r);
    LinksAreThere(v, name, base, es, recursive, c, r);
    ThereByNames(v, base, es, recursive, c.before, r.downloads, r.store, r.links);
  }

  /** The same of a single file. */
  lemma FileDelivery(v: Volume, dir: Bytes, name: Bytes, c: Setting, cipher: Cipher, brun: seq<ByteSystem>, ls: seq<Label>, made: bool)
    requires FileAt(v, dir, name).Some? && c == FileSetting(v, FileAt(v, dir, name).value, c.key, c.downloads, c.before)
    requires EntryName(name) && FileAt(v, dir, name).value.size < U64_LIMIT && Transmissible(c) && Sound(cipher)
    requires ByteAnswered(c, WireCarrier(cipher), brun, ls, true, made)
    requires brun[|brun| - 1].sender.closed && brun[|brun| - 1].receiver.closed
    ensures var b, place := brun[|brun| - 1], Child(c.downloads, name);
            && Child(dir, name) in v.files
            && Arrived(v, v.files[Child(dir, name)], c.before, b.receiver.store, place)
            && (forall p | p != place :: Untouched(c.before, b.receiver.store, p))
            && b.receiver.links == map[] && b.sender.sentBytes == b.receiver.received == |v.files[Child(dir, name)]|
            && !Barred(c.before, place)
  {
    FileSized(v, dir, name, c.key, c.downloads, c.before);
    FileLocal(v, dir, name, c);
    EndIsUnhindered(c, cipher, brun, ls, true, made);
    FileHindered(v, dir, name, c, c.downloads);
    FileIsThere(v, dir, name, c, brun[|brun| - 1].sender, brun[|brun| - 1].receiver);
  }

  // ------------------------------------------------- transfers, start to end

  /** One file and the node that serves it; fails if it cannot be read. */
  method ServeFile(v: Volume, dir: Bytes, name: Bytes, c: Setting, cipher: Cipher, conn: Send.Outgoing) returns (node: Option<SenderNode>)
    requires KeyOk(c.key)
    requires FileAt(v, dir, name).Some? ==> c == FileSetting(v, FileAt(v, dir, name).value, c.key, c.downloads, c.before)
    ensures node.Some? <==> FileAt(v, dir, name).Some?
    ensures node.Some? ==> node.value.Valid() && node.value.View() == InitialSender()
    ensures node.Some? ==> node.value.c == c && node.value.cipher == cipher && node.value.conn == conn
    ensures node.Some? ==> fresh(node.value) && forall f | f in node.value.pool :: fresh(f)
  {
    var file := GetFile(v, dir, name);
    if file.None? {
      return None;
    }
    var n := new SenderNode(c, cipher, dir, [], file.value.size, [file.value], [], conn);
    node := Some(n);
  }

  /** Connects the sender to a new receiver and lets both go on until they have left or one has panicked. */
  method Transfer(sender: SenderNode, digest: Bytes -> Bytes, yes: bool, made: bool)
    returns (panicked: bool, store: map<Bytes, Bytes>, links: map<Bytes, Bytes>, ghost s: Sender, ghost r: Receiver)
    requires forall x :: sender.c.sum(x) == Checksums.PartialCheckSum(digest, x)
    requires Fine(sender.c, sender.cipher) && sender.Valid() && sender.View() == InitialSender() && sender.conn.written == []
    modifies sender, sender.pool, sender.conn
    ensures panicked <==> yes && Hindered(sender.c, FolderOf(sender.c, yes, made))
    ensures !panicked ==> Ended(sender.c, yes, made, s, r) && store == r.store && links == r.links
  {
    var conn := new Send.Outgoing();
    var receiver := new ReceiverNode(sender.c, sender.cipher, digest, conn);
    var session := Connect(sender, receiver);
    panicked := RunToEnd(session, yes, made);
    store, links := receiver.store, receiver.links;
    s, r := InitialSender(), InitialReceiver(sender.c);
    if !panicked {
      s, r := sender.View(), receiver.View();
    }
  }

  /** Limits that the numbers and packets of the program set, in plain numbers. */
  ghost predicate WithinLimits(v: Volume, name: Bytes, base: Bytes, es: seq<Entry>, recursive: bool) {
    var fs, ls := AllFiles(v, base, es, recursive), AllLinks(base, es, recursive);
    && |fs| <= 0x1_0000_0000_0000_0000 && TotalSize(fs) < 0x1_0000_0000_0000_0000
    && |name| <= 131013
    && (forall i | 0 <= i < |fs| :: |fs[i].name| + |fs[i].checksum| + |Paths.Rel(base, fs[i].path)| <= 130999)
    && (forall i | 0 <= i < |ls| :: |Related(base, ls[i]).path| + |Related(base, ls[i]).target| <= 131020)
  }

  lemma LimitsAreEnough(v: Volume, name: Bytes, base: Bytes, es: seq<Entry>, recursive: bool, c: Setting)
    requires GoodTree(es) && c == DirSetting(v, name, base, es, recursive, c.key, c.downloads, c.before)
    requires |c.key| == 32 && WithinLimits(v, name, base, es, recursive)
    ensures Sized(c) && Transmissible(c) && KeyOk(c.key)
  {
    var fs, ls := AllFiles(v, base, es, recursive), AllLinks(base, es, recursive);
    TreeIsWellNamed(es);
    TreeSized(v, name, base, es, recursive, c.key, c.downloads, c.before);
    forall i | 0 <= i < |fs|
      ensures ShortFile(base, fs[i])
    {
    }
    forall i | 0 <= i < |ls|
      ensures ShortLink(base, ls[i])
    {
    }
    DirectoryTransmissibleIff(v, name, base, es, recursive, c);
  }

  /**
   * A whole transfer of a directory, by the classes, under a key as the program generates it, in every interleaving and
   * over every segmentation.  It ends in a panic if and only if the user agrees and something is in the way.  Otherwise
   * both nodes leave: if the user agreed every readable file and symlink is there, in the folder of the directory's name
   * if that could be made, and nothing else has changed; if not the receiver has what it had.
   */
  method TransferDirectory(v: Volume, name: Bytes, base: Bytes, readable: bool, es: seq<Entry>, recursive: bool,
                           key: Bytes, downloads: Bytes, before: map<Bytes, Bytes>, cipher: Cipher, yes: bool, made: bool)
    returns (ok: bool, panicked: bool, store: map<Bytes, Bytes>, links: map<Bytes, Bytes>)
    requires GoodTree(es) && |key| == 32 && Sound(cipher) && WithinLimits(v, name, base, es, recursive)
    ensures ok <==> readable && (recursive ==> CanBeListed(es))
    ensures ok ==>
              var folder := FolderFor(downloads, name, yes, made);
              && (panicked <==> yes && CannotGo(v, base, es, recursive, before, folder))
              && (!panicked && yes ==> DirectoryThere(v, base, es, recursive, before, folder, store, links))
              && (!panicked && !yes ==> store == before && links == map[])
  {
    var c := DirSetting(v, name, base, es, recursive, key, downloads, before);
    LimitsAreEnough(v, name, base, es, recursive, c);
    TreeIsWellNamed(es);
    ListableIff(es);
    panicked, store, links := false, before, map[];
    var conn := new Send.Outgoing();
    var node := ServeDirectory(v, name, base, readable, es, recursive, c, cipher, conn);
    ok := node.Some?;
    if ok {
      ghost var folder := FolderOf(c, yes, made);
      FolderIs(c, name, yes, made);
      DirectoryLocal(v, name, base, es, recursive, c);
      DirectoryHindered(v, name, base, es, recursive, c, folder);
      ghost var s, r;
      panicked, store, links, s, r := Transfer(node.value, v.digest, yes, made);
      if !panicked && yes {
        ThereAtLast(v, name, base, es, recursive, c, s, r);
      }
    }
  }

  /** The same for a single file. */
  method TransferFile(v: Volume, dir: Bytes, name: Bytes, key: Bytes, downloads: Bytes, before: map<Bytes, Bytes>,
                      cipher: Cipher, yes: bool, made: bool)
    returns (ok: bool, panicked: bool, store: map<Bytes, Bytes>)
    requires EntryName(name) && |key| == 32 && Sound(cipher)
    requires Child(dir, name) in v.files ==>
               var content := v.files[Child(dir, name)];
               |content| < 0x1_0000_0000_0000_0000 && |name| + |v.digest(Checksums.Hashed(content))| <= 130989
    ensures ok <==> Child(dir, name) in v.files
    ensures ok ==>
              var place := Child(downloads, name);
              && (panicked <==> yes && Barred(before, place))
              && (!panicked && yes ==>
                    && Arrived(v, v.files[Child(dir, name)], before, store, place)
                    && forall p | p != place :: Untouched(before, store, p))
              && (!panicked && !yes ==> store == before)
  {
    panicked, store := false, before;
    var file := FileAt(v, dir, name);
    assert Child(dir, name) == Paths.Join(dir, name);
    ok := file.Some?;
    if ok {
      var c := FileSetting(v, file.value, key, downloads, before);
      Checksums.SampleIs(v.files[Child(dir, name)]);
      FileTransmissibleIff(v, dir, name, c);
      FileSized(v, dir, name, key, downloads, before);
      FileLocal(v, dir, name, c);
      FileHindered(v, dir, name, c, downloads);
      var conn := new Send.Outgoing();
      var node := ServeFile(v, dir, name, c, cipher, conn);
      var links;
      ghost var s, r;
      panicked, store, links, s, r := Transfer(node.value, v.digest, yes, made);
      if !panicked && yes {
        FileIsThere(v, dir, name, c, s, r);
      }
    }
  }
}
