/** The sender's loop as the program runs it: flags and counters updated in place, file records shared by reference. */
module SenderNodes {
  import opened Wrappers
  import opened Bytes
  import opened Ciphers
  import opened Fsys
  import opened Packets
  import opened Protocol
  import opened Codec
  import opened Recv
  import opened Send
  import opened Wire
  import CleanPaths
  import Paths

  // ------------------------------------------------- facts about the queue

  lemma {:induction false} PreparedIs(c: Setting, i: nat, q: seq<FileInfo>)
    requires i <= |c.served| && |q| == |c.served| - i
    requires forall k | 0 <= k < |q| :: q[k] == Prepared(c, i + k)
    ensures q == PreparedFrom(c, i)
    decreases |c.served| - i
  {
    if i < |c.served| {
      PreparedIs(c, i + 1, q[1..]);
      assert q == [q[0]] + q[1..];
    }
  }

  lemma {:induction false} IndexFound(files: seq<FileInfo>, id: nat, from: nat, i: nat)
    requires from <= i < |files| && files[i].id == id
    requires forall k | from <= k < i :: files[k].id != id
    ensures IndexFrom(files, id, from) == i
    decreases i - from
  {
    if from < i {
      IndexFound(files, id, from + 1, i);
    }
  }

  lemma {:induction false} IndexMissing(files: seq<FileInfo>, id: nat, from: nat)
    requires forall k | from <= k < |files| :: files[k].id != id
    ensures IndexFrom(files, id, from) == 0
    decreases |files| - from
  {
    if from < |files| {
      IndexMissing(files, id, from + 1);
    }
  }

  lemma {:induction false} IndexInRange(files: seq<FileInfo>, id: nat, k: nat)
    requires |files| > 0
    ensures IndexFrom(files, id, k) < |files|
    decreases |files| - k
  {
    if k < |files| && files[k].id != id {
      IndexInRange(files, id, k + 1);
    }
  }

  /** The index search stops at the first file with the ID, or stays at 0 if there is none. */
  lemma IndexOfIs(files: seq<FileInfo>, id: nat)
    ensures var i := IndexOf(files, id);
            if exists k :: 0 <= k < |files| && files[k].id == id
            then i < |files| && files[i].id == id && forall k | 0 <= k < i :: files[k].id != id
            else i == 0
  {
    IndexFromIs(files, id, 0);
  }

  lemma {:induction false} IndexFromIs(files: seq<FileInfo>, id: nat, k: nat)
    ensures var i := IndexFrom(files, id, k);
            if exists j :: k <= j < |files| && files[j].id == id
            then k <= i < |files| && files[i].id == id && forall j | k <= j < i :: files[j].id != id
            else i == 0
    decreases |files| - k
  {
    if k < |files| && files[k].id != id {
      IndexFromIs(files, id, k + 1);
      if exists j :: k <= j < |files| && files[j].id == id {
        var j :| k <= j < |files| && files[j].id == id;
        assert k + 1 <= j;
      }
    }
  }

  /** Slot k of a full backing array after the file at d has been removed in place; the last slot is stale. */
  function Shifted(was: seq<File>, d: nat, k: nat): File
    requires k < |was|
  {
    if d <= k < |was| - 1 then was[k + 1] else was[k]
  }

  /** append(s[:i], s[i+1:]...) on the first `count` slots: later ones move down, the last is left stale. */
  method RemoveSlot(backing: array<File>, count: nat, i: nat)
    requires i < count <= backing.Length
    modifies backing
    ensures forall k | 0 <= k < backing.Length ::
              backing[k] == old(if i <= k < count - 1 then backing[k + 1] else backing[k])
    ensures count == backing.Length ==> forall k | 0 <= k < backing.Length :: backing[k] == Shifted(old(backing[..]), i, k)
  {
    forall k | i <= k < count - 1 {
      backing[k] := backing[k + 1];
    }
  }

  /**
   * The ALREADYHAVE loop.  The range keeps the length the queue had at the start and there is no break, so after a
   * removal it goes on over the shifted slots and the stale last one.  With distinct IDs none of them matches again:
   * the one match is removed, the rest keep their order, and `hits` and `bytes` count it once.
   */
  method RangeAndRemove(backing: array<File>, fileID: nat) returns (count: nat, hits: nat, bytes: nat)
    requires DistinctIds(Views(backing[..]))
    modifies backing
    ensures var was := old(backing[..]);
            var i := IndexOf(Views(was), fileID);
            if i < |was| && was[i].id == fileID then
              hits == 1 && bytes == was[i].size && count == |was| - 1 && backing[..count] == RemoveAt(was, i)
            else
              hits == 0 && bytes == 0 && count == |was| && backing[..count] == was
  {
    ghost var was := backing[..];
    ghost var infos := Views(was);
    ghost var dropped: nat := |was|; // where the removal took place, |was| if nowhere yet
    count, hits, bytes := backing.Length, 0, 0;
    var index := 0;
    while index < backing.Length
      invariant 0 <= index <= backing.Length == |was| == |infos|
      invariant forall k | 0 <= k < |was| :: was[k].View() == infos[k]
      invariant dropped < index || dropped == |was|
      invariant dropped == |was| ==> hits == 0 && bytes == 0 && count == |was| && forall k | 0 <= k < index :: infos[k].id != fileID
      invariant dropped < |was| ==> hits == 1 && count == |was| - 1 && infos[dropped].id == fileID && bytes == infos[dropped].size
      invariant forall k | 0 <= k < |was| :: backing[k] == Shifted(was, dropped, k)
    {
      var fileToSend := backing[index];
      if fileToSend.id == fileID {
        ghost var at := if dropped <= index < |was| - 1 then index + 1 else index;
        assert fileToSend == was[at] && infos[at].id == fileID;
        if dropped < |was| {
          OtherIdsDiffer(infos, dropped);
        }
        RemoveSlot(backing, count, index);
        count := count - 1;
        hits := hits + 1;
        bytes := bytes + fileToSend.size;
        dropped := index;
      }
      index := index + 1;
    }
    if dropped < |was| {
      IndexBefore(infos, fileID, dropped);
    } else {
      IndexMissing(infos, fileID, 0);
    }
  }

  /** The queue's own array, before and after the loop. */
  method Remaining(queue: seq<File>, fileID: nat) returns (kept: seq<File>, hits: nat, bytes: nat)
    requires DistinctIds(Views(queue))
    ensures var was := Views(queue);
            var i := IndexOf(was, fileID);
            if i < |was| && was[i].id == fileID then
              hits == 1 && bytes == was[i].size && kept == RemoveAt(queue, i)
            else
              hits == 0 && kept == queue
  {
    var backing := new File[|queue|](i requires 0 <= i < |queue| => queue[i]);
    assert backing[..] == queue;
    var count;
    count, hits, bytes := RangeAndRemove(backing, fileID);
    kept := backing[..count];
  }

  lemma IndexBefore(files: seq<FileInfo>, id: nat, i: nat)
    requires DistinctIds(files) && i < |files| && files[i].id == id
    ensures IndexOf(files, id) == i
  {
    OtherIdsDiffer(files, i);
    IndexFound(files, id, 0, i);
  }

  // ------------------------------------------------------- what is written

  /** The sealing senders write what the wire says. */
  lemma SealedIsWritten(cipher: Cipher, key: Bytes, m: Msg)
    requires KeyOk(key) && BodyOf(m) != [] && !m.EncrKey?
    ensures var (r, written) := Sealing(cipher, Some(key), HeaderOf(m), BodyOf(m));
            && !r.NotSealed?
            && WriteMsg(cipher, Some(key), m) == if (m.FileMsg? || m.FileBytes?) && r.TooBig? then None else Some(written)
  {
  }

  /** Before ACCEPT file i is as it was found; once its relative path is set it is what is served. */
  predicate Announces(c: Setting, base: Bytes, f: FileInfo, i: nat)
    requires i < |c.served|
  {
    f.(rel := if c.isDir then Paths.Rel(base, f.path) else f.rel) == c.served[i]
  }

  /** The same of the symlinks, which only a directory has; if one cannot be made relative the setting says so. */
  ghost predicate AnnouncesLinks(c: Setting, base: Bytes, ls: seq<Link>) {
    c.isDir ==>
      && (c.relatable <==> AllRelatable(base, ls))
      && (c.relatable ==> |ls| == |c.links| && forall i | 0 <= i < |ls| :: RelativeLink(base, ls[i]) == Some(c.links[i]))
  }

  ghost predicate AllRelatable(base: Bytes, ls: seq<Link>) {
    forall i | 0 <= i < |ls| :: RelativeLink(base, ls[i]).Some?
  }

  lemma HeldIs(s: Sender, id: nat)
    ensures var i := IndexOf(s.files, id);
            DropHeld(s, id) == if i < |s.files| && s.files[i].id == id
              then s.(files := RemoveAt(s.files, i), curId := s.curId + 1, sentBytes := s.sentBytes + s.files[i].size, inTransfer := false)
              else s
  {
  }

  lemma AcceptIs(c: Setting, s: Sender)
    requires s.files == []
    ensures SenderReact(c, s, Accept)
         == s.(allowed := true, files := PreparedFrom(c, 0), links := if c.isDir then c.links else s.links, curId := 0)
  {
  }

  class SenderNode {
    const c: Setting
    const cipher: Cipher
    const base: Bytes                 // directory being served
    const found: seq<File>            // what GetAllFiles or GetFile returned
    const dirName: Bytes              // name of that directory
    const totalTransferSize: nat
    const conn: Outgoing
    ghost const pool: set<File>       // the files in `found`

    var stopped: bool
    var closed: bool
    var offered: bool
    var symlinks: seq<Link>           // what GetAllSymlinks returns
    var canSendBytes: bool
    var allowedToTransfer: bool
    var inTransfer: bool
    var filesToSend: seq<File>
    var symlinksToSend: seq<Link>
    var currentFileID: nat
    var sentBytes: nat
    var currentSymlinkIndex: nat

    constructor (c: Setting, cipher: Cipher, base: Bytes, dirName: Bytes, total: nat, found: seq<File>, symlinks: seq<Link>, conn: Outgoing)
      requires KeyOk(c.key) && Distinct(found) && |found| == |c.served| && total == c.total
      requires if c.isDir then dirName == c.dirName else |found| == 1
      requires forall i | 0 <= i < |found| :: Announces(c, base, found[i].View(), i)
      requires AnnouncesLinks(c, base, symlinks)
      ensures Valid() && View() == InitialSender()
      ensures this.c == c && this.cipher == cipher && this.base == base && this.found == found && this.conn == conn
      ensures forall f | f in pool :: f in found
    {
      this.c, this.cipher, this.base, this.found, this.symlinks, this.conn := c, cipher, base, found, symlinks, conn;
      this.dirName, totalTransferSize := dirName, total;
      pool := set f | f in found;
      stopped, closed, offered, canSendBytes, allowedToTransfer, inTransfer := false, false, false, false, false, false;
      filesToSend, symlinksToSend, currentFileID, sentBytes, currentSymlinkIndex := [], [], 0, 0, 0;
    }

    ghost predicate Shape()
      reads this
    {
      && KeyOk(c.key) && Distinct(found) && |found| == |c.served| && totalTransferSize == c.total
      && (if c.isDir then dirName == c.dirName else |found| == 1)
      && (forall k | 0 <= k < |found| :: found[k] in pool)
      && Distinct(filesToSend) && (forall k | 0 <= k < |filesToSend| :: filesToSend[k] in pool)
    }

    ghost predicate Valid()
      reads this, pool
    {
      && Shape() && DistinctIds(Views(filesToSend))
      && (!allowedToTransfer ==>
            filesToSend == [] && AnnouncesLinks(c, base, symlinks)
            && forall i | 0 <= i < |found| :: Announces(c, base, found[i].View(), i))
    }

    ghost function View(): Sender
      requires Shape()
      reads this, pool
    {
      Sender(stopped, closed, offered, canSendBytes, allowedToTransfer, inTransfer,
             Views(filesToSend), symlinksToSend, currentFileID, sentBytes, currentSymlinkIndex)
    }

    // ----------------------------------------------------------- the greeting

    /** The key, before the loop starts. */
    method Greet()
      requires Valid()
      modifies conn
      ensures Valid() && View() == old(View())
      ensures var w := WriteMsg(cipher, Some(c.key), EncrKey(c.key));
              w.Some? && conn.written == old(conn.written) + w.value
    {
      var ok := SendEncryptionKey(conn, c.key);
    }

    /** The goroutine that sends the offer. */
    method SendOffer()
      requires Valid() && !offered && !allowedToTransfer
      modifies this`offered, conn
      ensures Valid() && View() == old(View()).(offered := true)
      ensures !c.isDir ==> |c.served| > 0
      ensures var w := WriteMsg(cipher, Some(c.key), TransferOffer(OfferOf(c)));
              w.Some? && conn.written == old(conn.written) + w.value
    {
      var r;
      SealedIsWritten(cipher, c.key, TransferOffer(OfferOf(c)));
      if c.isDir {
        r := SendTransferOffer(conn, DirOffer(dirName, totalTransferSize), null, cipher, Some(c.key));
      } else {
        assert Announces(c, base, found[0].View(), 0);
        r := SendTransferOffer(conn, FileOffer(Meta(found[0].View())), found[0], cipher, Some(c.key));
      }
      offered := true;
    }

    // ---------------------------------------------------------------- ACCEPT

    /** False stands for the error filepath.Rel returns for a target that is not absolute. */
    method SetRelativePaths() returns (ok: bool)
      requires Distinct(found) && forall k | 0 <= k < |found| :: found[k] in pool
      modifies this`symlinks, pool
      ensures forall i | 0 <= i < |found| :: found[i].View() == old(found[i].View()).(rel := Paths.Rel(base, old(found[i].path)))
      ensures ok <==> AllRelatable(base, old(symlinks))
      ensures ok ==> |symlinks| == |old(symlinks)| && forall i | 0 <= i < |symlinks| :: RelativeLink(base, old(symlinks)[i]) == Some(symlinks[i])
    {
      var i := 0;
      while i < |found|
        invariant 0 <= i <= |found|
        invariant forall k | 0 <= k < i :: found[k].View() == old(found[k].View()).(rel := Paths.Rel(base, old(found[k].path)))
        invariant forall k | i <= k < |found| :: found[k].View() == old(found[k].View())
        invariant symlinks == old(symlinks)
      {
        OthersDiffer(found, i);
        found[i].rel := Paths.Rel(base, found[i].path);
        i := i + 1;
      }
      ok := SetRelativeLinks();
    }

    /** The second loop: the symlinks' own paths and their targets, up to the first error. */
    method SetRelativeLinks() returns (ok: bool)
      modifies this`symlinks
      ensures ok <==> AllRelatable(base, old(symlinks))
      ensures ok ==> |symlinks| == |old(symlinks)| && forall i | 0 <= i < |symlinks| :: RelativeLink(base, old(symlinks)[i]) == Some(symlinks[i])
    {
      var i := 0;
      while i < |symlinks|
        invariant 0 <= i <= |symlinks| == |old(symlinks)|
        invariant forall k | 0 <= k < i :: RelativeLink(base, old(symlinks)[k]) == Some(symlinks[k])
        invariant forall k | i <= k < |symlinks| :: symlinks[k] == old(symlinks)[k]
      {
        var path := Paths.Rel(base, symlinks[i].path);
        var target := CleanPaths.Rel(base, symlinks[i].target);
        if target.None? {
          assert RelativeLink(base, old(symlinks)[i]).None?;
          symlinks := symlinks[i := symlinks[i].(path := path)];
          return false;
        }
        symlinks := symlinks[i := Link(path, target.value)];
        i := i + 1;
      }
      ok := true;
    }

    method MakeReady() returns (ok: bool)
      requires Shape() && forall i | 0 <= i < |found| :: Announces(c, base, found[i].View(), i)
      requires AnnouncesLinks(c, base, symlinks)
      modifies this`symlinks, this`symlinksToSend, pool
      ensures ok <==> !CannotPrepare(c, Accept)
      ensures ok ==> forall k | 0 <= k < |found| :: found[k].View().(id := k) == Prepared(c, k)
      ensures ok ==> symlinksToSend == if c.isDir then c.links else old(symlinksToSend)
    {
      assert forall i | 0 <= i < |found| :: Announces(c, base, old(found[i].View()), i);
      ok := true;
      if c.isDir {
        ok := SetRelativePaths();
        if ok {
          assert forall i | 0 <= i < |symlinks| :: Some(symlinks[i]) == Some(c.links[i]);
          symlinksToSend := symlinks;
        }
      }
    }

    /** Numbers the files in queue order and puts them into the queue. */
    method QueueFiles()
      requires Shape() && filesToSend == []
      requires forall k | 0 <= k < |found| :: found[k].View().(id := k) == Prepared(c, k)
      modifies this`filesToSend, pool
      ensures filesToSend == found && Views(filesToSend) == PreparedFrom(c, 0) && DistinctIds(PreparedFrom(c, 0))
    {
      var counter := 0;
      while counter < |found|
        invariant 0 <= counter <= |found|
        invariant filesToSend == found[..counter]
        invariant forall k | 0 <= k < counter :: found[k].View() == Prepared(c, k)
        invariant forall k | counter <= k < |found| :: found[k].View() == old(found[k].View())
      {
        var file := found[counter];
        OthersDiffer(found, counter);
        file.id := counter;
        filesToSend := filesToSend + [file];
        counter := counter + 1;
      }
      PreparedIs(c, 0, Views(filesToSend));
      assert forall i, j | 0 <= i < j < |found| :: IdsDiffer(Views(filesToSend), i, j);
    }

    /** Relative paths, then IDs in queue order; false stands for the panic when a relative path cannot be had. */
    method FillQueue() returns (ok: bool)
      requires Valid() && !allowedToTransfer
      modifies this`symlinks, this`symlinksToSend, this`filesToSend, this`currentFileID, pool
      ensures ok <==> !CannotPrepare(c, Accept)
      ensures ok ==> Shape() && Views(filesToSend) == PreparedFrom(c, 0) && DistinctIds(PreparedFrom(c, 0))
      ensures ok ==> currentFileID == 0 && symlinksToSend == if c.isDir then c.links else old(symlinksToSend)
    {
      ok := MakeReady();
      if !ok {
        return;
      }
      currentFileID := 0;
      QueueFiles();
    }

    /** The flag that says the queue is there. */
    method Allow()
      requires Shape() && DistinctIds(Views(filesToSend))
      modifies this`allowedToTransfer
      ensures Valid() && View() == old(View()).(allowed := true)
    {
      allowedToTransfer := true;
    }

    /** ACCEPT. */
    method PrepareFiles() returns (ok: bool)
      requires Valid() && !allowedToTransfer
      modifies this`symlinks, this`symlinksToSend, this`filesToSend, this`allowedToTransfer, this`currentFileID, pool
      ensures ok <==> !CannotPrepare(c, Accept)
      ensures ok ==> Valid() && View() == SenderReact(c, old(View()), Accept)
    {
      ghost var s := View();
      ok := FillQueue();
      if ok {
        Allow();
        AcceptIs(c, s);
      }
    }

    // ----------------------------------------------------------- ALREADYHAVE

    method AlreadyHaveFile(fileID: nat)
      requires Valid()
      modifies this`filesToSend, this`currentFileID, this`sentBytes, this`inTransfer
      ensures Valid() && View() == DropHeld(old(View()), fileID)
    {
      HeldIs(View(), fileID);
      var hits, bytes := DropFromQueue(fileID);
      if hits > 0 {
        currentFileID := currentFileID + hits;
        sentBytes := sentBytes + bytes;
        inTransfer := false;
      }
    }

    /** Runs the loop on the array behind the queue and keeps the shortened slice. */
    method DropFromQueue(fileID: nat) returns (hits: nat, bytes: nat)
      requires Valid()
      modifies this`filesToSend
      ensures Valid()
      ensures var was := old(Views(filesToSend));
              var i := IndexOf(was, fileID);
              if i < |was| && was[i].id == fileID then
                hits == 1 && bytes == was[i].size && Views(filesToSend) == RemoveAt(was, i)
              else
                hits == 0 && filesToSend == old(filesToSend)
    {
      var queue := filesToSend;
      var kept;
      kept, hits, bytes := Remaining(queue, fileID);
      filesToSend := kept;
      if hits > 0 {
        RemovalKeeps(queue, IndexOf(Views(queue), fileID));
      }
    }

    /** Index of the file with the current ID, 0 if there is none. */
    method CurrentIndex() returns (i: nat)
      requires Valid()
      ensures i == IndexOf(Views(filesToSend), currentFileID)
    {
      i := 0;
      while i < |filesToSend|
        invariant 0 <= i <= |filesToSend|
        invariant IndexOf(Views(filesToSend), currentFileID) == IndexFrom(Views(filesToSend), currentFileID, i)
      {
        if filesToSend[i].id == currentFileID {
          return;
        }
        i := i + 1;
      }
      i := 0;
    }

    // ------------------------------------------------- the transfer section

    method SendNextLink()
      requires Valid() && currentSymlinkIndex < |symlinksToSend|
      modifies this`currentSymlinkIndex, conn
      ensures currentSymlinkIndex == old(currentSymlinkIndex) + 1
      ensures var w := WriteMsg(cipher, Some(c.key), SymlinkMsg(symlinksToSend[old(currentSymlinkIndex)]));
              w.Some? && conn.written == old(conn.written) + w.value
    {
      var link := symlinksToSend[currentSymlinkIndex];
      SealedIsWritten(cipher, c.key, SymlinkMsg(link));
      var r := SendSymlink(conn, link, cipher, Some(c.key));
      currentSymlinkIndex := currentSymlinkIndex + 1;
    }

    /** Sends FILE for the file at index i. */
    method SendFile(i: nat) returns (ok: bool)
      requires Valid() && i < |filesToSend|
      modifies this`inTransfer, conn
      ensures var w := WriteMsg(cipher, Some(c.key), FileMsg(Meta(filesToSend[i].View())));
              && (ok <==> w.Some?)
              && (ok ==> inTransfer && conn.written == old(conn.written) + w.value)
    {
      ghost var m := FileMsg(Meta(filesToSend[i].View()));
      SealedIsWritten(cipher, c.key, m);
      var fpacket := CreateFilePacket(filesToSend[i]);
      var r := SendSealed(conn, cipher, Some(c.key), H_FILE, fpacket.body);
      ok := r.Written?;
      if ok {
        inTransfer := true;
      }
    }

    method SendEndFile(id: nat)
      requires Valid()
      modifies conn
      ensures var w := WriteMsg(cipher, Some(c.key), EndFile(id));
              w.Some? && conn.written == old(conn.written) + w.value
    {
      SealedIsWritten(cipher, c.key, EndFile(id));
      var fileIDBuff := new Buffer([]);
      fileIDBuff.WriteU64(id);
      assert fileIDBuff.data == PutU64(id);
      var r := SendSealed(conn, cipher, Some(c.key), H_ENDFILE, fileIDBuff.data);
    }

    /** Drops the file at index i from the queue and moves on to the next ID. */
    method FinishFile(i: nat)
      requires Valid() && allowedToTransfer && i < |filesToSend|
      modifies this`filesToSend, this`currentFileID, this`inTransfer
      ensures Valid()
      ensures View() == old(View()).(files := RemoveAt(old(Views(filesToSend)), i), curId := old(currentFileID) + 1, inTransfer := false)
    {
      RemovalKeeps(filesToSend, i);
      filesToSend := filesToSend[..i] + filesToSend[i + 1..];
      currentFileID := currentFileID + 1;
      inTransfer := false;
    }

    /** SendPiece on the file at index i, seen from the queue: only that record moves. */
    method CutPiece(i: nat) returns (n: nat, err: SendError)
      requires Valid() && allowedToTransfer && i < |filesToSend|
      modifies pool, conn
      ensures var files := old(Views(filesToSend));
        match NextPiece(files[i], c.disk, CHUNK)
        case SentAll =>
          && err == ErrorSentAll && n == 0 && conn.written == old(conn.written)
          && Valid() && Views(filesToSend) == files
        case Sent(f, data) =>
          var w := WriteMsg(cipher, Some(c.key), FileBytes(f.id, data));
          && err == (if w.Some? then NoError else OtherError)
          && (w.Some? ==> n == |data| && conn.written == old(conn.written) + w.value)
          && Valid() && Views(filesToSend) == files[i := f]
        case ReadFailed => err == OtherError
    {
      ghost var files := Views(filesToSend);
      var file := filesToSend[i];
      RoomIs(Some(c.key));
      PieceIsWritten(cipher, c.key, file.View(), c.disk);
      n, err := SendPiece(file, c.disk, conn, cipher, Some(c.key));
      ViewsAfterUpdate(filesToSend, files, i);
    }

    /** The node has gone from `was` to what `o` says, and has written what it says; false stands for a panic. */
    ghost predicate Outcome(o: SenderOutcome, ok: bool, written: Bytes)
      reads this, pool, conn
    {
      var w := if o.SenderNext? then OneWritten(cipher, Some(c.key), o.out) else None;
      && (ok <==> w.Some?)
      && (ok ==> Valid() && View() == o.s && conn.written == written + w.value)
    }

    /** Where SendPiece on the file at index i of `s` has left the node. */
    ghost predicate Cut(s: Sender, i: nat, piece: Piece, n: nat, err: SendError, written: Bytes)
      requires i < |s.files|
      reads this, pool, conn
    {
      match piece
      case SentAll => err == ErrorSentAll && n == 0 && Valid() && View() == s && conn.written == written
      case Sent(f, data) =>
        var w := WriteMsg(cipher, Some(c.key), FileBytes(f.id, data));
        && w.Some? && err == NoError && n == |data|
        && Valid() && View() == s.(files := s.files[i := f]) && conn.written == written + w.value
      case ReadFailed => false
    }

    method EndCurrent(i: nat, ghost s: Sender, ghost written: Bytes)
      requires Valid() && allowedToTransfer && i < |filesToSend| && View() == s && conn.written == written
      modifies this`filesToSend, this`currentFileID, this`inTransfer, conn
      ensures Outcome(AfterCut(s, i, SentAll), true, written)
    {
      SendEndFile(filesToSend[i].id);
      FinishFile(i);
    }

    /** What the loop does with SendPiece's result: ENDFILE at the end of the file, else wait for READY. */
    method AfterPiece(i: nat, n: nat, err: SendError, ghost s: Sender, ghost piece: Piece, ghost written: Bytes)
      requires i < |s.files| && Cut(s, i, piece, n, err, written) && s.allowed
      modifies this`filesToSend, this`currentFileID, this`inTransfer, this`sentBytes, this`canSendBytes, conn
      ensures Outcome(AfterCut(s, i, piece), true, written)
    {
      sentBytes := sentBytes + n;
      if err.ErrorSentAll? {
        EndCurrent(i, s, written);
      } else {
        canSendBytes := false;
      }
    }

    method SendDone()
      requires Valid()
      modifies this`stopped, conn
      ensures stopped && conn.written == old(conn.written) + BytesOf(Frame(H_DONE, []))
    {
      var p := new Packet(Frame(H_DONE, []));
      var ok := SendPacket(conn, p);
      stopped := true;
    }

    method LinkOrDone() returns (ok: bool)
      requires Valid() && filesToSend == [] && currentSymlinkIndex <= |symlinksToSend|
      modifies this`currentSymlinkIndex, this`stopped, conn
      ensures Outcome(SenderTransfer(c, old(View())), ok, old(conn.written))
    {
      if currentSymlinkIndex < |symlinksToSend| {
        SendNextLink();
      } else {
        SendDone();
      }
      ok := true;
    }

    method StartFile() returns (ok: bool)
      requires Valid() && allowedToTransfer && !inTransfer && filesToSend != []
      modifies this`inTransfer, conn
      ensures Outcome(SenderTransfer(c, old(View())), ok, old(conn.written))
    {
      var i := CurrentIndex();
      IndexInRange(Views(filesToSend), currentFileID, 0);
      ok := SendFile(i);
    }

    method ContinueFile() returns (ok: bool)
      requires Valid() && allowedToTransfer && canSendBytes && inTransfer && filesToSend != []
      modifies this`filesToSend, this`currentFileID, this`inTransfer, this`sentBytes, this`canSendBytes, pool, conn
      ensures Outcome(SenderTransfer(c, old(View())), ok, old(conn.written))
    {
      ghost var s, written := View(), conn.written;
      var i := CurrentIndex();
      IndexInRange(Views(filesToSend), currentFileID, 0);
      ghost var piece := NextPiece(s.files[i], c.disk, CHUNK);
      assert SenderTransfer(c, s) == AfterCut(s, i, piece);
      var n, err := CutPiece(i);
      if err.OtherError? {
        return false;
      }
      AfterPiece(i, n, err, s, piece, written);
      ok := true;
    }

    /** The transfer section. */
    method Transfer() returns (ok: bool)
      requires Valid()
      modifies this, pool, conn
      ensures Outcome(SenderTransfer(c, old(View())), ok, old(conn.written))
    {
      if |filesToSend| == 0 && currentSymlinkIndex <= |symlinksToSend| {
        ok := LinkOrDone();
      } else if allowedToTransfer && !inTransfer {
        if |filesToSend| == 0 {
          return false;
        }
        ok := StartFile();
      } else if allowedToTransfer && canSendBytes && inTransfer {
        if |filesToSend| == 0 {
          return false;
        }
        ok := ContinueFile();
      } else {
        ok := true;
      }
    }

    // ------------------------------------------------------------- the loop

    /** Tells the other node and leaves the loop. */
    method Disconnect()
      requires Valid()
      modifies this`closed, conn
      ensures Valid() && View() == old(View()).(closed := true)
      ensures conn.written == old(conn.written) + BytesOf(Frame(H_BYE, []))
    {
      var p := new Packet(Frame(H_BYE, []));
      var ok := SendPacket(conn, p);
      closed := true;
    }

    /** The messages that only set a flag, and those that mean nothing to a sender. */
    method Note(m: Msg)
      requires Valid() && !m.Accept? && !m.AlreadyHave?
      modifies this`canSendBytes, this`stopped
      ensures Valid() && View() == SenderReact(c, old(View()), m)
    {
      match m {
        case Ready => canSendBytes := true;
        case Reject => stopped := true;
        case Bye => stopped := true;
        case _ =>
      }
    }

    /** Reacts to a message; ACCEPT comes at most once.  False stands for a panic. */
    method React(m: Msg) returns (ok: bool)
      requires Valid() && (m.Accept? ==> !allowedToTransfer)
      modifies this, pool
      ensures ok <==> !CannotPrepare(c, m)
      ensures ok ==> Valid() && View() == SenderReact(c, old(View()), m)
    {
      ok := true;
      match m {
        case Accept => ok := PrepareFiles();
        case AlreadyHave(id) => AlreadyHaveFile(id);
        case _ => Note(m);
      }
    }

    /** Opens a packet with the node's own key and decodes it; None is a panic. */
    method Open(p: Packet) returns (m: Option<Msg>)
      requires Valid()
      modifies p
      ensures m == ForSender(cipher, Some(c.key), old(p.View()))
    {
      var decrypted := p.DecryptBody(cipher, c.key);
      if !decrypted {
        return None;
      }
      var decoded := DecodeAtSender(p);
      m := Some(decoded);
    }

    /** One pass of the loop over a packet taken from the pipe: decrypt, react, transfer.  False stands for a panic. */
    method Iterate(p: Packet) returns (ok: bool)
      requires Valid()
      requires ForSender(cipher, Some(c.key), p.View()) == Some(Accept) ==> !allowedToTransfer
      modifies this, pool, conn, p
      ensures var m := ForSender(cipher, Some(c.key), old(p.View()));
              if m.None? then !ok
              else Outcome(SenderPass(c, old(View()), m.value), ok, old(conn.written))
    {
      var m := Open(p);
      if m.None? {
        return false;
      }
      ok := React(m.value);
      if ok {
        ok := Transfer();
      }
    }
  }

  lemma PieceIsWritten(cipher: Cipher, key: Bytes, f: FileInfo, disk: map<Bytes, Bytes>)
    requires KeyOk(key)
    ensures match NextPiece(f, disk, CHUNK)
      case Sent(g, data) =>
        var (r, written) := Sealing(cipher, Some(key), H_FILEBYTES, PutU64(g.id) + data);
        && !r.NotSealed? && (r.Written? || r.TooBig?)
        && WriteMsg(cipher, Some(key), FileBytes(g.id, data)) == if r.TooBig? then None else Some(written)
      case _ => true
  {
    match NextPiece(f, disk, CHUNK) {
      case Sent(g, data) => SealedIsWritten(cipher, key, FileBytes(g.id, data));
      case _ =>
    }
  }

  /** Only record i has changed, and not its ID. */
  lemma ViewsAfterUpdate(files: seq<File>, was: seq<FileInfo>, i: nat)
    requires Distinct(files) && DistinctIds(was) && |was| == |files| && i < |files|
    requires files[i].id == was[i].id
    requires forall k | 0 <= k < |files| && files[k] != files[i] :: files[k].View() == was[k]
    ensures Views(files) == was[i := files[i].View()] && DistinctIds(Views(files))
  {
    OthersDiffer(files, i);
    forall a, b | 0 <= a < b < |files|
      ensures IdsDiffer(Views(files), a, b)
    {
      assert IdsDiffer(was, a, b);
    }
  }

  lemma ViewsOfRemoval(files: seq<File>, i: nat)
    requires i < |files|
    ensures Views(RemoveAt(files, i)) == RemoveAt(Views(files), i)
  {
  }

  lemma RemovalKeeps(files: seq<File>, i: nat)
    requires i < |files| && Distinct(files) && DistinctIds(Views(files))
    ensures Distinct(RemoveAt(files, i)) && DistinctIds(Views(RemoveAt(files, i)))
    ensures Views(RemoveAt(files, i)) == RemoveAt(Views(files), i)
    ensures forall f | f in RemoveAt(files, i) :: f in files
  {
    ViewsOfRemoval(files, i);
    RemovalKeepsDistinct(Views(files), i);
    RemovalKeepsShape(files, i);
  }
}
