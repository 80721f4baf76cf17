/** The receiver's loop as the program runs it. */
module ReceiverNodes {
  import opened Wrappers
  import opened Bytes
  import opened Ciphers
  import opened Fsys
  import opened Packets
  import opened Protocol
  import opened Invariant
  import opened Codec
  import opened Recv
  import opened Send
  import opened Wire
  import opened Checksums
  import CleanPaths
  import Paths

  /** n for each of the files from k on that has this ID. */
  function ForEach(files: seq<FileInfo>, k: nat, id: nat, n: nat): nat
    decreases |files| - k
  {
    if k >= |files| then 0 else (if files[k].id == id then n else 0) + ForEach(files, k + 1, id, n)
  }

  /** FILEBYTES moves every accepted file with the ID, and no other, and counts its bytes once for each. */
  lemma AbsorbIs(r: Receiver, id: nat, data: Bytes)
    ensures var s := Absorb(r, 0, id, data);
            && |s.accepted| == |r.accepted|
            && (forall j | 0 <= j < |r.accepted| ::
                  s.accepted[j] == if r.accepted[j].id == id then r.accepted[j].(sent := r.accepted[j].sent + |data|) else r.accepted[j])
            && s.received == r.received + ForEach(r.accepted, 0, id, |data|)
            && s == r.(accepted := s.accepted, received := s.received, store := s.store)
            && forall p | (forall j | 0 <= j < |r.accepted| && r.accepted[j].id == id :: r.accepted[j].path != p) ::
                 (p in s.store <==> p in r.store) && (p in r.store ==> s.store[p] == r.store[p])
  {
    AbsorbShape(r, 0, id, data);
    AbsorbCounts(r, 0, id, data);
    forall j | 0 <= j < |r.accepted|
      ensures Absorb(r, 0, id, data).accepted[j]
           == if r.accepted[j].id == id then r.accepted[j].(sent := r.accepted[j].sent + |data|) else r.accepted[j]
    {
      AbsorbRecord(r, 0, id, data, j);
    }
    forall p | forall j | 0 <= j < |r.accepted| && r.accepted[j].id == id :: r.accepted[j].path != p
      ensures var s := Absorb(r, 0, id, data); (p in s.store <==> p in r.store) && (p in r.store ==> s.store[p] == r.store[p])
    {
      AbsorbLeaves(r, 0, id, data, p);
    }
  }

  /** One round of the loop, by whether file k has the ID. */
  function AbsorbOnce(r: Receiver, k: nat, id: nat, data: Bytes): (t: Receiver)
    requires k < |r.accepted|
    ensures |t.accepted| == |r.accepted|
    ensures t == r.(accepted := t.accepted, received := t.received, store := t.store)
  {
    if r.accepted[k].id == id then AbsorbAt(r, k, data) else r
  }

  lemma {:induction false} AbsorbShape(r: Receiver, k: nat, id: nat, data: Bytes)
    requires k <= |r.accepted|
    ensures var s := Absorb(r, k, id, data);
            |s.accepted| == |r.accepted| && s == r.(accepted := s.accepted, received := s.received, store := s.store)
    decreases |r.accepted| - k
  {
    if k < |r.accepted| {
      AbsorbUnfolds(r, k, id, data);
      AbsorbShape(AbsorbOnce(r, k, id, data), k + 1, id, data);
    }
  }

  lemma {:induction false} AbsorbCounts(r: Receiver, k: nat, id: nat, data: Bytes)
    requires k <= |r.accepted|
    ensures Absorb(r, k, id, data).received == r.received + ForEach(r.accepted, k, id, |data|)
    decreases |r.accepted| - k
  {
    if k < |r.accepted| {
      var t := AbsorbOnce(r, k, id, data);
      AbsorbUnfolds(r, k, id, data);
      AbsorbCounts(t, k + 1, id, data);
      SameForEach(r.accepted, t.accepted, k + 1, id, |data|);
    }
  }

  lemma {:induction false} AbsorbRecord(r: Receiver, k: nat, id: nat, data: Bytes, j: nat)
    requires k <= |r.accepted| && j < |r.accepted|
    ensures var s, f := Absorb(r, k, id, data), r.accepted[j];
            |s.accepted| == |r.accepted| && s.accepted[j] == if j >= k && f.id == id then f.(sent := f.sent + |data|) else f
    decreases |r.accepted| - k
  {
    if k < |r.accepted| {
      AbsorbUnfolds(r, k, id, data);
      AbsorbRecord(AbsorbOnce(r, k, id, data), k + 1, id, data, j);
    }
  }

  lemma {:induction false} AbsorbLeaves(r: Receiver, k: nat, id: nat, data: Bytes, p: Bytes)
    requires k <= |r.accepted| && forall j | k <= j < |r.accepted| && r.accepted[j].id == id :: r.accepted[j].path != p
    ensures var s := Absorb(r, k, id, data); (p in s.store <==> p in r.store) && (p in r.store ==> s.store[p] == r.store[p])
    decreases |r.accepted| - k
  {
    if k < |r.accepted| {
      AbsorbUnfolds(r, k, id, data);
      AbsorbLeaves(AbsorbOnce(r, k, id, data), k + 1, id, data, p);
    }
  }

  lemma {:induction false} SameForEach(a: seq<FileInfo>, b: seq<FileInfo>, k: nat, id: nat, n: nat)
    requires |a| == |b| && forall j | k <= j < |a| :: a[j] == b[j]
    ensures ForEach(a, k, id, n) == ForEach(b, k, id, n)
    decreases |a| - k
  {
    if k < |a| {
      SameForEach(a, b, k + 1, id, n);
    }
  }

  /** The bytes go to the file's own offset. */
  lemma AbsorbWrites(r: Receiver, k: nat, data: Bytes)
    requires k < |r.accepted| && forall j | 0 <= j < |r.accepted| && j != k :: r.accepted[j].id != r.accepted[k].id
    ensures var f, s := r.accepted[k], Absorb(r, 0, r.accepted[k].id, data);
            s.store == r.store[f.path := WriteAt(ContentOrEmpty(r.store, f.path), f.sent, data)]
  {
    var id := r.accepted[k].id;
    AbsorbSkips(r, 0, k, id, data);
    AbsorbUnfolds(r, k, id, data);
    AbsorbSkips(AbsorbAt(r, k, data), k + 1, |r.accepted|, id, data);
  }

  lemma {:induction false} AbsorbSkips(r: Receiver, a: nat, b: nat, id: nat, data: Bytes)
    requires a <= b <= |r.accepted| && forall j | a <= j < b :: r.accepted[j].id != id
    ensures Absorb(r, a, id, data) == Absorb(r, b, id, data)
    decreases b - a
  {
    if a < b {
      AbsorbUnfolds(r, a, id, data);
      AbsorbSkips(r, a + 1, b, id, data);
    }
  }

  lemma {:induction false} IndexSkips(files: seq<FileInfo>, id: nat, k: nat)
    requires k <= |files| && forall j | 0 <= j < k :: files[j].id != id
    ensures IndexOf(files, id) == IndexFrom(files, id, k)
  {
    var j := 0;
    while j < k
      invariant 0 <= j <= k && IndexOf(files, id) == IndexFrom(files, id, j)
    {
      j := j + 1;
    }
  }

  class ReceiverNode {
    const c: Setting
    const cipher: Cipher
    const digest: Bytes -> Bytes
    const conn: Outgoing

    var stopped: bool
    var closed: bool
    var waiting: bool
    var offer: Option<Offer>
    var key: Option<Bytes>
    var acceptedFiles: seq<File>
    var downloadsPath: Bytes
    var totalDownloadSize: nat
    var receivedBytes: nat
    var store: map<Bytes, Bytes>
    var links: map<Bytes, Bytes>

    constructor (c: Setting, cipher: Cipher, digest: Bytes -> Bytes, conn: Outgoing)
      requires forall x :: c.sum(x) == PartialCheckSum(digest, x)
      ensures Valid() && View() == InitialReceiver(c)
      ensures this.c == c && this.cipher == cipher && this.conn == conn
    {
      this.c, this.cipher, this.digest, this.conn := c, cipher, digest, conn;
      stopped, closed, waiting, offer, key := false, false, false, None, None;
      acceptedFiles, downloadsPath, totalDownloadSize, receivedBytes := [], c.downloads, 0, 0;
      store, links := c.before, map[];
    }

    ghost predicate Valid()
      reads this
    {
      Distinct(acceptedFiles) && forall x :: c.sum(x) == PartialCheckSum(digest, x)
    }

    ghost function View(): Receiver
      reads this, acceptedFiles
    {
      Receiver(stopped, closed, waiting, offer, key, Views(acceptedFiles), downloadsPath,
               totalDownloadSize, receivedBytes, store, links)
    }

    /** Sends a packet without a body. */
    method SendBare(m: Msg)
      requires Bare(m)
      modifies conn
      ensures WriteMsg(cipher, key, m).Some? && conn.written == old(conn.written) + WriteMsg(cipher, key, m).value
    {
      var p := new Packet(Frame(HeaderOf(m), []));
      var ok := SendPacket(conn, p);
    }

    method SendAlreadyHave(id: nat) returns (ok: bool)
      modifies conn
      ensures var w := WriteMsg(cipher, key, AlreadyHave(id));
              && (ok <==> w.Some?)
              && (ok ==> conn.written == old(conn.written) + w.value)
    {
      var body := new Buffer([]);
      body.WriteU64(id);
      assert body.data == PutU64(id);
      var r := SendSealed(conn, cipher, key, H_ALREADYHAVE, body.data);
      ok := !r.NotSealed?;
    }

    // ------------------------------------------------------------------ FILE

    method AcceptFile(meta: FileMeta)
      requires Valid()
      modifies this`acceptedFiles
      ensures Valid()
      ensures Views(acceptedFiles) == old(Views(acceptedFiles)) + [Accepted(c, downloadsPath, meta)]
      ensures forall f | f in acceptedFiles :: f in old(acceptedFiles) || fresh(f)
    {
      var file := new File(Accepted(c, downloadsPath, meta));
      forall i, j | 0 <= i < j < |acceptedFiles + [file]|
        ensures Differ(acceptedFiles + [file], i, j)
      {
        if j < |acceptedFiles| {
          assert Differ(acceptedFiles, i, j);
        }
      }
      acceptedFiles := acceptedFiles + [file];
    }

    /** Clears the place and waits for the file's bytes. */
    method AwaitBytes(meta: FileMeta)
      requires Valid()
      modifies this`acceptedFiles, this`store, conn
      ensures var f := Accepted(c, downloadsPath, meta);
              Valid() && View() == old(View()).(accepted := old(Views(acceptedFiles)) + [f], store := old(store) - {f.path})
      ensures var w := WriteMsg(cipher, key, Ready);
              w.Some? && conn.written == old(conn.written) + w.value
      ensures forall f | f in acceptedFiles :: f in old(acceptedFiles) || fresh(f)
    {
      store := store - {c.place(downloadsPath, meta)};
      AcceptFile(meta);
      SendBare(Ready);
    }

    method HandleFile(meta: FileMeta) returns (ok: bool)
      requires Valid()
      modifies this`acceptedFiles, this`store, this`receivedBytes, conn
      ensures if CannotStore(c, old(View()), FileMsg(meta)) then !ok
              else Outcome(ReceiverReact(c, old(View()), FileMsg(meta)), old(key), ok, old(conn.written))
      ensures forall f | f in acceptedFiles :: f in old(acceptedFiles) || fresh(f)
    {
      var path := c.place(downloadsPath, meta);
      if c.noFile(store, path) {
        return false;
      }
      if path in store {
        var existingChecksum := GetPartialCheckSum(digest, store[path]);
        if existingChecksum == meta.checksum {
          ok := SendAlreadyHave(meta.id);
          receivedBytes := receivedBytes + meta.size;
          return;
        }
      }
      AwaitBytes(meta);
      ok := true;
    }

    /** The node has gone to `o` and has written its answer; false stands for a panic. */
    ghost predicate Outcome(o: (Receiver, seq<Msg>), k: Option<Bytes>, ok: bool, written: Bytes)
      reads this, acceptedFiles, conn
    {
      var w := OneWritten(cipher, k, o.1);
      && (ok <==> w.Some?)
      && (ok ==> Valid() && View() == o.0 && conn.written == written + w.value)
    }

    // ------------------------------------------------------------- FILEBYTES

    /** Writes at the offset of the file at index k and moves the offset. */
    method WriteInto(k: nat, data: Bytes)
      requires Valid() && k < |acceptedFiles|
      modifies this`store, this`receivedBytes, acceptedFiles
      ensures Valid() && View() == AbsorbAt(old(View()), k, data)
    {
      ghost var files := Views(acceptedFiles);
      var acceptedFile := acceptedFiles[k];
      store := store[acceptedFile.path := WriteAt(ContentOrEmpty(store, acceptedFile.path), acceptedFile.sent, data)];
      receivedBytes := receivedBytes + |data|;
      acceptedFile.sent := acceptedFile.sent + |data|;
      OthersDiffer(acceptedFiles, k);
      assert Views(acceptedFiles) == files[k := acceptedFile.View()];
    }

    /** Every accepted file with this ID gets the bytes at its own offset. */
    method AbsorbBytes(fileID: nat, data: Bytes)
      requires Valid()
      modifies this`store, this`receivedBytes, acceptedFiles
      ensures Valid() && View() == Absorb(old(View()), 0, fileID, data)
    {
      var k := 0;
      while k < |acceptedFiles|
        invariant 0 <= k <= |acceptedFiles|
        invariant Absorb(old(View()), 0, fileID, data) == Absorb(View(), k, fileID, data)
      {
        AbsorbUnfolds(View(), k, fileID, data);
        if acceptedFiles[k].id == fileID {
          WriteInto(k, data);
        }
        k := k + 1;
      }
    }

    method HandleBytes(fileID: nat, data: Bytes)
      requires Valid()
      modifies this`store, this`receivedBytes, acceptedFiles, conn
      ensures Outcome(ReceiverReact(c, old(View()), FileBytes(fileID, data)), old(key), true, old(conn.written))
    {
      AbsorbBytes(fileID, data);
      SendBare(Ready);
    }

    // --------------------------------------------------------------- ENDFILE

    /** Removes the first accepted file with this ID and makes sure it exists. */
    method EndOfFile(fileID: nat)
      requires Valid()
      modifies this`acceptedFiles, this`store
      ensures Valid() && View() == ReceiverReact(c, old(View()), EndFile(fileID)).0
      ensures forall f | f in acceptedFiles :: f in old(acceptedFiles) || fresh(f)
    {
      ghost var files := Views(acceptedFiles);
      var index := 0;
      while index < |acceptedFiles|
        invariant 0 <= index <= |acceptedFiles|
        invariant forall j | 0 <= j < index :: files[j].id != fileID
        invariant acceptedFiles == old(acceptedFiles) && store == old(store)
      {
        var acceptedFile := acceptedFiles[index];
        if acceptedFile.id == fileID {
          IndexSkips(files, fileID, index);
          RemovalKeepsShape(acceptedFiles, index);
          store := Opened(store, acceptedFile.path);
          acceptedFiles := acceptedFiles[..index] + acceptedFiles[index + 1..];
          assert Views(acceptedFiles) == RemoveAt(files, index);
          return;
        }
        index := index + 1;
      }
      IndexSkips(files, fileID, |files|);
    }

    method HandleEnd(fileID: nat)
      requires Valid()
      modifies this`acceptedFiles, this`store, conn
      ensures Outcome(ReceiverReact(c, old(View()), EndFile(fileID)), old(key), true, old(conn.written))
      ensures forall f | f in acceptedFiles :: f in old(acceptedFiles) || fresh(f)
    {
      EndOfFile(fileID);
      SendBare(Ready);
    }

    // ------------------------------------------------------------ the others

    method HandleLink(link: Link)
      requires Valid()
      modifies this`links, conn
      ensures Outcome(ReceiverReact(c, old(View()), SymlinkMsg(link)), old(key), true, old(conn.written))
    {
      var at := Paths.Join(downloadsPath, link.path);
      if at !in links && !c.noLink(store, at) {
        links := links[at := CleanPaths.Join(downloadsPath, link.target)];
      }
      SendBare(Ready);
    }

    /** Handles one message; false stands for a panic. */
    method React(m: Msg) returns (ok: bool)
      requires Valid()
      modifies this, acceptedFiles, conn
      ensures if CannotStore(c, old(View()), m) then !ok
              else Outcome(ReceiverReact(c, old(View()), m), old(key), ok, old(conn.written))
      ensures forall f | f in acceptedFiles :: f in old(acceptedFiles) || fresh(f)
    {
      ok := true;
      match m {
        case EncrKey(k) => key := Some(k);
        case TransferOffer(o) => offer := Some(o);
        case FileMsg(meta) => ok := HandleFile(meta);
        case FileBytes(id, data) => HandleBytes(id, data);
        case EndFile(id) => HandleEnd(id);
        case SymlinkMsg(link) => HandleLink(link);
        case Done => stopped := true;
        case Bye => stopped := true;
        case _ =>
      }
    }

    /** The head of the loop: wait for a packet, or tell the other node and leave. */
    method Top() returns (again: bool)
      requires Valid() && !closed && !waiting
      modifies this`waiting, this`closed, conn
      ensures Valid() && (again <==> !old(stopped))
      ensures View() == if again then old(View()).(waiting := true) else old(View()).(closed := true)
      ensures conn.written == old(conn.written) + if again then [] else BytesOf(Frame(H_BYE, []))
    {
      again := !stopped;
      if stopped {
        var p := new Packet(Frame(H_BYE, []));
        var ok := SendPacket(conn, p);
        closed := true;
      } else {
        waiting := true;
      }
    }

    /** Decrypts the packet with the key held so far and decodes it; None is a panic. */
    method Open(p: Packet) returns (m: Option<Msg>)
      modifies p
      ensures m == ForReceiver(cipher, key, old(p.View()))
    {
      ghost var f := p.View();
      if key.Some? {
        var decrypted := p.DecryptBody(cipher, key.value);
        if !decrypted {
          return None;
        }
      }
      assert OpenBody(cipher, key, f.body) == Some(p.body);
      m := DecodeAtReceiver(p);
    }

    /** One packet taken from the pipe: opened, decoded and handled. */
    method Iterate(p: Packet) returns (ok: bool)
      requires Valid()
      modifies this, acceptedFiles, conn, p
      ensures var m := ForReceiver(cipher, old(key), old(p.View()));
              if m.None? || CannotStore(c, old(View()), m.value) then !ok
              else Outcome(ReceiverReact(c, old(View()).(waiting := false), m.value), old(key), ok, old(conn.written))
      ensures forall f | f in acceptedFiles :: f in old(acceptedFiles) || fresh(f)
    {
      var m := Open(p);
      if m.None? {
        return false;
      }
      waiting := false;
      ok := React(m.value);
    }

    /** The goroutine that answers the offer. */
    /** What the offer announces is noted, and the folder it goes to. */
    method NoteOffer(yes: bool, made: bool)
      requires Valid() && offer.Some?
      modifies this`offer, this`totalDownloadSize, this`downloadsPath
      ensures Valid() && View() == ReceiverAnswer(old(View()), yes, made).0.(stopped := old(stopped))
    {
      match offer.value {
        case FileOffer(meta) => totalDownloadSize := meta.size;
        case DirOffer(name, size) =>
          totalDownloadSize := size;
          if yes && made {
            downloadsPath := Paths.Join(downloadsPath, name);
          }
      }
      offer := None;
    }

    method AnswerOffer(yes: bool, made: bool)
      requires Valid() && offer.Some?
      modifies this`offer, this`totalDownloadSize, this`downloadsPath, this`stopped, conn
      ensures Valid() && View() == ReceiverAnswer(old(View()), yes, made).0
      ensures var w := WriteMsg(cipher, key, ReceiverAnswer(old(View()), yes, made).1);
              w.Some? && conn.written == old(conn.written) + w.value
    {
      NoteOffer(yes, made);
      if yes {
        SendBare(Accept);
      } else {
        SendBare(Reject);
        stopped := true;
      }
    }
  }
}
