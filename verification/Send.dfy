/** Sending packets, and cutting a file into FILEBYTES packets. */
module Send {
  import opened Wrappers
  import opened Bytes
  import opened Ciphers
  import opened Fsys
  import opened Packets
  import opened Protocol
  import opened Codec
  import opened Recv

  /** The sending half of a connection: all bytes written to it so far. */
  class Outgoing {
    var written: Bytes

    constructor ()
      ensures written == []
    {
      written := [];
    }
  }

  /** A packet that is too big is reported and not written. */
  method SendPacket(conn: Outgoing, p: Packet) returns (ok: bool)
    modifies conn
    ensures ok <==> Encoded(p.View()).Some?
    ensures conn.written == old(conn.written) + BytesOf(p.View())
  {
    var packetBytes := p.ToBytes();
    ok := packetBytes.Some?;
    if ok {
      conn.written := conn.written + packetBytes.value;
    }
  }

  /** A body as it goes into a packet: sealed if there is a key, None if the key cannot be used. */
  function SealedBody(c: Cipher, key: Option<Bytes>, body: Bytes): Option<Bytes> {
    if key.None? then Some(body) else Encrypt(c, key.value, body)
  }

  datatype SendResult = Written | TooBig | NotSealed

  function Sealing(c: Cipher, key: Option<Bytes>, header: Bytes, body: Bytes): (SendResult, Bytes) {
    var b := SealedBody(c, key, body);
    if b.None? then (NotSealed, [])
    else if Encoded(Frame(header, b.value)).Some? then (Written, BytesOf(Frame(header, b.value)))
    else (TooBig, [])
  }

  method SendSealed(conn: Outgoing, c: Cipher, key: Option<Bytes>, header: Bytes, body: Bytes) returns (r: SendResult)
    modifies conn
    ensures (r, conn.written) == (Sealing(c, key, header, body).0, old(conn.written) + Sealing(c, key, header, body).1)
  {
    var p := new Packet(Frame(header, body));
    if key.Some? {
      var sealed := p.EncryptBody(c, key.value);
      if !sealed {
        assert old(conn.written) + [] == old(conn.written);
        return NotSealed;
      }
    }
    var ok := SendPacket(conn, p);
    r := if ok then Written else TooBig;
  }

  /** The key itself goes out in the clear. */
  method SendEncryptionKey(conn: Outgoing, key: Bytes) returns (ok: bool)
    modifies conn
    ensures ok <==> Encoded(Frame(H_ENCRKEY, PutText(key))).Some?
    ensures conn.written == old(conn.written) + BytesOf(Frame(H_ENCRKEY, PutText(key)))
  {
    var buff := new Buffer([]);
    buff.WriteU64(|key|);
    buff.Write(key);
    assert buff.data == PutText(key);
    var p := new Packet(Frame(H_ENCRKEY, buff.data));
    ok := SendPacket(conn, p);
  }

  method SendTransferOffer(conn: Outgoing, o: Offer, file: File?, c: Cipher, key: Option<Bytes>) returns (r: SendResult)
    requires o.FileOffer? ==> file != null && o.meta == Meta(file.View())
    modifies conn
    ensures (r, conn.written) == (Sealing(c, key, H_TRANSFEROFFER, EncodeOffer(o)).0,
                                  old(conn.written) + Sealing(c, key, H_TRANSFEROFFER, EncodeOffer(o)).1)
  {
    var body: Bytes;
    if o.FileOffer? {
      var filePacket := CreateFilePacket(file);
      body := [FILECODE] + filePacket.body;
    } else {
      var dirPacket := CreateDirectoryPacket(o.name, o.size);
      body := [DIRCODE] + dirPacket.body;
    }
    r := SendSealed(conn, c, key, H_TRANSFEROFFER, body);
  }

  method SendSymlink(conn: Outgoing, link: Link, c: Cipher, key: Option<Bytes>) returns (r: SendResult)
    modifies conn
    ensures (r, conn.written) == (Sealing(c, key, H_SYMLINK, EncodeLink(link)).0,
                                  old(conn.written) + Sealing(c, key, H_SYMLINK, EncodeLink(link)).1)
  {
    var buff := new Buffer([]);
    buff.WriteU64(|link.path|);
    buff.Write(link.path);
    buff.WriteU64(|link.target|);
    buff.Write(link.target);
    assert buff.data == EncodeLink(link);
    r := SendSealed(conn, c, key, H_SYMLINK, buff.data);
  }

  // ---------------------------------------------------------------- SendPiece

  datatype SendError = NoError | ErrorSentAll | OtherError

  /** Room for file bytes in one FILEBYTES packet: the maximum less header, '~' and ID, less 48 when sealed. */
  function Room(key: Option<Bytes>): nat {
    MAXPACKETSIZE - (|H_FILEBYTES| + 1) - 8 - (if key.Some? then 48 else 0)
  }

  lemma RoomIs(key: Option<Bytes>)
    ensures Room(key) == (if key.Some? then 131006 else 131054) && CHUNK == 131006
  {
  }

  /** How many file bytes go into the next packet; no subtraction goes below zero. */
  method BytesToSend(file: File, bodyLen: nat, encrypted: bool) returns (n: nat)
    requires bodyLen == 8
    ensures n == Min((file.size - file.sent) % U64_LIMIT, Room(if encrypted then Some([]) else None))
  {
    var p := new Packet(Frame(H_FILEBYTES, []));
    var headerSize := p.Size();
    n := MAXPACKETSIZE - headerSize - bodyLen;
    if encrypted {
      n := n - 48;
    }
    var left := (file.size - file.sent) % U64_LIMIT;
    if left < n {
      n := left;
    }
  }

  /**
   * Sends the next piece of a file and moves its offset.  Which piece, and when the file is done, is NextPiece's
   * to say; `sent` counts the file bytes written.
   */
  method SendPiece(file: File, disk: map<Bytes, Bytes>, conn: Outgoing, c: Cipher, key: Option<Bytes>)
    returns (sent: nat, err: SendError)
    modifies file, conn
    ensures match NextPiece(old(file.View()), disk, Room(key))
      case SentAll =>
        sent == 0 && err == ErrorSentAll && file.View() == old(file.View()) && conn.written == old(conn.written)
      case ReadFailed =>
        sent == 0 && err == OtherError && file.View() == old(file.View()) && conn.written == old(conn.written)
      case Sent(f, data) =>
        var (r, written) := Sealing(c, key, H_FILEBYTES, PutU64(f.id) + data);
        && file.View() == f && conn.written == old(conn.written) + written
        && sent == (if r.TooBig? then 0 else |data|)
        && err == (if r.Written? then NoError else OtherError)
  {
    sent := 0;
    if file.size == file.sent {
      return 0, ErrorSentAll;
    }
    var packetBodyBuff := new Buffer([]);
    packetBodyBuff.WriteU64(file.id);
    var canSendBytes := BytesToSend(file, |packetBodyBuff.data|, key.Some?);

    if file.path !in disk || file.sent + canSendBytes > |disk[file.path]| {
      return 0, OtherError;
    }
    var fileBytes := disk[file.path][file.sent..file.sent + canSendBytes];
    file.sent := file.sent + |fileBytes|;
    sent := canSendBytes;
    assert NextPiece(old(file.View()), disk, Room(key)) == Sent(file.View(), fileBytes);
    packetBodyBuff.Write(fileBytes);
    assert packetBodyBuff.data == PutU64(file.id) + fileBytes;
    var r := SendSealed(conn, c, key, H_FILEBYTES, packetBodyBuff.data);
    match r {
      case Written => err := NoError;
      case TooBig => sent, err := 0, OtherError;
      case NotSealed => err := OtherError;
    }
  }

  /** The allowance of 48 covers nonce and tag: a piece never makes a packet that is too big to send. */
  lemma PieceIsSent(c: Cipher, key: Option<Bytes>, f: FileInfo, disk: map<Bytes, Bytes>)
    requires Sound(c) && (key.Some? ==> KeyOk(key.value))
    requires NextPiece(f, disk, Room(key)).Sent?
    ensures var data := NextPiece(f, disk, Room(key)).data;
            var b := SealedBody(c, key, PutU64(f.id) + data);
            && Sealing(c, key, H_FILEBYTES, PutU64(f.id) + data).0 == Written
            && b.Some? && Sendable(Frame(H_FILEBYTES, b.value))
            && |Raw(Frame(H_FILEBYTES, b.value))| <= MAXPACKETSIZE - (if key.Some? then 20 else 0)
  {
    var data := NextPiece(f, disk, Room(key)).data;
    if key.Some? {
      DecryptAfterEncrypt(c, key.value, PutU64(f.id) + data);
    }
  }

  // ------------------------------------------------------- a file in pieces

  /** The pieces repeated SendPiece calls cut off a file, up to ErrorSentAll or a failed read. */
  function Cuts(f: FileInfo, disk: map<Bytes, Bytes>, limit: nat): seq<Bytes>
    requires f.sent <= f.size < U64_LIMIT && limit > 0
    decreases f.size - f.sent
  {
    match NextPiece(f, disk, limit)
    case Sent(g, data) => [data] + Cuts(g, disk, limit)
    case _ => []
  }

  function Concat(pieces: seq<Bytes>): Bytes {
    if pieces == [] then [] else pieces[0] + Concat(pieces[1..])
  }

  /** The next piece of an unchanged file. */
  lemma PieceOfWhole(f: FileInfo, disk: map<Bytes, Bytes>, limit: nat)
    requires f.path in disk && f.size == |disk[f.path]| && f.sent < f.size < U64_LIMIT
    ensures var g := f.(sent := f.sent + Min(f.size - f.sent, limit));
            NextPiece(f, disk, limit) == Sent(g, disk[f.path][f.sent..g.sent])
  {
  }

  lemma RestOfWhole(x: Bytes, a: nat, b: nat)
    requires a <= b <= |x|
    ensures x[a..] == x[a..b] + x[b..]
  {
  }

  /** The pieces of an unchanged file put together are what was left of it. */
  lemma {:induction false} CutsPartition(f: FileInfo, disk: map<Bytes, Bytes>, key: Option<Bytes>)
    requires f.path in disk && f.size == |disk[f.path]| && f.sent <= f.size < U64_LIMIT
    ensures Concat(Cuts(f, disk, Room(key))) == disk[f.path][f.sent..]
    decreases f.size - f.sent
  {
    if f.sent < f.size {
      PieceOfWhole(f, disk, Room(key));
      var g := NextPiece(f, disk, Room(key)).f;
      CutsPartition(g, disk, key);
      RestOfWhole(disk[f.path], f.sent, g.sent);
    }
  }

  /** A list of pieces none of which is empty or too long, and all but the last of which are full. */
  predicate Full(q: seq<Bytes>, limit: nat) {
    q == [] || (0 < |q[0]| <= limit && (|q| > 1 ==> |q[0]| == limit) && Full(q[1..], limit))
  }

  lemma {:induction false} FullAt(q: seq<Bytes>, limit: nat, k: nat)
    requires Full(q, limit) && k < |q|
    ensures 0 < |q[k]| <= limit && (k < |q| - 1 ==> |q[k]| == limit)
  {
    if k > 0 {
      FullAt(q[1..], limit, k - 1);
    }
  }

  lemma {:induction false} CutsFull(f: FileInfo, disk: map<Bytes, Bytes>, key: Option<Bytes>)
    requires f.path in disk && f.size == |disk[f.path]| && f.sent <= f.size < U64_LIMIT
    ensures Full(Cuts(f, disk, Room(key)), Room(key))
    decreases f.size - f.sent
  {
    if f.sent < f.size {
      PieceOfWhole(f, disk, Room(key));
      var g := NextPiece(f, disk, Room(key)).f;
      CutsFull(g, disk, key);
      assert Cuts(f, disk, Room(key))[1..] == Cuts(g, disk, Room(key));
    }
  }

  lemma {:induction false} CutsCount(f: FileInfo, disk: map<Bytes, Bytes>, key: Option<Bytes>)
    requires f.path in disk && f.size == |disk[f.path]| && f.sent <= f.size < U64_LIMIT
    ensures |Cuts(f, disk, Room(key))| == RoundedUp(f.size - f.sent, Room(key))
    decreases f.size - f.sent
  {
    if f.sent < f.size {
      PieceOfWhole(f, disk, Room(key));
      var g := NextPiece(f, disk, Room(key)).f;
      CutsCount(g, disk, key);
      OnePieceLess(f.size - f.sent, key);
      assert Cuts(f, disk, Room(key))[1..] == Cuts(g, disk, Room(key));
    } else {
      NoPieces(key);
    }
  }

  function RoundedUp(n: nat, d: nat): nat
    requires d > 0
  {
    (n + d - 1) / d
  }

  lemma NoPieces(key: Option<Bytes>)
    ensures RoundedUp(0, Room(key)) == 0
  {
    RoomIs(key);
  }

  lemma OnePieceLess(n: nat, key: Option<Bytes>)
    requires n > 0
    ensures RoundedUp(n, Room(key)) == 1 + RoundedUp(n - Min(n, Room(key)), Room(key))
  {
    RoomIs(key);
  }
}
