/** Protocol messages as packets: what each node puts on the connection, and what it makes of a packet it reads. */
module Wire {
  import opened Wrappers
  import opened Bytes
  import opened Ciphers
  import opened Packets
  import opened Protocol
  import opened Codec
  import opened Recv

  function HeaderOf(m: Msg): Bytes {
    match m
    case EncrKey(_) => H_ENCRKEY
    case TransferOffer(_) => H_TRANSFEROFFER
    case Accept => H_ACCEPT
    case Reject => H_REJECT
    case FileMsg(_) => H_FILE
    case FileBytes(_, _) => H_FILEBYTES
    case EndFile(_) => H_ENDFILE
    case Ready => H_READY
    case AlreadyHave(_) => H_ALREADYHAVE
    case SymlinkMsg(_) => H_SYMLINK
    case Done => H_DONE
    case Bye => H_BYE
    case Other(h) => h
  }

  function BodyOf(m: Msg): Bytes {
    match m
    case EncrKey(key) => PutText(key)
    case TransferOffer(o) => EncodeOffer(o)
    case FileMsg(meta) => EncodeMeta(meta)
    case FileBytes(id, data) => PutU64(id) + data
    case EndFile(id) => PutU64(id)
    case AlreadyHave(id) => PutU64(id)
    case SymlinkMsg(l) => EncodeLink(l)
    case _ => []
  }

  /** The packet for a message: the key goes out in the clear, control packets have no body, the rest is sealed. */
  function FrameOf(c: Cipher, key: Option<Bytes>, m: Msg): Option<Frame> {
    if m.EncrKey? || BodyOf(m) == [] || key.None? then Some(Frame(HeaderOf(m), BodyOf(m)))
    else
      var sealed :- Encrypt(c, key.value, BodyOf(m));
      Some(Frame(HeaderOf(m), sealed))
  }

  /** Decryption on the spot, once a key is set; None is the panic on a packet that cannot be opened. */
  function OpenBody(c: Cipher, key: Option<Bytes>, body: Bytes): Option<Bytes> {
    if key.None? || body == [] then Some(body) else Decrypt(c, key.value, body)
  }

  /** How the receiver reads a packet; None is a panic while decrypting or decoding. */
  function ForReceiver(c: Cipher, key: Option<Bytes>, f: Frame): Option<Msg> {
    var body :- OpenBody(c, key, f.body);
    ReceiverMsg(f.header, body)
  }

  function ReceiverMsg(header: Bytes, body: Bytes): Option<Msg> {
    if header == H_TRANSFEROFFER then
      var o :- DecodeOffer(body);
      Some(TransferOffer(o))
    else if header == H_FILE then
      var m :- DecodeMeta(body);
      Some(FileMsg(m))
    else if header == H_FILEBYTES then
      var (id, data) :- TakeU64(body);
      Some(FileBytes(id, data))
    else if header == H_ENDFILE then
      var (id, rest) :- TakeU64(body);
      Some(EndFile(id))
    else if header == H_ENCRKEY then Some(EncrKey(TakeTextAnyway(body).0))
    else if header == H_SYMLINK then Some(SymlinkMsg(DecodeLink(body)))
    else if header == H_DONE then Some(Done)
    else if header == H_BYE then Some(Bye)
    else Some(Other(header))
  }

  /** The receiver's decoding, read by read. */
  method DecodeAtReceiver(p: Packet) returns (m: Option<Msg>)
    ensures m == ReceiverMsg(p.header, p.body)
  {
    m := None;
    if p.header == H_TRANSFEROFFER {
      var offer := DecodeTransferPacket(p);
      m := if offer.Some? then Some(TransferOffer(offer.value)) else None;
    } else if p.header == H_FILE {
      var meta := DecodeFilePacket(p);
      m := if meta.Some? then Some(FileMsg(meta.value)) else None;
    } else if p.header == H_FILEBYTES {
      var fileBytesBuffer := new Buffer(p.body);
      var fileID := fileBytesBuffer.ReadU64();
      m := if fileID.Some? then Some(FileBytes(fileID.value, fileBytesBuffer.data)) else None;
    } else if p.header == H_ENDFILE {
      var fileIDReader := new Reader(p.body);
      var fileID := fileIDReader.ReadU64();
      m := if fileID.Some? then Some(EndFile(fileID.value)) else None;
    } else if p.header == H_ENCRKEY {
      var packetReader := new Reader(p.body);
      var key := ReadTextAnyway(packetReader);
      m := Some(EncrKey(key));
    } else if p.header == H_SYMLINK {
      var link := DecodeSymlink(p.body);
      m := Some(SymlinkMsg(link));
    } else {
      m := ReceiverMsg(p.header, p.body);
    }
  }

  /** How the sender reads a packet; an ALREADYHAVE without a whole ID names file 0. */
  function ForSender(c: Cipher, key: Option<Bytes>, f: Frame): Option<Msg> {
    var body :- OpenBody(c, key, f.body);
    Some(SenderMsg(f.header, body))
  }

  function SenderMsg(header: Bytes, body: Bytes): Msg {
    if header == H_READY then Ready
    else if header == H_ACCEPT then Accept
    else if header == H_REJECT then Reject
    else if header == H_BYE then Bye
    else if header == H_ALREADYHAVE then AlreadyHave(if TakeU64(body).Some? then TakeU64(body).value.0 else 0)
    else Other(header)
  }

  /** The sender's decoding: only ALREADYHAVE has a body to read. */
  method DecodeAtSender(p: Packet) returns (m: Msg)
    ensures m == SenderMsg(p.header, p.body)
  {
    if p.header == H_ALREADYHAVE {
      var fileIDReader := new Reader(p.body);
      var fileID := fileIDReader.ReadU64();
      m := AlreadyHave(if fileID.Some? then fileID.value else 0);
    } else {
      m := SenderMsg(p.header, p.body);
    }
  }

  // ------------------------------------------------------------- round trips

  /** Every number fits in a uint64, every length in its prefix. */
  predicate FieldsFit(m: Msg) {
    match m
    case EncrKey(key) => |key| < U64_LIMIT
    case TransferOffer(o) => OfferFits(o)
    case FileMsg(meta) => MetaFits(meta)
    case FileBytes(id, _) => id < U64_LIMIT
    case EndFile(id) => id < U64_LIMIT
    case AlreadyHave(id) => id < U64_LIMIT
    case SymlinkMsg(l) => |l.path| < U64_LIMIT && |l.target| < U64_LIMIT
    case _ => true
  }

  /** The message can be sent: its fields fit, and so does its sealed packet. */
  predicate Fits(m: Msg) {
    FieldsFit(m) && |HeaderOf(m)| + 1 + |BodyOf(m)| + OVERHEAD <= MAXPACKETSIZE
  }

  predicate ToReceiver(m: Msg) {
    m.TransferOffer? || m.FileMsg? || m.FileBytes? || m.EndFile? || m.SymlinkMsg? || m.Done? || m.Bye? || m.EncrKey?
  }

  predicate ToSender(m: Msg) {
    m.Ready? || m.Accept? || m.Reject? || m.Bye? || m.AlreadyHave?
  }

  lemma HeadersAreClean(m: Msg)
    requires !m.Other?
    ensures TILDE !in HeaderOf(m)
  {
  }

  lemma ReceiverDecodes(m: Msg)
    requires ToReceiver(m) && FieldsFit(m)
    ensures ReceiverMsg(HeaderOf(m), BodyOf(m)) == Some(m)
  {
    match m {
      case TransferOffer(o) => OfferRoundTrip(o);
      case FileMsg(meta) => MetaRoundTrip(meta);
      case FileBytes(id, data) => IdRoundTrip(id, data);
      case EndFile(id) => IdRoundTrip(id, []);
      case EncrKey(key) =>
        TakeAnywayAfterPut(key, []);
        assert PutText(key) + [] == PutText(key);
      case SymlinkMsg(l) => LinkRoundTrip(l);
      case _ =>
    }
  }

  lemma SenderDecodes(m: Msg)
    requires ToSender(m) && FieldsFit(m)
    ensures SenderMsg(HeaderOf(m), BodyOf(m)) == m
  {
    if m.AlreadyHave? {
      IdRoundTrip(m.id, []);
    }
  }

  /** The body a message was sealed with comes out again under the same key. */
  lemma BodyComesBack(c: Cipher, key: Bytes, m: Msg)
    requires Sound(c) && KeyOk(key) && Fits(m) && !m.EncrKey?
    ensures var f := FrameOf(c, Some(key), m);
            && f.Some? && f.value.header == HeaderOf(m) && |Raw(f.value)| <= MAXPACKETSIZE
            && OpenBody(c, Some(key), f.value.body) == Some(BodyOf(m))
  {
    if BodyOf(m) != [] {
      DecryptAfterEncrypt(c, key, BodyOf(m));
    }
  }

  /** Sent under a key and read under the same key, a message comes back as it was. */
  lemma ToReceiverRoundTrip(c: Cipher, key: Bytes, m: Msg)
    requires Sound(c) && KeyOk(key) && Fits(m) && ToReceiver(m) && !m.EncrKey?
    ensures var f := FrameOf(c, Some(key), m);
            f.Some? && Sendable(f.value) && ForReceiver(c, Some(key), f.value) == Some(m)
  {
    BodyComesBack(c, key, m);
    HeadersAreClean(m);
    ReceiverDecodes(m);
  }

  lemma ToSenderRoundTrip(c: Cipher, key: Bytes, m: Msg)
    requires Sound(c) && KeyOk(key) && Fits(m) && ToSender(m)
    ensures var f := FrameOf(c, Some(key), m);
            f.Some? && Sendable(f.value) && ForSender(c, Some(key), f.value) == Some(m)
  {
    BodyComesBack(c, key, m);
    HeadersAreClean(m);
    SenderDecodes(m);
  }

  /** The key itself is read by a receiver that has none yet. */
  lemma KeyRoundTrip(c: Cipher, sent: Option<Bytes>, m: Msg)
    requires m.EncrKey? && Fits(m)
    ensures var f := FrameOf(c, sent, m);
            f.Some? && Sendable(f.value) && ForReceiver(c, None, f.value) == Some(m)
  {
    HeadersAreClean(m);
    ReceiverDecodes(m);
  }

  // ------------------------------------------------------------ the wire itself

  /** What sending `m` writes; None is the panic when it cannot be sealed, or a FILE or FILEBYTES packet is too big. */
  function WriteMsg(c: Cipher, key: Option<Bytes>, m: Msg): Option<Bytes> {
    var f :- FrameOf(c, key, m);
    if (m.FileMsg? || m.FileBytes?) && Encoded(f).None? then None else Some(BytesOf(f))
  }

  /** What one pass of a node's loop, which sends at most one message, writes. */
  function OneWritten(c: Cipher, key: Option<Bytes>, out: seq<Msg>): Option<Bytes> {
    if out == [] then Some([]) else WriteMsg(c, key, out[0])
  }

  datatype Reading = NoPacket | BadPacket | Incoming(m: Msg, rest: Bytes)

  /** The next packet in a stream, opened and decoded by `read`. */
  function ReadMsg(s: Bytes, read: Frame -> Option<Msg>): Reading {
    match NextFrame(s)
    case Eof => NoPacket
    case Stalled => NoPacket
    case Got(raw, rest) =>
      match Parse(raw)
      case None => BadPacket
      case Some(f) =>
        match read(f)
        case None => BadPacket
        case Some(m) => Incoming(m, rest)
  }

  function AtSender(c: Cipher, key: Option<Bytes>, s: Bytes): Reading {
    ReadMsg(s, f => ForSender(c, key, f))
  }

  function AtReceiver(c: Cipher, key: Option<Bytes>, s: Bytes): Reading {
    ReadMsg(s, f => ForReceiver(c, key, f))
  }

  lemma ReadSent(f: Frame, rest: Bytes, read: Frame -> Option<Msg>)
    requires Sendable(f) && read(f).Some?
    ensures ReadMsg(BytesOf(f) + rest, read) == Incoming(read(f).value, rest)
  {
    NextOfFramed(f, rest);
  }

  /** A message written under a key is the next one read under that key, and the stream goes on right behind it. */
  lemma SenderReadsWritten(c: Cipher, key: Bytes, m: Msg, rest: Bytes)
    requires Sound(c) && KeyOk(key) && Fits(m) && ToSender(m)
    ensures var w := WriteMsg(c, Some(key), m);
            w.Some? && AtSender(c, Some(key), w.value + rest) == Incoming(m, rest)
  {
    ToSenderRoundTrip(c, key, m);
    ReadSent(FrameOf(c, Some(key), m).value, rest, f => ForSender(c, Some(key), f));
  }

  lemma ReceiverReadsWritten(c: Cipher, key: Bytes, m: Msg, rest: Bytes)
    requires Sound(c) && KeyOk(key) && Fits(m) && ToReceiver(m) && !m.EncrKey?
    ensures var w := WriteMsg(c, Some(key), m);
            w.Some? && AtReceiver(c, Some(key), w.value + rest) == Incoming(m, rest)
  {
    ToReceiverRoundTrip(c, key, m);
    ReadSent(FrameOf(c, Some(key), m).value, rest, f => ForReceiver(c, Some(key), f));
  }

  /** The key is read by a receiver that has none yet. */
  lemma KeyReadsWritten(c: Cipher, key: Bytes, rest: Bytes)
    requires KeyOk(key)
    ensures var w := WriteMsg(c, Some(key), EncrKey(key));
            w.Some? && AtReceiver(c, None, w.value + rest) == Incoming(EncrKey(key), rest)
  {
    KeyRoundTrip(c, Some(key), EncrKey(key));
    ReadSent(FrameOf(c, Some(key), EncrKey(key)).value, rest, f => ForReceiver(c, None, f));
  }

  /** Control packets are written the same way with any key or none. */
  predicate Bare(m: Msg) {
    m.Accept? || m.Reject? || m.Ready? || m.Done? || m.Bye?
  }

  lemma BareWritten(c: Cipher, key: Option<Bytes>, other: Option<Bytes>, m: Msg)
    requires Bare(m)
    ensures WriteMsg(c, key, m) == WriteMsg(c, other, m)
  {
  }
}
