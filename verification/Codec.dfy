/** Packet bodies: how each is built field by field, and how it is read back. */
module Codec {
  import opened Wrappers
  import opened Bytes
  import opened Fsys
  import opened Protocol
  import opened Packets

  const FILECODE: byte := 0x66  // "f"
  const DIRCODE: byte := 0x64   // "d"

  const H_ENCRKEY: Bytes := [0x45, 0x4E, 0x43, 0x52, 0x4B, 0x45, 0x59]
  const H_TRANSFEROFFER: Bytes := [0x54, 0x52, 0x41, 0x4E, 0x53, 0x46, 0x45, 0x52, 0x4F, 0x46, 0x46, 0x45, 0x52]
  const H_ACCEPT: Bytes := [0x41, 0x43, 0x43, 0x45, 0x50, 0x54]
  const H_REJECT: Bytes := [0x52, 0x45, 0x4A, 0x45, 0x43, 0x54]
  const H_FILE: Bytes := [0x46, 0x49, 0x4C, 0x45]
  const H_FILEBYTES: Bytes := [0x46, 0x49, 0x4C, 0x45, 0x42, 0x59, 0x54, 0x45, 0x53]
  const H_ENDFILE: Bytes := [0x45, 0x4E, 0x44, 0x46, 0x49, 0x4C, 0x45]
  const H_DIRECTORY: Bytes := [0x44, 0x49, 0x52, 0x45, 0x43, 0x54, 0x4F, 0x52, 0x59]
  const H_READY: Bytes := [0x52, 0x45, 0x41, 0x44, 0x59]
  const H_ALREADYHAVE: Bytes := [0x41, 0x4C, 0x52, 0x45, 0x41, 0x44, 0x59, 0x48, 0x41, 0x56, 0x45]
  const H_SYMLINK: Bytes := [0x53, 0x59, 0x4D, 0x4C, 0x49, 0x4E, 0x4B]
  const H_DONE: Bytes := [0x44, 0x4F, 0x4E, 0x45]
  const H_BYE: Bytes := [0x42, 0x59, 0x45, 0x21]

  // ------------------------------------------------------ length-prefixed text

  /** A text preceded by its length. */
  function PutText(x: Bytes): Bytes {
    PutU64(|x|) + x
  }

  function TakeText(d: Bytes): Option<(Bytes, Bytes)> {
    var (n, d1) :- TakeU64(d);
    TakeFromBuffer(d1, n)
  }

  lemma TakeAfterPutText(x: Bytes, rest: Bytes)
    requires |x| < U64_LIMIT
    ensures TakeText(PutText(x) + rest) == Some((x, rest))
  {
    assert PutText(x) + rest == PutU64(|x|) + (x + rest);
    TakeAfterPut(|x|, x + rest);
    FillExact(x, rest);
  }

  // ------------------------------------------------------------------- FILE

  predicate MetaFits(m: FileMeta) {
    && m.id < U64_LIMIT && m.size < U64_LIMIT
    && |m.name| < U64_LIMIT && |m.checksum| < U64_LIMIT && |m.rel| < U64_LIMIT
  }

  function EncodeMeta(m: FileMeta): Bytes {
    PutU64(m.id) + (PutText(m.name) + (PutU64(m.size) + (PutText(m.checksum) + PutText(m.rel))))
  }

  function DecodeMeta(d: Bytes): Option<FileMeta> {
    var (id, d1) :- TakeU64(d);
    var (name, d2) :- TakeText(d1);
    var (size, d3) :- TakeU64(d2);
    var (checksum, d4) :- TakeText(d3);
    var (rel, d5) :- TakeText(d4);
    Some(FileMeta(id, name, size, checksum, rel))
  }

  /** Every field comes back, empty texts included; bytes after the last field are ignored. */
  lemma MetaRoundTrip(m: FileMeta)
    requires MetaFits(m)
    ensures DecodeMeta(EncodeMeta(m)) == Some(m)
  {
    var d4 := PutText(m.checksum) + PutText(m.rel);
    var d3 := PutU64(m.size) + d4;
    var d2 := PutText(m.name) + d3;
    TakeAfterPut(m.id, d2);
    TakeAfterPutText(m.name, d3);
    TakeAfterPut(m.size, d4);
    TakeAfterPutText(m.checksum, PutText(m.rel));
    TakeAfterPutText(m.rel, []);
    assert PutText(m.rel) + [] == PutText(m.rel);
  }

  method CreateFilePacket(file: File) returns (p: Packet)
    ensures fresh(p) && p.View() == Frame(H_FILE, EncodeMeta(Meta(file.View())))
  {
    var buff := new Buffer([]);
    buff.WriteU64(file.id);
    buff.WriteU64(|file.name|);
    buff.Write(file.name);
    buff.WriteU64(file.size);
    buff.WriteU64(|file.checksum|);
    buff.Write(file.checksum);
    buff.WriteU64(|file.rel|);
    buff.Write(file.rel);
    p := new Packet(Frame(H_FILE, buff.data));
    FileBody(Meta(file.View()));
  }

  lemma FileBody(m: FileMeta)
    ensures EncodeMeta(m)
         == [] + PutU64(m.id) + PutU64(|m.name|) + m.name + PutU64(m.size)
          + PutU64(|m.checksum|) + m.checksum + PutU64(|m.rel|) + m.rel
  {
    var d4 := PutText(m.checksum) + PutText(m.rel);
    var d3 := PutU64(m.size) + d4;
    assert PutText(m.name) + d3 == PutU64(|m.name|) + m.name + PutU64(m.size) + d4;
    assert d4 == PutU64(|m.checksum|) + m.checksum + PutU64(|m.rel|) + m.rel;
  }

  method DecodeFilePacket(p: Packet) returns (r: Option<FileMeta>)
    ensures r == if p.header == H_FILE then DecodeMeta(p.body) else None
  {
    if p.header != H_FILE {
      return None;
    }
    var packetReader := new Buffer(p.body);
    var fileID := packetReader.ReadU64();
    if fileID.None? {
      return None;
    }
    var filenameLength := packetReader.ReadU64();
    if filenameLength.None? {
      return None;
    }
    var filename := packetReader.Read(filenameLength.value);
    if filename.None? {
      return None;
    }
    var filesize := packetReader.ReadU64();
    if filesize.None? {
      return None;
    }
    var checksumLength := packetReader.ReadU64();
    if checksumLength.None? {
      return None;
    }
    var checksum := packetReader.Read(checksumLength.value);
    if checksum.None? {
      return None;
    }
    var relPathLength := packetReader.ReadU64();
    if relPathLength.None? {
      return None;
    }
    var relPath := packetReader.Read(relPathLength.value);
    if relPath.None? {
      return None;
    }
    r := Some(FileMeta(fileID.value, filename.value, filesize.value, checksum.value, relPath.value));
  }

  // -------------------------------------------------------------- DIRECTORY

  function EncodeDir(name: Bytes, size: nat): Bytes {
    PutText(name) + PutU64(size)
  }

  /** The name is read from a bytes.Reader: an empty name is fine as long as something follows it. */
  function DecodeDir(d: Bytes): Option<Offer> {
    var (n, d1) :- TakeU64(d);
    var (name, d2) :- TakeFromReader(d1, n);
    var (size, d3) :- TakeU64(d2);
    Some(DirOffer(name, size))
  }

  lemma DirRoundTrip(name: Bytes, size: nat)
    requires |name| < U64_LIMIT && size < U64_LIMIT
    ensures DecodeDir(EncodeDir(name, size)) == Some(DirOffer(name, size))
  {
    assert EncodeDir(name, size) == PutU64(|name|) + (name + PutU64(size));
    TakeAfterPut(|name|, name + PutU64(size));
    FillExact(name, PutU64(size));
    TakeAfterPut(size, []);
    assert PutU64(size) + [] == PutU64(size);
  }

  method CreateDirectoryPacket(name: Bytes, size: nat) returns (p: Packet)
    ensures fresh(p) && p.View() == Frame(H_DIRECTORY, EncodeDir(name, size))
  {
    var buff := new Buffer([]);
    buff.WriteU64(|name|);
    buff.Write(name);
    buff.WriteU64(size);
    assert buff.data == EncodeDir(name, size);
    p := new Packet(Frame(H_DIRECTORY, buff.data));
  }

  method DecodeDirectoryPacket(p: Packet) returns (r: Option<Offer>)
    ensures r == if p.header == H_DIRECTORY then DecodeDir(p.body) else None
  {
    if p.header != H_DIRECTORY {
      return None;
    }
    var packetReader := new Reader(p.body);
    var dirNameSize := packetReader.ReadU64();
    if dirNameSize.None? {
      return None;
    }
    var dirName := packetReader.Read(dirNameSize.value);
    if dirName.None? {
      return None;
    }
    var dirSize := packetReader.ReadU64();
    if dirSize.None? {
      return None;
    }
    r := Some(DirOffer(dirName.value, dirSize.value));
  }

  // ---------------------------------------------------------- TRANSFEROFFER

  predicate OfferFits(o: Offer) {
    match o
    case FileOffer(m) => MetaFits(m)
    case DirOffer(name, size) => |name| < U64_LIMIT && size < U64_LIMIT
  }

  function EncodeOffer(o: Offer): Bytes {
    match o
    case FileOffer(m) => [FILECODE] + EncodeMeta(m)
    case DirOffer(name, size) => [DIRCODE] + EncodeDir(name, size)
  }

  /** Either a file or a directory, never both; None where the source reports an error or panics. */
  function DecodeOffer(d: Bytes): Option<Offer> {
    if d == [] then None
    else if d[0] == FILECODE then
      var m :- DecodeMeta(d[1..]);
      Some(FileOffer(m))
    else if d[0] == DIRCODE then DecodeDir(d[1..])
    else None
  }

  lemma OfferRoundTrip(o: Offer)
    requires OfferFits(o)
    ensures DecodeOffer(EncodeOffer(o)) == Some(o)
  {
    match o {
      case FileOffer(m) =>
        MetaRoundTrip(m);
        assert EncodeOffer(o)[1..] == EncodeMeta(m);
      case DirOffer(name, size) =>
        DirRoundTrip(name, size);
        assert EncodeOffer(o)[1..] == EncodeDir(name, size);
    }
  }

  method DecodeTransferPacket(p: Packet) returns (r: Option<Offer>)
    ensures r == if p.header == H_TRANSFEROFFER then DecodeOffer(p.body) else None
  {
    if p.header != H_TRANSFEROFFER || |p.body| == 0 {
      return None;
    }
    if p.body[0] == FILECODE {
      var filePacket := new Packet(Frame(H_FILE, p.body[1..]));
      var file := DecodeFilePacket(filePacket);
      return if file.None? then None else Some(FileOffer(file.value));
    } else if p.body[0] == DIRCODE {
      var dirPacket := new Packet(Frame(H_DIRECTORY, p.body[1..]));
      r := DecodeDirectoryPacket(dirPacket);
    } else {
      r := None;
    }
  }

  // ------------------------------------------------- ENCRKEY, SYMLINK and IDs

  /** Fields read with errors ignored: a number that cannot be read stays 0, a short text is padded with zeros. */
  function TakeTextAnyway(d: Bytes): (Bytes, Bytes) {
    var t := TakeU64(d);
    if t.None? then ([], []) else Fill(t.value.1, t.value.0)
  }

  lemma TakeAnywayAfterPut(x: Bytes, rest: Bytes)
    requires |x| < U64_LIMIT
    ensures TakeTextAnyway(PutText(x) + rest) == (x, rest)
  {
    assert PutText(x) + rest == PutU64(|x|) + (x + rest);
    TakeAfterPut(|x|, x + rest);
    FillExact(x, rest);
  }

  /** The reads behind it: both errors are ignored. */
  method ReadTextAnyway(packetReader: Reader) returns (text: Bytes)
    modifies packetReader
    ensures (text, packetReader.data) == TakeTextAnyway(old(packetReader.data))
  {
    var size := packetReader.ReadU64();
    var n := if size.Some? then size.value else 0;
    ghost var rest := packetReader.data;
    var read := packetReader.Read(n);
    assert rest == [] ==> rest[..0] + Zeros(n) == Zeros(n) && Zeros(0) == [];
    text := if read.Some? then read.value else Zeros(n);
  }

  function EncodeLink(l: Link): Bytes {
    PutText(l.path) + PutText(l.target)
  }

  function DecodeLink(d: Bytes): Link {
    var (path, d1) := TakeTextAnyway(d);
    Link(path, TakeTextAnyway(d1).0)
  }

  method DecodeSymlink(body: Bytes) returns (l: Link)
    ensures l == DecodeLink(body)
  {
    var packetReader := new Reader(body);
    var location := ReadTextAnyway(packetReader);
    var target := ReadTextAnyway(packetReader);
    l := Link(location, target);
  }

  lemma LinkRoundTrip(l: Link)
    requires |l.path| < U64_LIMIT && |l.target| < U64_LIMIT
    ensures DecodeLink(EncodeLink(l)) == l
  {
    TakeAnywayAfterPut(l.path, PutText(l.target));
    TakeAnywayAfterPut(l.target, []);
    assert PutText(l.target) + [] == PutText(l.target);
  }

  /** The ID a FILEBYTES, ENDFILE or ALREADYHAVE body starts with, and what follows it. */
  lemma IdRoundTrip(id: nat, data: Bytes)
    requires id < U64_LIMIT
    ensures TakeU64(PutU64(id) + data) == Some((id, data))
    ensures TakeU64(PutU64(id)) == Some((id, []))
  {
    TakeAfterPut(id, data);
    TakeAfterPut(id, []);
    assert PutU64(id) + [] == PutU64(id);
  }
}
