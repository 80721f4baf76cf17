/** Packets: header, '~', body, and the eight size bytes that go in front of them on the connection. */
module Packets {
  import opened Wrappers
  import opened Bytes
  import opened Ciphers

  const MAXPACKETSIZE: nat := 131072
  const TILDE: byte := 0x7E

  /** The value of a packet. */
  datatype Frame = Frame(header: Bytes, body: Bytes)

  function Raw(f: Frame): Bytes {
    f.header + [TILDE] + f.body
  }

  /** A packet as it is on the connection. */
  function Framed(f: Frame): Bytes {
    PutU64(|Raw(f)|) + Raw(f)
  }

  /** The bytes sent for a packet, None if it is too big to be sent. */
  function Encoded(f: Frame): Option<Bytes> {
    if |Raw(f)| > MAXPACKETSIZE then None else Some(Framed(f))
  }

  /** Position of the first '~' from k on, |b| if there is none. */
  function TildeFrom(b: Bytes, k: nat): (p: nat)
    requires k <= |b|
    ensures k <= p <= |b|
    ensures p < |b| ==> b[p] == TILDE
    ensures forall j | k <= j < p :: b[j] != TILDE
    decreases |b| - k
  {
    if k == |b| || b[k] == TILDE then k else TildeFrom(b, k + 1)
  }

  function Parse(b: Bytes): Option<Frame> {
    var p := TildeFrom(b, 0);
    if p == |b| then None else Some(Frame(b[..p], b[p + 1..]))
  }

  /** Parsing undoes framing exactly when the header has no delimiter of its own; the body may hold anything. */
  lemma ParseRaw(f: Frame)
    ensures Parse(Raw(f)) == Some(f) <==> TILDE !in f.header
  {
    var b, h := Raw(f), |f.header|;
    assert b[..h] == f.header && b[h] == TILDE && b[h + 1..] == f.body;
    var p := TildeFrom(b, 0);
    if TILDE !in f.header {
      assert forall j | 0 <= j < h :: b[j] == f.header[j];
      assert p == h;
    } else {
      var k :| 0 <= k < h && f.header[k] == TILDE;
      assert b[k] == TILDE && p <= k;
    }
  }

  /** Whatever parses is the framing of what it parses to. */
  lemma RawParse(b: Bytes)
    ensures Parse(b).Some? <==> TILDE in b
    ensures Parse(b).Some? ==> Raw(Parse(b).value) == b
  {
    var p := TildeFrom(b, 0);
    if p < |b| {
      assert b == b[..p] + [b[p]] + b[p + 1..];
    }
  }

  class Packet {
    var header: Bytes
    var body: Bytes

    constructor (f: Frame)
      ensures View() == f
    {
      header, body := f.header, f.body;
    }

    function View(): Frame
      reads this
    {
      Frame(header, body)
    }

    method Size() returns (n: nat)
      ensures n == |Raw(View())|
    {
      var packetBytes := new Buffer([]);
      packetBytes.Write(header);
      packetBytes.Write([TILDE]);
      packetBytes.Write(body);
      n := |packetBytes.data|;
    }

    method ToBytes() returns (r: Option<Bytes>)
      ensures r == Encoded(View())
    {
      var packetSize := Size();
      if packetSize > MAXPACKETSIZE {
        return None;
      }
      var packetBuffer := new Buffer([]);
      packetBuffer.WriteU64(packetSize);
      packetBuffer.Write(header);
      packetBuffer.Write([TILDE]);
      packetBuffer.Write(body);
      assert packetBuffer.data == PutU64(packetSize) + Raw(View());
      r := Some(packetBuffer.data);
    }

    /** Sealing fails only for want of a key of 16, 24 or 32 bytes. */
    method EncryptBody(c: Cipher, key: Bytes) returns (ok: bool)
      modifies this
      ensures header == old(header)
      ensures ok <==> |key| == 16 || |key| == 24 || |key| == 32
      ensures Encrypt(c, key, old(body)) == if ok then Some(body) else None
      ensures body == if ok then c.seal(key, old(body)) else old(body)
    {
      var e := Encrypt(c, key, body);
      ok := e.Some?;
      if ok {
        body := e.value;
      }
    }

    /** An empty body is left alone: control packets are never sealed. */
    method DecryptBody(c: Cipher, key: Bytes) returns (ok: bool)
      modifies this
      ensures header == old(header)
      ensures ok <==> old(body) == [] || ((|key| == 16 || |key| == 24 || |key| == 32) && |old(body)| >= 12 && c.open(key, old(body)).Some?)
      ensures old(body) != [] ==> Decrypt(c, key, old(body)) == if ok then Some(body) else None
      ensures body == if ok && old(body) != [] then c.open(key, old(body)).value else old(body)
    {
      if |body| == 0 {
        return true;
      }
      var d := Decrypt(c, key, body);
      ok := d.Some?;
      if ok {
        body := d.value;
      }
    }
  }

  /** Scans for the delimiter. */
  method BytesToPacket(b: Bytes) returns (p: Packet?)
    ensures p == null <==> Parse(b).None?
    ensures p != null ==> fresh(p) && p.View() == Parse(b).value
  {
    RawParse(b);
    if TILDE !in b {
      return null;
    }
    var counter := 0;
    while b[counter] != TILDE
      invariant counter < |b| && TildeFrom(b, 0) == TildeFrom(b, counter) < |b|
      decreases |b| - counter
    {
      counter := counter + 1;
    }
    p := new Packet(Frame(b[..counter], b[counter + 1..]));
  }
}
