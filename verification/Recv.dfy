/** Reading packets off a connection that hands out its bytes in pieces of any size. */
module Recv {
  import opened Wrappers
  import opened Bytes
  import opened Packets

  const BUFFER_SIZE: nat := 8192

  /** What is left of everything the peer will ever send.  A read takes some of it; how much is up to the network. */
  class Conn {
    var incoming: Bytes

    constructor (b: Bytes)
      ensures incoming == b
    {
      incoming := b;
    }

    /** At least one byte unless the stream has ended, at most n; any number between is possible. */
    method Read(n: nat) returns (got: Bytes)
      requires n > 0
      modifies this
      ensures |got| <= n && (got == [] ==> old(incoming) == [])
      ensures old(incoming) == got + incoming
    {
      if incoming == [] {
        return [];
      }
      var most := if n < |incoming| then n else |incoming|;
      var k :| 1 <= k <= most;
      got := incoming[..k];
      incoming := incoming[k..];
    }
  }

  datatype FrameRead =
    | Eof                              // the stream ends before a whole size field
    | Stalled                          // the stream ends inside a packet: the read loop never leaves
    | Got(raw: Bytes, rest: Bytes)

  function NextFrame(s: Bytes): FrameRead {
    if |s| < 8 then Eof
    else
      var n := TakeU64(s).value.0;
      if |s| - 8 < n then Stalled else Got(s[8..8 + n], s[8 + n..])
  }

  /** No packet in the stream is cut off in its body. */
  predicate WellFramed(s: Bytes)
    decreases |s|
  {
    match NextFrame(s)
    case Eof => true
    case Stalled => false
    case Got(raw, rest) => Parse(raw).Some? ==> WellFramed(rest)
  }

  /** The packets a stream holds, up to its end or to the first one without a delimiter. */
  function PacketsOf(s: Bytes): seq<Frame>
    decreases |s|
  {
    match NextFrame(s)
    case Eof => []
    case Stalled => []
    case Got(raw, rest) =>
      match Parse(raw)
      case None => []
      case Some(f) => [f] + PacketsOf(rest)
  }

  /** io.ReadFull behind binary.Read: n bytes, or None if the stream ends first. */
  method ReadFull(conn: Conn, n: nat) returns (r: Option<Bytes>)
    modifies conn
    ensures r.Some? <==> |old(conn.incoming)| >= n
    ensures r.Some? ==> r.value == old(conn.incoming)[..n] && conn.incoming == old(conn.incoming)[n..]
  {
    var buff: Bytes := [];
    ghost var all := conn.incoming;
    while |buff| < n
      invariant |buff| <= n && all == buff + conn.incoming
    {
      var got := conn.Read(n - |buff|);
      if got == [] {
        assert all == buff;
        return None;
      }
      assert buff + (got + conn.incoming) == (buff + got) + conn.incoming;
      buff := buff + got;
    }
    r := Some(buff);
  }

  /**
   * The reassembly loop, watched for `rounds` rounds.  Read errors are ignored, so it ends if and only if the whole
   * packet is in the stream, and then within `packetSize` rounds, whatever the sizes of the reads; otherwise it goes
   * on for ever with nothing more to read.
   */
  method Reassemble(conn: Conn, packetSize: nat, rounds: nat) returns (packetBuffer: Bytes, left: nat)
    modifies conn
    ensures old(conn.incoming) == packetBuffer + conn.incoming && |packetBuffer| + left == packetSize
    ensures rounds >= packetSize ==> (left == 0 <==> packetSize <= |old(conn.incoming)|)
    ensures rounds >= packetSize && left > 0 ==> conn.incoming == []
  {
    packetBuffer, left := [], packetSize;
    ghost var all := conn.incoming;
    var round := 0;
    while left != 0 && round < rounds
      invariant left + |packetBuffer| == packetSize && round <= rounds
      invariant all == packetBuffer + conn.incoming
      invariant conn.incoming == [] || |packetBuffer| >= round
    {
      var buff := if left < BUFFER_SIZE then left else BUFFER_SIZE;
      var got := conn.Read(buff);
      assert packetBuffer + (got + conn.incoming) == (packetBuffer + got) + conn.incoming;
      left := left - |got|;
      packetBuffer := packetBuffer + got;
      round := round + 1;
    }
  }

  lemma SameSize(s: Bytes)
    requires |s| >= 8
    ensures TakeU64(s[..8]).Some? && TakeU64(s).Some? && TakeU64(s[..8]).value.0 == TakeU64(s).value.0
  {
    assert s[..8][..8] == s[..8];
  }

  lemma GotWhole(s: Bytes, packet: Bytes, rest: Bytes)
    requires |s| >= 8 && TakeU64(s[..8]).Some? && TakeU64(s[..8]).value.0 == |packet| && s[8..] == packet + rest
    ensures NextFrame(s) == Got(packet, rest)
  {
    SameSize(s);
    assert s[8..8 + |packet|] == s[8..][..|packet|] && s[8 + |packet|..] == s[8..][|packet|..];
  }

  /** Reads one packet: its size, then its bytes in pieces.  Stalled stands for the loop that never ends. */
  method ReadFromConn(conn: Conn) returns (r: FrameRead)
    modifies conn
    ensures r == NextFrame(old(conn.incoming))
    ensures r.Got? ==> conn.incoming == r.rest
  {
    var size := ReadFull(conn, 8);
    if size.None? {
      return Eof;
    }
    var packetSize := TakeU64(size.value).value.0;
    ghost var all := conn.incoming;
    var packetBuffer, left := Reassemble(conn, packetSize, packetSize);
    if left == 0 {
      r := Got(packetBuffer, conn.incoming);
      assert size.value == old(conn.incoming)[..8];
      GotWhole(old(conn.incoming), packetBuffer, conn.incoming);
    } else {
      r := Stalled;
      assert all == old(conn.incoming)[8..];
      SameSize(old(conn.incoming));
    }
  }

  /** The next packet of the stream goes to the end of the pipe, if it parses. */
  lemma IntoPipe(pipe: seq<Frame>, s: Bytes, raw: Bytes, rest: Bytes)
    requires NextFrame(s) == Got(raw, rest)
    ensures match Parse(raw)
      case None => WellFramed(s) && pipe + PacketsOf(s) == pipe
      case Some(f) => WellFramed(s) == WellFramed(rest) && pipe + PacketsOf(s) == (pipe + [f]) + PacketsOf(rest)
  {
  }

  /**
   * Puts every packet of the stream into the pipe, in order, until the stream ends or a packet is malformed; if the
   * stream ends inside a packet it never returns, and `stalled` says so.
   */
  method ReceivePackets(conn: Conn) returns (pipe: seq<Frame>, stalled: bool)
    modifies conn
    ensures pipe == PacketsOf(old(conn.incoming))
    ensures stalled <==> !WellFramed(old(conn.incoming))
  {
    pipe, stalled := [], false;
    ghost var all := conn.incoming;
    while true
      invariant WellFramed(all) == WellFramed(conn.incoming) && !stalled
      invariant PacketsOf(all) == pipe + PacketsOf(conn.incoming)
      decreases |conn.incoming|
    {
      ghost var s := conn.incoming;
      var packetBytes := ReadFromConn(conn);
      match packetBytes {
        case Eof => return;
        case Stalled =>
          stalled := true;
          return;
        case Got(raw, _) =>
          var incomingPacket := BytesToPacket(raw);
          IntoPipe(pipe, s, raw, conn.incoming);
          if incomingPacket == null {
            return;
          }
          pipe := pipe + [incomingPacket.View()];
      }
    }
  }

  // ---------------------------------------------------- streams of packets

  /** A packet that reads back: its header has no delimiter, and its size fits the size field. */
  predicate Whole(f: Frame) {
    TILDE !in f.header && |Raw(f)| < U64_LIMIT
  }

  predicate Sendable(f: Frame) {
    TILDE !in f.header && |Raw(f)| <= MAXPACKETSIZE
  }

  /** What SendPacket writes for a packet: nothing if it is too big. */
  function BytesOf(f: Frame): Bytes {
    if Encoded(f).Some? then Encoded(f).value else []
  }

  /** Packets back to back. */
  function Stream(fs: seq<Frame>): Bytes {
    if fs == [] then [] else Framed(fs[0]) + Stream(fs[1..])
  }

  lemma NextOfFramed(f: Frame, rest: Bytes)
    requires Whole(f)
    ensures NextFrame(Framed(f) + rest) == Got(Raw(f), rest) && Parse(Raw(f)) == Some(f)
  {
    var s, n := Framed(f) + rest, |Raw(f)|;
    assert s == PutU64(n) + (Raw(f) + rest);
    TakeAfterPut(n, Raw(f) + rest);
    assert s[8..] == Raw(f) + rest;
    assert s[8..8 + n] == Raw(f) && s[8 + n..] == rest;
    ParseRaw(f);
  }

  lemma PacketsOfFramed(f: Frame, rest: Bytes)
    requires Whole(f)
    ensures PacketsOf(Framed(f) + rest) == [f] + PacketsOf(rest)
    ensures WellFramed(Framed(f) + rest) == WellFramed(rest)
  {
    NextOfFramed(f, rest);
  }

  lemma StreamCons(fs: seq<Frame>, tail: Bytes)
    requires fs != []
    ensures Stream(fs) + tail == Framed(fs[0]) + (Stream(fs[1..]) + tail)
  {
  }

  lemma {:induction false} StreamSnoc(fs: seq<Frame>, f: Frame)
    ensures Stream(fs + [f]) == Stream(fs) + Framed(f)
  {
    if fs == [] {
      assert Stream([f]) == Framed(f) + [];
    } else {
      StreamSnoc(fs[1..], f);
      assert (fs + [f])[0] == fs[0] && (fs + [f])[1..] == fs[1..] + [f];
    }
  }

  lemma ConsTail(fs: seq<Frame>, tail: seq<Frame>)
    requires fs != []
    ensures [fs[0]] + (fs[1..] + tail) == fs + tail
  {
  }

  /** The packets read from a stream of packets are those packets, whatever follows the last one. */
  lemma {:induction false} PacketsOfStream(fs: seq<Frame>, tail: Bytes)
    requires forall k | 0 <= k < |fs| :: Whole(fs[k])
    ensures PacketsOf(Stream(fs) + tail) == fs + PacketsOf(tail)
    ensures WellFramed(Stream(fs) + tail) == WellFramed(tail)
  {
    if fs == [] {
      assert Stream(fs) + tail == tail;
    } else {
      PacketsOfStream(fs[1..], tail);
      PacketsOfFramed(fs[0], Stream(fs[1..]) + tail);
      StreamCons(fs, tail);
      ConsTail(fs, PacketsOf(tail));
    }
  }

  /** What a reader makes of a size and what there is behind it. */
  lemma NextIs(n: nat, behind: Bytes)
    requires n < 0x1_0000_0000_0000_0000
    ensures NextFrame(PutU64(n) + behind) == if |behind| < n then Stalled else Got(behind[..n], behind[n..])
  {
    var s := PutU64(n) + behind;
    TakeAfterPut(n, behind);
    assert s[8..] == behind;
    if |behind| >= n {
      assert s[8..8 + n] == behind[..n] && s[8 + n..] == behind[n..];
    }
  }

  /** Behind whole packets a stream ends, is cut off inside a packet, or goes on with bytes that are no packet. */
  lemma StreamEnds(fs: seq<Frame>, n: nat, behind: Bytes, short: Bytes)
    requires (forall k | 0 <= k < |fs| :: Sendable(fs[k])) && n < 0x1_0000_0000_0000_0000 && |short| < 8
    ensures PacketsOf(Stream(fs) + short) == fs && WellFramed(Stream(fs) + short)
    ensures |behind| < n ==> var s := Stream(fs) + (PutU64(n) + behind); PacketsOf(s) == fs && !WellFramed(s)
    ensures |behind| >= n && 0x7E !in behind[..n] ==>
              var s := Stream(fs) + (PutU64(n) + behind); PacketsOf(s) == fs && WellFramed(s)
  {
    PacketsOfStream(fs, short);
    PacketsOfStream(fs, PutU64(n) + behind);
    NextIs(n, behind);
    if |behind| >= n {
      RawParse(behind[..n]);
    }
    assert fs + [] == fs;
  }

  /** Sending a list of packets and reading them back over any segmentation gives the same list. */
  method SendAndReceive(fs: seq<Frame>) returns (got: seq<Frame>)
    requires forall k | 0 <= k < |fs| :: Sendable(fs[k])
    ensures got == fs
  {
    var written: Bytes := [];
    for k := 0 to |fs|
      invariant written == Stream(fs[..k])
    {
      var p := new Packet(fs[k]);
      var packetBytes := p.ToBytes();
      StreamSnoc(fs[..k], fs[k]);
      assert fs[..k] + [fs[k]] == fs[..k + 1];
      written := written + packetBytes.value;
    }
    assert fs[..|fs|] == fs;
    var conn := new Conn(written);
    PacketsOfStream(fs, []);
    assert Stream(fs) + [] == Stream(fs) && fs + [] == fs;
    var stalled;
    got, stalled := ReceivePackets(conn);
  }
}
