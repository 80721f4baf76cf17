/**
 * One direction of the connection: what one node writes, the network that hands it over in pieces of any size, and
 * the goroutine that reads packets and puts them into the other node's pipe.
 */
module Directions {
  import opened Bytes
  import opened Packets
  import opened Recv
  import opened Send

  /** The next packet of a stream is its framed form followed by the rest. */
  lemma FramedNext(s: Bytes)
    requires NextFrame(s).Got? && Parse(NextFrame(s).raw).Some?
    ensures var f := Parse(NextFrame(s).raw).value; Whole(f) && s == Framed(f) + NextFrame(s).rest
  {
    var raw, f := NextFrame(s).raw, Parse(NextFrame(s).raw).value;
    RawParse(raw);
    ParseRaw(f);
    BigEndianOfValue(s[..8]);
    U64Width();
    assert PutU64(|raw|) == s[..8];
    assert s == s[..8] + raw + NextFrame(s).rest;
  }

  /** More bytes behind a whole packet do not change it. */
  lemma NextWithMore(s: Bytes, more: Bytes)
    requires NextFrame(s).Got?
    ensures NextFrame(s + more) == Got(NextFrame(s).raw, NextFrame(s).rest + more)
  {
    assert (s + more)[..8] == s[..8];
  }

  lemma Regroup(a: Bytes, b: Bytes, c: Bytes, d: Bytes)
    ensures a + ((b + c) + d) == (a + b) + (c + d)
  {
  }

  lemma Behind(a: Bytes, b: Bytes, c: Bytes, d: Bytes)
    ensures a + (b + (c + d)) == (a + (b + c)) + d
  {
  }

  /** The first of the packets sent is the first in front. */
  lemma FirstOfBoth(f: Frame, tail: Bytes, sent: seq<Frame>)
    requires Whole(f) && sent != [] && Whole(sent[0]) && Framed(f) + tail == Stream(sent)
    ensures f == sent[0] && tail == Stream(sent[1..])
  {
    NextOfFramed(f, tail);
    NextOfFramed(sent[0], Stream(sent[1..]));
  }

  lemma SamePrefix(pipe: seq<Frame>, sent: seq<Frame>)
    requires pipe != [] && |pipe| <= |sent| && pipe[0] == sent[0] && pipe[1..] == sent[1..][..|pipe| - 1]
    ensures pipe == sent[..|pipe|] && sent[1..][|pipe| - 1..] == sent[|pipe|..]
  {
    assert pipe == [pipe[0]] + pipe[1..];
  }

  /** In front of a stream of sent packets a pipe holds the first of them. */
  lemma {:induction false} PipeIsPrefix(pipe: seq<Frame>, rest: Bytes, sent: seq<Frame>)
    requires (forall k | 0 <= k < |pipe| :: Whole(pipe[k])) && (forall k | 0 <= k < |sent| :: Sendable(sent[k]))
    requires Stream(pipe) + rest == Stream(sent)
    ensures |pipe| <= |sent| && pipe == sent[..|pipe|] && rest == Stream(sent[|pipe|..])
  {
    if pipe == [] {
      assert [] + rest == rest && sent[0..] == sent;
    } else {
      StreamCons(pipe, rest);
      assert |Stream(sent)| > 0;
      FirstOfBoth(pipe[0], Stream(pipe[1..]) + rest, sent);
      PipeIsPrefix(pipe[1..], rest, sent[1..]);
      SamePrefix(pipe, sent);
    }
  }

  /** A whole packet at the front of a stream of sent packets parses. */
  lemma SentParses(s: Bytes, more: Bytes, sent: seq<Frame>)
    requires (forall k | 0 <= k < |sent| :: Sendable(sent[k])) && s + more == Stream(sent) && NextFrame(s).Got?
    ensures Parse(NextFrame(s).raw).Some?
  {
    NextWithMore(s, more);
    assert sent != [];
    NextOfFramed(sent[0], Stream(sent[1..]));
  }

  /** A stream that is some packets as they were sent. */
  ghost predicate Clean(s: Bytes, sent: seq<Frame>) {
    (forall k | 0 <= k < |sent| :: Sendable(sent[k])) && s == Stream(sent)
  }

  class Direction {
    const out: Outgoing              // the writing node's end
    const conn: Conn                 // the reading node's end
    var delivered: nat               // bytes the network has handed over
    var pipe: seq<Frame>             // packets read and not yet taken by the main loop

    constructor (out: Outgoing)
      ensures this.out == out && delivered == 0 && pipe == [] && fresh(conn) && conn.incoming == []
    {
      this.out, delivered, pipe := out, 0, [];
      conn := new Conn([]);
    }

    /** Nothing has been written, so nothing is under way. */
    lemma NothingUnderWay()
      requires delivered == 0 && pipe == [] && conn.incoming == [] && out.written == []
      ensures Valid() && Pending() == []
    {
    }

    ghost predicate Valid()
      reads this, out, conn
    {
      delivered <= |out.written| && forall k | 0 <= k < |pipe| :: Whole(pipe[k])
    }

    /** Everything written and not yet taken by the main loop at the other end. */
    function Pending(): Bytes
      requires Valid()
      reads this, out, conn
    {
      Stream(pipe) + (conn.incoming + out.written[delivered..])
    }

    function Undelivered(): nat
      requires Valid()
      reads this, out, conn
    {
      |out.written| - delivered
    }

    /** What the writing node writes comes last. */
    twostate lemma AfterWrite()
      requires old(Valid()) && old(out.written) <= out.written
      requires delivered == old(delivered) && pipe == old(pipe) && conn.incoming == old(conn.incoming)
      ensures Valid() && Pending() == old(Pending()) + out.written[|old(out.written)|..]
    {
      var was, now, n := old(out.written), out.written, delivered;
      assert now[n..] == was[n..] + now[|was|..];
      Behind(Stream(pipe), conn.incoming, was[n..], now[|was|..]);
    }

    /** The network hands over some more bytes. */
    method Deliver()
      requires Valid() && Undelivered() > 0
      modifies this`delivered, conn
      ensures Valid() && Pending() == old(Pending()) && Ahead() < old(Ahead()) && pipe == old(pipe)
    {
      var n :| 0 < n <= |out.written| - delivered;
      var piece := out.written[delivered..delivered + n];
      assert conn.incoming + out.written[delivered..] == (conn.incoming + piece) + out.written[delivered + n..];
      conn.incoming := conn.incoming + piece;
      delivered := delivered + n;
    }

    /** One round of ReceivePackets, when a whole packet has come in. */
    method ReadPacket()
      requires Valid() && NextFrame(conn.incoming).Got? && Parse(NextFrame(conn.incoming).raw).Some?
      modifies this`pipe, conn
      ensures Valid() && Pending() == old(Pending()) && |pipe| == |old(pipe)| + 1
      ensures Undelivered() == old(Undelivered()) && |conn.incoming| < |old(conn.incoming)|
    {
      ghost var s := conn.incoming;
      FramedNext(s);
      var packetBytes := ReadFromConn(conn);
      var packet := BytesToPacket(packetBytes.raw);
      ghost var f := packet.View();
      StreamSnoc(pipe, f);
      pipe := pipe + [Frame(packet.header, packet.body)];
      ghost var rest := out.written[delivered..];
      Regroup(Stream(old(pipe)), Framed(f), conn.incoming, rest);
    }

    /** The same on a stream of sent packets: what comes in is a packet, and the pipe holds the first of those sent. */
    method ReadNext(ghost sent: seq<Frame>)
      requires Valid() && NextFrame(conn.incoming).Got? && Clean(Pending(), sent)
      modifies this`pipe, conn
      ensures Valid() && Pending() == old(Pending()) && |pipe| <= |sent|
      ensures Undelivered() == old(Undelivered()) && |conn.incoming| < |old(conn.incoming)|
    {
      PipeIsPrefix(pipe, conn.incoming + out.written[delivered..], sent);
      SentParses(conn.incoming, out.written[delivered..], sent[|pipe|..]);
      ReadPacket();
      PipeIsPrefix(pipe, conn.incoming + out.written[delivered..], sent);
    }

    /** Bytes still to be handed over count twice, bytes still to be read once. */
    function Ahead(): nat
      requires Valid()
      reads this, out, conn
    {
      2 * Undelivered() + |conn.incoming|
    }

    /** The network hands over some bytes, or the reader takes a packet: what is under way stays the same. */
    method Advance(ghost sent: seq<Frame>)
      requires Valid() && Clean(Pending(), sent) && (Undelivered() > 0 || NextFrame(conn.incoming).Got?)
      modifies this`delivered, this`pipe, conn
      ensures Valid() && Pending() == old(Pending()) && Ahead() < old(Ahead())
      ensures |pipe| <= |old(pipe)| || |pipe| <= |sent|
    {
      if {
        case Undelivered() > 0 => Deliver();
        case NextFrame(conn.incoming).Got? => ReadNext(sent);
      }
    }

    /** A packet under way is in the pipe, has come in, or has still to be handed over. */
    lemma SomethingToDo()
      requires Valid() && NextFrame(Pending()).Got?
      ensures pipe != [] || NextFrame(conn.incoming).Got? || Undelivered() > 0
    {
      if pipe == [] && Undelivered() == 0 {
        assert Pending() == conn.incoming;
      }
    }

    /** The main loop takes the next packet. */
    method Take() returns (p: Packet)
      requires Valid() && pipe != []
      modifies this`pipe
      ensures Valid() && fresh(p) && p.View() == old(pipe[0]) && Whole(p.View()) && pipe == old(pipe)[1..]
      ensures old(Pending()) == Framed(p.View()) + Pending()
    {
      p := new Packet(pipe[0]);
      pipe := pipe[1..];
      ghost var rest := conn.incoming + out.written[delivered..];
      assert (Framed(p.View()) + Stream(pipe)) + rest == Framed(p.View()) + (Stream(pipe) + rest);
    }
  }
}
