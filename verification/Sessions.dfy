/**
 * A whole transfer on the objects themselves: the two nodes, the two directions of the connection and the goroutines
 * that read them, in any interleaving.  Every turn of an object is a step of the byte system, so all that is proved
 * of byte runs holds of the classes.
 */
module Sessions {
  import opened Bytes
  import opened Ciphers
  import opened Fsys
  import opened Packets
  import opened Protocol
  import opened Recv
  import opened ByteRuns
  import opened SenderNodes
  import opened ReceiverNodes
  import opened Directions
  import opened NodeSteps

  class Session {
    const c: Setting
    const cipher: Cipher
    const sender: SenderNode
    const receiver: ReceiverNode
    const s2r: Direction
    const r2s: Direction

    /** Two new nodes on a new connection; the sender sends the key before its loop starts. */
    constructor (sender: SenderNode, receiver: ReceiverNode, s2r: Direction, r2s: Direction)
      requires receiver.c == sender.c && receiver.cipher == sender.cipher
      requires sender.Valid() && receiver.Valid() && sender.View() == InitialSender() && receiver.View() == InitialReceiver(sender.c)
      requires s2r.out == sender.conn && r2s.out == receiver.conn && sender.conn != receiver.conn && s2r != r2s && s2r.conn != r2s.conn
      requires s2r.Valid() && r2s.Valid() && s2r.Pending() == [] && r2s.Pending() == []
      modifies sender.conn
      ensures Valid() && this.sender == sender && this.receiver == receiver && this.s2r == s2r && this.r2s == r2s
      ensures c == sender.c && cipher == sender.cipher && Now() == ByteInitial(c, WireCarrier(cipher))
    {
      c, cipher := sender.c, sender.cipher;
      this.sender, this.receiver, this.s2r, this.r2s := sender, receiver, s2r, r2s;
      new;
      Connected();
      Greeting();
      assert [] + MsgBytes(WireCarrier(cipher), c.key, EncrKey(c.key)) == MsgBytes(WireCarrier(cipher), c.key, EncrKey(c.key));
    }

    /** Two new nodes, before either has said anything. */
    lemma Connected()
      requires sender.c == c && sender.cipher == cipher && receiver.c == c && receiver.cipher == cipher
      requires s2r.out == sender.conn && r2s.out == receiver.conn
      requires sender.conn != receiver.conn && s2r != r2s && s2r.conn != r2s.conn
      requires sender.Valid() && receiver.Valid() && s2r.Valid() && r2s.Valid()
      requires sender.View() == InitialSender() && receiver.View() == InitialReceiver(c) && s2r.Pending() == [] && r2s.Pending() == []
      ensures Valid() && Now() == ByteSystem(InitialSender(), InitialReceiver(c), [], [])
    {
      assert |receiver.acceptedFiles| == |receiver.View().accepted| == 0;
    }

    /** The sender sends the key. */
    method Greeting()
      requires Valid()
      modifies sender.conn
      ensures Valid() && Now() == old(Now()).(s2r := old(Now()).s2r + MsgBytes(WireCarrier(cipher), c.key, EncrKey(c.key)))
    {
      sender.Greet();
      s2r.AfterWrite();
      KeptBySender();
    }

    /** Who is connected to whom, and which records are whose. */
    ghost predicate Valid()
      reads sender, sender.pool, receiver, s2r, s2r.out, s2r.conn, r2s, r2s.out, r2s.conn
    {
      && sender.c == c && sender.cipher == cipher && receiver.c == c && receiver.cipher == cipher
      && s2r.out == sender.conn && r2s.out == receiver.conn
      && sender.conn != receiver.conn && s2r != r2s && s2r.conn != r2s.conn
      && sender.Valid() && receiver.Valid() && s2r.Valid() && r2s.Valid()
      && (forall f | f in receiver.acceptedFiles :: f !in sender.pool)
    }

    /** The state of the byte system the objects are in. */
    ghost function Now(): ByteSystem
      requires Valid()
      reads sender, sender.pool, receiver, receiver.acceptedFiles, s2r, s2r.out, s2r.conn, r2s, r2s.out, r2s.conn
    {
      ByteSystem(sender.View(), receiver.View(), s2r.Pending(), r2s.Pending())
    }

    method OfferTurn()
      requires Valid() && !sender.offered && !sender.allowedToTransfer
      modifies sender`offered, sender.conn
      ensures Valid() && (!c.isDir ==> |c.served| > 0)
      ensures ByteStep(c, WireCarrier(cipher), old(Now()), SendOffer) == Moved(Now())
    {
      ghost var b := Now();
      sender.SendOffer();
      OfferIsStep(c, cipher, b);
      s2r.AfterWrite();
    }

    /** A pass over the packet p, the first of the stream in state b. */
    method SenderIterates(p: Packet, ghost b: ByteSystem, ghost rest: Bytes) returns (ok: bool, ghost written: Bytes)
      requires sender.Valid() && sender.c == c && sender.cipher == cipher && (!c.isDir ==> |c.served| > 0)
      requires b.sender == sender.View() && !sender.closed && !sender.stopped
      requires Whole(p.View()) && b.r2s == Framed(p.View()) + rest
      requires sender.allowedToTransfer ==> !AcceptIsNext(cipher, c.key, b.r2s)
      modifies sender, sender.pool, sender.conn, p
      ensures ok ==> sender.Valid() && sender.conn.written == old(sender.conn.written) + written
      ensures ok ==> ByteStep(c, WireCarrier(cipher), b, Label.SenderTurn) == Moved(b.(sender := sender.View(), r2s := rest, s2r := b.s2r + written))
      ensures !ok ==> ByteStep(c, WireCarrier(cipher), b, Label.SenderTurn) == Crashed
    {
      ghost var f := p.View();
      AcceptFirst(cipher, c.key, f, rest);
      ok := sender.Iterate(p);
      written := if ok then sender.conn.written[|old(sender.conn.written)|..] else [];
      SenderTurnIsStep(c, cipher, b, f, rest, ok, if ok then sender.View() else b.sender, written);
    }

    /** A pass of the sender leaves the other node and the other direction as they are. */
    twostate lemma KeptBySender()
      requires old(Valid()) && sender.Valid() && s2r.Valid()
      requires unchanged(receiver, r2s, r2s.conn, receiver.conn)
      requires forall k | 0 <= k < |receiver.acceptedFiles| :: unchanged(receiver.acceptedFiles[k])
      ensures Valid() && Now() == old(Now()).(sender := sender.View(), s2r := s2r.Pending())
    {
    }

    /** No record of the receiver's is one of the sender's. */
    lemma FilesApart()
      requires Valid()
      ensures forall k | 0 <= k < |receiver.acceptedFiles| :: receiver.acceptedFiles[k] !in sender.pool
    {
      forall k | 0 <= k < |receiver.acceptedFiles|
        ensures receiver.acceptedFiles[k] !in sender.pool
      {
        assert receiver.acceptedFiles[k] in receiver.acceptedFiles;
      }
    }

    /** The same, and what it wrote comes last in its direction. */
    method SenderWrites(p: Packet, ghost b: ByteSystem, ghost rest: Bytes) returns (ok: bool, ghost written: Bytes)
      requires Valid() && !sender.closed && !sender.stopped && (!c.isDir ==> |c.served| > 0)
      requires Whole(p.View()) && Now() == b.(r2s := rest) && b.r2s == Framed(p.View()) + rest
      requires sender.allowedToTransfer ==> !AcceptIsNext(cipher, c.key, b.r2s)
      modifies sender, sender.pool, sender.conn, p
      ensures ok ==> sender.Valid() && s2r.Valid() && s2r.Pending() == old(s2r.Pending()) + written
      ensures ok ==> ByteStep(c, WireCarrier(cipher), b, Label.SenderTurn) == Moved(b.(sender := sender.View(), r2s := rest, s2r := b.s2r + written))
      ensures !ok ==> ByteStep(c, WireCarrier(cipher), b, Label.SenderTurn) == Crashed
    {
      ok, written := SenderIterates(p, b, rest);
      if ok {
        s2r.AfterWrite();
      }
    }

    /** A pass of the sender over the packet p, taken from the stream in state b. */
    method SenderPasses(p: Packet, ghost b: ByteSystem, ghost rest: Bytes) returns (ok: bool)
      requires Valid() && !sender.closed && !sender.stopped && (!c.isDir ==> |c.served| > 0)
      requires Whole(p.View()) && Now() == b.(r2s := rest) && b.r2s == Framed(p.View()) + rest
      requires sender.allowedToTransfer ==> !AcceptIsNext(cipher, c.key, b.r2s)
      modifies sender, sender.pool, sender.conn, p
      ensures ok ==> Valid() && ByteStep(c, WireCarrier(cipher), b, Label.SenderTurn) == Moved(Now())
      ensures !ok ==> ByteStep(c, WireCarrier(cipher), b, Label.SenderTurn) == Crashed
    {
      FilesApart();
      ghost var written;
      ok, written := SenderWrites(p, b, rest);
      if ok {
        KeptBySender();
      }
    }

    /** A pass of the sender's loop over the next packet; false stands for a panic. */
    method SenderTurn() returns (ok: bool)
      requires Valid() && !sender.closed && !sender.stopped && r2s.pipe != [] && (!c.isDir ==> |c.served| > 0)
      requires sender.allowedToTransfer ==> !AcceptIsNext(cipher, c.key, r2s.Pending())
      modifies r2s`pipe, sender, sender.pool, sender.conn
      ensures ok ==> Valid() && ByteStep(c, WireCarrier(cipher), old(Now()), Label.SenderTurn) == Moved(Now())
      ensures !ok ==> ByteStep(c, WireCarrier(cipher), old(Now()), Label.SenderTurn) == Crashed
      ensures r2s.pipe == old(r2s.pipe)[1..]
    {
      ghost var b := Now();
      var p := r2s.Take();
      ok := SenderPasses(p, b, r2s.Pending());
    }

    /** The sender leaves its loop. */
    method SenderLeaves()
      requires Valid() && !sender.closed && sender.stopped && (!c.isDir ==> |c.served| > 0)
      modifies sender`closed, sender.conn
      ensures Valid() && ByteStep(c, WireCarrier(cipher), old(Now()), Label.SenderTurn) == Moved(Now())
    {
      LeavingIsStep(c, cipher, Now());
      sender.Disconnect();
      s2r.AfterWrite();
    }

    /** The head of the receiver's loop. */
    method ReceiverTop()
      requires Valid() && !receiver.closed && !receiver.waiting && (!c.isDir ==> |c.served| > 0)
      modifies receiver`waiting, receiver`closed, receiver.conn
      ensures Valid() && ByteStep(c, WireCarrier(cipher), old(Now()), Label.ReceiverTop) == Moved(Now())
    {
      TopIsStep(c, cipher, Now());
      var again := receiver.Top();
      r2s.AfterWrite();
    }

    method ReceiverIterates(p: Packet, ghost b: ByteSystem, ghost rest: Bytes) returns (ok: bool, ghost written: Bytes)
      requires receiver.Valid() && receiver.c == c && receiver.cipher == cipher && (!c.isDir ==> |c.served| > 0)
      requires b.receiver == receiver.View() && !receiver.closed && receiver.waiting
      requires Whole(p.View()) && b.s2r == Framed(p.View()) + rest
      modifies receiver, receiver.acceptedFiles, receiver.conn, p
      ensures ok ==> receiver.Valid() && receiver.conn.written == old(receiver.conn.written) + written
      ensures ok ==> ByteStep(c, WireCarrier(cipher), b, Label.ReceiverTurn) == Moved(b.(receiver := receiver.View(), s2r := rest, r2s := b.r2s + written))
      ensures !ok ==> ByteStep(c, WireCarrier(cipher), b, Label.ReceiverTurn) == Crashed
      ensures forall f | f in receiver.acceptedFiles :: f in old(receiver.acceptedFiles) || fresh(f)
    {
      ghost var f := p.View();
      ok := receiver.Iterate(p);
      written := if ok then receiver.conn.written[|old(receiver.conn.written)|..] else [];
      ReceiverTurnIsStep(c, cipher, b, f, rest, ok, receiver.View(), written);
    }

    /** The receiver handles the next packet; false stands for a panic. */
    method ReceiverTurn() returns (ok: bool)
      requires Valid() && !receiver.closed && receiver.waiting && s2r.pipe != [] && (!c.isDir ==> |c.served| > 0)
      modifies s2r`pipe, receiver, receiver.acceptedFiles, receiver.conn
      ensures ok ==> Valid() && ByteStep(c, WireCarrier(cipher), old(Now()), Label.ReceiverTurn) == Moved(Now())
      ensures !ok ==> ByteStep(c, WireCarrier(cipher), old(Now()), Label.ReceiverTurn) == Crashed
      ensures s2r.pipe == old(s2r.pipe)[1..]
      ensures forall f | f in receiver.acceptedFiles :: f in old(receiver.acceptedFiles) || fresh(f)
    {
      ghost var b := Now();
      var p := s2r.Take();
      ghost var written;
      ok, written := ReceiverIterates(p, b, s2r.Pending());
      if ok {
        r2s.AfterWrite();
      }
    }

    /** The user answers. */
    method AnswerTurn(yes: bool, made: bool)
      requires Valid() && !receiver.closed && receiver.offer.Some? && (!c.isDir ==> |c.served| > 0)
      modifies receiver`offer, receiver`totalDownloadSize, receiver`downloadsPath, receiver`stopped, receiver.conn
      ensures Valid() && ByteStep(c, WireCarrier(cipher), old(Now()), Answer(yes, made)) == Moved(Now())
    {
      AnswerIsStep(c, cipher, Now(), yes, made);
      receiver.AnswerOffer(yes, made);
      r2s.AfterWrite();
    }
  }

  /** Connects two new nodes; whatever is between them is new. */
  method Connect(sender: SenderNode, receiver: ReceiverNode) returns (x: Session)
    requires receiver.c == sender.c && receiver.cipher == sender.cipher
    requires sender.Valid() && receiver.Valid() && sender.View() == InitialSender() && receiver.View() == InitialReceiver(sender.c)
    requires sender.conn != receiver.conn && sender.conn.written == [] && receiver.conn.written == []
    modifies sender.conn
    ensures x.Valid() && x.sender == sender && x.receiver == receiver && x.c == sender.c && x.cipher == sender.cipher
    ensures x.s2r.pipe == [] && x.r2s.pipe == [] && x.Now() == ByteInitial(x.c, WireCarrier(x.cipher))
    ensures fresh(x.s2r) && fresh(x.s2r.conn) && fresh(x.r2s) && fresh(x.r2s.conn)
  {
    var s2r := new Direction(sender.conn);
    var r2s := new Direction(receiver.conn);
    s2r.NothingUnderWay();
    r2s.NothingUnderWay();
    x := new Session(sender, receiver, s2r, r2s);
  }
}
