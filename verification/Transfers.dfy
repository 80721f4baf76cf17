/** Transfers from the first packet to the last: any interleaving of the two nodes, their readers and the network. */
module Transfers {
  import opened Wrappers
  import opened Ciphers
  import opened Packets
  import opened Protocol
  import opened Recv
  import opened Runs
  import opened ByteRuns
  import opened Hindrances
  import opened ByteFates
  import opened Directions
  import opened NodeSteps
  import opened Sessions

  /** Some node or goroutine can go on. */
  predicate CanMove(b: ByteSystem) {
    || !b.sender.offered
    || (!b.sender.closed && (b.sender.stopped || NextFrame(b.r2s).Got?))
    || (!b.receiver.closed && (!b.receiver.waiting || NextFrame(b.s2r).Got? || b.receiver.offer.Some?))
  }

  /** What a turn needs to know of the state it finds. */
  ghost predicate Healthy(c: Setting, cipher: Cipher, b: ByteSystem, toReceiver: seq<Frame>, toSender: seq<Frame>) {
    && (!c.isDir ==> |c.served| > 0)
    && (!b.sender.offered ==> !b.sender.allowed)
    && (b.sender.allowed && !b.sender.stopped ==> !AcceptIsNext(cipher, c.key, b.r2s))
    && Clean(b.s2r, toReceiver) && Clean(b.r2s, toSender) && |toReceiver| <= 2 && |toSender| <= 2
    && ((b.sender.closed && b.receiver.closed) || CanMove(b))
  }

  lemma MovedCanMove(c: Setting, cipher: Cipher, b: ByteSystem, l: Label)
    requires !c.isDir ==> |c.served| > 0
    requires ByteStep(c, WireCarrier(cipher), b, l).Moved?
    ensures CanMove(b)
  {
  }

  /** Every state a run reaches is healthy, and no run is longer than the bound. */
  lemma ReachedIsHealthy(c: Setting, cipher: Cipher, brun: seq<ByteSystem>, ls: seq<Label>)
    returns (toReceiver: seq<Frame>, toSender: seq<Frame>)
    requires Fine(c, cipher) && IsByteRunBy(c, WireCarrier(cipher), brun, ls)
    ensures Healthy(c, cipher, brun[|brun| - 1], toReceiver, toSender) && |brun| <= 1 + 5 * Cap(Unhindered(c))
  {
    toReceiver, toSender := ReachableBytes(c, cipher, brun, ls);
    var u, w, b := Unhindered(c), WireCarrier(cipher), brun[|brun| - 1];
    FineWire(c, cipher);
    SameByteRun(c, w, brun, ls);
    BytesByIsRun(u, w, brun, ls);
    ByteDelivery(u, cipher, brun);
    if !(b.sender.closed && b.receiver.closed) {
      var l :| ByteStep(u, w, b, l).Moved?;
      MovedCanMove(u, cipher, b, l);
    }
  }

  /** What the network and the readers have still to do. */
  function Waste(x: Session): nat
    requires x.s2r.Valid() && x.r2s.Valid()
    reads x.s2r, x.s2r.out, x.s2r.conn, x.r2s, x.r2s.out, x.r2s.conn
  {
    x.s2r.Ahead() + x.r2s.Ahead()
  }

  /** A pipe has room for 100 packets; there are never more than two in it. */
  predicate PipesFit(x: Session)
    reads x.s2r, x.r2s
  {
    |x.s2r.pipe| <= 2 && |x.r2s.pipe| <= 2
  }

  /** The network or a reader goes on: the byte system does not see it. */
  method Unseen(x: Session, d: Direction, ghost sent: seq<Frame>)
    requires x.Valid() && PipesFit(x) && (d == x.s2r || d == x.r2s) && Clean(d.Pending(), sent) && |sent| <= 2
    requires d.Undelivered() > 0 || NextFrame(d.conn.incoming).Got?
    modifies d`delivered, d`pipe, d.conn
    ensures x.Valid() && PipesFit(x) && x.Now() == old(x.Now()) && Waste(x) < old(Waste(x))
  {
    d.Advance(sent);
  }

  predicate SenderCanTurn(x: Session)
    reads x.sender, x.r2s
  {
    !x.sender.offered || (!x.sender.closed && (x.sender.stopped || x.r2s.pipe != []))
  }

  predicate ReceiverCanTurn(x: Session)
    reads x.receiver, x.s2r
  {
    !x.receiver.closed && (!x.receiver.waiting || x.s2r.pipe != [] || x.receiver.offer.Some?)
  }

  // Each turn, and the step of the byte system it is.

  method OfferRound(x: Session, ghost toReceiver: seq<Frame>, ghost toSender: seq<Frame>) returns (ghost taken: Label)
    requires x.Valid() && PipesFit(x) && Healthy(x.c, x.cipher, x.Now(), toReceiver, toSender)
    requires !x.sender.offered
    modifies x.sender, x.sender.pool, x.sender.conn, x.r2s`pipe
    ensures x.Valid() && PipesFit(x) && (!taken.Answer?)
    ensures ByteStep(x.c, WireCarrier(x.cipher), old(x.Now()), taken) == Moved(x.Now())
  {
    taken := SendOffer;
    x.OfferTurn();
  }

  method LeaveRound(x: Session, ghost toReceiver: seq<Frame>, ghost toSender: seq<Frame>) returns (ghost taken: Label)
    requires x.Valid() && PipesFit(x) && Healthy(x.c, x.cipher, x.Now(), toReceiver, toSender)
    requires !x.sender.closed && x.sender.stopped
    modifies x.sender, x.sender.pool, x.sender.conn, x.r2s`pipe
    ensures x.Valid() && PipesFit(x) && (!taken.Answer?)
    ensures ByteStep(x.c, WireCarrier(x.cipher), old(x.Now()), taken) == Moved(x.Now())
  {
    taken := SenderTurn;
    x.SenderLeaves();
  }

  method PassRound(x: Session, ghost toReceiver: seq<Frame>, ghost toSender: seq<Frame>) returns (ok: bool, ghost taken: Label)
    requires x.Valid() && PipesFit(x) && Healthy(x.c, x.cipher, x.Now(), toReceiver, toSender)
    requires !x.sender.closed && !x.sender.stopped && x.r2s.pipe != []
    modifies x.sender, x.sender.pool, x.sender.conn, x.r2s`pipe
    ensures !taken.Answer?
    ensures ok ==> x.Valid() && PipesFit(x) && ByteStep(x.c, WireCarrier(x.cipher), old(x.Now()), taken) == Moved(x.Now())
    ensures !ok ==> ByteStep(x.c, WireCarrier(x.cipher), old(x.Now()), taken) == Crashed
  {
    taken := SenderTurn;
    ok := x.SenderTurn();
  }

  method AnswerRound(x: Session, yes: bool, made: bool, ghost toReceiver: seq<Frame>, ghost toSender: seq<Frame>) returns (ghost taken: Label)
    requires x.Valid() && PipesFit(x) && Healthy(x.c, x.cipher, x.Now(), toReceiver, toSender)
    requires !x.receiver.closed && x.receiver.offer.Some?
    modifies x.receiver, x.receiver.acceptedFiles, x.receiver.conn, x.s2r`pipe
    ensures x.Valid() && PipesFit(x) && (taken.Answer? ==> taken == Answer(yes, made))
    ensures ByteStep(x.c, WireCarrier(x.cipher), old(x.Now()), taken) == Moved(x.Now())
    ensures forall f | f in x.receiver.acceptedFiles :: f in old(x.receiver.acceptedFiles) || fresh(f)
  {
    taken := Answer(yes, made);
    x.AnswerTurn(yes, made);
  }

  method TopRound(x: Session, ghost toReceiver: seq<Frame>, ghost toSender: seq<Frame>) returns (ghost taken: Label)
    requires x.Valid() && PipesFit(x) && Healthy(x.c, x.cipher, x.Now(), toReceiver, toSender)
    requires !x.receiver.closed && !x.receiver.waiting
    modifies x.receiver, x.receiver.acceptedFiles, x.receiver.conn, x.s2r`pipe
    ensures x.Valid() && PipesFit(x) && (!taken.Answer?)
    ensures ByteStep(x.c, WireCarrier(x.cipher), old(x.Now()), taken) == Moved(x.Now())
    ensures forall f | f in x.receiver.acceptedFiles :: f in old(x.receiver.acceptedFiles) || fresh(f)
  {
    taken := ReceiverTop;
    x.ReceiverTop();
  }

  method HandleRound(x: Session, ghost toReceiver: seq<Frame>, ghost toSender: seq<Frame>) returns (ok: bool, ghost taken: Label)
    requires x.Valid() && PipesFit(x) && Healthy(x.c, x.cipher, x.Now(), toReceiver, toSender)
    requires !x.receiver.closed && x.receiver.waiting && x.s2r.pipe != []
    modifies x.receiver, x.receiver.acceptedFiles, x.receiver.conn, x.s2r`pipe
    ensures !taken.Answer?
    ensures ok ==> x.Valid() && PipesFit(x) && ByteStep(x.c, WireCarrier(x.cipher), old(x.Now()), taken) == Moved(x.Now())
    ensures !ok ==> ByteStep(x.c, WireCarrier(x.cipher), old(x.Now()), taken) == Crashed
    ensures forall f | f in x.receiver.acceptedFiles :: f in old(x.receiver.acceptedFiles) || fresh(f)
  {
    taken := ReceiverTurn;
    ok := x.ReceiverTurn();
  }

  /** The offer goroutine, a pass of the sender's loop, or its end; false stands for a panic. */
  method SenderRound(x: Session, ghost toReceiver: seq<Frame>, ghost toSender: seq<Frame>) returns (ok: bool, ghost taken: Label)
    requires x.Valid() && PipesFit(x) && Healthy(x.c, x.cipher, x.Now(), toReceiver, toSender) && SenderCanTurn(x)
    modifies x.sender, x.sender.pool, x.sender.conn, x.r2s`pipe
    ensures !taken.Answer?
    ensures ok ==> x.Valid() && PipesFit(x) && ByteStep(x.c, WireCarrier(x.cipher), old(x.Now()), taken) == Moved(x.Now())
    ensures !ok ==> ByteStep(x.c, WireCarrier(x.cipher), old(x.Now()), taken) == Crashed
  {
    ok := true;
    if {
      case !x.sender.offered => taken := OfferRound(x, toReceiver, toSender);
      case !x.sender.closed && x.sender.stopped => taken := LeaveRound(x, toReceiver, toSender);
      case !x.sender.closed && !x.sender.stopped && x.r2s.pipe != [] => ok, taken := PassRound(x, toReceiver, toSender);
    }
  }

  /** The user's answer, or a move of the receiver's loop; false stands for a panic. */
  method ReceiverRound(x: Session, yes: bool, made: bool, ghost toReceiver: seq<Frame>, ghost toSender: seq<Frame>)
    returns (ok: bool, ghost taken: Label)
    requires x.Valid() && PipesFit(x) && Healthy(x.c, x.cipher, x.Now(), toReceiver, toSender) && ReceiverCanTurn(x)
    modifies x.receiver, x.receiver.acceptedFiles, x.receiver.conn, x.s2r`pipe
    ensures taken.Answer? ==> taken == Answer(yes, made)
    ensures ok ==> x.Valid() && PipesFit(x) && ByteStep(x.c, WireCarrier(x.cipher), old(x.Now()), taken) == Moved(x.Now())
    ensures !ok ==> ByteStep(x.c, WireCarrier(x.cipher), old(x.Now()), taken) == Crashed
    ensures forall f | f in x.receiver.acceptedFiles :: f in old(x.receiver.acceptedFiles) || fresh(f)
  {
    ok := true;
    if {
      case x.receiver.offer.Some? => taken := AnswerRound(x, yes, made, toReceiver, toSender);
      case !x.receiver.waiting => taken := TopRound(x, toReceiver, toSender);
      case x.receiver.waiting && x.s2r.pipe != [] => ok, taken := HandleRound(x, toReceiver, toSender);
    }
  }

  /** There is always a node, a reader or the network that can go on. */
  lemma SomeoneCan(x: Session)
    requires x.Valid() && CanMove(x.Now())
    ensures SenderCanTurn(x) || ReceiverCanTurn(x)
         || x.s2r.Undelivered() > 0 || NextFrame(x.s2r.conn.incoming).Got?
         || x.r2s.Undelivered() > 0 || NextFrame(x.r2s.conn.incoming).Got?
  {
    if NextFrame(x.s2r.Pending()).Got? {
      x.s2r.SomethingToDo();
    }
    if NextFrame(x.r2s.Pending()).Got? {
      x.r2s.SomethingToDo();
    }
  }

  /** Somebody goes on; false stands for a panic. */
  method Round(x: Session, yes: bool, made: bool, ghost toReceiver: seq<Frame>, ghost toSender: seq<Frame>)
    returns (ok: bool, ghost taken: Option<Label>)
    requires x.Valid() && PipesFit(x) && Healthy(x.c, x.cipher, x.Now(), toReceiver, toSender)
    requires !(x.sender.closed && x.receiver.closed)
    modifies x.sender, x.sender.pool, x.sender.conn, x.receiver, x.receiver.acceptedFiles, x.receiver.conn
    modifies x.s2r`delivered, x.s2r`pipe, x.s2r.conn, x.r2s`delivered, x.r2s`pipe, x.r2s.conn
    ensures ok ==> x.Valid() && PipesFit(x)
    ensures match taken
      case None => ok && x.Now() == old(x.Now()) && Waste(x) < old(Waste(x))
      case Some(l) =>
        && (l.Answer? ==> l == Answer(yes, made))
        && (!x.c.isDir ==> |x.c.served| > 0)
        && (ok ==> ByteStep(x.c, WireCarrier(x.cipher), old(x.Now()), l) == Moved(x.Now()))
        && (!ok ==> ByteStep(x.c, WireCarrier(x.cipher), old(x.Now()), l) == Crashed)
    ensures forall f | f in x.receiver.acceptedFiles :: f in old(x.receiver.acceptedFiles) || fresh(f)
  {
    SomeoneCan(x);
    ok, taken := true, None;
    if {
      case SenderCanTurn(x) =>
        ghost var l;
        ok, l := SenderRound(x, toReceiver, toSender);
        taken := Some(l);
      case ReceiverCanTurn(x) =>
        ghost var l;
        ok, l := ReceiverRound(x, yes, made, toReceiver, toSender);
        taken := Some(l);
      case x.s2r.Undelivered() > 0 || NextFrame(x.s2r.conn.incoming).Got? =>
        Unseen(x, x.s2r, toReceiver);
      case x.r2s.Undelivered() > 0 || NextFrame(x.r2s.conn.incoming).Got? =>
        Unseen(x, x.r2s, toSender);
    }
  }

  // ------------------------------------------------------------ to the end

  /** The session is where this run ends. */
  ghost predicate Follows(x: Session, yes: bool, made: bool, brun: seq<ByteSystem>, ls: seq<Label>)
    reads x.sender, x.sender.pool, x.receiver, x.receiver.acceptedFiles, x.s2r, x.s2r.out, x.s2r.conn, x.r2s, x.r2s.out, x.r2s.conn
  {
    && x.Valid() && PipesFit(x) && (!x.c.isDir ==> |x.c.served| > 0)
    && ByteAnswered(x.c, WireCarrier(x.cipher), brun, ls, yes, made) && brun[|brun| - 1] == x.Now()
  }

  lemma AnsweredNext(c: Setting, cipher: Cipher, yes: bool, made: bool, brun: seq<ByteSystem>, ls: seq<Label>, l: Label, b: ByteSystem)
    requires !c.isDir ==> |c.served| > 0
    requires ByteAnswered(c, WireCarrier(cipher), brun, ls, yes, made) && (l.Answer? ==> l == Answer(yes, made))
    requires ByteStep(c, WireCarrier(cipher), brun[|brun| - 1], l) == Moved(b)
    ensures ByteAnswered(c, WireCarrier(cipher), brun + [b], ls + [l], yes, made)
  {
    LongerBytes(c, WireCarrier(cipher), brun, ls, l, b);
  }

  /** One round, and the run it adds to; a panic means that the transfer is hindered. */
  method Onward(x: Session, yes: bool, made: bool, ghost brun: seq<ByteSystem>, ghost ls: seq<Label>)
    returns (ok: bool, ghost longer: seq<ByteSystem>, ghost labels: seq<Label>)
    requires Fine(x.c, x.cipher) && Follows(x, yes, made, brun, ls) && !(x.sender.closed && x.receiver.closed)
    modifies x.sender, x.sender.pool, x.sender.conn, x.receiver, x.receiver.acceptedFiles, x.receiver.conn
    modifies x.s2r`delivered, x.s2r`pipe, x.s2r.conn, x.r2s`delivered, x.r2s`pipe, x.r2s.conn
    ensures ok ==> Follows(x, yes, made, longer, labels)
    ensures ok ==> |longer| > |brun| || (|longer| == |brun| && Waste(x) < old(Waste(x)))
    ensures |brun| <= 1 + 5 * Cap(Unhindered(x.c))
    ensures !ok ==> yes && Hindered(x.c, FolderOf(x.c, yes, made))
    ensures forall k | 0 <= k < |x.receiver.acceptedFiles| ::
              fresh(x.receiver.acceptedFiles[k]) || x.receiver.acceptedFiles[k] in old(x.receiver.acceptedFiles)
  {
    ghost var toReceiver, toSender := ReachedIsHealthy(x.c, x.cipher, brun, ls);
    ghost var taken;
    ok, taken := Round(x, yes, made, toReceiver, toSender);
    longer, labels := brun, ls;
    if !ok {
      CrashIsHindrance(x.c, x.cipher, brun, ls, yes, made, taken.value);
    } else if taken.Some? {
      AnsweredNext(x.c, x.cipher, yes, made, brun, ls, taken.value, x.Now());
      longer, labels := brun + [x.Now()], ls + [taken.value];
    }
    forall k | 0 <= k < |x.receiver.acceptedFiles|
      ensures fresh(x.receiver.acceptedFiles[k]) || x.receiver.acceptedFiles[k] in old(x.receiver.acceptedFiles)
    {
      assert x.receiver.acceptedFiles[k] in x.receiver.acceptedFiles;
    }
  }

  /**
   * Runs a transfer to its end, whatever the interleaving and however the network cuts the streams.  It ends in a
   * panic if and only if the user agrees and something is in its way; otherwise no pipe ever fills, both nodes leave,
   * and the receiver's files are as the answer says.
   */
  method RunToEnd(x: Session, yes: bool, made: bool) returns (panicked: bool)
    requires x.Valid() && PipesFit(x) && Fine(x.c, x.cipher) && x.Now() == ByteInitial(x.c, WireCarrier(x.cipher))
    modifies x.sender, x.sender.pool, x.sender.conn, x.receiver, x.receiver.conn
    modifies x.s2r`delivered, x.s2r`pipe, x.s2r.conn, x.r2s`delivered, x.r2s`pipe, x.r2s.conn
    ensures panicked <==> yes && Hindered(x.c, FolderOf(x.c, yes, made))
    ensures !panicked ==> x.Valid() && PipesFit(x) && x.sender.closed && x.receiver.closed
    ensures !panicked ==> Ended(x.c, yes, made, x.sender.View(), x.receiver.View())
  {
    ghost var brun, ls: seq<Label> := [x.Now()], [];
    assert |x.receiver.acceptedFiles| == |x.receiver.View().accepted| == 0;
    while !(x.sender.closed && x.receiver.closed)
      invariant Follows(x, yes, made, brun, ls)
      invariant forall k | 0 <= k < |x.receiver.acceptedFiles| :: fresh(x.receiver.acceptedFiles[k])
      decreases 1 + 5 * Cap(Unhindered(x.c)) - |brun|, Waste(x)
    {
      var ok;
      ok, brun, ls := Onward(x, yes, made, brun, ls);
      if !ok {
        return true;
      }
    }
    EndIsUnhindered(x.c, x.cipher, brun, ls, yes, made);
    panicked := false;
  }
}
