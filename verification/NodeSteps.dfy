/**
 * One pass of a node's loop, as the class runs it on a packet from its pipe, is the step the byte system takes.
 * Here are the facts about values; Sessions puts them to use on the objects.
 */
module NodeSteps {
  import opened Wrappers
  import opened Bytes
  import opened Ciphers
  import opened Packets
  import opened Protocol
  import opened Codec
  import opened Recv
  import opened Wire
  import opened Invariant
  import opened Runs
  import opened ByteRuns
  import opened Hindrances
  import opened ByteFates
  import opened Directions

  // ------------------------------------------------------------- one message

  lemma TransferSendsOne(c: Setting, s: Sender)
    requires SenderTransfer(c, s).SenderNext?
    ensures |SenderTransfer(c, s).out| <= 1
  {
    var i := IndexOf(s.files, s.curId);
    if i < |s.files| && s.allowed && s.inTransfer && s.canSend {
      CutSendsOne(s, i, NextPiece(s.files[i], c.disk, CHUNK));
    }
  }

  lemma CutSendsOne(s: Sender, i: nat, piece: Piece)
    requires i < |s.files| && AfterCut(s, i, piece).SenderNext?
    ensures |AfterCut(s, i, piece).out| <= 1
  {
  }

  /** What a class writes for the messages of one pass, at most one, is what the wire writes for all of them. */
  lemma OutIsAll(cipher: Cipher, key: Option<Bytes>, out: seq<Msg>)
    requires |out| <= 1
    ensures WriteAll(WireCarrier(cipher), key, out) == OneWritten(cipher, key, out)
  {
    if out != [] {
      assert out == [out[0]];
      if WriteMsg(cipher, key, out[0]).Some? {
        WriteAllOne(WireCarrier(cipher), key, out[0]);
      }
    }
  }

  // ---------------------------------------------------------------- the turns

  lemma SenderReadsFirst(cipher: Cipher, key: Option<Bytes>, f: Frame, rest: Bytes)
    requires Whole(f)
    ensures AtSender(cipher, key, Framed(f) + rest)
         == match ForSender(cipher, key, f) case None => BadPacket case Some(m) => Incoming(m, rest)
  {
    NextOfFramed(f, rest);
  }

  lemma ReceiverReadsFirst(cipher: Cipher, key: Option<Bytes>, f: Frame, rest: Bytes)
    requires Whole(f)
    ensures AtReceiver(cipher, key, Framed(f) + rest)
         == match ForReceiver(cipher, key, f) case None => BadPacket case Some(m) => Incoming(m, rest)
  {
    NextOfFramed(f, rest);
  }

  /** SenderNode.Iterate's contract, on values. */
  predicate SenderDid(c: Setting, cipher: Cipher, s: Sender, f: Frame, ok: bool, s': Sender, written: Bytes) {
    match ForSender(cipher, Some(c.key), f)
    case None => !ok
    case Some(m) =>
      var o := SenderPass(c, s, m);
      var w := if o.SenderNext? then OneWritten(cipher, Some(c.key), o.out) else None;
      (ok <==> w.Some?) && (ok ==> s' == o.s && written == w.value)
  }

  /** What Iterate does with the first packet of the stream is exactly the byte system's SenderTurn. */
  lemma SenderTurnIsStep(c: Setting, cipher: Cipher, b: ByteSystem, f: Frame, rest: Bytes, ok: bool, s': Sender, written: Bytes)
    requires !c.isDir ==> |c.served| > 0
    requires !b.sender.closed && !b.sender.stopped && Whole(f) && b.r2s == Framed(f) + rest
    requires SenderDid(c, cipher, b.sender, f, ok, s', written)
    ensures ByteStep(c, WireCarrier(cipher), b, SenderTurn)
         == if ok then Moved(b.(sender := s', r2s := rest, s2r := b.s2r + written)) else Crashed
  {
    SenderReadsFirst(cipher, Some(c.key), f, rest);
    match ForSender(cipher, Some(c.key), f) {
      case None =>
      case Some(m) =>
        if SenderPass(c, b.sender, m).SenderNext? {
          TransferSendsOne(c, SenderReact(c, b.sender, m));
          OutIsAll(cipher, Some(c.key), SenderPass(c, b.sender, m).out);
        }
    }
  }

  /** ReceiverNode.Iterate's contract, on values. */
  predicate ReceiverDid(c: Setting, cipher: Cipher, r: Receiver, f: Frame, ok: bool, r': Receiver, written: Bytes) {
    match ForReceiver(cipher, r.key, f)
    case None => !ok
    case Some(m) =>
      if CannotStore(c, r, m) then !ok else
      var (next, out) := ReceiverReact(c, r.(waiting := false), m);
      var w := OneWritten(cipher, r.key, out);
      (ok <==> w.Some?) && (ok ==> r' == next && written == w.value)
  }

  lemma ReceiverTurnIsStep(c: Setting, cipher: Cipher, b: ByteSystem, f: Frame, rest: Bytes, ok: bool, r': Receiver, written: Bytes)
    requires !c.isDir ==> |c.served| > 0
    requires !b.receiver.closed && b.receiver.waiting && Whole(f) && b.s2r == Framed(f) + rest
    requires ReceiverDid(c, cipher, b.receiver, f, ok, r', written)
    ensures ByteStep(c, WireCarrier(cipher), b, ReceiverTurn)
         == if ok then Moved(b.(receiver := r', s2r := rest, r2s := b.r2s + written)) else Crashed
  {
    ReceiverReadsFirst(cipher, b.receiver.key, f, rest);
    match ForReceiver(cipher, b.receiver.key, f) {
      case None =>
      case Some(m) =>
        ReceiverSends(c, b.receiver.(waiting := false), m);
        OutIsAll(cipher, b.receiver.key, ReceiverReact(c, b.receiver.(waiting := false), m).1);
    }
  }

  /** The other steps: what the class writes is what the byte system writes. */
  lemma OfferIsStep(c: Setting, cipher: Cipher, b: ByteSystem)
    requires !c.isDir ==> |c.served| > 0
    requires !b.sender.offered && WriteMsg(cipher, Some(c.key), TransferOffer(OfferOf(c))).Some?
    ensures ByteStep(c, WireCarrier(cipher), b, SendOffer)
         == Moved(b.(sender := b.sender.(offered := true),
                     s2r := b.s2r + WriteMsg(cipher, Some(c.key), TransferOffer(OfferOf(c))).value))
  {
  }

  lemma LeavingIsStep(c: Setting, cipher: Cipher, b: ByteSystem)
    requires !c.isDir ==> |c.served| > 0
    requires !b.sender.closed && b.sender.stopped
    ensures ByteStep(c, WireCarrier(cipher), b, SenderTurn)
         == Moved(b.(sender := b.sender.(closed := true), s2r := b.s2r + BytesOf(Frame(H_BYE, []))))
  {
    ByeIsWritten(cipher, Some(c.key));
  }

  lemma TopIsStep(c: Setting, cipher: Cipher, b: ByteSystem)
    requires !c.isDir ==> |c.served| > 0
    requires !b.receiver.closed && !b.receiver.waiting
    ensures ByteStep(c, WireCarrier(cipher), b, ReceiverTop)
         == Moved(if b.receiver.stopped then b.(receiver := b.receiver.(closed := true), r2s := b.r2s + BytesOf(Frame(H_BYE, [])))
                  else b.(receiver := b.receiver.(waiting := true)))
  {
    ByeIsWritten(cipher, b.receiver.key);
  }

  lemma AnswerIsStep(c: Setting, cipher: Cipher, b: ByteSystem, yes: bool, made: bool)
    requires !c.isDir ==> |c.served| > 0
    requires !b.receiver.closed && b.receiver.offer.Some?
    ensures var (r, m) := ReceiverAnswer(b.receiver, yes, made);
            WriteMsg(cipher, b.receiver.key, m).Some? ==>
              ByteStep(c, WireCarrier(cipher), b, Answer(yes, made))
              == Moved(b.(receiver := r, r2s := b.r2s + WriteMsg(cipher, b.receiver.key, m).value))
  {
  }

  /** The bare BYE! a node leaves with. */
  lemma ByeIsWritten(cipher: Cipher, key: Option<Bytes>)
    ensures WriteMsg(cipher, key, Bye) == Some(BytesOf(Frame(H_BYE, [])))
  {
  }

  // ------------------------------------------------------- reachable streams

  /** Every message under way can be sent. */
  ghost predicate QueueFits(c: Setting, q: seq<Msg>) {
    forall k | 0 <= k < |q| :: (Fits(q[k]) && !q[k].Other?) || q[k] == EncrKey(c.key)
  }

  lemma BothFit(c: Setting, a: seq<Msg>, b: seq<Msg>)
    requires QueueFits(c, a) && QueueFits(c, b)
    ensures QueueFits(c, a + b)
  {
  }

  lemma LastWordsFit(c: Setting, m: Msg, sent: bool, closed: bool)
    requires m == Done || m == Reject
    ensures QueueFits(c, (if sent then [m] else []) + ByeIf(closed))
  {
    SmallMessagesFit();
    BothFit(c, if sent then [m] else [], ByeIf(closed));
  }

  lemma HandshakeFits(c: Setting, t: System)
    requires Servable(c) && Transmissible(c) && Handshake(c, t)
    ensures QueueFits(c, t.s2r) && QueueFits(c, t.r2s) && |t.s2r| <= 2 && |t.r2s| <= 2
  {
  }

  lemma LastPhasesFit(c: Setting, t: System)
    requires Servable(c) && (Closing(c, t) || Rejecting(c, t))
    ensures QueueFits(c, t.s2r) && QueueFits(c, t.r2s) && |t.s2r| <= 2 && |t.r2s| <= 2
  {
    SmallMessagesFit();
    LastWordsFit(c, Done, !t.receiver.stopped, t.sender.closed);
    LastWordsFit(c, Done, t.sender.stopped, t.sender.closed);
    LastWordsFit(c, Reject, !t.sender.stopped, t.receiver.closed);
    LastWordsFit(c, Done, false, t.sender.closed);
  }

  lemma MovingPhaseFits(c: Setting, cipher: Cipher, t: System)
    requires Servable(c) && Transmissible(c) && Moving(c, t)
    ensures QueueFits(c, t.s2r) && QueueFits(c, t.r2s) && |t.s2r| <= 2 && |t.r2s| <= 2
  {
    var w := WireCarrier(cipher);
    WireCarries(c, cipher);
    MovingFits(c, w, t);
    InFlightFits(c, cipher, t);
  }

  lemma InFlightFits(c: Setting, cipher: Cipher, t: System)
    requires InFlight(c, WireCarrier(cipher), t) && |t.s2r| + |t.r2s| == 1
    ensures QueueFits(c, t.s2r) && QueueFits(c, t.r2s)
  {
  }

  lemma AllUnderWayFit(c: Setting, cipher: Cipher, t: System)
    requires Servable(c) && Transmissible(c) && Inv(c, t)
    ensures QueueFits(c, t.s2r) && QueueFits(c, t.r2s) && |t.s2r| <= 2 && |t.r2s| <= 2
  {
    if Moving(c, t) {
      MovingPhaseFits(c, cipher, t);
    } else if Handshake(c, t) {
      HandshakeFits(c, t);
    } else if Accepting(c, t) {
      SmallMessagesFit();
    } else {
      LastPhasesFit(c, t);
    }
  }

  lemma {:induction false} SentFrames(c: Setting, cipher: Cipher, q: seq<Msg>) returns (sent: seq<Frame>)
    requires Sound(cipher) && KeyOk(c.key) && QueueFits(c, q)
    ensures Clean(StreamOf(WireCarrier(cipher), c.key, q), sent) && |sent| == |q|
  {
    sent := [];
    if q != [] {
      var rest := SentFrames(c, cipher, q[1..]);
      var f := FrameOf(cipher, Some(c.key), q[0]).value;
      HeadersAreClean(q[0]);
      if !q[0].EncrKey? {
        BodyComesBack(cipher, c.key, q[0]);
      }
      sent := [f] + rest;
      assert sent[1..] == rest;
    }
  }

  /** The next packet the sender will read is ACCEPT. */
  predicate AcceptIsNext(cipher: Cipher, key: Bytes, s: Bytes) {
    AtSender(cipher, Some(key), s).Incoming? && AtSender(cipher, Some(key), s).m.Accept?
  }

  lemma AcceptFirst(cipher: Cipher, key: Bytes, f: Frame, rest: Bytes)
    requires Whole(f)
    ensures AcceptIsNext(cipher, key, Framed(f) + rest) <==> ForSender(cipher, Some(key), f) == Some(Accept)
  {
    SenderReadsFirst(cipher, Some(key), f, rest);
  }

  /** Behind every reachable state of the byte system there is one of the message system. */
  lemma ReachedMessages(c: Setting, cipher: Cipher, brun: seq<ByteSystem>, ls: seq<Label>) returns (t: System)
    requires Fine(c, cipher) && IsByteRunBy(c, WireCarrier(cipher), brun, ls)
    ensures var u := Unhindered(c); Servable(u) && Inv(u, t) && Matches(u, WireCarrier(cipher), brun[|brun| - 1], t)
  {
    FineWire(c, cipher);
    var run := HinderedRunRefines(c, WireCarrier(cipher), brun, ls);
    SameRun(c, run, ls);
    ByIsRun(Unhindered(c), run, ls);
    RunKeeps(Unhindered(c), run);
    t := Last(run);
  }

  /** What holds of the nodes and streams of every reachable state. */
  lemma ReachableBytes(c: Setting, cipher: Cipher, brun: seq<ByteSystem>, ls: seq<Label>)
    returns (toReceiver: seq<Frame>, toSender: seq<Frame>)
    requires Fine(c, cipher) && IsByteRunBy(c, WireCarrier(cipher), brun, ls)
    ensures var b := brun[|brun| - 1];
            && Clean(b.s2r, toReceiver) && Clean(b.r2s, toSender) && |toReceiver| <= 2 && |toSender| <= 2
            && (!b.sender.offered ==> !b.sender.allowed)
            && (b.sender.allowed && !b.sender.stopped ==> !AcceptIsNext(cipher, c.key, b.r2s))
  {
    var u, b := Unhindered(c), brun[|brun| - 1];
    FineWire(c, cipher);
    var t := ReachedMessages(c, cipher, brun, ls);
    AllUnderWayFit(u, cipher, t);
    toReceiver := SentFrames(u, cipher, t.s2r);
    toSender := SentFrames(u, cipher, t.r2s);
    if b.sender.allowed && !b.sender.stopped && t.r2s != [] {
      NoSecondAccept(u, cipher, b, t);
    }
  }

  lemma NoSecondAccept(c: Setting, cipher: Cipher, b: ByteSystem, t: System)
    requires Servable(c) && Inv(c, t) && t.sender.allowed && !t.sender.stopped && t.r2s != []
    requires Faithful(c, WireCarrier(cipher)) && Carries(c, WireCarrier(cipher)) && Matches(c, WireCarrier(cipher), b, t)
    ensures !AcceptIsNext(cipher, c.key, b.r2s)
  {
    AllFit(c, WireCarrier(cipher), t);
    assert t.r2s[0] != Accept;
    assert b.r2s == MsgBytes(WireCarrier(cipher), c.key, t.r2s[0]) + StreamOf(WireCarrier(cipher), c.key, t.r2s[1..]);
  }
}
