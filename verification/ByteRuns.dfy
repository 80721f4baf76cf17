/**
 * The system as it runs on two byte streams: packets are framed and sealed when sent, found in the stream, opened
 * with the reader's own key and decoded when read.  It refines the message system step for step, so everything
 * proved of runs of messages holds of runs of bytes, and no reachable step fails to decrypt or decode.
 */
module ByteRuns {
  import opened Wrappers
  import opened Bytes
  import opened Ciphers
  import opened Fsys
  import opened Protocol
  import opened Wire
  import opened Invariant
  import opened Steps
  import opened Runs
  import opened Links
  import Paths

  datatype ByteSystem = ByteSystem(sender: Sender, receiver: Receiver, s2r: Bytes, r2s: Bytes)

  datatype ByteResult = Blocked | Crashed | Moved(next: ByteSystem)

  /** A wire: how each node writes a message under its key and reads the next one from its stream. */
  datatype Carrier = Carrier(
    write: (Option<Bytes>, Msg) -> Option<Bytes>,
    atSender: (Option<Bytes>, Bytes) -> Reading,
    atReceiver: (Option<Bytes>, Bytes) -> Reading,
    fits: Msg -> bool)

  /** The wire the program uses. */
  function WireCarrier(cipher: Cipher): Carrier {
    Carrier((key, m) => WriteMsg(cipher, key, m),
            (key, s) => AtSender(cipher, key, s),
            (key, s) => AtReceiver(cipher, key, s),
            m => Fits(m))
  }

  function WriteAll(w: Carrier, key: Option<Bytes>, out: seq<Msg>): Option<Bytes> {
    if out == [] then Some([])
    else
      var b :- w.write(key, out[0]);
      var rest :- WriteAll(w, key, out[1..]);
      Some(b + rest)
  }

  function SenderByteTurn(c: Setting, w: Carrier, b: ByteSystem): ByteResult {
    match w.atSender(Some(c.key), b.r2s)
    case NoPacket => Blocked
    case BadPacket => Crashed
    case Incoming(m, rest) =>
      var o := SenderPass(c, b.sender, m);
      if o.SenderPanic? then Crashed
      else
        var written := WriteAll(w, Some(c.key), o.out);
        if written.None? then Crashed
        else Moved(b.(sender := o.s, r2s := rest, s2r := b.s2r + written.value))
  }

  function ReceiverByteTurn(c: Setting, w: Carrier, b: ByteSystem): ByteResult {
    match w.atReceiver(b.receiver.key, b.s2r)
    case NoPacket => Blocked
    case BadPacket => Crashed
    case Incoming(m, rest) =>
      if CannotStore(c, b.receiver, m) then Crashed
      else
      var (r, out) := ReceiverReact(c, b.receiver.(waiting := false), m);
      var written := WriteAll(w, b.receiver.key, out);
      if written.None? then Crashed
      else Moved(b.(receiver := r, s2r := rest, r2s := b.r2s + written.value))
  }

  /** Each node opens and seals with the key it has itself. */
  function ByteStep(c: Setting, w: Carrier, b: ByteSystem, l: Label): ByteResult
    requires !c.isDir ==> |c.served| > 0
  {
    match l
    case SendOffer =>
      if b.sender.offered then Blocked
      else
        var written := w.write(Some(c.key), TransferOffer(OfferOf(c)));
        if written.None? then Crashed
        else Moved(b.(sender := b.sender.(offered := true), s2r := b.s2r + written.value))
    case SenderTurn =>
      if b.sender.closed then Blocked
      else if b.sender.stopped then
        var written := w.write(Some(c.key), Bye);
        if written.None? then Crashed
        else Moved(b.(sender := b.sender.(closed := true), s2r := b.s2r + written.value))
      else SenderByteTurn(c, w, b)
    case ReceiverTop =>
      if b.receiver.closed || b.receiver.waiting then Blocked
      else if b.receiver.stopped then
        var written := w.write(b.receiver.key, Bye);
        if written.None? then Crashed
        else Moved(b.(receiver := b.receiver.(closed := true), r2s := b.r2s + written.value))
      else Moved(b.(receiver := b.receiver.(waiting := true)))
    case ReceiverTurn =>
      if b.receiver.closed || !b.receiver.waiting then Blocked
      else ReceiverByteTurn(c, w, b)
    case Answer(yes, made) =>
      if b.receiver.closed || b.receiver.offer.None? then Blocked
      else
        var (r, m) := ReceiverAnswer(b.receiver, yes, made);
        var written := w.write(b.receiver.key, m);
        if written.None? then Crashed
        else Moved(b.(receiver := r, r2s := b.r2s + written.value))
  }

  function ByteInitial(c: Setting, w: Carrier): ByteSystem {
    ByteSystem(InitialSender(), InitialReceiver(c), MsgBytes(w, c.key, EncrKey(c.key)), [])
  }

  // ------------------------------------------------------ messages in a stream

  function MsgBytes(w: Carrier, key: Bytes, m: Msg): Bytes {
    var b := w.write(Some(key), m);
    if b.Some? then b.value else []
  }

  /** The bytes a queue of messages stands for. */
  function StreamOf(w: Carrier, key: Bytes, q: seq<Msg>): Bytes {
    if q == [] then [] else MsgBytes(w, key, q[0]) + StreamOf(w, key, q[1..])
  }

  lemma {:induction false} StreamOfAppend(w: Carrier, key: Bytes, q: seq<Msg>, m: Msg)
    ensures StreamOf(w, key, q + [m]) == StreamOf(w, key, q) + MsgBytes(w, key, m)
  {
    if q == [] {
      assert StreamOf(w, key, [m]) == MsgBytes(w, key, m) + [];
    } else {
      StreamOfAppend(w, key, q[1..], m);
      assert (q + [m])[0] == q[0] && (q + [m])[1..] == q[1..] + [m];
    }
  }

  /** What the refinement needs of a wire: what one node writes the other reads, whole and in order. */
  ghost predicate Faithful(c: Setting, w: Carrier) {
    && (forall key, m :: w.fits(m) && !m.EncrKey? && (key == Some(c.key) || Bare(m)) ==>
          w.write(key, m) == Some(MsgBytes(w, c.key, m)))
    && (forall m, rest :: w.fits(m) && ToSender(m) ==>
          w.atSender(Some(c.key), MsgBytes(w, c.key, m) + rest) == Incoming(m, rest))
    && (forall m, rest :: w.fits(m) && ToReceiver(m) && !m.EncrKey? ==>
          w.atReceiver(Some(c.key), MsgBytes(w, c.key, m) + rest) == Incoming(m, rest))
    && (forall rest :: w.atReceiver(None, MsgBytes(w, c.key, EncrKey(c.key)) + rest) == Incoming(EncrKey(c.key), rest))
    && (forall key :: w.atSender(key, []) == NoPacket && w.atReceiver(key, []) == NoPacket)
  }

  /** Everything a run can send fits. */
  ghost predicate Carries(c: Setting, w: Carrier)
    requires !c.isDir ==> |c.served| > 0
  {
    && w.fits(Ready) && w.fits(Accept) && w.fits(Reject) && w.fits(Done) && w.fits(Bye)
    && w.fits(TransferOffer(OfferOf(c)))
    && (forall i | 0 <= i < |c.served| :: w.fits(FileMsg(Meta(Prepared(c, i)))))
    && (forall i | 0 <= i < |c.links| :: w.fits(SymlinkMsg(c.links[i])))
    && (forall i, data | 0 <= i < |c.served| && |data| <= CHUNK :: w.fits(FileBytes(i, data)))
    && (forall i | 0 <= i < |c.served| :: w.fits(EndFile(i)))
    && (forall i | 0 <= i < |c.served| :: w.fits(AlreadyHave(i)))
  }

  /** The key is an AES key, and the names and paths served leave room for their packets. */
  ghost predicate Transmissible(c: Setting)
    requires !c.isDir ==> |c.served| > 0
  {
    && KeyOk(c.key)
    && Fits(TransferOffer(OfferOf(c)))
    && (forall i | 0 <= i < |c.served| :: Fits(FileMsg(Meta(Prepared(c, i)))))
    && (forall i | 0 <= i < |c.links| :: Fits(SymlinkMsg(c.links[i])))
  }

  lemma FileBytesFit(i: nat, data: Bytes)
    requires i < U64_LIMIT && |data| <= CHUNK
    ensures Fits(FileBytes(i, data)) && Fits(EndFile(i)) && Fits(AlreadyHave(i))
  {
  }

  lemma SmallMessagesFit()
    ensures Fits(Ready) && Fits(Accept) && Fits(Reject) && Fits(Done) && Fits(Bye)
  {
  }

  lemma WireCarries(c: Setting, cipher: Cipher)
    requires Servable(c) && Transmissible(c)
    ensures Carries(c, WireCarrier(cipher))
  {
    var w := WireCarrier(cipher);
    SmallMessagesFit();
    forall i: nat, data: Bytes | i < |c.served| && |data| <= CHUNK
      ensures w.fits(FileBytes(i, data)) && w.fits(EndFile(i)) && w.fits(AlreadyHave(i))
    {
      FileBytesFit(i, data);
    }
    forall i | 0 <= i < |c.served|
      ensures w.fits(EndFile(i)) && w.fits(AlreadyHave(i))
    {
      FileBytesFit(i, []);
    }
  }

  lemma WireWrites(c: Setting, cipher: Cipher, key: Option<Bytes>, m: Msg)
    requires Sound(cipher) && KeyOk(c.key) && Fits(m) && !m.EncrKey? && (key == Some(c.key) || Bare(m))
    ensures WriteMsg(cipher, key, m).Some? && WriteMsg(cipher, key, m) == WriteMsg(cipher, Some(c.key), m)
  {
    BodyComesBack(cipher, c.key, m);
    if Bare(m) {
      BareWritten(cipher, key, Some(c.key), m);
    }
  }

  /** Framing, sealing and the codecs together are a faithful wire. */
  lemma WireIsFaithful(c: Setting, cipher: Cipher)
    requires Sound(cipher) && KeyOk(c.key)
    ensures Faithful(c, WireCarrier(cipher))
  {
    var w := WireCarrier(cipher);
    forall key: Option<Bytes>, m: Msg | w.fits(m) && !m.EncrKey? && (key == Some(c.key) || Bare(m))
      ensures w.write(key, m) == Some(MsgBytes(w, c.key, m))
    {
      WireWrites(c, cipher, key, m);
    }
    forall m: Msg, rest: Bytes | w.fits(m) && ToSender(m)
      ensures w.atSender(Some(c.key), MsgBytes(w, c.key, m) + rest) == Incoming(m, rest)
    {
      SenderReadsWritten(cipher, c.key, m, rest);
    }
    forall m: Msg, rest: Bytes | w.fits(m) && ToReceiver(m) && !m.EncrKey?
      ensures w.atReceiver(Some(c.key), MsgBytes(w, c.key, m) + rest) == Incoming(m, rest)
    {
      ReceiverReadsWritten(cipher, c.key, m, rest);
    }
    forall rest: Bytes
      ensures w.atReceiver(None, MsgBytes(w, c.key, EncrKey(c.key)) + rest) == Incoming(EncrKey(c.key), rest)
    {
      KeyReadsWritten(cipher, c.key, rest);
    }
  }

  // ------------------------------------------- what is in flight can be read

  /** Each queue holds only messages its reader understands and that fit; ENCRKEY is the first the receiver reads. */
  ghost predicate InFlight(c: Setting, w: Carrier, t: System) {
    && (t.s2r != [] ==> (ToReceiver(t.s2r[0]) && w.fits(t.s2r[0])) || t.s2r[0] == EncrKey(c.key))
    && (t.r2s != [] ==> ToSender(t.r2s[0]) && w.fits(t.r2s[0]))
    && (t.s2r != [] ==> (t.receiver.key.None? <==> t.s2r[0].EncrKey?))
    && (t.receiver.key.None? || t.receiver.key == Some(c.key))
  }

  lemma MovingFits(c: Setting, w: Carrier, t: System)
    requires Servable(c) && Carries(c, w) && Moving(c, t)
    ensures InFlight(c, w, t)
  {
    if |t.s2r| == 1 {
      var m := t.s2r[0];
      match m {
        case FileMsg(_) => assert m == FileMsg(Meta(Prepared(c, t.sender.curId)));
        case FileBytes(id, data) => assert |data| <= CHUNK;
        case EndFile(id) => assert id < |c.served|;
        case SymlinkMsg(_) => assert m == SymlinkMsg(c.links[t.sender.linkIdx - 1]);
      }
    }
  }

  lemma AllFit(c: Setting, w: Carrier, t: System)
    requires Servable(c) && Carries(c, w) && Inv(c, t)
    ensures InFlight(c, w, t)
  {
    if Moving(c, t) {
      MovingFits(c, w, t);
    }
  }

  // --------------------------------------------------------------- refinement

  /** Same nodes, and streams that hold exactly the messages in the queues. */
  ghost predicate Matches(c: Setting, w: Carrier, b: ByteSystem, t: System) {
    && b.sender == t.sender && b.receiver == t.receiver
    && b.s2r == StreamOf(w, c.key, t.s2r) && b.r2s == StreamOf(w, c.key, t.r2s)
  }

  /** The byte step does what the message step does: blocked together, moved together. */
  ghost predicate Refines(c: Setting, w: Carrier, b: ByteSystem, t: System, l: Label)
    requires Servable(c)
  {
    var bs, ts := ByteStep(c, w, b, l), Step(c, t, l);
    && (bs.Blocked? <==> ts.Disabled?) && (bs.Moved? <==> ts.Took?)
    && (bs.Moved? ==> Matches(c, w, bs.next, ts.next))
  }

  lemma OfferRefines(c: Setting, w: Carrier, b: ByteSystem, t: System)
    requires Servable(c) && Faithful(c, w) && Carries(c, w) && Matches(c, w, b, t)
    ensures Refines(c, w, b, t, SendOffer)
  {
    StreamOfAppend(w, c.key, t.s2r, TransferOffer(OfferOf(c)));
  }

  lemma TopRefines(c: Setting, w: Carrier, b: ByteSystem, t: System)
    requires Servable(c) && Faithful(c, w) && Carries(c, w) && Matches(c, w, b, t)
    ensures Refines(c, w, b, t, ReceiverTop)
  {
    StreamOfAppend(w, c.key, t.r2s, Bye);
  }

  lemma AnswerRefines(c: Setting, w: Carrier, b: ByteSystem, t: System, yes: bool, made: bool)
    requires Servable(c) && Faithful(c, w) && Carries(c, w) && Matches(c, w, b, t)
    ensures Refines(c, w, b, t, Answer(yes, made))
  {
    StreamOfAppend(w, c.key, t.r2s, if yes then Accept else Reject);
  }

  lemma DisconnectRefines(c: Setting, w: Carrier, b: ByteSystem, t: System)
    requires Servable(c) && Faithful(c, w) && Carries(c, w) && Matches(c, w, b, t)
    requires t.sender.closed || t.sender.stopped
    ensures Refines(c, w, b, t, SenderTurn)
  {
    StreamOfAppend(w, c.key, t.s2r, Bye);
  }

  /** The transfer section never sends the key. */
  lemma NeverTheKey(c: Setting, s: Sender, m: Msg)
    requires SenderPass(c, s, m).SenderNext?
    ensures forall o | o in SenderPass(c, s, m).out :: !o.EncrKey?
  {
  }

  lemma WriteAllOne(w: Carrier, key: Option<Bytes>, m: Msg)
    requires w.write(key, m).Some?
    ensures WriteAll(w, key, [m]) == w.write(key, m)
  {
    assert w.write(key, m).value + [] == w.write(key, m).value;
  }

  /** What a sender that has a packet to read sends is one message, and it fits. */
  lemma PassFits(c: Setting, w: Carrier, t: System) returns (s: Sender, m: Msg)
    requires Servable(c) && Carries(c, w) && Inv(c, t)
    requires !t.sender.closed && !t.sender.stopped && t.r2s != []
    ensures SenderPass(c, t.sender, t.r2s[0]) == SenderNext(s, [m])
    ensures w.fits(m) && !m.EncrKey?
  {
    StepKeeps(c, t, SenderTurn);
    SenderTurnSends(c, t);
    var o := SenderPass(c, t.sender, t.r2s[0]);
    s, m := o.s, o.out[0];
    assert o.out == [m];
    NeverTheKey(c, t.sender, t.r2s[0]);
    var t' := Step(c, t, SenderTurn).next;
    AllFit(c, w, t');
    if m != Done {
      assert t.s2r == [] && t'.s2r == [m];
    }
  }

  lemma SenderTurnRefines(c: Setting, w: Carrier, b: ByteSystem, t: System)
    requires Servable(c) && Faithful(c, w) && Carries(c, w) && Matches(c, w, b, t) && Inv(c, t)
    requires !t.sender.closed && !t.sender.stopped
    ensures Refines(c, w, b, t, SenderTurn)
  {
    AllFit(c, w, t);
    if t.r2s != [] {
      var s, m := PassFits(c, w, t);
      WriteAllOne(w, Some(c.key), m);
      StreamOfAppend(w, c.key, t.s2r, m);
    }
  }

  lemma ReceiverSends(c: Setting, r: Receiver, m: Msg)
    ensures var out := ReceiverReact(c, r, m).1;
            out == [] || out == [Ready] || (m.FileMsg? && out == [AlreadyHave(m.meta.id)])
  {
  }

  /** The receiver's answer fits; it only needs the key where it has it. */
  lemma ReplyFits(c: Setting, w: Carrier, t: System)
    requires Servable(c) && Carries(c, w) && Inv(c, t)
    requires !t.receiver.closed && t.receiver.waiting && t.s2r != []
    ensures var out := ReceiverReact(c, t.receiver.(waiting := false), t.s2r[0]).1;
            out == [] || (out == [out[0]] && w.fits(out[0]) && !out[0].EncrKey?
                          && (t.receiver.key == Some(c.key) || Bare(out[0])))
  {
    ReceiverSends(c, t.receiver.(waiting := false), t.s2r[0]);
    if t.s2r[0].FileMsg? {
      assert Moving(c, t);
      assert t.s2r[0].meta.id == t.sender.curId;
    }
  }

  lemma ReceiverTurnRefines(c: Setting, w: Carrier, b: ByteSystem, t: System)
    requires Servable(c) && Faithful(c, w) && Carries(c, w) && Matches(c, w, b, t) && Inv(c, t)
    ensures Refines(c, w, b, t, ReceiverTurn)
  {
    if !t.receiver.closed && t.receiver.waiting {
      AllFit(c, w, t);
      if t.s2r != [] {
        ReplyFits(c, w, t);
        var out := ReceiverReact(c, t.receiver.(waiting := false), t.s2r[0]).1;
        if out == [] {
          assert t.r2s + [] == t.r2s && b.r2s + [] == b.r2s;
        } else {
          WriteAllOne(w, t.receiver.key, out[0]);
          StreamOfAppend(w, c.key, t.r2s, out[0]);
        }
      }
    }
  }

  /** Step for step the byte system does what the message system does, and never crashes. */
  lemma ByteStepRefines(c: Setting, w: Carrier, b: ByteSystem, t: System, l: Label)
    requires Servable(c) && Faithful(c, w) && Carries(c, w) && Matches(c, w, b, t) && Inv(c, t)
    ensures Refines(c, w, b, t, l) && !ByteStep(c, w, b, l).Crashed?
  {
    match l {
      case SendOffer => OfferRefines(c, w, b, t);
      case SenderTurn =>
        if t.sender.closed || t.sender.stopped {
          DisconnectRefines(c, w, b, t);
        } else {
          SenderTurnRefines(c, w, b, t);
        }
      case ReceiverTop => TopRefines(c, w, b, t);
      case ReceiverTurn => ReceiverTurnRefines(c, w, b, t);
      case Answer(yes, made) => AnswerRefines(c, w, b, t, yes, made);
    }
    StepKeeps(c, t, l);
  }

  // -------------------------------------------------------------- byte runs

  ghost predicate ByteNext(c: Setting, w: Carrier, b: ByteSystem, b': ByteSystem)
    requires Servable(c)
  {
    exists l :: ByteStep(c, w, b, l) == Moved(b')
  }

  ghost predicate IsByteRun(c: Setting, w: Carrier, run: seq<ByteSystem>)
    requires Servable(c)
  {
    && run != [] && run[0] == ByteInitial(c, w)
    && forall k | 0 <= k < |run| - 1 :: ByteNext(c, w, run[k], run[k + 1])
  }

  /** A byte run and the steps it took. */
  ghost predicate IsByteRunBy(c: Setting, w: Carrier, brun: seq<ByteSystem>, ls: seq<Label>)
    requires !c.isDir ==> |c.served| > 0
  {
    && |brun| == |ls| + 1 && brun[0] == ByteInitial(c, w)
    && forall k | 0 <= k < |ls| :: ByteTaken(c, w, brun, ls, k)
  }

  ghost predicate ByteTaken(c: Setting, w: Carrier, brun: seq<ByteSystem>, ls: seq<Label>, k: nat)
    requires !c.isDir ==> |c.served| > 0
    requires k < |ls| && |brun| == |ls| + 1
  {
    ByteStep(c, w, brun[k], ls[k]) == Moved(brun[k + 1])
  }

  lemma ShorterBytes(c: Setting, w: Carrier, brun: seq<ByteSystem>, ls: seq<Label>)
    requires !c.isDir ==> |c.served| > 0
    requires IsByteRunBy(c, w, brun, ls) && ls != []
    ensures var n := |ls| - 1; IsByteRunBy(c, w, brun[..n + 1], ls[..n]) && ByteTaken(c, w, brun, ls, n)
  {
    var n := |ls| - 1;
    var earlier, labels := brun[..n + 1], ls[..n];
    forall k | 0 <= k < |labels|
      ensures ByteTaken(c, w, earlier, labels, k)
    {
      assert ByteTaken(c, w, brun, ls, k);
    }
  }

  lemma LongerBytes(c: Setting, w: Carrier, brun: seq<ByteSystem>, ls: seq<Label>, l: Label, b: ByteSystem)
    requires !c.isDir ==> |c.served| > 0
    requires IsByteRunBy(c, w, brun, ls) && ByteStep(c, w, brun[|brun| - 1], l) == Moved(b)
    ensures IsByteRunBy(c, w, brun + [b], ls + [l])
  {
    var longer, labels := brun + [b], ls + [l];
    forall k | 0 <= k < |labels|
      ensures ByteTaken(c, w, longer, labels, k)
    {
      if k < |ls| {
        assert ByteTaken(c, w, brun, ls, k);
      }
    }
  }

  lemma BytesByIsRun(c: Setting, w: Carrier, brun: seq<ByteSystem>, ls: seq<Label>)
    requires Servable(c) && IsByteRunBy(c, w, brun, ls)
    ensures IsByteRun(c, w, brun)
  {
    forall k | 0 <= k < |brun| - 1
      ensures ByteNext(c, w, brun[k], brun[k + 1])
    {
      assert ByteTaken(c, w, brun, ls, k);
    }
  }

  /** Every byte run has taken some steps. */
  lemma {:induction false} StepsOf(c: Setting, w: Carrier, brun: seq<ByteSystem>) returns (ls: seq<Label>)
    requires Servable(c) && IsByteRun(c, w, brun)
    ensures IsByteRunBy(c, w, brun, ls)
    decreases |brun|
  {
    if |brun| == 1 {
      ls := [];
    } else {
      var n := |brun| - 1;
      var earlier := brun[..n];
      forall k | 0 <= k < |earlier| - 1
        ensures ByteNext(c, w, earlier[k], earlier[k + 1])
      {
        assert ByteNext(c, w, brun[k], brun[k + 1]);
      }
      ls := StepsOf(c, w, earlier);
      assert ByteNext(c, w, brun[n - 1], brun[n]);
      var l :| ByteStep(c, w, brun[n - 1], l) == Moved(brun[n]);
      LongerBytes(c, w, earlier, ls, l, brun[n]);
      assert earlier + [brun[n]] == brun;
      ls := ls + [l];
    }
  }

  lemma LongerBy(c: Setting, run: seq<System>, ls: seq<Label>, l: Label, t: System)
    requires !c.isDir ==> |c.served| > 0
    requires IsRunBy(c, run, ls) && Step(c, Last(run), l) == Took(t)
    ensures IsRunBy(c, run + [t], ls + [l])
  {
    var longer, labels := run + [t], ls + [l];
    forall k | 0 <= k < |labels|
      ensures StepTaken(c, longer, labels, k)
    {
      if k < |ls| {
        assert StepTaken(c, run, ls, k);
      }
    }
  }

  /** Every byte run is a run of messages by the same steps, ending in the same nodes. */
  /** One step more of a byte run is one step more of its run of messages. */
  lemma StepRefined(c: Setting, w: Carrier, b: ByteSystem, b': ByteSystem, run: seq<System>, ls: seq<Label>, l: Label) returns (t': System)
    requires Servable(c) && Faithful(c, w) && Carries(c, w) && IsRunBy(c, run, ls)
    requires Matches(c, w, b, Last(run)) && ByteStep(c, w, b, l) == Moved(b')
    ensures IsRunBy(c, run + [t'], ls + [l]) && Matches(c, w, b', t')
  {
    ByIsRun(c, run, ls);
    RunKeeps(c, run);
    ByteStepRefines(c, w, b, Last(run), l);
    t' := Step(c, Last(run), l).next;
    LongerBy(c, run, ls, l, t');
  }

  lemma {:induction false} RunRefines(c: Setting, w: Carrier, brun: seq<ByteSystem>, ls: seq<Label>) returns (run: seq<System>)
    requires Servable(c) && Faithful(c, w) && Carries(c, w) && IsByteRunBy(c, w, brun, ls)
    ensures IsRunBy(c, run, ls) && Matches(c, w, brun[|brun| - 1], Last(run))
    decreases |ls|
  {
    if ls == [] {
      run := [Initial(c)];
      assert StreamOf(w, c.key, [EncrKey(c.key)]) == MsgBytes(w, c.key, EncrKey(c.key)) + [];
    } else {
      var n := |ls| - 1;
      ShorterBytes(c, w, brun, ls);
      run := RunRefines(c, w, brun[..n + 1], ls[..n]);
      var t' := StepRefined(c, w, brun[n], brun[n + 1], run, ls[..n], ls[n]);
      assert ls[..n] + [ls[n]] == ls;
      run := run + [t'];
    }
  }

  /** An accepted run that has sent DONE has done its job. */
  ghost predicate JobDone(c: Setting, s: Sender, r: Receiver) {
    && (forall i | 0 <= i < |c.served| :: Delivered(c, r.downloads, r.store, i))
    && (forall p :: !Touched(c, r.downloads, |c.served|, p) ==> SameAt(c.before, r.store, p))
    && r.links == LinksMade(c, r.downloads, r.store, |c.links|)
    && s.sentBytes == c.total == r.received == r.total
  }

  lemma CarrierDelivery(c: Setting, w: Carrier, brun: seq<ByteSystem>)
    requires Servable(c) && Faithful(c, w) && Carries(c, w) && IsByteRun(c, w, brun)
    ensures var b := brun[|brun| - 1];
            && (forall l :: !ByteStep(c, w, b, l).Crashed?)
            && |brun| <= 1 + 5 * Cap(c)
            && ((b.sender.closed && b.receiver.closed) || exists l :: ByteStep(c, w, b, l).Moved?)
            && (b.sender.allowed && b.sender.stopped ==> JobDone(c, b.sender, b.receiver))
  {
    var ls := StepsOf(c, w, brun);
    var run := RunRefines(c, w, brun, ls);
    ByIsRun(c, run, ls);
    var b, t := brun[|brun| - 1], Last(run);
    RunKeeps(c, run);
    forall l
      ensures !ByteStep(c, w, b, l).Crashed?
    {
      ByteStepRefines(c, w, b, t, l);
    }
    RunsTerminate(c, run);
    if !Final(t) {
      Progress(c, run);
      ByteStepRefines(c, w, b, t, Choice(t));
      assert ByteStep(c, w, b, Choice(t)).Moved?;
    }
    if t.sender.allowed && t.sender.stopped {
      Delivery(c, run);
      LinkDelivery(c, run);
      ByteConservation(c, run);
    }
  }

  /**
   * The end-to-end theorem, on bytes: whatever the interleaving, the user's answer and the receiver's files, no step
   * of a run crashes, runs end, and an unfinished run can go on; and once an accepted run has sent DONE, every file
   * offered is at its destination, nothing else has changed, and both byte counters equal the size announced.
   */
  lemma ByteDelivery(c: Setting, cipher: Cipher, brun: seq<ByteSystem>)
    requires Servable(c) && Transmissible(c) && Sound(cipher) && IsByteRun(c, WireCarrier(cipher), brun)
    ensures var w, b := WireCarrier(cipher), brun[|brun| - 1];
            && (forall l :: !ByteStep(c, w, b, l).Crashed?)
            && |brun| <= 1 + 5 * Cap(c)
            && ((b.sender.closed && b.receiver.closed) || exists l :: ByteStep(c, w, b, l).Moved?)
            && (b.sender.allowed && b.sender.stopped ==> JobDone(c, b.sender, b.receiver))
  {
    var w := WireCarrier(cipher);
    WireCarries(c, cipher);
    WireIsFaithful(c, cipher);
    CarrierDelivery(c, w, brun);
  }

  /**
   * How a run on bytes that has ended went, by the answer the user gave: yes, and the job is done, in the download
   * folder or in the directory offered if that could be made; no, and the receiver has what it had.
   */
  lemma ByteOutcome(c: Setting, cipher: Cipher, brun: seq<ByteSystem>, ls: seq<Label>, yes: bool, made: bool)
    requires Servable(c) && Transmissible(c) && Sound(cipher) && IsByteRunBy(c, WireCarrier(cipher), brun, ls)
    requires brun[|brun| - 1].sender.closed && brun[|brun| - 1].receiver.closed
    requires forall k | 0 <= k < |ls| && ls[k].Answer? :: ls[k] == Answer(yes, made)
    ensures exists k :: 0 <= k < |ls| && ls[k].Answer?
    ensures var b := brun[|brun| - 1];
            && b.receiver.downloads == (if yes && made && c.isDir then Paths.Join(c.downloads, c.dirName) else c.downloads)
            && if yes then JobDone(c, b.sender, b.receiver) else b.receiver.store == c.before && b.receiver.links == map[]
  {
    var w, b := WireCarrier(cipher), brun[|brun| - 1];
    WireCarries(c, cipher);
    WireIsFaithful(c, cipher);
    BytesByIsRun(c, w, brun, ls);
    CarrierDelivery(c, w, brun);
    var run := RunRefines(c, w, brun, ls);
    ByIsRun(c, run, ls);
    AnswerDecides(c, run, ls);
    RunStance(c, run, ls);
    RunFolder(c, run, ls);
    RunKeeps(c, run);
    OneFolder(c, ls, yes, made);
    if !b.sender.allowed {
      RejectedRun(c, run);
    }
  }
}
