/** The fate of transfers on byte streams: what Hindrances proves of messages, of the system as it runs on bytes. */
module ByteFates {
  import opened Wrappers
  import opened Bytes
  import opened Ciphers
  import opened Fsys
  import opened Protocol
  import opened Wire
  import opened Invariant
  import opened Runs
  import opened Links
  import opened ByteRuns
  import opened Hindrances

  /** The next step panics over the message it reads. */
  predicate ByteFaulty(c: Setting, w: Carrier, b: ByteSystem, l: Label) {
    || (l.SenderTurn? && !b.sender.closed && !b.sender.stopped
        && w.atSender(Some(c.key), b.r2s).Incoming? && CannotPrepare(c, w.atSender(Some(c.key), b.r2s).m))
    || (l.ReceiverTurn? && !b.receiver.closed && b.receiver.waiting
        && w.atReceiver(b.receiver.key, b.s2r).Incoming? && CannotStore(c, b.receiver, w.atReceiver(b.receiver.key, b.s2r).m))
  }

  lemma SameByteStep(c: Setting, w: Carrier, b: ByteSystem, l: Label)
    requires !c.isDir ==> |c.served| > 0
    ensures ByteStep(c, w, b, l) == if ByteFaulty(c, w, b, l) then Crashed else ByteStep(Unhindered(c), w, b, l)
  {
    match l {
      case SenderTurn =>
        if !b.sender.closed && !b.sender.stopped {
          match w.atSender(Some(c.key), b.r2s) {
            case Incoming(m, rest) =>
              if !CannotPrepare(c, m) {
                SamePass(c, b.sender, m);
              }
            case _ =>
          }
        }
      case ReceiverTurn =>
        match w.atReceiver(b.receiver.key, b.s2r) {
          case Incoming(m, rest) => SameReact(c, b.receiver.(waiting := false), m);
          case _ =>
        }
      case _ =>
    }
  }

  lemma SameByteRun(c: Setting, w: Carrier, brun: seq<ByteSystem>, ls: seq<Label>)
    requires Sized(c) && IsByteRunBy(c, w, brun, ls)
    ensures IsByteRunBy(Unhindered(c), w, brun, ls)
  {
    forall k | 0 <= k < |ls|
      ensures ByteTaken(Unhindered(c), w, brun, ls, k)
    {
      assert ByteTaken(c, w, brun, ls, k);
      SameByteStep(c, w, brun[k], ls[k]);
    }
  }

  /** The byte system is at fault exactly when the message system is. */
  lemma SameFault(c: Setting, w: Carrier, b: ByteSystem, t: System, l: Label)
    requires Sized(c) && Servable(Unhindered(c)) && Inv(Unhindered(c), t)
    requires Faithful(Unhindered(c), w) && Carries(Unhindered(c), w) && Matches(Unhindered(c), w, b, t)
    ensures ByteFaulty(c, w, b, l) <==> Faulty(c, t, l)
  {
    var u := Unhindered(c);
    AllFit(u, w, t);
    if l.SenderTurn? && t.r2s != [] {
      assert b.r2s == MsgBytes(w, c.key, t.r2s[0]) + StreamOf(w, c.key, t.r2s[1..]);
    }
    if l.ReceiverTurn? && t.s2r != [] {
      assert b.s2r == MsgBytes(w, c.key, t.s2r[0]) + StreamOf(w, c.key, t.s2r[1..]);
    }
  }

  lemma HinderedStepRefines(c: Setting, w: Carrier, b: ByteSystem, t: System, l: Label)
    requires Sized(c) && Servable(Unhindered(c)) && Inv(Unhindered(c), t)
    requires Faithful(Unhindered(c), w) && Carries(Unhindered(c), w) && Matches(Unhindered(c), w, b, t)
    requires ByteStep(c, w, b, l).Moved?
    ensures Step(c, t, l).Took? && Matches(Unhindered(c), w, ByteStep(c, w, b, l).next, Step(c, t, l).next)
  {
    SameByteStep(c, w, b, l);
    SameFault(c, w, b, t, l);
    SameStep(c, t, l);
    ByteStepRefines(Unhindered(c), w, b, t, l);
  }

  lemma RunInv(c: Setting, run: seq<System>, ls: seq<Label>)
    requires Sized(c) && Servable(Unhindered(c)) && IsRunBy(c, run, ls)
    ensures Inv(Unhindered(c), Last(run))
  {
    SameRun(c, run, ls);
    ByIsRun(Unhindered(c), run, ls);
    RunKeeps(Unhindered(c), run);
  }

  lemma StartsAlike(c: Setting, w: Carrier)
    ensures Matches(Unhindered(c), w, ByteInitial(c, w), Initial(c))
  {
    assert StreamOf(w, c.key, [EncrKey(c.key)]) == MsgBytes(w, c.key, EncrKey(c.key)) + [];
  }

  /** Every byte run is a run of messages by the same steps. */
  lemma {:induction false} HinderedRunRefines(c: Setting, w: Carrier, brun: seq<ByteSystem>, ls: seq<Label>) returns (run: seq<System>)
    requires Sized(c) && Servable(Unhindered(c)) && Faithful(Unhindered(c), w) && Carries(Unhindered(c), w)
    requires IsByteRunBy(c, w, brun, ls)
    ensures IsRunBy(c, run, ls) && Matches(Unhindered(c), w, brun[|brun| - 1], Last(run))
    decreases |ls|
  {
    if ls == [] {
      run := [Initial(c)];
      StartsAlike(c, w);
    } else {
      var n, early, l := |ls| - 1, ls[..|ls| - 1], ls[|ls| - 1];
      ShorterBytes(c, w, brun, ls);
      var was := HinderedRunRefines(c, w, brun[..n + 1], early);
      RunInv(c, was, early);
      HinderedStepRefines(c, w, brun[n], Last(was), l);
      var t' := Step(c, Last(was), l).next;
      LongerBy(c, was, early, l, t');
      assert early + [l] == ls;
      run := was + [t'];
    }
  }

  // ------------------------------------------------------------- the outcome

  /** What is asked of what is served and of the cipher. */
  ghost predicate Fine(c: Setting, cipher: Cipher) {
    Sized(c) && Local(c) && Transmissible(c) && Sound(cipher)
  }

  lemma FineWire(c: Setting, cipher: Cipher)
    requires Fine(c, cipher)
    ensures var u, w := Unhindered(c), WireCarrier(cipher);
            Servable(u) && Transmissible(u) && Faithful(u, w) && Carries(u, w)
  {
    var u := Unhindered(c);
    UnhinderedServable(c);
    forall i | 0 <= i < |u.served|
      ensures Fits(FileMsg(Meta(Prepared(u, i))))
    {
      assert Fits(FileMsg(Meta(Prepared(c, i))));
    }
    WireIsFaithful(u, cipher);
    WireCarries(u, cipher);
  }

  ghost predicate ByteAnswered(c: Setting, w: Carrier, brun: seq<ByteSystem>, ls: seq<Label>, yes: bool, made: bool)
    requires !c.isDir ==> |c.served| > 0
  {
    IsByteRunBy(c, w, brun, ls) && forall k | 0 <= k < |ls| && ls[k].Answer? :: ls[k] == Answer(yes, made)
  }

  /** A crash means that the transfer was agreed to and that something is in its way. */
  lemma CrashIsHindrance(c: Setting, cipher: Cipher, brun: seq<ByteSystem>, ls: seq<Label>, yes: bool, made: bool, l: Label)
    requires Fine(c, cipher) && ByteAnswered(c, WireCarrier(cipher), brun, ls, yes, made)
    requires ByteStep(c, WireCarrier(cipher), brun[|brun| - 1], l).Crashed?
    ensures yes && Hindered(c, FolderOf(c, yes, made))
  {
    var u, w, b := Unhindered(c), WireCarrier(cipher), brun[|brun| - 1];
    FineWire(c, cipher);
    var run := HinderedRunRefines(c, w, brun, ls);
    SameRun(c, run, ls);
    ByIsRun(u, run, ls);
    RunKeeps(u, run);
    SameByteStep(c, w, b, l);
    ByteStepRefines(u, w, b, Last(run), l);
    SameFault(c, w, b, Last(run), l);
    SameStep(c, Last(run), l);
    PanicIsHindrance(c, run, ls, yes, made, l);
  }

  lemma SameLinks(c: Setting, root: Bytes, store: map<Bytes, Bytes>, k: nat)
    requires k <= |c.links|
    ensures LinksMade(Unhindered(c), root, store, k) == LinksMade(c, root, store, k)
  {
    if k > 0 {
      SameLinks(c, root, store, k - 1);
    }
  }

  lemma SameTouched(c: Setting, root: Bytes, k: nat, p: Bytes)
    requires k <= |c.served|
    ensures Touched(Unhindered(c), root, k, p) ==> Touched(c, root, k, p)
  {
    if Touched(Unhindered(c), root, k, p) {
      var i :| 0 <= i < k && p == DestOf(Unhindered(c), root, i);
      assert p == DestOf(c, root, i);
    }
  }

  lemma SameJob(c: Setting, s: Sender, r: Receiver)
    requires JobDone(Unhindered(c), s, r)
    ensures JobDone(c, s, r)
  {
    var u := Unhindered(c);
    SameLinks(c, r.downloads, r.store, |c.links|);
    forall i | 0 <= i < |c.served|
      ensures Delivered(c, r.downloads, r.store, i)
    {
      assert Delivered(u, r.downloads, r.store, i);
    }
    forall p | !Touched(c, r.downloads, |c.served|, p)
      ensures SameAt(c.before, r.store, p)
    {
      SameTouched(c, r.downloads, |c.served|, p);
    }
  }

  /** How a transfer that came to its end went, by the answer. */
  ghost predicate Ended(c: Setting, yes: bool, made: bool, s: Sender, r: Receiver) {
    && r.downloads == FolderOf(c, yes, made)
    && if yes then JobDone(c, s, r) else r.store == c.before && r.links == map[]
  }

  /** A run in which both nodes have left was not hindered, or was refused, and ended as the answer says. */
  lemma EndIsUnhindered(c: Setting, cipher: Cipher, brun: seq<ByteSystem>, ls: seq<Label>, yes: bool, made: bool)
    requires Fine(c, cipher) && ByteAnswered(c, WireCarrier(cipher), brun, ls, yes, made)
    requires brun[|brun| - 1].sender.closed && brun[|brun| - 1].receiver.closed
    ensures !(yes && Hindered(c, FolderOf(c, yes, made)))
    ensures Ended(c, yes, made, brun[|brun| - 1].sender, brun[|brun| - 1].receiver)
  {
    var u, w, b := Unhindered(c), WireCarrier(cipher), brun[|brun| - 1];
    FineWire(c, cipher);
    var run := HinderedRunRefines(c, w, brun, ls);
    if yes && Hindered(c, FolderOf(c, yes, made)) {
      HinderedNeverEnds(c, run, ls, yes, made);
    }
    SameByteRun(c, w, brun, ls);
    ByteOutcome(u, cipher, brun, ls, yes, made);
    if yes {
      SameJob(c, b.sender, b.receiver);
    }
  }
}
