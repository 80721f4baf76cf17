/** The theorems about whole runs: safety, progress, termination, delivery, byte conservation, the packet trace. */
module Runs {
  import opened Wrappers
  import opened Bytes
  import opened Fsys
  import opened Protocol
  import opened Invariant
  import opened Steps
  import opened Trace
  import Paths

  ghost predicate Next(c: Setting, t: System, t': System)
    requires !c.isDir ==> |c.served| > 0
  {
    exists l :: Step(c, t, l) == Took(t')
  }

  /** A run: any interleaving of the two nodes, any answer from the user. */
  ghost predicate IsRun(c: Setting, run: seq<System>)
    requires !c.isDir ==> |c.served| > 0
  {
    && run != [] && run[0] == Initial(c)
    && forall k | 0 <= k < |run| - 1 :: Next(c, run[k], run[k + 1])
  }

  function Last(run: seq<System>): System
    requires run != []
  {
    run[|run| - 1]
  }

  lemma Shorter(c: Setting, run: seq<System>)
    requires Servable(c) && IsRun(c, run) && |run| > 1
    ensures IsRun(c, run[..|run| - 1]) && Next(c, Last(run[..|run| - 1]), Last(run))
  {
    var k := |run| - 2;
    assert Next(c, run[k], run[k + 1]);
  }

  // -------------------------------------------------------------- safety

  lemma {:induction false} RunKeeps(c: Setting, run: seq<System>)
    requires Servable(c) && IsRun(c, run)
    ensures Inv(c, Last(run)) && TraceOk(c, Last(run)) && FolderOk(c, Last(run))
    decreases |run|
  {
    if |run| == 1 {
      InitialHolds(c);
      TraceAtStart(c);
    } else {
      Shorter(c, run);
      var t := Last(run[..|run| - 1]);
      RunKeeps(c, run[..|run| - 1]);
      var l :| Step(c, t, l) == Took(Last(run));
      StepKeeps(c, t, l);
      TraceKept(c, t, l);
      FolderKept(c, t, l);
    }
  }

  /** The folder files go to: the download folder, or a folder in it named after the directory offered. */
  ghost predicate FolderOk(c: Setting, t: System)
    requires Servable(c)
  {
    && (t.receiver.downloads == c.downloads || (c.isDir && t.receiver.downloads == Paths.Join(c.downloads, c.dirName)))
    && (!t.sender.allowed && t.r2s == [] ==> t.receiver.downloads == c.downloads)
  }

  lemma FolderKept(c: Setting, t: System, l: Label)
    requires Servable(c) && Inv(c, t) && FolderOk(c, t) && Step(c, t, l).Took?
    ensures FolderOk(c, Step(c, t, l).next)
  {
    match l {
      case Answer(yes, made) => assert Handshake(c, t);
      case ReceiverTurn => FolderAtReceiver(c, t);
      case SenderTurn => FolderAtSender(c, t);
      case _ =>
    }
  }

  lemma FolderAtReceiver(c: Setting, t: System)
    requires Servable(c) && Inv(c, t) && FolderOk(c, t) && Step(c, t, ReceiverTurn).Took?
    ensures FolderOk(c, Step(c, t, ReceiverTurn).next)
  {
    DownloadsFixed(c, t.receiver.(waiting := false), t.s2r[0]);
  }

  lemma FolderAtSender(c: Setting, t: System)
    requires Servable(c) && Inv(c, t) && FolderOk(c, t) && Step(c, t, SenderTurn).Took?
    ensures FolderOk(c, Step(c, t, SenderTurn).next)
  {
    if Accepting(c, t) || Moving(c, t) {
      PassEmits(c, t);
    } else if Rejecting(c, t) {
      assert t.receiver.downloads == c.downloads;
    }
  }

  /** No reachable step panics: no index out of range, no failed read. */
  lemma NeverPanics(c: Setting, run: seq<System>, l: Label)
    requires Servable(c) && IsRun(c, run)
    ensures !Step(c, Last(run), l).Panicked?
  {
    RunKeeps(c, run);
    StepKeeps(c, Last(run), l);
  }

  /** From the moment the sender acts on ACCEPT until DONE exactly one packet is on its way, in either direction. */
  lemma LockStep(c: Setting, run: seq<System>)
    requires Servable(c) && IsRun(c, run)
    ensures var t := Last(run);
            && (t.sender.allowed && !t.sender.stopped ==> |t.s2r| + |t.r2s| == 1)
            && |t.s2r| <= 2 && |t.r2s| <= 2
  {
    RunKeeps(c, run);
  }

  /** After ACCEPT the queue is the rest of the original list, and an ALREADYHAVE on its way names its head. */
  lemma QueueAgreement(c: Setting, run: seq<System>)
    requires Servable(c) && IsRun(c, run) && Last(run).sender.allowed
    ensures var t := Last(run);
            && t.sender.curId <= |c.served|
            && t.sender.files == Queue(c, t.sender.curId, Off(t.sender))
            && (t.sender.files != [] ==> t.sender.files[0].id == t.sender.curId && IndexOf(t.sender.files, t.sender.curId) == 0)
            && (forall m | m in t.r2s && m.AlreadyHave? :: t.sender.files != [] && m.id == t.sender.curId)
  {
    RunKeeps(c, run);
    var t := Last(run);
    assert SenderAt(c, t.sender);
    if t.sender.files != [] {
      HeadOfQueue(c, t.sender);
    }
  }

  /** File bytes on their way to the receiver. */
  function Payload(t: System): nat {
    if |t.s2r| == 1 && t.s2r[0].FileBytes? then |t.s2r[0].data| else 0
  }

  /** Bytes of a file the receiver has counted as held but the sender has not heard of yet. */
  function HeldAhead(c: Setting, t: System): nat {
    if |t.r2s| == 1 && t.r2s[0].AlreadyHave? && t.r2s[0].id < |c.served| then c.served[t.r2s[0].id].size else 0
  }

  /** The receiver has at most one file open, and its bytes so far are the sender's. */
  ghost predicate PrefixStored(c: Setting, t: System) {
    && |t.receiver.accepted| <= 1
    && (t.receiver.accepted != [] ==>
          var f := t.receiver.accepted[0];
          && f.id < |c.served| && f.sent <= |Content(c, f.id)|
          && f.path == DestOf(c, t.receiver.downloads, f.id)
          && f.name == c.served[f.id].name && f.rel == c.served[f.id].rel
          && f.size == c.served[f.id].size && f.checksum == c.served[f.id].checksum
          && ContentOrEmpty(t.receiver.store, f.path) == Content(c, f.id)[..f.sent]
          && f.sent + Payload(t) == (if t.sender.inTransfer then Off(t.sender) else f.size))
  }

  lemma OutboundPrefix(c: Setting, t: System)
    requires Servable(c) && Moving(c, t) && |t.s2r| == 1
    ensures PrefixStored(c, t)
  {
    match t.s2r[0] {
      case FileBytes(id, data) => assert ReceiverAt(c, t.receiver, id, true, Off(t.sender) - |data|);
      case EndFile(id) => assert ReceiverAt(c, t.receiver, id, true, c.served[id].size);
      case FileMsg(_) =>
      case SymlinkMsg(_) =>
    }
  }

  /**
   * What is stored for the file being received is exactly what the sender has of it up to the receiver's offset,
   * whatever was there before, and that offset trails the sender's by the bytes on their way.
   */
  lemma ReceiverPrefix(c: Setting, run: seq<System>)
    requires Servable(c) && IsRun(c, run)
    ensures PrefixStored(c, Last(run))
  {
    RunKeeps(c, run);
    var t := Last(run);
    if Moving(c, t) {
      if |t.s2r| == 1 {
        OutboundPrefix(c, t);
      } else {
        assert Inbound(c, t.sender, t.receiver, t.r2s[0]);
      }
    }
  }

  /** Both byte counters, at every moment of an accepted run. */
  lemma ByteConservation(c: Setting, run: seq<System>)
    requires Servable(c) && IsRun(c, run) && Last(run).sender.allowed
    ensures var t := Last(run);
            && t.sender.curId <= |c.served|
            && t.sender.sentBytes == SizeUpTo(c, t.sender.curId) + Off(t.sender)
            && t.receiver.received + Payload(t) == t.sender.sentBytes + HeldAhead(c, t)
            && (t.sender.stopped ==> t.sender.sentBytes == c.total == t.receiver.received == t.receiver.total)
  {
    RunKeeps(c, run);
  }

  /** Checksum verification at ENDFILE succeeds: what has been written has the checksum that was announced. */
  lemma EndfileVerifies(c: Setting, run: seq<System>, id: nat)
    requires Servable(c) && IsRun(c, run) && EndFile(id) in Last(run).s2r
    ensures var r := Last(run).receiver;
            && |r.accepted| == 1 && r.accepted[0].id == id
            && c.sum(ContentOrEmpty(r.store, r.accepted[0].path)) == r.accepted[0].checksum
  {
    RunKeeps(c, run);
    EndsMoving(c, Last(run), id);
    EndingFile(c, Last(run), id);
  }

  lemma EndsMoving(c: Setting, t: System, id: nat)
    requires Servable(c) && Inv(c, t) && EndFile(id) in t.s2r
    ensures Moving(c, t) && t.s2r == [EndFile(id)]
  {
    if !Moving(c, t) {
      NoEndOutside(c, t, id);
    }
  }

  lemma NoEndOutside(c: Setting, t: System, id: nat)
    requires Servable(c) && (Handshake(c, t) || Accepting(c, t) || Closing(c, t) || Rejecting(c, t))
    ensures EndFile(id) !in t.s2r
  {
  }

  lemma EndingFile(c: Setting, t: System, id: nat)
    requires Servable(c) && Moving(c, t) && t.s2r == [EndFile(id)]
    ensures var r := t.receiver;
            && |r.accepted| == 1 && r.accepted[0].id == id
            && c.sum(ContentOrEmpty(r.store, r.accepted[0].path)) == r.accepted[0].checksum
  {
    assert ReceiverAt(c, t.receiver, id, true, c.served[id].size);
    assert FileOk(c, id);
    assert Content(c, id)[..c.served[id].size] == Content(c, id);
  }

  // ------------------------------------------------------------- delivery

  /**
   * Once DONE has been sent in an accepted run, every file offered is at its destination: the sender's bytes, or
   * the file that was there before and had the same checksum.  Nothing else in the receiver's store has changed.
   */
  lemma Delivery(c: Setting, run: seq<System>)
    requires Servable(c) && IsRun(c, run) && Last(run).sender.allowed && Last(run).sender.stopped
    ensures var r := Last(run).receiver;
            && (forall i | 0 <= i < |c.served| :: Delivered(c, r.downloads, r.store, i))
            && (forall p :: !Touched(c, r.downloads, |c.served|, p) ==> SameAt(c.before, r.store, p))
            && r.accepted == []
  {
    RunKeeps(c, run);
  }

  /** At every moment a place that is no file's destination holds what it held before the run. */
  lemma OthersUntouched(c: Setting, run: seq<System>, p: Bytes)
    requires Servable(c) && IsRun(c, run)
    requires forall i | 0 <= i < |c.served| :: p != DestOf(c, Last(run).receiver.downloads, i)
    ensures SameAt(c.before, Last(run).receiver.store, p)
  {
    RunKeeps(c, run);
    var t := Last(run);
    assert !Touched(c, t.receiver.downloads, |c.served|, p);
    if Moving(c, t) {
      MovingUntouched(c, t, p);
    }
  }

  lemma MovingUntouched(c: Setting, t: System, p: Bytes)
    requires Servable(c) && Moving(c, t)
    requires forall i | 0 <= i < |c.served| :: p != DestOf(c, t.receiver.downloads, i)
    ensures SameAt(c.before, t.receiver.store, p)
  {
    if |t.s2r| == 1 {
      match t.s2r[0] {
        case FileMsg(_) => assert ReceiverAt(c, t.receiver, t.sender.curId, false, 0);
        case FileBytes(id, data) => assert ReceiverAt(c, t.receiver, id, true, Off(t.sender) - |data|);
        case EndFile(id) => assert ReceiverAt(c, t.receiver, id, true, c.served[id].size);
        case SymlinkMsg(_) => assert ReceiverAt(c, t.receiver, t.sender.curId, false, 0);
      }
    }
  }

  /** A delivered file is the sender's exactly if it was not held, or what was held was the sender's already. */
  lemma RightBytesIff(c: Setting, run: seq<System>, i: nat)
    requires Servable(c) && IsRun(c, run) && Last(run).sender.allowed && Last(run).sender.stopped && i < |c.served|
    ensures var r := Last(run).receiver;
            var p := DestOf(c, r.downloads, i);
            p in r.store && (r.store[p] == Content(c, i) <==> (Held(c, r.downloads, i) ==> c.before[p] == Content(c, i)))
  {
    Delivery(c, run);
    assert Delivered(c, Last(run).receiver.downloads, Last(run).receiver.store, i);
  }

  /** A run the user rejects leaves the receiver's store alone and sends nothing but the offer, DONE and BYE!. */
  lemma RejectedRun(c: Setting, run: seq<System>)
    requires Servable(c) && IsRun(c, run) && Final(Last(run)) && !Last(run).sender.allowed
    ensures Last(run).receiver.store == c.before && Last(run).receiver.links == map[] && Last(run).trace == RejectedTrace(c)
  {
    RunKeeps(c, run);
  }

  /** A finished run that was accepted has sent exactly the trace the setting determines. */
  lemma AcceptedRun(c: Setting, run: seq<System>)
    requires Servable(c) && IsRun(c, run) && Final(Last(run)) && Last(run).sender.allowed
    ensures Last(run).trace == AcceptedTrace(c, Last(run).receiver.downloads)
    ensures |Last(run).trace| == 4 + CountFrom(c, Last(run).receiver.downloads, 0) + |c.links|
    ensures Last(run).receiver.downloads == c.downloads
         || (c.isDir && Last(run).receiver.downloads == Paths.Join(c.downloads, c.dirName))
  {
    RunKeeps(c, run);
    var t := Last(run);
    assert t.trace + [] == t.trace;
    RestLength(c, t.receiver.downloads, 0, 0);
  }

  // ------------------------------------------------------------- counting

  /** Packets it takes to carry `size` bytes. */
  function Chunks(size: nat): nat {
    (size + 131005) / 131006
  }

  /** FILE alone for a file that is held, else FILE, the pieces and ENDFILE. */
  function CountFrom(c: Setting, root: Bytes, i: nat): nat
    requires i <= |c.served|
    decreases |c.served| - i
  {
    if i == |c.served| then 0
    else (if Held(c, root, i) then 1 else 2 + Chunks(c.served[i].size)) + CountFrom(c, root, i + 1)
  }

  lemma {:induction false} PiecesLength(c: Setting, i: nat, off: nat)
    requires i < |c.served| && off <= c.served[i].size
    ensures |Pieces(c, i, off)| == 1 + Chunks(c.served[i].size - off)
    decreases c.served[i].size - off
  {
    if off < c.served[i].size {
      PiecesLength(c, i, NextOffset(c, i, off));
    }
  }

  lemma {:induction false} RestLength(c: Setting, root: Bytes, i: nat, l: nat)
    requires i <= |c.served| && l <= |c.links|
    ensures |Rest(c, root, i, l)| == CountFrom(c, root, i) + (|c.links| - l) + 2
    decreases |c.served| - i, |c.links| - l
  {
    if i < |c.served| {
      PiecesLength(c, i, 0);
      RestLength(c, root, i + 1, l);
    } else if l < |c.links| {
      RestLength(c, root, i, l + 1);
    }
  }

  // --------------------------------------------- progress and termination

  function MaxFrom(c: Setting, i: nat): nat
    requires i <= |c.served|
    decreases |c.served| - i
  {
    if i == |c.served| then 0 else 2 + Chunks(c.served[i].size) + MaxFrom(c, i + 1)
  }

  /** Most packets the sender can send. */
  function Cap(c: Setting): nat {
    4 + MaxFrom(c, 0) + |c.links|
  }

  lemma {:induction false} CountAtMost(c: Setting, root: Bytes, i: nat)
    requires i <= |c.served|
    ensures CountFrom(c, root, i) <= MaxFrom(c, i)
    decreases |c.served| - i
  {
    if i < |c.served| {
      CountAtMost(c, root, i + 1);
    }
  }

  lemma TraceWithinCap(c: Setting, t: System)
    requires Servable(c) && Inv(c, t) && TraceOk(c, t)
    ensures |t.trace| <= Cap(c)
  {
    var root := t.receiver.downloads;
    RestLength(c, root, 0, 0);
    CountAtMost(c, root, 0);
    if Handshake(c, t) {
    } else if Rejecting(c, t) {
      assert |t.trace| <= |RejectedTrace(c)|;
    } else {
      assert |t.trace| <= |AcceptedTrace(c, root)|;
    }
  }

  /** Packets to be sent weigh most, then packets on their way, then the receiver's place in its loop. */
  function Measure(c: Setting, t: System): int {
    5 * (Cap(c) - |t.trace|) + 3 * |t.s2r|
    + (if t.receiver.closed then 0 else if t.receiver.waiting then 1 else 2)
    + (if t.receiver.offer.Some? then 1 else 0)
  }

  lemma {:induction false} AbsorbKeepsLoop(r: Receiver, k: nat, id: nat, data: Bytes)
    requires k <= |r.accepted|
    ensures var r' := Absorb(r, k, id, data); r'.closed == r.closed && r'.waiting == r.waiting && r'.offer == r.offer
    decreases |r.accepted| - k
  {
    if k < |r.accepted| {
      var f := r.accepted[k];
      if f.id != id {
        AbsorbKeepsLoop(r, k + 1, id, data);
      } else {
        AbsorbKeepsLoop(r.(accepted := r.accepted[k := f.(sent := f.sent + |data|)],
          received := r.received + |data|,
          store := r.store[f.path := WriteAt(ContentOrEmpty(r.store, f.path), f.sent, data)]), k + 1, id, data);
      }
    }
  }

  lemma SenderTurnSends(c: Setting, t: System)
    requires Servable(c) && Inv(c, t) && Step(c, t, SenderTurn).Took?
    ensures var t' := Step(c, t, SenderTurn).next;
            |t'.trace| == |t.trace| + 1 && |t'.s2r| == |t.s2r| + 1 && t'.receiver == t.receiver
  {
    if !t.sender.stopped {
      if Rejecting(c, t) {
        assert SenderPass(c, t.sender, Reject) == SenderNext(t.sender.(stopped := true), [Done]);
      } else {
        PassEmits(c, t);
      }
    }
  }

  lemma StepDecreases(c: Setting, t: System, l: Label)
    requires Servable(c) && Inv(c, t) && Step(c, t, l).Took?
    ensures Measure(c, Step(c, t, l).next) < Measure(c, t)
  {
    match l {
      case SenderTurn => SenderTurnSends(c, t);
      case ReceiverTurn =>
        if t.s2r[0].FileBytes? {
          AbsorbKeepsLoop(t.receiver.(waiting := false), 0, t.s2r[0].id, t.s2r[0].data);
        }
      case _ =>
    }
  }

  lemma {:induction false} RunLength(c: Setting, run: seq<System>)
    requires Servable(c) && IsRun(c, run)
    ensures |run| + Measure(c, Last(run)) <= 1 + 5 * Cap(c)
    decreases |run|
  {
    if |run| > 1 {
      Shorter(c, run);
      var before := run[..|run| - 1];
      RunLength(c, before);
      RunKeeps(c, before);
      var l :| Step(c, Last(before), l) == Took(Last(run));
      StepDecreases(c, Last(before), l);
    }
  }

  /** Every run ends: no run has more than 5 * Cap steps. */
  lemma RunsTerminate(c: Setting, run: seq<System>)
    requires Servable(c) && IsRun(c, run)
    ensures |run| <= 1 + 5 * Cap(c)
  {
    RunLength(c, run);
    RunKeeps(c, run);
    TraceWithinCap(c, Last(run));
  }

  ghost predicate Enabled(c: Setting, t: System, l: Label)
    requires Servable(c)
  {
    Step(c, t, l).Took?
  }

  /** A step that can be taken from t. */
  function Choice(t: System): Label {
    if !t.sender.offered then SendOffer
    else if !t.sender.closed && (t.sender.stopped || t.r2s != []) then SenderTurn
    else if t.receiver.offer.Some? && !t.receiver.closed then Answer(true, true)
    else if !t.receiver.closed && !t.receiver.waiting then ReceiverTop
    else ReceiverTurn
  }

  /** No deadlock: a run that is not finished can go on. */
  lemma Progress(c: Setting, run: seq<System>)
    requires Servable(c) && IsRun(c, run) && !Final(Last(run))
    ensures Enabled(c, Last(run), Choice(Last(run)))
    ensures exists t :: IsRun(c, run + [t])
  {
    var t := Last(run);
    RunKeeps(c, run);
    StepKeeps(c, t, Choice(t));
    assert Step(c, t, Choice(t)) != Disabled;
    var t' := Step(c, t, Choice(t)).next;
    var longer := run + [t'];
    assert forall k | 0 <= k < |longer| - 1 :: Next(c, longer[k], longer[k + 1]) by {
      forall k | 0 <= k < |longer| - 1
        ensures Next(c, longer[k], longer[k + 1])
      {
        if k < |run| - 1 {
          assert longer[k] == run[k] && longer[k + 1] == run[k + 1];
        }
      }
    }
    assert IsRun(c, longer);
  }

  lemma AllowedStays(c: Setting, t: System, t': System)
    requires Servable(c) && Next(c, t, t') && t.sender.allowed
    ensures t'.sender.allowed
  {
    var l :| Step(c, t, l) == Took(t');
  }

  /** Every run, however far it has got, goes on to an end, and an accepted one to DONE and the whole trace. */
  lemma {:induction false} Completes(c: Setting, run: seq<System>) returns (longer: seq<System>)
    requires Servable(c) && IsRun(c, run)
    ensures IsRun(c, longer) && run <= longer && Final(Last(longer)) && Last(longer).sender.stopped
    ensures Last(run).sender.allowed ==>
              Last(longer).sender.allowed && Last(longer).trace == AcceptedTrace(c, Last(longer).receiver.downloads)
    decreases 1 + 5 * Cap(c) - |run|
  {
    RunKeeps(c, run);
    longer := run;
    if Final(Last(run)) {
      if Last(run).sender.allowed {
        AcceptedRun(c, run);
      }
    } else {
      Progress(c, run);
      var t :| IsRun(c, run + [t]);
      RunsTerminate(c, run + [t]);
      Shorter(c, run + [t]);
      assert (run + [t])[..|run|] == run;
      if Last(run).sender.allowed {
        AllowedStays(c, Last(run), t);
      }
      longer := Completes(c, run + [t]);
    }
  }

  // ----------------------------------------------------------- the answer

  /** A run and the steps it took. */
  ghost predicate IsRunBy(c: Setting, run: seq<System>, ls: seq<Label>)
    requires !c.isDir ==> |c.served| > 0
  {
    && |run| == |ls| + 1 && run[0] == Initial(c)
    && forall k | 0 <= k < |ls| :: StepTaken(c, run, ls, k)
  }

  ghost predicate StepTaken(c: Setting, run: seq<System>, ls: seq<Label>, k: nat)
    requires !c.isDir ==> |c.served| > 0
    requires k < |ls| && |run| == |ls| + 1
  {
    Step(c, run[k], ls[k]) == Took(run[k + 1])
  }

  lemma ByIsRun(c: Setting, run: seq<System>, ls: seq<Label>)
    requires Servable(c) && IsRunBy(c, run, ls)
    ensures IsRun(c, run)
  {
    forall k | 0 <= k < |run| - 1
      ensures Next(c, run[k], run[k + 1])
    {
      assert StepTaken(c, run, ls, k);
    }
  }

  lemma ShorterBy(c: Setting, run: seq<System>, ls: seq<Label>)
    requires !c.isDir ==> |c.served| > 0
    requires IsRunBy(c, run, ls) && ls != []
    ensures var n := |ls| - 1; IsRunBy(c, run[..|run| - 1], ls[..n]) && StepTaken(c, run, ls, n)
  {
    var n := |ls| - 1;
    var earlier, labels := run[..n + 1], ls[..n];
    forall k | 0 <= k < |labels|
      ensures StepTaken(c, earlier, labels, k)
    {
      assert StepTaken(c, run, ls, k);
    }
  }

  datatype Stance = Undecided | Agreeing | Refusing

  /** What the nodes and the queue back to the sender tell of the answer. */
  function StanceOf(t: System): Stance {
    if t.sender.allowed then Agreeing
    else if t.receiver.stopped then Refusing
    else if t.r2s == [] then Undecided
    else Agreeing
  }

  function StanceBy(ls: seq<Label>): Stance {
    if ls == [] then Undecided
    else
      var l := ls[|ls| - 1];
      if l.Answer? then (if l.yes then Agreeing else Refusing) else StanceBy(ls[..|ls| - 1])
  }

  lemma StanceBefore(c: Setting, t: System, l: Label)
    requires Servable(c) && (Handshake(c, t) || Accepting(c, t)) && Step(c, t, l).Took?
    ensures StanceOf(Step(c, t, l).next) == if l.Answer? then (if l.yes then Agreeing else Refusing) else StanceOf(t)
    ensures l.Answer? ==> StanceOf(t) == Undecided
  {
  }

  lemma StanceAgainst(c: Setting, t: System, l: Label)
    requires Servable(c) && Rejecting(c, t) && Step(c, t, l).Took?
    ensures !l.Answer? && StanceOf(t) == Refusing && StanceOf(Step(c, t, l).next) == Refusing
  {
    if l == SenderTurn && !t.sender.stopped {
      assert SenderPass(c, t.sender, Reject) == SenderNext(t.sender.(stopped := true), [Done]);
    }
  }

  /** Only an answer changes the stance, and it finds it open: there is one answer. */
  lemma StanceAfter(c: Setting, t: System, l: Label)
    requires Servable(c) && Inv(c, t) && Step(c, t, l).Took?
    ensures StanceOf(Step(c, t, l).next) == if l.Answer? then (if l.yes then Agreeing else Refusing) else StanceOf(t)
    ensures l.Answer? ==> StanceOf(t) == Undecided
  {
    if Moving(c, t) || Closing(c, t) {
      assert t.sender.allowed && t.receiver.offer == None;
      assert Next(c, t, Step(c, t, l).next);
      AllowedStays(c, t, Step(c, t, l).next);
    } else if Rejecting(c, t) {
      StanceAgainst(c, t, l);
    } else {
      StanceBefore(c, t, l);
    }
  }

  lemma {:induction false} RunStance(c: Setting, run: seq<System>, ls: seq<Label>)
    requires Servable(c) && IsRunBy(c, run, ls)
    ensures StanceOf(Last(run)) == StanceBy(ls)
    ensures ls != [] && ls[|ls| - 1].Answer? ==> StanceBy(ls[..|ls| - 1]) == Undecided
    decreases |ls|
  {
    if ls != [] {
      var n := |ls| - 1;
      ShorterBy(c, run, ls);
      RunStance(c, run[..|run| - 1], ls[..n]);
      ByIsRun(c, run[..|run| - 1], ls[..n]);
      RunKeeps(c, run[..|run| - 1]);
      StanceAfter(c, run[n], ls[n]);
    }
  }

  lemma {:induction false} NoAnswerYet(ls: seq<Label>)
    requires StanceBy(ls) == Undecided
    ensures forall k | 0 <= k < |ls| :: !ls[k].Answer?
  {
    if ls != [] {
      NoAnswerYet(ls[..|ls| - 1]);
    }
  }

  lemma {:induction false} OneAnswer(c: Setting, run: seq<System>, ls: seq<Label>)
    requires Servable(c) && IsRunBy(c, run, ls)
    ensures forall k | 0 <= k < |ls| && ls[k].Answer? :: StanceBy(ls) == if ls[k].yes then Agreeing else Refusing
    decreases |ls|
  {
    if ls != [] {
      RunStance(c, run, ls);
      if ls[|ls| - 1].Answer? {
        NoAnswerYet(ls[..|ls| - 1]);
      } else {
        ShorterBy(c, run, ls);
        OneAnswer(c, run[..|run| - 1], ls[..|ls| - 1]);
      }
    }
  }

  lemma {:induction false} StanceTaken(ls: seq<Label>)
    requires StanceBy(ls) != Undecided
    ensures exists k :: 0 <= k < |ls| && ls[k].Answer?
  {
    if !ls[|ls| - 1].Answer? {
      StanceTaken(ls[..|ls| - 1]);
      var k :| 0 <= k < |ls| - 1 && ls[..|ls| - 1][k].Answer?;
      assert ls[k].Answer?;
    }
  }

  /** No run ends without an answer, and the transfer was accepted if and only if the answer was yes. */
  lemma AnswerDecides(c: Setting, run: seq<System>, ls: seq<Label>)
    requires Servable(c) && IsRunBy(c, run, ls) && Final(Last(run))
    ensures exists k :: 0 <= k < |ls| && ls[k].Answer?
    ensures forall k | 0 <= k < |ls| && ls[k].Answer? :: Last(run).sender.allowed <==> ls[k].yes
  {
    RunStance(c, run, ls);
    OneAnswer(c, run, ls);
    ByIsRun(c, run, ls);
    RunKeeps(c, run);
    StanceTaken(ls);
  }

  /** The folder after these steps: the answer yes moves it into the directory offered, if that could be made. */
  function FolderBy(c: Setting, ls: seq<Label>): Bytes {
    if ls == [] then c.downloads
    else
      var l := ls[|ls| - 1];
      if l.Answer? then (if l.yes && l.made && c.isDir then Paths.Join(c.downloads, c.dirName) else c.downloads)
      else FolderBy(c, ls[..|ls| - 1])
  }

  lemma FolderAfter(c: Setting, t: System, l: Label)
    requires Servable(c) && Inv(c, t) && Step(c, t, l).Took?
    ensures Step(c, t, l).next.receiver.downloads == if !l.Answer? then t.receiver.downloads
              else if l.yes && l.made && c.isDir then Paths.Join(c.downloads, c.dirName) else c.downloads
  {
    if l.ReceiverTurn? {
      DownloadsFixed(c, t.receiver.(waiting := false), t.s2r[0]);
    } else if l.Answer? {
      assert Handshake(c, t);
    }
  }

  /** Where the files of a run go, exactly. */
  lemma {:induction false} RunFolder(c: Setting, run: seq<System>, ls: seq<Label>)
    requires Servable(c) && IsRunBy(c, run, ls)
    ensures Last(run).receiver.downloads == FolderBy(c, ls)
    decreases |ls|
  {
    if ls != [] {
      var n := |ls| - 1;
      ShorterBy(c, run, ls);
      RunFolder(c, run[..|run| - 1], ls[..n]);
      ByIsRun(c, run[..|run| - 1], ls[..n]);
      RunKeeps(c, run[..|run| - 1]);
      FolderAfter(c, run[n], ls[n]);
    }
  }

  /** All answers being the same, so is the folder they lead to. */
  lemma {:induction false} OneFolder(c: Setting, ls: seq<Label>, yes: bool, made: bool)
    requires forall k | 0 <= k < |ls| && ls[k].Answer? :: ls[k] == Answer(yes, made)
    requires StanceBy(ls) != Undecided
    ensures FolderBy(c, ls) == if yes && made && c.isDir then Paths.Join(c.downloads, c.dirName) else c.downloads
  {
    if !ls[|ls| - 1].Answer? {
      OneFolder(c, ls[..|ls| - 1], yes, made);
    }
  }
}
