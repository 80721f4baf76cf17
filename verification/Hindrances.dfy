/**
 * What can make a node panic although both follow the protocol: a symlink whose target cannot be made relative, and
 * something in the way of a file at the receiver.  A transfer that meets neither goes as if there were no such thing;
 * one that meets either ends in a panic if the user accepts it, and in no other case.
 */
module Hindrances {
  import opened Bytes
  import opened Fsys
  import opened Protocol
  import opened Invariant
  import opened Steps
  import opened Trace
  import opened Runs
  import opened Links
  import Paths

  /** The same setting with nothing in the way. */
  function Unhindered(c: Setting): Setting {
    c.(relatable := true, noFile := (store, place) => false)
  }

  lemma {:induction false} SameSizes(c: Setting, k: nat)
    requires k <= |c.served|
    ensures SizeUpTo(Unhindered(c), k) == SizeUpTo(c, k)
  {
    if k > 0 {
      SameSizes(c, k - 1);
    }
  }

  lemma UnhinderedServable(c: Setting)
    requires Sized(c)
    ensures Servable(Unhindered(c))
  {
    var u := Unhindered(c);
    SameSizes(c, |c.served|);
    forall i | 0 <= i < |u.served|
      ensures FileOk(u, i)
    {
      assert FileOk(c, i);
    }
    forall root: Bytes, i, j | 0 <= i < j < |u.served|
      ensures Apart(u, root, i, j)
    {
      assert Apart(c, root, i, j);
    }
  }

  /** The step that is taken in state t would panic. */
  predicate Faulty(c: Setting, t: System, l: Label) {
    || (l.SenderTurn? && !t.sender.closed && !t.sender.stopped && t.r2s != [] && CannotPrepare(c, t.r2s[0]))
    || (l.ReceiverTurn? && !t.receiver.closed && t.receiver.waiting && t.s2r != [] && CannotStore(c, t.receiver, t.s2r[0]))
  }

  lemma SameReact(c: Setting, r: Receiver, m: Msg)
    ensures ReceiverReact(c, r, m) == ReceiverReact(Unhindered(c), r, m)
  {
  }

  lemma SamePass(c: Setting, s: Sender, m: Msg)
    requires !CannotPrepare(c, m)
    ensures SenderPass(c, s, m) == SenderPass(Unhindered(c), s, m)
  {
    SamePrepared(c, 0);
    assert SenderReact(c, s, m) == SenderReact(Unhindered(c), s, m);
  }

  lemma {:induction false} SamePrepared(c: Setting, i: nat)
    requires i <= |c.served|
    ensures PreparedFrom(c, i) == PreparedFrom(Unhindered(c), i)
    decreases |c.served| - i
  {
    if i < |c.served| {
      SamePrepared(c, i + 1);
    }
  }

  /** Every step is as if nothing were in the way, or panics. */
  lemma SameStep(c: Setting, t: System, l: Label)
    requires !c.isDir ==> |c.served| > 0
    ensures Step(c, t, l) == if Faulty(c, t, l) then Panicked else Step(Unhindered(c), t, l)
  {
    match l {
      case SenderTurn =>
        if !t.sender.closed && !t.sender.stopped && t.r2s != [] && !CannotPrepare(c, t.r2s[0]) {
          SamePass(c, t.sender, t.r2s[0]);
        }
      case ReceiverTurn =>
        if t.s2r != [] {
          SameReact(c, t.receiver.(waiting := false), t.s2r[0]);
        }
      case _ =>
    }
  }

  /** A run is a run of the setting with nothing in the way. */
  lemma SameRun(c: Setting, run: seq<System>, ls: seq<Label>)
    requires Sized(c) && IsRunBy(c, run, ls)
    ensures IsRunBy(Unhindered(c), run, ls)
  {
    forall k | 0 <= k < |ls|
      ensures StepTaken(Unhindered(c), run, ls, k)
    {
      assert StepTaken(c, run, ls, k);
      SameStep(c, run[k], ls[k]);
    }
  }

  // ------------------------------------------------- what has been got past

  /** The store is as it was before the run, but for the destinations of the files served. */
  ghost predicate OnlyDests(c: Setting, root: Bytes, store: map<Bytes, Bytes>) {
    forall p :: (forall i | 0 <= i < |c.served| :: p != DestOf(c, root, i)) ==> SameAt(c.before, store, p)
  }

  ghost predicate LocalAt(c: Setting, root: Bytes, store: map<Bytes, Bytes>, i: nat)
    requires i < |c.served|
  {
    c.noFile(store, DestOf(c, root, i)) <==> c.noFile(c.before, DestOf(c, root, i))
  }

  /** Files served are not in each other's way: what is in the way of one was there before. */
  ghost predicate Local(c: Setting) {
    forall root, store, i | 0 <= i < |c.served| && OnlyDests(c, root, store) :: LocalAt(c, root, store, i)
  }

  /** Something is in the way of a transfer into this folder. */
  ghost predicate Hindered(c: Setting, root: Bytes) {
    || (c.isDir && !c.relatable)
    || exists i :: 0 <= i < |c.served| && c.noFile(c.before, DestOf(c, root, i))
  }

  /** Files whose FILE packet the receiver has handled. */
  function Handled(t: System): nat {
    if !t.sender.allowed then 0
    else if t.s2r != [] && t.s2r[0].FileMsg? then t.sender.curId
    else if t.sender.inTransfer then t.sender.curId + 1
    else t.sender.curId
  }

  /** Nothing was in the way of what has been done. */
  ghost predicate GotPast(c: Setting, t: System) {
    && (t.sender.allowed ==> !(c.isDir && !c.relatable))
    && Handled(t) <= |c.served|
    && forall i | 0 <= i < Handled(t) :: !c.noFile(c.before, DestOf(c, t.receiver.downloads, i))
  }

  function HandledBy(s: Sender, out: seq<Msg>): nat {
    if out != [] && out[0].FileMsg? then s.curId else if s.inTransfer then s.curId + 1 else s.curId
  }

  lemma TransferHandles(c: Setting, s: Sender)
    requires SenderTransfer(c, s).SenderNext?
    ensures var o := SenderTransfer(c, s); HandledBy(o.s, o.out) == HandledBy(s, []) && o.s.allowed == s.allowed
  {
    var i := IndexOf(s.files, s.curId);
    if s.files != [] && s.allowed && s.inTransfer && s.canSend && i < |s.files| {
      CutHandles(s, i, NextPiece(s.files[i], c.disk, CHUNK));
    }
  }

  lemma CutHandles(s: Sender, i: nat, piece: Piece)
    requires i < |s.files| && AfterCut(s, i, piece).SenderNext? && s.inTransfer
    ensures var o := AfterCut(s, i, piece); HandledBy(o.s, o.out) == s.curId + 1 && o.s.allowed == s.allowed
  {
  }

  /** A pass of an accepted sender handles nothing more at the receiver. */
  lemma PassHandles(c: Setting, t: System)
    requires Servable(c) && Moving(c, t) && Step(c, t, SenderTurn).Took?
    ensures Handled(Step(c, t, SenderTurn).next) == Handled(t)
  {
    OneAfterPass(c, t);
    var m := t.r2s[0];
    assert Inbound(c, t.sender, t.receiver, m);
    TransferHandles(c, SenderReact(c, t.sender, m));
    if m.AlreadyHave? {
      HeldDropsHead(c, t.sender);
    }
  }

  lemma AcceptHandles(c: Setting, t: System)
    requires Servable(c) && Accepting(c, t) && Step(c, t, SenderTurn).Took?
    ensures Handled(Step(c, t, SenderTurn).next) == 0
  {
    OneAfterPass(c, t);
    TransferHandles(c, SenderReact(c, t.sender, Accept));
  }

  lemma NotAllowedPast(c: Setting, t: System)
    requires !t.sender.allowed
    ensures GotPast(c, t)
  {
  }

  /** What matters of a state for what has been got past. */
  lemma SamePast(c: Setting, t: System, t': System)
    requires GotPast(c, t) && t'.sender.allowed == t.sender.allowed && Handled(t') == Handled(t)
    requires t'.receiver.downloads == t.receiver.downloads
    ensures GotPast(c, t')
  {
  }

  lemma FileGotPast(c: Setting, t: System)
    requires Sized(c) && Servable(Unhindered(c)) && Moving(Unhindered(c), t) && GotPast(c, t) && Local(c)
    requires OnlyDests(c, t.receiver.downloads, t.receiver.store)
    requires Step(c, t, ReceiverTurn).Took? && t.s2r[0].FileMsg?
    ensures GotPast(c, Step(c, t, ReceiverTurn).next)
  {
    var u, t' := Unhindered(c), Step(c, t, ReceiverTurn).next;
    SameStep(c, t, ReceiverTurn);
    ReplyIs(u, t);
    DownloadsFixed(u, t.receiver.(waiting := false), t.s2r[0]);
    assert Outbound(u, t.sender, t.receiver, t.s2r[0]);
    assert LocalAt(c, t.receiver.downloads, t.receiver.store, t.sender.curId);
    assert t.s2r[0].meta == Meta(Prepared(c, t.sender.curId));
  }

  lemma OtherGotPast(c: Setting, t: System)
    requires Sized(c) && Servable(Unhindered(c)) && Moving(Unhindered(c), t) && GotPast(c, t)
    requires Step(c, t, ReceiverTurn).Took? && !t.s2r[0].FileMsg?
    ensures GotPast(c, Step(c, t, ReceiverTurn).next)
  {
    var u := Unhindered(c);
    SameStep(c, t, ReceiverTurn);
    ReplyIs(u, t);
    DownloadsFixed(u, t.receiver.(waiting := false), t.s2r[0]);
    SamePast(c, t, Step(c, t, ReceiverTurn).next);
  }

  lemma AcceptGotPast(c: Setting, t: System)
    requires Sized(c) && Servable(Unhindered(c)) && Accepting(Unhindered(c), t) && Step(c, t, SenderTurn).Took?
    ensures GotPast(c, Step(c, t, SenderTurn).next)
  {
    SameStep(c, t, SenderTurn);
    AcceptHandles(Unhindered(c), t);
  }

  lemma PassGotPast(c: Setting, t: System)
    requires Sized(c) && Servable(Unhindered(c)) && Moving(Unhindered(c), t) && GotPast(c, t) && Step(c, t, SenderTurn).Took?
    ensures GotPast(c, Step(c, t, SenderTurn).next)
  {
    SameStep(c, t, SenderTurn);
    PassHandles(Unhindered(c), t);
    OneAfterPass(Unhindered(c), t);
    SamePast(c, t, Step(c, t, SenderTurn).next);
  }

  lemma TopGotPast(c: Setting, t: System)
    requires GotPast(c, t) && (!c.isDir ==> |c.served| > 0) && Step(c, t, ReceiverTop).Took?
    ensures GotPast(c, Step(c, t, ReceiverTop).next)
  {
    SamePast(c, t, Step(c, t, ReceiverTop).next);
  }

  lemma ClosingGotPast(c: Setting, t: System, l: Label)
    requires Servable(c) && Closing(c, t) && Step(c, t, l).Took?
    ensures var t' := Step(c, t, l).next;
            t'.sender.allowed == t.sender.allowed && Handled(t') == Handled(t) && t'.receiver.downloads == t.receiver.downloads
  {
  }

  lemma MovingGotPast(c: Setting, t: System, l: Label)
    requires Sized(c) && Servable(Unhindered(c)) && Moving(Unhindered(c), t) && GotPast(c, t) && Local(c)
    requires OnlyDests(c, t.receiver.downloads, t.receiver.store) && Step(c, t, l).Took?
    ensures GotPast(c, Step(c, t, l).next)
  {
    SameStep(c, t, l);
    match l {
      case SenderTurn => PassGotPast(c, t);
      case ReceiverTurn =>
        if t.s2r[0].FileMsg? {
          FileGotPast(c, t);
        } else {
          OtherGotPast(c, t);
        }
      case ReceiverTop => TopGotPast(c, t);
      case _ =>
    }
  }

  lemma EarlyGotPast(c: Setting, t: System, l: Label)
    requires Servable(c) && (Handshake(c, t) || Accepting(c, t)) && Step(c, t, l).Took? && (Accepting(c, t) ==> !l.SenderTurn?)
    ensures !Step(c, t, l).next.sender.allowed
  {
  }

  /** What has been got past stays so, step by step. */
  lemma GotPastKept(c: Setting, t: System, l: Label)
    requires Sized(c) && Servable(Unhindered(c)) && Inv(Unhindered(c), t) && GotPast(c, t) && Local(c)
    requires OnlyDests(c, t.receiver.downloads, t.receiver.store) && Step(c, t, l).Took?
    ensures GotPast(c, Step(c, t, l).next)
  {
    var u, t' := Unhindered(c), Step(c, t, l).next;
    SameStep(c, t, l);
    if Moving(u, t) {
      MovingGotPast(c, t, l);
    } else if Closing(u, t) {
      ClosingGotPast(u, t, l);
      SamePast(c, t, t');
    } else if Rejecting(u, t) {
      RejectingHasNone(u, t, l);
      NotAllowedPast(c, t');
    } else if Accepting(u, t) && l.SenderTurn? {
      AcceptGotPast(c, t);
    } else {
      EarlyGotPast(u, t, l);
      NotAllowedPast(c, t');
    }
  }

  lemma RunOnlyDests(c: Setting, run: seq<System>, ls: seq<Label>)
    requires Sized(c) && IsRunBy(c, run, ls)
    ensures OnlyDests(c, Last(run).receiver.downloads, Last(run).receiver.store)
  {
    var u, r := Unhindered(c), Last(run).receiver;
    UnhinderedServable(c);
    SameRun(c, run, ls);
    ByIsRun(u, run, ls);
    forall p | forall i | 0 <= i < |c.served| :: p != DestOf(c, r.downloads, i)
      ensures SameAt(c.before, r.store, p)
    {
      forall i | 0 <= i < |u.served|
        ensures p != DestOf(u, r.downloads, i)
      {
        assert p != DestOf(c, r.downloads, i);
      }
      OthersUntouched(u, run, p);
    }
  }

  lemma {:induction false} RunGotPast(c: Setting, run: seq<System>, ls: seq<Label>)
    requires Sized(c) && Local(c) && IsRunBy(c, run, ls)
    ensures GotPast(c, Last(run))
    decreases |ls|
  {
    if ls == [] {
      NotAllowedPast(c, Last(run));
    } else {
      var n, u := |ls| - 1, Unhindered(c);
      ShorterBy(c, run, ls);
      RunGotPast(c, run[..n + 1], ls[..n]);
      UnhinderedServable(c);
      SameRun(c, run[..n + 1], ls[..n]);
      ByIsRun(u, run[..n + 1], ls[..n]);
      RunKeeps(u, run[..n + 1]);
      RunOnlyDests(c, run[..n + 1], ls[..n]);
      GotPastKept(c, run[n], ls[n]);
    }
  }

  // ------------------------------------------------------------- the outcome

  /** The folder files go to, by the answer. */
  function FolderOf(c: Setting, yes: bool, made: bool): Bytes {
    if yes && made && c.isDir then Paths.Join(c.downloads, c.dirName) else c.downloads
  }

  /** A run in which the user's answer, if it has been given, is this one. */
  ghost predicate AnsweredBy(c: Setting, run: seq<System>, ls: seq<Label>, yes: bool, made: bool)
    requires !c.isDir ==> |c.served| > 0
  {
    IsRunBy(c, run, ls) && forall k | 0 <= k < |ls| && ls[k].Answer? :: ls[k] == Answer(yes, made)
  }

  lemma {:induction false} SameFolder(c: Setting, ls: seq<Label>)
    ensures FolderBy(Unhindered(c), ls) == FolderBy(c, ls)
  {
    if ls != [] {
      SameFolder(c, ls[..|ls| - 1]);
    }
  }

  /** Where an agreed transfer goes, and that it was agreed. */
  lemma AgreedFolder(c: Setting, run: seq<System>, ls: seq<Label>, yes: bool, made: bool)
    requires Sized(c) && AnsweredBy(c, run, ls, yes, made) && StanceOf(Last(run)) == Agreeing
    ensures yes && Last(run).receiver.downloads == FolderOf(c, yes, made)
  {
    var u := Unhindered(c);
    UnhinderedServable(c);
    SameRun(c, run, ls);
    RunStance(u, run, ls);
    OneAnswer(u, run, ls);
    StanceTaken(ls);
    RunFolder(u, run, ls);
    OneFolder(u, ls, yes, made);
  }

  lemma FaultyPhase(c: Setting, t: System, l: Label)
    requires Sized(c) && Servable(Unhindered(c)) && Inv(Unhindered(c), t) && Faulty(c, t, l)
    ensures StanceOf(t) == Agreeing
    ensures l.ReceiverTurn? ==> t.sender.curId < |c.served| && c.noFile(t.receiver.store, DestOf(c, t.receiver.downloads, t.sender.curId))
  {
    var u := Unhindered(c);
    if l.ReceiverTurn? {
      assert Moving(u, t) && Outbound(u, t.sender, t.receiver, t.s2r[0]);
      assert t.s2r[0].meta == Meta(Prepared(c, t.sender.curId));
    } else {
      assert Accepting(u, t);
    }
  }

  /** A node panics only if the transfer was agreed to and something is in its way. */
  lemma PanicIsHindrance(c: Setting, run: seq<System>, ls: seq<Label>, yes: bool, made: bool, l: Label)
    requires Sized(c) && Local(c) && AnsweredBy(c, run, ls, yes, made) && Step(c, Last(run), l).Panicked?
    ensures yes && Hindered(c, FolderOf(c, yes, made))
  {
    var u, t := Unhindered(c), Last(run);
    UnhinderedServable(c);
    SameRun(c, run, ls);
    ByIsRun(u, run, ls);
    SameStep(c, t, l);
    NeverPanics(u, run, l);
    RunKeeps(u, run);
    FaultyPhase(c, t, l);
    AgreedFolder(c, run, ls, yes, made);
    if l.ReceiverTurn? {
      RunOnlyDests(c, run, ls);
      assert LocalAt(c, t.receiver.downloads, t.receiver.store, t.sender.curId);
    }
  }

  lemma FinalHandled(c: Setting, t: System)
    requires Servable(c) && Inv(c, t) && Final(t) && t.sender.allowed
    ensures Handled(t) == |c.served| && StanceOf(t) == Agreeing
  {
    assert Closing(c, t);
  }

  /** If something is in its way, an agreed transfer does not come to its end. */
  lemma HinderedNeverEnds(c: Setting, run: seq<System>, ls: seq<Label>, yes: bool, made: bool)
    requires Sized(c) && Local(c) && AnsweredBy(c, run, ls, yes, made)
    requires yes && Hindered(c, FolderOf(c, yes, made))
    ensures !Final(Last(run))
  {
    if Final(Last(run)) {
      var u := Unhindered(c);
      UnhinderedServable(c);
      SameRun(c, run, ls);
      ByIsRun(u, run, ls);
      RunKeeps(u, run);
      AnswerDecides(u, run, ls);
      FinalHandled(u, Last(run));
      RunGotPast(c, run, ls);
      AgreedFolder(c, run, ls, yes, made);
    }
  }

  /** Runs end, hindered or not. */
  lemma RunsEnd(c: Setting, run: seq<System>, ls: seq<Label>)
    requires Sized(c) && IsRunBy(c, run, ls)
    ensures |run| <= 1 + 5 * Cap(Unhindered(c))
  {
    UnhinderedServable(c);
    SameRun(c, run, ls);
    ByIsRun(Unhindered(c), run, ls);
    RunsTerminate(Unhindered(c), run);
  }

  /** A state that is not final can go on, or a node panics. */
  lemma GoesOnOrPanics(c: Setting, run: seq<System>, ls: seq<Label>)
    requires Sized(c) && IsRunBy(c, run, ls) && !Final(Last(run))
    ensures exists l :: !Step(c, Last(run), l).Disabled?
  {
    var u, t := Unhindered(c), Last(run);
    UnhinderedServable(c);
    SameRun(c, run, ls);
    ByIsRun(u, run, ls);
    Progress(u, run);
    SameStep(c, t, Choice(t));
    assert !Step(c, t, Choice(t)).Disabled?;
  }

  /**
   * The fate of every transfer: a run that cannot go on has ended in a panic if the user agreed and something was in
   * its way, and in that case only; otherwise both nodes have left.
   */
  lemma Fate(c: Setting, run: seq<System>, ls: seq<Label>, yes: bool, made: bool)
    requires Sized(c) && Local(c) && AnsweredBy(c, run, ls, yes, made)
    requires forall l :: !Step(c, Last(run), l).Took?
    ensures (exists l :: Step(c, Last(run), l).Panicked?) <==> yes && Hindered(c, FolderOf(c, yes, made))
    ensures Final(Last(run)) <==> !(yes && Hindered(c, FolderOf(c, yes, made)))
  {
    if l :| Step(c, Last(run), l).Panicked? {
      PanicIsHindrance(c, run, ls, yes, made, l);
    }
    if yes && Hindered(c, FolderOf(c, yes, made)) {
      HinderedNeverEnds(c, run, ls, yes, made);
    }
    if !Final(Last(run)) {
      GoesOnOrPanics(c, run, ls);
      var l :| !Step(c, Last(run), l).Disabled?;
      assert Step(c, Last(run), l).Panicked?;
    }
  }
}
