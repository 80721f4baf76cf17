/** The symlinks at the receiver: which have been made at every moment of a run, and at its end. */
module Links {
  import opened Bytes
  import opened Fsys
  import opened Protocol
  import opened Invariant
  import opened Trace
  import opened Runs
  import CleanPaths
  import Paths

  /** Where symlink i goes, and what it points to there. */
  function LinkPlace(c: Setting, root: Bytes, i: nat): Bytes
    requires i < |c.links|
  {
    Paths.Join(root, c.links[i].path)
  }

  function LinkTarget(c: Setting, root: Bytes, i: nat): Bytes
    requires i < |c.links|
  {
    CleanPaths.Join(root, c.links[i].target)
  }

  /** The symlinks there are once the first k have arrived: each is made unless its place is taken. */
  function LinksMade(c: Setting, root: Bytes, store: map<Bytes, Bytes>, k: nat): map<Bytes, Bytes>
    requires k <= |c.links|
  {
    if k == 0 then map[] else WithLink(c, root, store, LinksMade(c, root, store, k - 1), c.links[k - 1])
  }

  /** Symlinks that have reached the receiver. */
  function Landed(t: System): int {
    if !t.sender.allowed then 0
    else t.sender.linkIdx - if t.s2r != [] && t.s2r[0].SymlinkMsg? then 1 else 0
  }

  ghost predicate LinksOk(c: Setting, t: System) {
    && 0 <= Landed(t) <= |c.links|
    && t.receiver.links == LinksMade(c, t.receiver.downloads, t.receiver.store, Landed(t))
    && (t.s2r != [] && t.s2r[0].EndFile? ==> t.sender.linkIdx == 0)
  }

  lemma TransferLinks(c: Setting, s: Sender)
    requires SenderTransfer(c, s).SenderNext?
    ensures var o := SenderTransfer(c, s);
            && o.s.linkIdx == s.linkIdx + (if o.out != [] && o.out[0].SymlinkMsg? then 1 else 0)
            && (o.out != [] && o.out[0].EndFile? ==> s.inTransfer && s.files != [])
  {
    var i := IndexOf(s.files, s.curId);
    if s.files != [] && s.allowed && s.inTransfer && s.canSend && i < |s.files| {
      CutLinks(s, i, NextPiece(s.files[i], c.disk, CHUNK));
    }
  }

  lemma CutLinks(s: Sender, i: nat, piece: Piece)
    requires i < |s.files| && AfterCut(s, i, piece).SenderNext?
    ensures var o := AfterCut(s, i, piece); o.s.linkIdx == s.linkIdx && o.out != [] && !o.out[0].SymlinkMsg?
  {
  }

  lemma ReactLinks(c: Setting, s: Sender, m: Msg)
    ensures SenderReact(c, s, m).linkIdx == s.linkIdx
    ensures SenderReact(c, s, m).inTransfer ==> s.inTransfer
  {
  }

  lemma PassLinks(c: Setting, s: Sender, m: Msg)
    requires SenderPass(c, s, m).SenderNext?
    ensures var o := SenderPass(c, s, m);
            && o.s.linkIdx == s.linkIdx + (if o.out != [] && o.out[0].SymlinkMsg? then 1 else 0)
            && (o.out != [] && o.out[0].EndFile? ==> s.inTransfer)
  {
    ReactLinks(c, s, m);
    TransferLinks(c, SenderReact(c, s, m));
  }

  /** The queue to the receiver is empty when an accepted sender takes its turn, and holds one packet after it. */
  lemma OneAfterPass(c: Setting, t: System)
    requires Servable(c) && (Accepting(c, t) || Moving(c, t)) && Step(c, t, SenderTurn).Took?
    ensures var o := SenderPass(c, t.sender, t.r2s[0]);
            && t.r2s != [] && t.s2r == [] && !t.sender.stopped && !t.sender.closed
            && o.SenderNext? && |o.out| == 1 && o.s.allowed
            && Step(c, t, SenderTurn).next.s2r == [o.out[0]] && Step(c, t, SenderTurn).next.sender == o.s
            && Step(c, t, SenderTurn).next.receiver == t.receiver
  {
    PassEmits(c, t);
  }

  lemma LinksAfterPass(c: Setting, t: System)
    requires Servable(c) && (Accepting(c, t) || Moving(c, t)) && LinksOk(c, t) && Step(c, t, SenderTurn).Took?
    ensures LinksOk(c, Step(c, t, SenderTurn).next)
  {
    OneAfterPass(c, t);
    PassLinks(c, t.sender, t.r2s[0]);
    FreshLinks(c, t);
    SameLanded(c, t, Step(c, t, SenderTurn).next);
  }

  lemma SameLanded(c: Setting, t: System, t': System)
    requires LinksOk(c, t) && t'.receiver == t.receiver && Landed(t') == Landed(t)
    requires t'.s2r != [] && t'.s2r[0].EndFile? ==> t'.sender.linkIdx == 0
    ensures LinksOk(c, t')
  {
  }

  /** Before the first symlink is sent none has arrived. */
  lemma FreshLinks(c: Setting, t: System)
    requires Servable(c) && (Accepting(c, t) || Moving(c, t)) && t.s2r == []
    ensures Landed(t) == t.sender.linkIdx && (t.sender.inTransfer ==> t.sender.linkIdx == 0)
  {
  }

  /** Other packets than a symlink leave the symlinks alone, and they leave the store alone once there are any. */
  lemma ReactLeavesLinks(c: Setting, r: Receiver, m: Msg)
    ensures !m.SymlinkMsg? ==> ReceiverReact(c, r, m).0.links == r.links
    ensures m.SymlinkMsg? || m.Done? || m.Bye? ==> ReceiverReact(c, r, m).0.store == r.store
    ensures ReceiverReact(c, r, m).0.downloads == r.downloads
  {
    DownloadsFixed(c, r, m);
    AbsorbLeavesLinks(r, 0, m);
  }

  /** While files are on their way no symlink has been sent. */
  lemma FilesBeforeLinks(c: Setting, t: System)
    requires Servable(c) && Moving(c, t) && LinksOk(c, t) && |t.s2r| == 1 && !t.s2r[0].SymlinkMsg?
    ensures Landed(t) == 0
  {
  }

  lemma LinkReaction(c: Setting, r: Receiver, link: Link)
    ensures ReceiverReact(c, r, SymlinkMsg(link)).0 == r.(links := WithLink(c, r.downloads, r.store, r.links, link))
  {
  }

  lemma LinkOnItsWay(c: Setting, t: System)
    requires Servable(c) && Moving(c, t) && LinksOk(c, t) && |t.s2r| == 1 && t.s2r[0].SymlinkMsg?
    ensures var k := t.sender.linkIdx - 1;
            && 0 <= k < |c.links| && t.s2r[0] == SymlinkMsg(c.links[k])
            && t.receiver.links == LinksMade(c, t.receiver.downloads, t.receiver.store, k)
  {
    assert Outbound(c, t.sender, t.receiver, t.s2r[0]);
  }

  lemma LinkArrives(c: Setting, t: System)
    requires Servable(c) && Moving(c, t) && LinksOk(c, t) && |t.s2r| == 1 && t.s2r[0].SymlinkMsg?
    ensures var r := ReceiverReact(c, t.receiver.(waiting := false), t.s2r[0]).0;
            r.links == LinksMade(c, r.downloads, r.store, t.sender.linkIdx)
  {
    LinkOnItsWay(c, t);
    LinkReaction(c, t.receiver.(waiting := false), c.links[t.sender.linkIdx - 1]);
  }

  lemma ReplyIs(c: Setting, t: System)
    requires Servable(c) && Moving(c, t) && Step(c, t, ReceiverTurn).Took?
    ensures |t.s2r| == 1 && t.sender.allowed
    ensures var t' := Step(c, t, ReceiverTurn).next;
            t'.sender == t.sender && t'.s2r == [] && t'.receiver == ReceiverReact(c, t.receiver.(waiting := false), t.s2r[0]).0
  {
  }

  lemma AtRest(c: Setting, t: System, k: nat)
    requires t.sender.allowed && t.s2r == [] && t.sender.linkIdx == k <= |c.links|
    requires t.receiver.links == LinksMade(c, t.receiver.downloads, t.receiver.store, k)
    ensures LinksOk(c, t)
  {
  }

  lemma LinksAfterLink(c: Setting, t: System)
    requires Servable(c) && Moving(c, t) && LinksOk(c, t) && Step(c, t, ReceiverTurn).Took? && t.s2r[0].SymlinkMsg?
    ensures LinksOk(c, Step(c, t, ReceiverTurn).next)
  {
    ReplyIs(c, t);
    LinkArrives(c, t);
    assert t.sender.linkIdx <= |c.links|;
    AtRest(c, Step(c, t, ReceiverTurn).next, t.sender.linkIdx);
  }

  lemma LinksAfterFile(c: Setting, t: System)
    requires Servable(c) && Moving(c, t) && LinksOk(c, t) && Step(c, t, ReceiverTurn).Took? && !t.s2r[0].SymlinkMsg?
    ensures LinksOk(c, Step(c, t, ReceiverTurn).next)
  {
    ReplyIs(c, t);
    FilesBeforeLinks(c, t);
    ReactLeavesLinks(c, t.receiver.(waiting := false), t.s2r[0]);
  }

  lemma LinksAfterReceiver(c: Setting, t: System)
    requires Servable(c) && Moving(c, t) && LinksOk(c, t) && Step(c, t, ReceiverTurn).Took?
    ensures LinksOk(c, Step(c, t, ReceiverTurn).next)
  {
    if t.s2r[0].SymlinkMsg? {
      LinksAfterLink(c, t);
    } else {
      LinksAfterFile(c, t);
    }
  }

  // The phases in which no symlink moves.

  lemma NoneYet(c: Setting, t: System)
    requires !t.sender.allowed && t.receiver.links == map[] && (t.s2r != [] ==> !t.s2r[0].EndFile?)
    ensures LinksOk(c, t)
  {
  }

  predicate LinkHead(q: seq<Msg>) {
    q != [] && (q[0].SymlinkMsg? || q[0].EndFile?)
  }

  lemma LinksSame(c: Setting, t: System, t': System)
    requires LinksOk(c, t) && !LinkHead(t.s2r) && !LinkHead(t'.s2r)
    requires t'.sender.allowed == t.sender.allowed && t'.sender.linkIdx == t.sender.linkIdx
    requires t'.receiver.links == t.receiver.links && t'.receiver.downloads == t.receiver.downloads && t'.receiver.store == t.receiver.store
    ensures LinksOk(c, t')
  {
  }

  lemma HandshakeHasNone(c: Setting, t: System, l: Label)
    requires Servable(c) && Handshake(c, t) && Step(c, t, l).Took?
    ensures var t' := Step(c, t, l).next; !t'.sender.allowed && t'.receiver.links == map[] && !LinkHead(t'.s2r)
  {
  }

  lemma RejectingHasNone(c: Setting, t: System, l: Label)
    requires Servable(c) && Rejecting(c, t) && Step(c, t, l).Took?
    ensures var t' := Step(c, t, l).next; !t'.sender.allowed && t'.receiver.links == map[] && !LinkHead(t'.s2r)
  {
    if l == SenderTurn && !t.sender.stopped {
      assert SenderPass(c, t.sender, Reject) == SenderNext(t.sender.(stopped := true), [Done]);
    }
  }

  lemma ClosingLeavesLinks(c: Setting, t: System, l: Label)
    requires Servable(c) && Closing(c, t) && Step(c, t, l).Took?
    ensures var t' := Step(c, t, l).next;
            && !LinkHead(t.s2r) && !LinkHead(t'.s2r)
            && t'.sender.allowed == t.sender.allowed && t'.sender.linkIdx == t.sender.linkIdx
            && t'.receiver.links == t.receiver.links && t'.receiver.downloads == t.receiver.downloads && t'.receiver.store == t.receiver.store
  {
  }

  lemma TopLeavesLinks(c: Setting, t: System)
    requires Servable(c) && (Accepting(c, t) || Moving(c, t)) && LinksOk(c, t) && Step(c, t, ReceiverTop).Took?
    ensures LinksOk(c, Step(c, t, ReceiverTop).next)
  {
    TopOnlyWaits(c, t);
  }

  lemma TopOnlyWaits(c: Setting, t: System)
    requires Servable(c) && (Accepting(c, t) || Moving(c, t)) && Step(c, t, ReceiverTop).Took?
    ensures Step(c, t, ReceiverTop).next == t.(receiver := t.receiver.(waiting := true))
  {
  }

  lemma MovingLinks(c: Setting, t: System, l: Label)
    requires Servable(c) && (Accepting(c, t) || Moving(c, t)) && LinksOk(c, t) && Step(c, t, l).Took?
    ensures LinksOk(c, Step(c, t, l).next)
  {
    match l {
      case SenderTurn => LinksAfterPass(c, t);
      case ReceiverTurn => LinksAfterReceiver(c, t);
      case ReceiverTop => TopLeavesLinks(c, t);
      case _ =>
    }
  }

  lemma {:induction false} AbsorbLeavesLinks(r: Receiver, k: nat, m: Msg)
    requires k <= |r.accepted|
    ensures m.FileBytes? ==> Absorb(r, k, m.id, m.data).links == r.links
    decreases |r.accepted| - k
  {
    if m.FileBytes? && k < |r.accepted| {
      var f := r.accepted[k];
      AbsorbLeavesLinks(if f.id != m.id then r else
        r.(accepted := r.accepted[k := f.(sent := f.sent + |m.data|)], received := r.received + |m.data|,
           store := r.store[f.path := WriteAt(ContentOrEmpty(r.store, f.path), f.sent, m.data)]), k + 1, m);
    }
  }

  lemma LinksKept(c: Setting, t: System, l: Label)
    requires Servable(c) && Inv(c, t) && LinksOk(c, t) && Step(c, t, l).Took?
    ensures LinksOk(c, Step(c, t, l).next)
  {
    if Accepting(c, t) || Moving(c, t) {
      MovingLinks(c, t, l);
    } else if Closing(c, t) {
      ClosingLeavesLinks(c, t, l);
      LinksSame(c, t, Step(c, t, l).next);
    } else {
      if Handshake(c, t) {
        HandshakeHasNone(c, t, l);
      } else {
        RejectingHasNone(c, t, l);
      }
      NoneYet(c, Step(c, t, l).next);
    }
  }

  lemma {:induction false} RunLinks(c: Setting, run: seq<System>)
    requires Servable(c) && IsRun(c, run)
    ensures LinksOk(c, Last(run))
    decreases |run|
  {
    if |run| > 1 {
      Shorter(c, run);
      var t := Last(run[..|run| - 1]);
      RunLinks(c, run[..|run| - 1]);
      RunKeeps(c, run[..|run| - 1]);
      var l :| Step(c, t, l) == Took(Last(run));
      LinksKept(c, t, l);
    }
  }

  // ------------------------------------------------------------ at the end

  /** Whether one of the first k symlinks goes to p. */
  ghost predicate LinkedBefore(c: Setting, root: Bytes, k: nat, p: Bytes)
    requires k <= |c.links|
  {
    exists i :: 0 <= i < k && p == LinkPlace(c, root, i)
  }

  lemma LinkedOneMore(c: Setting, root: Bytes, k: nat, p: Bytes)
    requires k < |c.links|
    ensures LinkedBefore(c, root, k + 1, p) <==> LinkedBefore(c, root, k, p) || p == LinkPlace(c, root, k)
  {
    if LinkedBefore(c, root, k, p) {
      var i :| 0 <= i < k && p == LinkPlace(c, root, i);
      assert 0 <= i < k + 1;
    }
  }

  /** A place holds a symlink exactly if one goes there and no file is in the way. */
  lemma {:induction false} LinksMadeAt(c: Setting, root: Bytes, store: map<Bytes, Bytes>, k: nat, p: Bytes)
    requires k <= |c.links|
    ensures p in LinksMade(c, root, store, k) <==> LinkedBefore(c, root, k, p) && !c.noLink(store, p)
  {
    if k > 0 {
      LinksMadeAt(c, root, store, k - 1, p);
      LinkedOneMore(c, root, k - 1, p);
    }
  }

  predicate Points(links: map<Bytes, Bytes>, p: Bytes, target: Bytes) {
    p in links && links[p] == target
  }

  lemma LinkIsMade(c: Setting, root: Bytes, store: map<Bytes, Bytes>, k: nat)
    requires k < |c.links| && !c.noLink(store, LinkPlace(c, root, k)) && LinkPlace(c, root, k) !in LinksMade(c, root, store, k)
    ensures Points(LinksMade(c, root, store, k + 1), LinkPlace(c, root, k), LinkTarget(c, root, k))
  {
  }

  lemma {:induction false} MadeStays(c: Setting, root: Bytes, store: map<Bytes, Bytes>, i: nat, k: nat, p: Bytes, target: Bytes)
    requires i <= k <= |c.links| && Points(LinksMade(c, root, store, i), p, target)
    ensures Points(LinksMade(c, root, store, k), p, target)
    decreases k
  {
    if i < k {
      MadeStays(c, root, store, i, k - 1, p, target);
    }
  }

  /** The first symlink to go there has the place. */
  lemma FirstLinkStays(c: Setting, root: Bytes, store: map<Bytes, Bytes>, k: nat, i: nat)
    requires i < k <= |c.links| && !c.noLink(store, LinkPlace(c, root, i)) && !LinkedBefore(c, root, i, LinkPlace(c, root, i))
    ensures Points(LinksMade(c, root, store, k), LinkPlace(c, root, i), LinkTarget(c, root, i))
  {
    LinksMadeAt(c, root, store, i, LinkPlace(c, root, i));
    LinkIsMade(c, root, store, i);
    MadeStays(c, root, store, i + 1, k, LinkPlace(c, root, i), LinkTarget(c, root, i));
  }

  /**
   * Once DONE has been sent in an accepted run every symlink served is at its place and points below the folder,
   * unless the place was taken by a file or by a symlink served earlier; there are no other symlinks.
   */
  lemma LinkDelivery(c: Setting, run: seq<System>)
    requires Servable(c) && IsRun(c, run) && Last(run).sender.allowed && Last(run).sender.stopped
    ensures var r := Last(run).receiver;
            && r.links == LinksMade(c, r.downloads, r.store, |c.links|)
            && (forall p :: p in r.links <==> LinkedBefore(c, r.downloads, |c.links|, p) && !c.noLink(r.store, p))
            && (forall i | 0 <= i < |c.links| ::
                  var p := LinkPlace(c, r.downloads, i);
                  !c.noLink(r.store, p) && !LinkedBefore(c, r.downloads, i, p) ==> p in r.links && r.links[p] == LinkTarget(c, r.downloads, i))
  {
    RunLinks(c, run);
    RunKeeps(c, run);
    var r := Last(run).receiver;
    assert Landed(Last(run)) == |c.links|;
    forall p
      ensures p in r.links <==> LinkedBefore(c, r.downloads, |c.links|, p) && !c.noLink(r.store, p)
    {
      LinksMadeAt(c, r.downloads, r.store, |c.links|, p);
    }
    forall i | 0 <= i < |c.links| && !c.noLink(r.store, LinkPlace(c, r.downloads, i)) && !LinkedBefore(c, r.downloads, i, LinkPlace(c, r.downloads, i))
      ensures var p := LinkPlace(c, r.downloads, i); p in r.links && r.links[p] == LinkTarget(c, r.downloads, i)
    {
      FirstLinkStays(c, r.downloads, r.store, |c.links|, i);
    }
  }
}
