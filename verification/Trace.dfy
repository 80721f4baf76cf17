/** What the sender sends over a whole run, as a function of the setting, and its proof step by step. */
module Trace {
  import opened Bytes
  import opened Fsys
  import opened Protocol
  import opened Invariant
  import opened Steps

  /** Packets that carry file i from offset `off` on, up to and including its ENDFILE. */
  function Pieces(c: Setting, i: nat, off: nat): seq<Msg>
    requires i < |c.served| && off <= c.served[i].size
    decreases c.served[i].size - off
  {
    if off == c.served[i].size then [EndFile(i)]
    else
      var n := NextOffset(c, i, off);
      [FileBytes(i, Span(c, i, off, n))] + Pieces(c, i, n)
  }

  /** What follows the FILE packet of file i: nothing if the receiver holds it. */
  function Body(c: Setting, root: Bytes, i: nat, off: nat): seq<Msg>
    requires i < |c.served| && off <= c.served[i].size
  {
    if Held(c, root, i) then [] else Pieces(c, i, off)
  }

  /** Packets from file i and symlink l on, to the end of the run: all symlinks come after all files. */
  function Rest(c: Setting, root: Bytes, i: nat, l: nat): seq<Msg>
    requires i <= |c.served| && l <= |c.links|
    decreases |c.served| - i, |c.links| - l
  {
    if i < |c.served| then
      [FileMsg(Meta(Prepared(c, i)))] + (Body(c, root, i, 0) + Rest(c, root, i + 1, l))
    else if l < |c.links| then [SymlinkMsg(c.links[l])] + Rest(c, root, i, l + 1)
    else [Done, Bye]
  }

  function Hello(c: Setting): seq<Msg>
    requires !c.isDir ==> |c.served| > 0
  {
    [EncrKey(c.key), TransferOffer(OfferOf(c))]
  }

  /** Everything the sender sends in an accepted run. */
  function AcceptedTrace(c: Setting, root: Bytes): seq<Msg>
    requires !c.isDir ==> |c.served| > 0
  {
    Hello(c) + Rest(c, root, 0, 0)
  }

  /** Everything the sender sends in a rejected run. */
  function RejectedTrace(c: Setting): seq<Msg>
    requires !c.isDir ==> |c.served| > 0
  {
    Hello(c) + [Done, Bye]
  }

  ghost predicate InBounds(c: Setting, s: Sender) {
    && s.curId <= |c.served| && s.linkIdx <= |c.links|
    && (s.inTransfer ==> s.curId < |c.served| && Off(s) <= c.served[s.curId].size)
  }

  /** What an accepted sender has yet to send. */
  function Left(c: Setting, root: Bytes, s: Sender): seq<Msg>
    requires InBounds(c, s)
  {
    if s.closed then []
    else if s.stopped then [Bye]
    else if s.inTransfer then Body(c, root, s.curId, Off(s)) + Rest(c, root, s.curId + 1, s.linkIdx)
    else Rest(c, root, s.curId, s.linkIdx)
  }

  function LeftRejected(s: Sender): seq<Msg> {
    if s.closed then [] else if s.stopped then [Bye] else [Done, Bye]
  }

  /** What was sent so far and what is left make up the whole trace. */
  ghost predicate TraceOk(c: Setting, t: System)
    requires Servable(c)
  {
    && (Handshake(c, t) ==> t.trace == if t.sender.offered then Hello(c) else Hello(c)[..1])
    && (Rejecting(c, t) ==> t.trace + LeftRejected(t.sender) == RejectedTrace(c))
    && (Accepting(c, t) || Moving(c, t) || Closing(c, t) ==>
          InBounds(c, t.sender) && t.trace + Left(c, t.receiver.downloads, t.sender) == AcceptedTrace(c, t.receiver.downloads))
  }

  lemma EmitBetween(c: Setting, root: Bytes, s: Sender)
    requires Servable(c) && SenderAt(c, s) && !s.inTransfer && !s.stopped && !s.closed
    ensures var o := SenderTransfer(c, s);
            o.SenderNext? && |o.out| == 1 && o.s.allowed && InBounds(c, o.s) && Left(c, root, s) == o.out + Left(c, root, o.s)
  {
    if s.curId < |c.served| {
      TransferNextFile(c, s);
    } else {
      TransferAfterFiles(c, s);
    }
  }

  lemma EmitPiece(c: Setting, root: Bytes, s: Sender)
    requires Servable(c) && SenderAt(c, s) && s.inTransfer && s.canSend && !s.stopped && !s.closed
    requires !Held(c, root, s.curId)
    ensures var o := SenderTransfer(c, s);
            o.SenderNext? && |o.out| == 1 && o.s.allowed && InBounds(c, o.s) && Left(c, root, s) == o.out + Left(c, root, o.s)
  {
    var i, off, tail := s.curId, Off(s), Rest(c, root, s.curId + 1, s.linkIdx);
    if off == c.served[i].size {
      TransferEnd(c, s);
      AfterEndAt(c, s);
    } else {
      var n := NextOffset(c, i, off);
      TransferPiece(c, s);
      AfterPieceAt(c, s);
      PieceFirst([FileBytes(i, Span(c, i, off, n))], Pieces(c, i, n), tail);
    }
  }

  lemma PieceFirst(m: seq<Msg>, pieces: seq<Msg>, tail: seq<Msg>)
    ensures (m + pieces) + tail == m + (pieces + tail)
  {
  }

  /** The pass over the packet on its way sends the next packet of what is left, and nothing else. */
  ghost predicate Emits(c: Setting, t: System)
    requires |t.r2s| == 1
  {
    var o := SenderPass(c, t.sender, t.r2s[0]);
    && o.SenderNext? && |o.out| == 1 && o.s.allowed && InBounds(c, t.sender) && InBounds(c, o.s)
    && Left(c, t.receiver.downloads, t.sender) == o.out + Left(c, t.receiver.downloads, o.s)
  }

  lemma AcceptEmits(c: Setting, t: System)
    requires Servable(c) && Accepting(c, t)
    ensures Emits(c, t)
  {
    var s := SenderReact(c, t.sender, Accept);
    QueueStart(c, 0);
    assert s.files == PreparedFrom(c, 0);
    EmitBetween(c, t.receiver.downloads, s);
  }

  lemma HeldEmits(c: Setting, t: System, id: nat)
    requires Servable(c) && Moving(c, t) && t.r2s == [AlreadyHave(id)]
    ensures Emits(c, t)
  {
    var root, s := t.receiver.downloads, SenderReact(c, t.sender, t.r2s[0]);
    assert Inbound(c, t.sender, t.receiver, t.r2s[0]);
    HeldDropsHead(c, t.sender);
    assert Body(c, root, t.sender.curId, 0) == [];
    EmitBetween(c, root, s);
  }

  lemma ReadyKeepsPlace(c: Setting, root: Bytes, s: Sender)
    requires SenderAt(c, s)
    ensures var ready := s.(canSend := true);
            SenderAt(c, ready) && Off(ready) == Off(s) && InBounds(c, s) && Left(c, root, ready) == Left(c, root, s)
  {
  }

  lemma ReadyIsWanted(c: Setting, t: System)
    requires Servable(c) && Moving(c, t) && t.r2s == [Ready]
    ensures t.sender.inTransfer ==> !Held(c, t.receiver.downloads, t.sender.curId)
  {
    assert Inbound(c, t.sender, t.receiver, Ready);
  }

  lemma ReadyEmits(c: Setting, t: System)
    requires Servable(c) && Moving(c, t) && t.r2s == [Ready]
    ensures Emits(c, t)
  {
    var root, s := t.receiver.downloads, t.sender.(canSend := true);
    ReadyIsWanted(c, t);
    ReadyKeepsPlace(c, root, t.sender);
    if s.inTransfer {
      EmitPiece(c, root, s);
    } else {
      EmitBetween(c, root, s);
    }
  }

  /** One pass of an accepted sender sends the next packet of the trace and nothing else. */
  lemma PassEmits(c: Setting, t: System)
    requires Servable(c) && (Accepting(c, t) || Moving(c, t)) && |t.r2s| == 1
    ensures Emits(c, t)
  {
    if Accepting(c, t) {
      AcceptEmits(c, t);
    } else {
      assert Inbound(c, t.sender, t.receiver, t.r2s[0]);
      match t.r2s[0] {
        case AlreadyHave(id) => HeldEmits(c, t, id);
        case Ready => ReadyEmits(c, t);
      }
    }
  }

  lemma Regroup(trace: seq<Msg>, out: seq<Msg>, left: seq<Msg>)
    ensures trace + (out + left) == (trace + out) + left
  {
  }

  lemma TraceAtStart(c: Setting)
    requires Servable(c)
    ensures TraceOk(c, Initial(c))
  {
  }

  lemma HandshakeTrace(c: Setting, t: System, l: Label)
    requires Servable(c) && Handshake(c, t) && TraceOk(c, t) && Step(c, t, l).Took?
    ensures TraceOk(c, Step(c, t, l).next)
  {
    var t' := Step(c, t, l).next;
    if l.SendOffer? {
      assert Hello(c) == Hello(c)[..1] + [TransferOffer(OfferOf(c))];
    }
  }

  /** A state with this sender is neither before the answer nor after a rejection. */
  ghost predicate Agreed(t: System) {
    t.sender.allowed || (!t.receiver.stopped && t.r2s != [])
  }

  lemma AgreedTrace(c: Setting, t: System)
    requires Servable(c) && Agreed(t) && InBounds(c, t.sender)
    requires t.trace + Left(c, t.receiver.downloads, t.sender) == AcceptedTrace(c, t.receiver.downloads)
    ensures TraceOk(c, t)
  {
  }

  lemma AcceptedTraceTurn(c: Setting, t: System)
    requires Servable(c) && (Accepting(c, t) || Moving(c, t)) && TraceOk(c, t) && Step(c, t, SenderTurn).Took?
    ensures TraceOk(c, Step(c, t, SenderTurn).next)
  {
    PassEmits(c, t);
    var o := SenderPass(c, t.sender, t.r2s[0]);
    Regroup(t.trace, o.out, Left(c, t.receiver.downloads, o.s));
    AgreedTrace(c, Step(c, t, SenderTurn).next);
  }

  lemma ClosingTraceTurn(c: Setting, t: System)
    requires Servable(c) && Closing(c, t) && TraceOk(c, t) && Step(c, t, SenderTurn).Took?
    ensures TraceOk(c, Step(c, t, SenderTurn).next)
  {
    Regroup(t.trace, [Bye], []);
    AgreedTrace(c, Step(c, t, SenderTurn).next);
  }

  lemma AcceptedTraceIdle(c: Setting, t: System, l: Label)
    requires Servable(c) && (Accepting(c, t) || Moving(c, t) || Closing(c, t)) && TraceOk(c, t) && Step(c, t, l).Took?
    requires l != SenderTurn
    ensures TraceOk(c, Step(c, t, l).next)
  {
    var t' := Step(c, t, l).next;
    assert t'.sender == t.sender && t'.trace == t.trace;
    assert t'.receiver.downloads == t.receiver.downloads && Agreed(t') by {
      if l.ReceiverTurn? {
        DownloadsFixed(c, t.receiver.(waiting := false), t.s2r[0]);
      }
    }
    AgreedTrace(c, t');
  }

  lemma {:induction false} AbsorbKeepsFolder(r: Receiver, k: nat, id: nat, data: Bytes)
    requires k <= |r.accepted|
    ensures Absorb(r, k, id, data).downloads == r.downloads
    decreases |r.accepted| - k
  {
    if k < |r.accepted| {
      var f := r.accepted[k];
      if f.id != id {
        AbsorbKeepsFolder(r, k + 1, id, data);
      } else {
        AbsorbKeepsFolder(r.(accepted := r.accepted[k := f.(sent := f.sent + |data|)],
          received := r.received + |data|,
          store := r.store[f.path := WriteAt(ContentOrEmpty(r.store, f.path), f.sent, data)]), k + 1, id, data);
      }
    }
  }

  lemma DownloadsFixed(c: Setting, r: Receiver, m: Msg)
    ensures ReceiverReact(c, r, m).0.downloads == r.downloads
  {
    if m.FileBytes? {
      AbsorbKeepsFolder(r, 0, m.id, m.data);
    }
  }

  /** A state with these nodes is after a rejection. */
  lemma RefusedTrace(c: Setting, t: System)
    requires Servable(c) && !t.sender.allowed && t.receiver.stopped
    requires t.trace + LeftRejected(t.sender) == RejectedTrace(c)
    ensures TraceOk(c, t)
  {
  }

  lemma RejectedTraceTurn(c: Setting, t: System)
    requires Servable(c) && Rejecting(c, t) && Step(c, t, SenderTurn).Took?
    ensures var t' := Step(c, t, SenderTurn).next;
            && !t'.sender.allowed && t'.receiver == t.receiver
            && t'.trace + LeftRejected(t'.sender) == t.trace + LeftRejected(t.sender)
  {
    if !t.sender.stopped {
      Regroup(t.trace, [Done], [Bye]);
    } else {
      Regroup(t.trace, [Bye], []);
    }
  }

  lemma RejectedTraceIdle(c: Setting, t: System, l: Label)
    requires Servable(c) && Rejecting(c, t) && Step(c, t, l).Took? && l != SenderTurn
    ensures var t' := Step(c, t, l).next; t'.sender == t.sender && t'.receiver.stopped && t'.trace == t.trace
  {
  }

  lemma RejectedTraceStep(c: Setting, t: System, l: Label)
    requires Servable(c) && Rejecting(c, t) && TraceOk(c, t) && Step(c, t, l).Took?
    ensures TraceOk(c, Step(c, t, l).next)
  {
    if l == SenderTurn {
      RejectedTraceTurn(c, t);
    } else {
      RejectedTraceIdle(c, t, l);
    }
    RefusedTrace(c, Step(c, t, l).next);
  }

  lemma TraceKept(c: Setting, t: System, l: Label)
    requires Servable(c) && Inv(c, t) && TraceOk(c, t) && Step(c, t, l).Took?
    ensures TraceOk(c, Step(c, t, l).next)
  {
    if Handshake(c, t) {
      HandshakeTrace(c, t, l);
    } else if Rejecting(c, t) {
      RejectedTraceStep(c, t, l);
    } else {
      if l != SenderTurn {
        AcceptedTraceIdle(c, t, l);
      } else if Closing(c, t) {
        ClosingTraceTurn(c, t);
      } else {
        AcceptedTraceTurn(c, t);
      }
    }
  }

  /** The file bytes a list of packets carries, in order. */
  function Carried(q: seq<Msg>): Bytes {
    if q == [] then [] else (if q[0].FileBytes? then q[0].data else []) + Carried(q[1..])
  }

  /** The pieces cut from a file are non-empty, within the packet limit, all its own, and put together are the file. */
  lemma {:induction false} PiecesPartition(c: Setting, i: nat, off: nat)
    requires Servable(c) && i < |c.served| && off <= c.served[i].size
    ensures var q := Pieces(c, i, off);
            && q[|q| - 1] == EndFile(i)
            && (forall k | 0 <= k < |q| - 1 :: q[k].FileBytes? && q[k].id == i && 0 < |q[k].data| <= 131006)
            && off <= |Content(c, i)| && Carried(q) == Content(c, i)[off..]
    decreases c.served[i].size - off
  {
    assert FileOk(c, i);
    if off < c.served[i].size {
      var n := NextOffset(c, i, off);
      PiecesPartition(c, i, n);
      assert Content(c, i)[off..] == Content(c, i)[off..n] + Content(c, i)[n..];
    }
  }
}
