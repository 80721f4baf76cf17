/** Every step of the system keeps the joint invariant, phase by phase and packet by packet. */
module Steps {
  import opened Bytes
  import opened Fsys
  import opened Protocol
  import opened Invariant

  // --------------------------------------------------- the transfer section

  lemma HeadOfQueue(c: Setting, s: Sender)
    requires Servable(c) && SenderAt(c, s) && s.curId < |c.served|
    ensures |s.files| == |c.served| - s.curId && s.files[0] == Prepared(c, s.curId).(sent := Off(s))
    ensures IndexOf(s.files, s.curId) == 0
    ensures RemoveAt(s.files, 0) == Queue(c, s.curId + 1, 0)
  {
    QueueStart(c, s.curId + 1);
    assert s.files[1..] == PreparedFrom(c, s.curId + 1);
  }

  lemma TransferNextFile(c: Setting, s: Sender)
    requires Servable(c) && SenderAt(c, s) && !s.inTransfer && s.curId < |c.served|
    ensures var s' := s.(inTransfer := true);
            && SenderTransfer(c, s) == SenderNext(s', [FileMsg(Meta(Prepared(c, s.curId)))])
            && SenderAt(c, s') && Off(s') == 0
  {
    HeadOfQueue(c, s);
    assert s.files == Queue(c, s.curId, 0);
  }

  lemma TransferAfterFiles(c: Setting, s: Sender)
    requires Servable(c) && SenderAt(c, s) && s.curId == |c.served|
    ensures SenderTransfer(c, s) ==
            if s.linkIdx < |c.links| then SenderNext(s.(linkIdx := s.linkIdx + 1), [SymlinkMsg(c.links[s.linkIdx])])
            else SenderNext(s.(stopped := true), [Done])
  {
  }

  lemma PieceFits(c: Setting, f: FileInfo, i: nat, off: nat)
    requires Servable(c) && i < |c.served| && off < c.served[i].size
    requires f == Prepared(c, i).(sent := off)
    ensures var n := NextOffset(c, i, off);
            NextPiece(f, c.disk, CHUNK) == Sent(f.(sent := n), Span(c, i, off, n))
  {
    assert FileOk(c, i);
    SizeUpToMonotonic(c, i + 1, |c.served|);
    assert SizeUpTo(c, i + 1) == SizeUpTo(c, i) + c.served[i].size;
  }

  function AfterPiece(c: Setting, s: Sender): Sender
    requires s.curId < |c.served| && Off(s) <= c.served[s.curId].size
  {
    var n := NextOffset(c, s.curId, Off(s));
    s.(files := Queue(c, s.curId, n), sentBytes := s.sentBytes + (n - Off(s)), canSend := false)
  }

  lemma TransferPiece(c: Setting, s: Sender)
    requires Servable(c) && SenderAt(c, s) && s.inTransfer && s.canSend && Off(s) < c.served[s.curId].size
    ensures SenderTransfer(c, s) == SenderNext(AfterPiece(c, s),
              [FileBytes(s.curId, Span(c, s.curId, Off(s), NextOffset(c, s.curId, Off(s))))])
  {
    HeadOfQueue(c, s);
    assert FileOk(c, s.curId);
    var n := NextOffset(c, s.curId, Off(s));
    PieceFits(c, s.files[0], s.curId, Off(s));
    assert s.files[0 := s.files[0].(sent := n)] == Queue(c, s.curId, n);
  }

  lemma AfterPieceAt(c: Setting, s: Sender)
    requires Servable(c) && SenderAt(c, s) && s.inTransfer && Off(s) < c.served[s.curId].size
    ensures SenderAt(c, AfterPiece(c, s)) && Off(AfterPiece(c, s)) == NextOffset(c, s.curId, Off(s))
  {
  }

  function AfterEnd(c: Setting, s: Sender): Sender
    requires s.curId < |c.served|
  {
    s.(files := Queue(c, s.curId + 1, 0), curId := s.curId + 1, inTransfer := false)
  }

  lemma TransferEnd(c: Setting, s: Sender)
    requires Servable(c) && SenderAt(c, s) && s.inTransfer && s.canSend && Off(s) == c.served[s.curId].size
    ensures SenderTransfer(c, s) == SenderNext(AfterEnd(c, s), [EndFile(s.curId)])
  {
    HeadOfQueue(c, s);
    assert NextPiece(s.files[0], c.disk, CHUNK) == SentAll;
  }

  lemma AfterEndAt(c: Setting, s: Sender)
    requires Servable(c) && SenderAt(c, s) && s.inTransfer && Off(s) == c.served[s.curId].size
    ensures SenderAt(c, AfterEnd(c, s))
  {
    var s' := AfterEnd(c, s);
    assert Off(s') == 0 && s'.sentBytes == SizeUpTo(c, s'.curId);
  }

  // ------------------------------------------------------ the sender's turns

  ghost predicate Keeps(c: Setting, t: System, l: Label)
    requires Servable(c)
  {
    var r := Step(c, t, l);
    !r.Panicked? && (r.Took? ==> Inv(c, r.next))
  }

  function AfterSend(t: System, s: Sender, m: Msg): System {
    t.(sender := s, r2s := [], s2r := [m], trace := t.trace + [m])
  }

  lemma SenderTurnIs(c: Setting, t: System, m: Msg, s: Sender, out: Msg)
    requires Servable(c)
    requires !t.sender.stopped && !t.sender.closed && t.s2r == [] && t.r2s == [m]
    requires SenderPass(c, t.sender, m) == SenderNext(s, [out])
    ensures Step(c, t, SenderTurn) == Took(AfterSend(t, s, out))
  {
  }

  lemma MovingAfterSend(c: Setting, t: System, s: Sender, m: Msg)
    requires Servable(c) && SenderAt(c, s) && !s.stopped && !s.closed && !t.receiver.stopped && !t.receiver.closed
    requires Outbound(c, s, t.receiver, m)
    ensures Moving(c, AfterSend(t, s, m))
  {
  }

  lemma ClosingAfterSend(c: Setting, t: System, s: Sender)
    requires Servable(c) && SenderAt(c, s) && !s.inTransfer && s.stopped && !s.closed
    requires s.curId == |c.served| && s.linkIdx == |c.links|
    requires !t.receiver.stopped && !t.receiver.closed && ReceiverAt(c, t.receiver, |c.served|, false, 0)
    ensures Closing(c, AfterSend(t, s, Done))
  {
  }

  /** The sender stands between files when it has reacted to `m`, and the receiver stands there too. */
  ghost predicate BetweenFiles(c: Setting, t: System, m: Msg, s: Sender)
    requires Servable(c)
  {
    && !t.sender.stopped && !t.sender.closed && t.s2r == [] && t.r2s == [m]
    && s == SenderReact(c, t.sender, m)
    && SenderAt(c, s) && !s.inTransfer && !s.stopped && !s.closed
    && !t.receiver.stopped && !t.receiver.closed && ReceiverAt(c, t.receiver, s.curId, false, 0)
  }

  lemma NextFileTurn(c: Setting, t: System, m: Msg, s: Sender)
    requires Servable(c) && BetweenFiles(c, t, m, s) && s.curId < |c.served|
    ensures Keeps(c, t, SenderTurn)
  {
    var out, s' := FileMsg(Meta(Prepared(c, s.curId))), s.(inTransfer := true);
    TransferNextFile(c, s);
    SenderTurnIs(c, t, m, s', out);
    assert Outbound(c, s', t.receiver, out);
    MovingAfterSend(c, t, s', out);
  }

  lemma LinkOrDoneTurn(c: Setting, t: System, m: Msg, s: Sender)
    requires Servable(c) && BetweenFiles(c, t, m, s) && s.curId == |c.served|
    ensures Keeps(c, t, SenderTurn)
  {
    TransferAfterFiles(c, s);
    if s.linkIdx < |c.links| {
      var out, s' := SymlinkMsg(c.links[s.linkIdx]), s.(linkIdx := s.linkIdx + 1);
      SenderTurnIs(c, t, m, s', out);
      assert SenderAt(c, s') && Outbound(c, s', t.receiver, out);
      MovingAfterSend(c, t, s', out);
    } else {
      SenderTurnIs(c, t, m, s.(stopped := true), Done);
      ClosingAfterSend(c, t, s.(stopped := true));
    }
  }

  /** Between files the next FILE, SYMLINK or DONE goes out. */
  lemma BetweenFilesTurn(c: Setting, t: System, m: Msg, s: Sender)
    requires Servable(c) && BetweenFiles(c, t, m, s)
    ensures Keeps(c, t, SenderTurn)
  {
    if s.curId < |c.served| {
      NextFileTurn(c, t, m, s);
    } else {
      LinkOrDoneTurn(c, t, m, s);
    }
  }

  lemma AcceptTurn(c: Setting, t: System)
    requires Servable(c) && Accepting(c, t)
    ensures Keeps(c, t, SenderTurn)
  {
    var s := SenderReact(c, t.sender, Accept);
    QueueStart(c, 0);
    assert s.files == PreparedFrom(c, 0);
    BetweenFilesTurn(c, t, Accept, s);
  }

  function AfterHeld(c: Setting, s: Sender): Sender
    requires s.curId < |c.served|
  {
    s.(files := Queue(c, s.curId + 1, 0), curId := s.curId + 1,
       sentBytes := s.sentBytes + c.served[s.curId].size, inTransfer := false)
  }

  /** ALREADYHAVE for the current file lands on the head of the queue, whatever the index default is. */
  lemma HeldDropsHead(c: Setting, s: Sender)
    requires Servable(c) && SenderAt(c, s) && s.inTransfer && Off(s) == 0
    ensures SenderReact(c, s, AlreadyHave(s.curId)) == AfterHeld(c, s)
    ensures SenderAt(c, AfterHeld(c, s))
  {
    HeadOfQueue(c, s);
    var s' := AfterHeld(c, s);
    assert Off(s') == 0 && s'.sentBytes == SizeUpTo(c, s'.curId);
  }

  lemma AlreadyHaveTurn(c: Setting, t: System)
    requires Servable(c) && Moving(c, t) && |t.r2s| == 1 && t.r2s[0].AlreadyHave?
    ensures Keeps(c, t, SenderTurn)
  {
    var m := t.r2s[0];
    HeldDropsHead(c, t.sender);
    assert BetweenFiles(c, t, m, AfterHeld(c, t.sender));
    BetweenFilesTurn(c, t, m, AfterHeld(c, t.sender));
  }

  lemma ReadyBetweenFilesTurn(c: Setting, t: System)
    requires Servable(c) && Moving(c, t) && t.r2s == [Ready] && !t.sender.inTransfer
    ensures Keeps(c, t, SenderTurn)
  {
    BetweenFilesTurn(c, t, Ready, t.sender.(canSend := true));
  }

  lemma PieceOutbound(c: Setting, s: Sender, r: Receiver)
    requires Servable(c) && SenderAt(c, s) && s.inTransfer && Off(s) < c.served[s.curId].size
    requires ReceiverAt(c, r, s.curId, true, Off(s)) && SenderAt(c, AfterPiece(c, s))
    requires Off(AfterPiece(c, s)) == NextOffset(c, s.curId, Off(s))
    ensures Outbound(c, AfterPiece(c, s), r, FileBytes(s.curId, Span(c, s.curId, Off(s), NextOffset(c, s.curId, Off(s)))))
  {
    assert FileOk(c, s.curId);
  }

  lemma PieceTurn(c: Setting, t: System)
    requires Servable(c) && Moving(c, t) && t.r2s == [Ready] && t.sender.inTransfer
    requires Off(t.sender) < c.served[t.sender.curId].size
    ensures Keeps(c, t, SenderTurn)
  {
    var s := t.sender.(canSend := true);
    var i, off := s.curId, Off(s);
    var n := NextOffset(c, i, off);
    TransferPiece(c, s);
    AfterPieceAt(c, s);
    var out, s' := FileBytes(i, Span(c, i, off, n)), AfterPiece(c, s);
    PieceOutbound(c, s, t.receiver);
    SenderTurnIs(c, t, Ready, s', out);
    MovingAfterSend(c, t, s', out);
  }

  lemma EndTurn(c: Setting, t: System)
    requires Servable(c) && Moving(c, t) && t.r2s == [Ready] && t.sender.inTransfer
    requires Off(t.sender) == c.served[t.sender.curId].size
    ensures Keeps(c, t, SenderTurn)
  {
    var s := t.sender.(canSend := true);
    TransferEnd(c, s);
    AfterEndAt(c, s);
    SenderTurnIs(c, t, Ready, AfterEnd(c, s), EndFile(s.curId));
    MovingAfterSend(c, t, AfterEnd(c, s), EndFile(s.curId));
  }

  lemma MovingSenderTurn(c: Setting, t: System)
    requires Servable(c) && Moving(c, t)
    ensures Keeps(c, t, SenderTurn)
  {
    if |t.r2s| == 1 {
      assert t.r2s == [t.r2s[0]];
      if t.r2s[0].AlreadyHave? {
        AlreadyHaveTurn(c, t);
      } else if !t.sender.inTransfer {
        ReadyBetweenFilesTurn(c, t);
      } else if Off(t.sender) == c.served[t.sender.curId].size {
        EndTurn(c, t);
      } else {
        PieceTurn(c, t);
      }
    }
  }

  // ---------------------------------------------------- the receiver's turns

  /** The receiver answers `m` with one packet, and both are where that packet says. */
  ghost predicate Answers(c: Setting, s: Sender, r: Receiver, m: Msg)
    requires SenderAt(c, s)
  {
    var (r', out) := ReceiverReact(c, r, m);
    && |out| == 1 && Inbound(c, s, r', out[0])
    && r'.stopped == r.stopped && r'.closed == r.closed && r'.downloads == r.downloads
  }

  lemma FileArrives(c: Setting, s: Sender, r: Receiver)
    requires Servable(c) && SenderAt(c, s)
    requires s.inTransfer && Off(s) == 0 && ReceiverAt(c, r, s.curId, false, 0)
    ensures Answers(c, s, r, FileMsg(Meta(Prepared(c, s.curId))))
  {
    var d := s.curId;
    NextUntouched(c, r.downloads, r.store, d);
    if Held(c, r.downloads, d) {
      StoreHolds(c, r.downloads, r.store, d);
    } else {
      StoreStarts(c, r.downloads, r.store, d);
    }
  }

  lemma AbsorbOne(r: Receiver, f: FileInfo, data: Bytes)
    requires r.accepted == [f]
    ensures Absorb(r, 0, f.id, data)
         == r.(accepted := [f.(sent := f.sent + |data|)], received := r.received + |data|,
               store := r.store[f.path := WriteAt(ContentOrEmpty(r.store, f.path), f.sent, data)])
  {
    AbsorbUnfolds(r, 0, f.id, data);
    AbsorbAtOne(r, f, data);
    AbsorbEnd(AbsorbAt(r, 0, data), f.id, data);
  }

  lemma AbsorbAtOne(r: Receiver, f: FileInfo, data: Bytes)
    requires r.accepted == [f]
    ensures |AbsorbAt(r, 0, data).accepted| == 1
    ensures AbsorbAt(r, 0, data)
         == r.(accepted := [f.(sent := f.sent + |data|)], received := r.received + |data|,
               store := r.store[f.path := WriteAt(ContentOrEmpty(r.store, f.path), f.sent, data)])
  {
    assert r.accepted[0 := f.(sent := f.sent + |data|)] == [f.(sent := f.sent + |data|)];
  }

  lemma AbsorbEnd(r: Receiver, id: nat, data: Bytes)
    ensures Absorb(r, |r.accepted|, id, data) == r
  {
  }

  lemma BytesArrive(c: Setting, s: Sender, r: Receiver, data: Bytes)
    requires Servable(c) && SenderAt(c, s) && Outbound(c, s, r, FileBytes(s.curId, data))
    ensures Answers(c, s, r, FileBytes(s.curId, data))
  {
    var d := s.curId;
    var off := Off(s) - |data|;
    var f := Accepted(c, r.downloads, Meta(Prepared(c, d))).(sent := off);
    StoreGrows(c, r.downloads, r.store, d, off, data);
    AbsorbOne(r, f, data);
  }

  lemma EndOne(c: Setting, r: Receiver, f: FileInfo)
    requires r.accepted == [f]
    ensures ReceiverReact(c, r, EndFile(f.id)) == (r.(accepted := [], store := Opened(r.store, f.path)), [Ready])
  {
    assert RemoveAt(r.accepted, 0) == [];
  }

  lemma EndArrives(c: Setting, s: Sender, r: Receiver, id: nat)
    requires Servable(c) && SenderAt(c, s) && Outbound(c, s, r, EndFile(id))
    ensures Answers(c, s, r, EndFile(id))
  {
    var f := Accepted(c, r.downloads, Meta(Prepared(c, id))).(sent := c.served[id].size);
    StoreEnds(c, r.downloads, r.store, id);
    EndOne(c, r, f);
    var r' := r.(accepted := [], store := Opened(r.store, f.path));
    assert ReceiverAt(c, r', id + 1, false, 0);
  }

  lemma MovingAfterReply(c: Setting, t: System, r: Receiver, m: Msg)
    requires Servable(c) && Moving(c, t) && Inbound(c, t.sender, r, m)
    requires !r.stopped && !r.closed && r.downloads == t.receiver.downloads
    ensures Moving(c, t.(receiver := r, s2r := [], r2s := [m]))
  {
  }

  lemma MovingReceiverTurn(c: Setting, t: System)
    requires Servable(c) && Moving(c, t) && |t.s2r| == 1 && t.receiver.waiting
    ensures Keeps(c, t, ReceiverTurn)
  {
    var m := t.s2r[0];
    var r := t.receiver.(waiting := false);
    assert Outbound(c, t.sender, r, m);
    match m {
      case FileMsg(_) => FileArrives(c, t.sender, r);
      case FileBytes(_, data) => BytesArrive(c, t.sender, r, data);
      case EndFile(id) => EndArrives(c, t.sender, r, id);
      case SymlinkMsg(_) => assert Answers(c, t.sender, r, m);
    }
    ReplyTurn(c, t, m, r);
  }

  lemma ReceiverTurnIs(c: Setting, t: System, m: Msg, r: Receiver, reply: Msg)
    requires Servable(c) && !t.receiver.closed && t.receiver.waiting && t.s2r == [m] && t.r2s == []
    requires ReceiverReact(c, t.receiver.(waiting := false), m) == (r, [reply])
    ensures Step(c, t, ReceiverTurn) == Took(t.(receiver := r, s2r := [], r2s := [reply]))
  {
    assert t.s2r[1..] == [] && t.r2s + [reply] == [reply];
  }

  lemma ReplyTurn(c: Setting, t: System, m: Msg, r: Receiver)
    requires Servable(c) && Moving(c, t) && t.s2r == [m] && t.receiver.waiting
    requires r == t.receiver.(waiting := false) && Answers(c, t.sender, r, m)
    ensures Keeps(c, t, ReceiverTurn)
  {
    var (r', out) := ReceiverReact(c, r, m);
    ReceiverTurnIs(c, t, m, r', out[0]);
    MovingAfterReply(c, t, r', out[0]);
  }

  // -------------------------------------------------------- the other phases

  lemma AnswerKeeps(c: Setting, t: System, yes: bool, made: bool)
    requires Servable(c) && Handshake(c, t) && t.receiver.offer.Some?
    ensures Keeps(c, t, Answer(yes, made))
  {
    assert t.s2r == [] && [Reject] + ByeIf(false) == [Reject];
    assert |c.served| > 0 ==> SizeUpTo(c, 1) == c.served[0].size;
    var t' := Step(c, t, Answer(yes, made)).next;
    if yes {
      assert Accepting(c, t');
    } else {
      assert Rejecting(c, t');
    }
  }

  lemma HandshakeKeeps(c: Setting, t: System, l: Label)
    requires Servable(c) && Handshake(c, t)
    ensures Keeps(c, t, l)
  {
    var res := Step(c, t, l);
    if res.Took? {
      match l {
        case SendOffer => assert Handshake(c, res.next);
        case SenderTurn =>
        case ReceiverTop => assert Handshake(c, res.next);
        case ReceiverTurn => assert Handshake(c, res.next);
        case Answer(yes, made) => AnswerKeeps(c, t, yes, made);
      }
    }
  }

  lemma AcceptingKeeps(c: Setting, t: System, l: Label)
    requires Servable(c) && Accepting(c, t)
    ensures Keeps(c, t, l)
  {
    if l.SenderTurn? {
      AcceptTurn(c, t);
    } else if l.ReceiverTop? && Step(c, t, l).Took? {
      assert Accepting(c, Step(c, t, l).next);
    }
  }

  lemma MovingTop(c: Setting, t: System)
    requires Servable(c) && Moving(c, t)
    ensures Keeps(c, t, ReceiverTop)
  {
    if !t.receiver.waiting {
      assert Moving(c, t.(receiver := t.receiver.(waiting := true)));
    }
  }

  lemma MovingKeeps(c: Setting, t: System, l: Label)
    requires Servable(c) && Moving(c, t)
    ensures Keeps(c, t, l)
  {
    match l {
      case SenderTurn => MovingSenderTurn(c, t);
      case ReceiverTurn =>
        if |t.s2r| == 1 && t.receiver.waiting {
          MovingReceiverTurn(c, t);
        }
      case ReceiverTop => MovingTop(c, t);
      case _ =>
    }
  }

  lemma ClosingKeeps(c: Setting, t: System, l: Label)
    requires Servable(c) && Closing(c, t)
    ensures Keeps(c, t, l)
  {
    var res := Step(c, t, l);
    if res.Took? {
      assert Closing(c, res.next);
    }
  }

  lemma RejectTurn(c: Setting, t: System)
    requires Servable(c) && Rejecting(c, t) && !t.sender.stopped
    ensures Keeps(c, t, SenderTurn)
  {
    assert SenderPass(c, t.sender, Reject) == SenderNext(t.sender.(stopped := true), [Done]);
    assert t.r2s[1..] == ByeIf(t.receiver.closed) && t.s2r == [];
    assert Rejecting(c, Step(c, t, SenderTurn).next);
  }

  lemma RejectingKeeps(c: Setting, t: System, l: Label)
    requires Servable(c) && Rejecting(c, t)
    ensures Keeps(c, t, l)
  {
    if l.SenderTurn? && !t.sender.stopped {
      RejectTurn(c, t);
    } else {
      var res := Step(c, t, l);
      if res.Took? {
        assert Rejecting(c, res.next);
      }
    }
  }

  /** The invariant holds at the start and no step breaks it or panics. */
  lemma InitialHolds(c: Setting)
    requires Servable(c)
    ensures Inv(c, Initial(c))
  {
    assert Handshake(c, Initial(c));
  }

  lemma StepKeeps(c: Setting, t: System, l: Label)
    requires Servable(c) && Inv(c, t)
    ensures Keeps(c, t, l)
  {
    if Handshake(c, t) {
      HandshakeKeeps(c, t, l);
    } else if Accepting(c, t) {
      AcceptingKeeps(c, t, l);
    } else if Moving(c, t) {
      MovingKeeps(c, t, l);
    } else if Closing(c, t) {
      ClosingKeeps(c, t, l);
    } else {
      RejectingKeeps(c, t, l);
    }
  }
}
