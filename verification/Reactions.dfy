/** What either node does with any message in any state, well behaved peer or not. */
module Reactions {
  import opened Wrappers
  import opened Bytes
  import opened Fsys
  import opened Protocol
  import opened Codec
  import opened Wire
  import opened SenderNodes
  import opened Wording

  // ------------------------------------------------------- what a packet means

  /** Headers the receiver does not know leave it as it is and are not answered. */
  lemma UnknownToReceiver(c: Setting, r: Receiver, header: Bytes, body: Bytes)
    requires header != Text("TRANSFEROFFER") && header != Text("FILE") && header != Text("FILEBYTES") && header != Text("ENDFILE")
    requires header != Text("ENCRKEY") && header != Text("SYMLINK") && header != Text("DONE") && header != Text("BYE!")
    ensures ReceiverMsg(header, body).Some? && ReceiverReact(c, r, ReceiverMsg(header, body).value) == (r, [])
    ensures !CannotStore(c, r, ReceiverMsg(header, body).value)
  {
    ReceiverWords();
  }

  lemma ReceiverWords()
    ensures H_TRANSFEROFFER == Text("TRANSFEROFFER") && H_FILE == Text("FILE") && H_FILEBYTES == Text("FILEBYTES")
    ensures H_ENDFILE == Text("ENDFILE") && H_ENCRKEY == Text("ENCRKEY") && H_SYMLINK == Text("SYMLINK")
    ensures H_DONE == Text("DONE") && H_BYE == Text("BYE!")
  {
  }

  /** Headers the sender does not know leave it as it is. */
  lemma UnknownToSender(c: Setting, s: Sender, header: Bytes, body: Bytes)
    requires header != Text("READY") && header != Text("ACCEPT") && header != Text("REJECT")
    requires header != Text("BYE!") && header != Text("ALREADYHAVE")
    ensures SenderReact(c, s, SenderMsg(header, body)) == s && !CannotPrepare(c, SenderMsg(header, body))
  {
    SenderWords();
  }

  lemma SenderWords()
    ensures H_READY == Text("READY") && H_ACCEPT == Text("ACCEPT") && H_REJECT == Text("REJECT")
    ensures H_BYE == Text("BYE!") && H_ALREADYHAVE == Text("ALREADYHAVE")
  {
  }

  /** A body without a whole ID: the receiver panics, the sender takes it for file 0. */
  lemma NoWholeId(body: Bytes)
    requires |body| < 8
    ensures ReceiverMsg(Text("FILEBYTES"), body) == None && ReceiverMsg(Text("ENDFILE"), body) == None
    ensures SenderMsg(Text("ALREADYHAVE"), body) == AlreadyHave(0)
  {
    ReceiverWords();
    SenderWords();
  }

  /** An offer is of a file or of a directory, by its first byte, or it is refused. */
  lemma OfferCode(body: Bytes)
    ensures DecodeOffer(body).Some? ==> body != [] && (if DecodeOffer(body).value.FileOffer? then body[0] == 0x66 else body[0] == 0x64)
  {
  }

  // ------------------------------------------------------------ the receiver

  /** What the receiver answers: READY to a piece, an end or a symlink, READY or ALREADYHAVE to a file, else nothing. */
  lemma AnswersAre(c: Setting, r: Receiver, m: Msg)
    ensures var out := ReceiverReact(c, r, m).1;
            match m
            case FileMsg(f) =>
              var p := c.place(r.downloads, f);
              out == if p in r.store && c.sum(r.store[p]) == f.checksum then [AlreadyHave(f.id)] else [Ready]
            case FileBytes(_, _) => out == [Ready]
            case EndFile(_) => out == [Ready]
            case SymlinkMsg(_) => out == [Ready]
            case _ => out == []
  {
  }

  /** DONE and BYE! stop the receiver, nothing else does. */
  lemma StopsAtTheEnd(c: Setting, r: Receiver, m: Msg)
    requires !r.stopped
    ensures ReceiverReact(c, r, m).0.stopped <==> m.Done? || m.Bye?
  {
    if m.FileBytes? {
      AbsorbGoesOn(r, 0, m.id, m.data);
    }
  }

  lemma {:induction false} AbsorbGoesOn(r: Receiver, k: nat, id: nat, data: Bytes)
    requires k <= |r.accepted|
    ensures Absorb(r, k, id, data).stopped == r.stopped
    decreases |r.accepted| - k
  {
    if k < |r.accepted| {
      var f := r.accepted[k];
      if f.id != id {
        AbsorbGoesOn(r, k + 1, id, data);
      } else {
        AbsorbGoesOn(r.(accepted := r.accepted[k := f.(sent := f.sent + |data|)],
          received := r.received + |data|,
          store := r.store[f.path := WriteAt(ContentOrEmpty(r.store, f.path), f.sent, data)]), k + 1, id, data);
      }
    }
  }

  /** ENDFILE takes the first accepted file with the ID out of the pool and creates it if it is not there yet. */
  lemma EndIs(c: Setting, r: Receiver, id: nat, k: nat)
    requires k < |r.accepted| && r.accepted[k].id == id && forall j | 0 <= j < k :: r.accepted[j].id != id
    ensures var s, p := ReceiverReact(c, r, EndFile(id)).0, r.accepted[k].path;
            && s.accepted == r.accepted[..k] + r.accepted[k + 1..]
            && s.store == if p in r.store then r.store else r.store[p := []]
  {
    IndexOfIs(r.accepted, id);
    var p := r.accepted[k].path;
    assert p in r.store ==> r.store[p := r.store[p]] == r.store;
  }

  lemma EndOfNone(c: Setting, r: Receiver, id: nat)
    requires forall j | 0 <= j < |r.accepted| :: r.accepted[j].id != id
    ensures ReceiverReact(c, r, EndFile(id)).0 == r
  {
    IndexOfIs(r.accepted, id);
  }

  // -------------------------------------------------------------- the sender

  /** REJECT and BYE! stop the sender; ALREADYHAVE of a file it does not have queued changes nothing. */
  lemma SenderStops(c: Setting, s: Sender, m: Msg)
    requires !s.stopped
    ensures SenderReact(c, s, m).stopped <==> m.Reject? || m.Bye?
    ensures m.AlreadyHave? && (forall k | 0 <= k < |s.files| :: s.files[k].id != m.id) ==> SenderReact(c, s, m) == s
  {
    if m.AlreadyHave? {
      IndexOfIs(s.files, m.id);
    }
  }

  /** ALREADYHAVE takes the first queued file with the ID out of the queue and counts its size as sent. */
  lemma HeldIs(c: Setting, s: Sender, id: nat, k: nat)
    requires k < |s.files| && s.files[k].id == id && forall j | 0 <= j < k :: s.files[j].id != id
    ensures SenderReact(c, s, AlreadyHave(id)) ==
            s.(files := s.files[..k] + s.files[k + 1..], curId := s.curId + 1, sentBytes := s.sentBytes + s.files[k].size, inTransfer := false)
  {
    IndexOfIs(s.files, id);
  }

  /** A node that has stopped says BYE! and leaves at its next turn, and then takes no more. */
  lemma StoppedLeaves(c: Setting, t: System)
    requires !c.isDir ==> |c.served| > 0
    ensures t.sender.stopped && !t.sender.closed ==>
              Step(c, t, SenderTurn) == Took(t.(sender := t.sender.(closed := true), s2r := t.s2r + [Bye], trace := t.trace + [Bye]))
    ensures t.receiver.stopped && !t.receiver.closed && !t.receiver.waiting ==>
              Step(c, t, ReceiverTop) == Took(t.(receiver := t.receiver.(closed := true), r2s := t.r2s + [Bye]))
    ensures t.sender.closed ==> Step(c, t, SenderTurn) == Disabled
    ensures t.receiver.closed ==> Step(c, t, ReceiverTop) == Step(c, t, ReceiverTurn) == Disabled
  {
  }
}
