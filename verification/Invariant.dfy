/**
 * The joint invariant of the two nodes and the queues between them.
 *
 * The sender's flags alone do not tell whether it may send: CanSendBytes stays set after ENDFILE.  What makes
 * every packet wanted is that exactly one packet is under way, and that its kind fixes both nodes' positions.
 */
module Invariant {
  import opened Wrappers
  import opened Bytes
  import opened Fsys
  import opened Protocol

  // -------------------------------------------------------------- the setting

  /** Bytes in the first k served files. */
  function SizeUpTo(c: Setting, k: nat): nat
    requires k <= |c.served|
  {
    if k == 0 then 0 else SizeUpTo(c, k - 1) + c.served[k - 1].size
  }

  /** What GetFile records about file i. */
  ghost predicate FileOk(c: Setting, i: nat)
    requires i < |c.served|
  {
    var f := c.served[i];
    f.sent == 0 && f.path in c.disk && f.size == |c.disk[f.path]| && f.checksum == c.sum(c.disk[f.path])
  }

  function DestOf(c: Setting, root: Bytes, i: nat): Bytes
    requires i < |c.served|
  {
    c.place(root, Meta(Prepared(c, i)))
  }

  ghost predicate Apart(c: Setting, root: Bytes, i: nat, j: nat)
    requires i < |c.served| && j < |c.served|
  {
    DestOf(c, root, i) != DestOf(c, root, j)
  }

  /** What GetFile and GetDir guarantee about the thing served, and distinct places for distinct files. */
  ghost predicate Sized(c: Setting) {
    && |c.served| <= U64_LIMIT
    && (forall i | 0 <= i < |c.served| :: FileOk(c, i))
    && (!c.isDir ==> |c.served| == 1 && c.links == [])
    && c.total == SizeUpTo(c, |c.served|) < U64_LIMIT
    && (forall root: Bytes, i, j | 0 <= i < j < |c.served| :: Apart(c, root, i, j))
  }

  /** The same, and nothing makes a node panic. */
  ghost predicate Servable(c: Setting) {
    && Sized(c)
    && c.relatable && (forall store, place :: !c.noFile(store, place))
  }

  lemma {:induction false} SizeUpToMonotonic(c: Setting, i: nat, j: nat)
    requires i <= j <= |c.served|
    ensures SizeUpTo(c, i) <= SizeUpTo(c, j)
    decreases j
  {
    if i < j {
      SizeUpToMonotonic(c, i, j - 1);
    }
  }

  function Content(c: Setting, i: nat): Bytes
    requires i < |c.served|
  {
    ContentOrEmpty(c.disk, c.served[i].path)
  }

  /** Bytes a..b of file i. */
  function Span(c: Setting, i: nat, a: nat, b: nat): Bytes
    requires i < |c.served|
  {
    var x := Content(c, i);
    if a <= b <= |x| then x[a..b] else []
  }

  lemma DestsDiffer(c: Setting, root: Bytes, i: nat, j: nat)
    requires Servable(c) && i < |c.served| && j < |c.served| && i != j
    ensures DestOf(c, root, i) != DestOf(c, root, j)
  {
    assert if i < j then Apart(c, root, i, j) else Apart(c, root, j, i);
  }

  /** The receiver will answer ALREADYHAVE to file i: its destination holds something with the same checksum. */
  predicate Held(c: Setting, root: Bytes, i: nat)
    requires i < |c.served|
  {
    var p := DestOf(c, root, i);
    p in c.before && c.sum(c.before[p]) == c.served[i].checksum
  }

  // ------------------------------------------------------------- the store

  ghost predicate SameAt(a: map<Bytes, Bytes>, b: map<Bytes, Bytes>, p: Bytes) {
    (p in a <==> p in b) && (p in a ==> a[p] == b[p])
  }

  /** p is the destination of one of the first k files. */
  ghost predicate Touched(c: Setting, root: Bytes, k: nat, p: Bytes)
    requires k <= |c.served|
  {
    exists i :: 0 <= i < k && p == DestOf(c, root, i)
  }

  /** File i has reached the receiver: the sender's bytes, or the file held from before. */
  ghost predicate Delivered(c: Setting, root: Bytes, store: map<Bytes, Bytes>, i: nat)
    requires i < |c.served|
  {
    var p := DestOf(c, root, i);
    && p in store
    && store[p] == if Held(c, root, i) then c.before[p] else Content(c, i)
  }

  /** The first d files are delivered, file d holds `off` bytes if it is `busy`, nothing else has changed. */
  ghost predicate StoreAt(c: Setting, root: Bytes, store: map<Bytes, Bytes>, d: nat, busy: bool, off: nat)
    requires d + (if busy then 1 else 0) <= |c.served|
  {
    && (forall i | 0 <= i < d :: Delivered(c, root, store, i))
    && (forall p :: !Touched(c, root, d + (if busy then 1 else 0), p) ==> SameAt(c.before, store, p))
    && (busy ==> off <= |Content(c, d)| && ContentOrEmpty(store, DestOf(c, root, d)) == Content(c, d)[..off])
  }

  lemma NextUntouched(c: Setting, root: Bytes, store: map<Bytes, Bytes>, d: nat)
    requires Servable(c) && d < |c.served| && StoreAt(c, root, store, d, false, 0)
    ensures SameAt(c.before, store, DestOf(c, root, d))
  {
    if Touched(c, root, d, DestOf(c, root, d)) {
      var i :| 0 <= i < d && DestOf(c, root, d) == DestOf(c, root, i);
      DestsDiffer(c, root, i, d);
    }
  }

  /** Changing only the destination of file d keeps the files before it and everything untouched. */
  lemma OnlyDestChanged(c: Setting, root: Bytes, old_: map<Bytes, Bytes>, new_: map<Bytes, Bytes>, d: nat, was: bool, off: nat)
    requires Servable(c) && d < |c.served| && StoreAt(c, root, old_, d, was, off)
    requires forall p | p != DestOf(c, root, d) :: SameAt(old_, new_, p)
    ensures forall i | 0 <= i < d :: Delivered(c, root, new_, i)
    ensures forall p :: !Touched(c, root, d + 1, p) ==> SameAt(c.before, new_, p)
  {
    forall i | 0 <= i < d
      ensures Delivered(c, root, new_, i)
    {
      DestsDiffer(c, root, i, d);
      assert Delivered(c, root, old_, i);
      assert SameAt(old_, new_, DestOf(c, root, i));
    }
    forall p | !Touched(c, root, d + 1, p)
      ensures SameAt(c.before, new_, p)
    {
      assert p != DestOf(c, root, d);
      assert SameAt(c.before, old_, p) && SameAt(old_, new_, p);
    }
  }

  lemma StoreStarts(c: Setting, root: Bytes, store: map<Bytes, Bytes>, d: nat)
    requires Servable(c) && d < |c.served| && StoreAt(c, root, store, d, false, 0)
    ensures StoreAt(c, root, store - {DestOf(c, root, d)}, d, true, 0)
  {
    OnlyDestChanged(c, root, store, store - {DestOf(c, root, d)}, d, false, 0);
  }

  lemma StoreHolds(c: Setting, root: Bytes, store: map<Bytes, Bytes>, d: nat)
    requires Servable(c) && d < |c.served| && StoreAt(c, root, store, d, false, 0) && Held(c, root, d)
    ensures StoreAt(c, root, store, d + 1, false, 0)
  {
    NextUntouched(c, root, store, d);
    OnlyDestChanged(c, root, store, store, d, false, 0);
  }

  lemma StoreGrows(c: Setting, root: Bytes, store: map<Bytes, Bytes>, d: nat, off: nat, data: Bytes)
    requires Servable(c) && d < |c.served| && StoreAt(c, root, store, d, true, off)
    requires off + |data| <= |Content(c, d)| && data == Content(c, d)[off..off + |data|]
    ensures var p := DestOf(c, root, d);
            StoreAt(c, root, store[p := WriteAt(ContentOrEmpty(store, p), off, data)], d, true, off + |data|)
  {
    var p := DestOf(c, root, d);
    var new_ := store[p := WriteAt(ContentOrEmpty(store, p), off, data)];
    OnlyDestChanged(c, root, store, new_, d, true, off);
    assert Content(c, d)[..off] + data == Content(c, d)[..off + |data|];
  }

  lemma StoreEnds(c: Setting, root: Bytes, store: map<Bytes, Bytes>, d: nat)
    requires Servable(c) && d < |c.served| && StoreAt(c, root, store, d, true, c.served[d].size) && !Held(c, root, d)
    ensures StoreAt(c, root, Opened(store, DestOf(c, root, d)), d + 1, false, 0)
  {
    var p := DestOf(c, root, d);
    OnlyDestChanged(c, root, store, Opened(store, p), d, true, c.served[d].size);
    assert FileOk(c, d);
    assert Content(c, d)[..c.served[d].size] == Content(c, d);
  }

  /** The next step of Absorb at a file that has the ID, and at one that has not. */
  function AbsorbAt(r: Receiver, k: nat, data: Bytes): Receiver
    requires k < |r.accepted|
  {
    var f := r.accepted[k];
    r.(accepted := r.accepted[k := f.(sent := f.sent + |data|)], received := r.received + |data|,
       store := r.store[f.path := WriteAt(ContentOrEmpty(r.store, f.path), f.sent, data)])
  }

  lemma AbsorbUnfolds(r: Receiver, k: nat, id: nat, data: Bytes)
    requires k < |r.accepted|
    ensures Absorb(r, k, id, data) == Absorb(if r.accepted[k].id == id then AbsorbAt(r, k, data) else r, k + 1, id, data)
  {
  }

  // ---------------------------------------------------------- the two nodes

  function NextOffset(c: Setting, i: nat, off: nat): nat
    requires i < |c.served|
  {
    if off + CHUNK < c.served[i].size then off + CHUNK else c.served[i].size
  }

  function Queue(c: Setting, i: nat, off: nat): seq<FileInfo>
    requires i <= |c.served|
  {
    if i == |c.served| then [] else [Prepared(c, i).(sent := off)] + PreparedFrom(c, i + 1)
  }

  lemma QueueStart(c: Setting, i: nat)
    requires Servable(c) && i <= |c.served|
    ensures Queue(c, i, 0) == PreparedFrom(c, i)
  {
    assert i < |c.served| ==> FileOk(c, i);
  }

  function Off(s: Sender): nat {
    if s.inTransfer && s.files != [] then s.files[0].sent else 0
  }

  /** The sender's position after ACCEPT: its queue is what is left of the original list, in order. */
  ghost predicate SenderAt(c: Setting, s: Sender) {
    && s.offered && s.allowed
    && s.curId <= |c.served|
    && s.files == Queue(c, s.curId, Off(s))
    && (s.inTransfer ==> s.curId < |c.served| && Off(s) <= c.served[s.curId].size)
    && s.links == c.links && s.linkIdx <= |c.links| && (s.linkIdx > 0 ==> s.curId == |c.served|)
    && s.sentBytes == SizeUpTo(c, s.curId) + Off(s)
  }

  /** The receiver's position: d files done, and file d open with `off` bytes written if `busy`. */
  ghost predicate ReceiverAt(c: Setting, r: Receiver, d: nat, busy: bool, off: nat) {
    && r.offer == None && r.key == Some(c.key) && r.total == c.total
    && d + (if busy then 1 else 0) <= |c.served|
    && r.received == SizeUpTo(c, d) + off
    && (!busy ==> off == 0)
    && (busy ==> off <= c.served[d].size && !Held(c, r.downloads, d))
    && r.accepted == (if busy then [Accepted(c, r.downloads, Meta(Prepared(c, d))).(sent := off)] else [])
    && StoreAt(c, r.downloads, r.store, d, busy, off)
  }

  // ------------------------------------------------------------ the phases

  /** Up to the user's answer. */
  ghost predicate Handshake(c: Setting, t: System)
    requires Servable(c)
  {
    && t.sender == InitialSender().(offered := t.sender.offered)
    && t.receiver == InitialReceiver(c).(waiting := t.receiver.waiting, key := t.receiver.key, offer := t.receiver.offer)
    && t.r2s == []
    && (t.receiver.key == None || t.receiver.key == Some(c.key))
    && (t.receiver.offer.Some? ==> t.sender.offered && t.receiver.key.Some? && t.receiver.offer == Some(OfferOf(c)))
    && t.s2r == (if t.receiver.key.None? then [EncrKey(c.key)] else [])
              + (if t.sender.offered && t.receiver.offer.None? then [TransferOffer(OfferOf(c))] else [])
  }

  /** ACCEPT is on its way. */
  ghost predicate Accepting(c: Setting, t: System)
    requires Servable(c)
  {
    && t.sender == InitialSender().(offered := true)
    && !t.receiver.stopped && !t.receiver.closed
    && ReceiverAt(c, t.receiver, 0, false, 0)
    && t.s2r == [] && t.r2s == [Accept]
  }

  /** A packet from the sender is on its way; it says where both nodes are. */
  ghost predicate Outbound(c: Setting, s: Sender, r: Receiver, m: Msg)
    requires SenderAt(c, s)
  {
    match m
    case FileMsg(meta) =>
      s.inTransfer && Off(s) == 0 && meta == Meta(Prepared(c, s.curId)) && ReceiverAt(c, r, s.curId, false, 0)
    case FileBytes(id, data) =>
      && s.inTransfer && id == s.curId && 0 < |data| <= Min(CHUNK, Off(s)) && Off(s) <= |Content(c, id)|
      && data == Span(c, id, Off(s) - |data|, Off(s))
      && ReceiverAt(c, r, id, true, Off(s) - |data|)
    case EndFile(id) =>
      !s.inTransfer && s.curId == id + 1 && ReceiverAt(c, r, id, true, c.served[id].size)
    case SymlinkMsg(link) =>
      !s.inTransfer && s.linkIdx > 0 && link == c.links[s.linkIdx - 1] && ReceiverAt(c, r, s.curId, false, 0)
    case _ => false
  }

  /** A packet from the receiver is on its way; it is what allows the sender to send again. */
  ghost predicate Inbound(c: Setting, s: Sender, r: Receiver, m: Msg)
    requires SenderAt(c, s)
  {
    match m
    case Ready => ReceiverAt(c, r, s.curId, s.inTransfer, Off(s))
    case AlreadyHave(id) =>
      s.inTransfer && id == s.curId && Off(s) == 0 && Held(c, r.downloads, id) && ReceiverAt(c, r, id + 1, false, 0)
    case _ => false
  }

  /** From ACCEPT to DONE: exactly one packet is on its way, in one direction or the other. */
  ghost predicate Moving(c: Setting, t: System)
    requires Servable(c)
  {
    && SenderAt(c, t.sender)
    && !t.sender.stopped && !t.sender.closed && !t.receiver.stopped && !t.receiver.closed
    && |t.s2r| + |t.r2s| == 1
    && (if |t.s2r| == 1 then Outbound(c, t.sender, t.receiver, t.s2r[0])
        else Inbound(c, t.sender, t.receiver, t.r2s[0]))
  }

  function ByeIf(closed: bool): seq<Msg> {
    if closed then [Bye] else []
  }

  /** From DONE on, in a run that was accepted. */
  ghost predicate Closing(c: Setting, t: System)
    requires Servable(c)
  {
    && SenderAt(c, t.sender) && !t.sender.inTransfer
    && t.sender.stopped && t.sender.curId == |c.served| && t.sender.linkIdx == |c.links|
    && ReceiverAt(c, t.receiver, |c.served|, false, 0)
    && t.s2r == (if t.receiver.stopped then [] else [Done]) + ByeIf(t.sender.closed)
    && t.r2s == ByeIf(t.receiver.closed)
    && (t.receiver.closed ==> t.receiver.stopped) && (t.receiver.stopped ==> !t.receiver.waiting)
  }

  /** After REJECT: the sender still passes through its transfer section, so it sends DONE before BYE!. */
  ghost predicate Rejecting(c: Setting, t: System)
    requires Servable(c)
  {
    && t.sender == InitialSender().(offered := true, stopped := t.sender.stopped, closed := t.sender.closed)
    && (t.sender.closed ==> t.sender.stopped)
    && t.receiver == InitialReceiver(c).(waiting := t.receiver.waiting, key := Some(c.key), total := c.total,
                                          stopped := true, closed := t.receiver.closed)
    && !(t.receiver.closed && t.receiver.waiting)
    && t.r2s == (if t.sender.stopped then [] else [Reject]) + ByeIf(t.receiver.closed)
    && (|| t.s2r == (if t.sender.stopped then [Done] else []) + ByeIf(t.sender.closed)
        || (t.sender.stopped && !t.receiver.waiting && t.s2r == ByeIf(t.sender.closed)))
  }

  ghost predicate Inv(c: Setting, t: System)
    requires Servable(c)
  {
    Handshake(c, t) || Accepting(c, t) || Moving(c, t) || Closing(c, t) || Rejecting(c, t)
  }

  ghost predicate Final(t: System) {
    t.sender.closed && t.receiver.closed
  }
}
