/** The transfer protocol: what each node does with one packet, and the two nodes joined by FIFO queues. */
module Protocol {
  import opened Wrappers
  import opened Bytes
  import opened Fsys
  import CleanPaths
  import Paths

  /** Most file bytes one encrypted FILEBYTES packet carries: 131072 - |"FILEBYTES~"| - 8 - 48. */
  const CHUNK: nat := 131006

  datatype Offer = FileOffer(meta: FileMeta) | DirOffer(name: Bytes, size: nat)

  datatype Msg =
    | EncrKey(key: Bytes)
    | TransferOffer(offer: Offer)
    | Accept
    | Reject
    | FileMsg(meta: FileMeta)
    | FileBytes(id: nat, data: Bytes)
    | EndFile(id: nat)
    | Ready
    | AlreadyHave(id: nat)
    | SymlinkMsg(link: Link)
    | Done
    | Bye
    | Other(header: Bytes)

  /** What is fixed before a run: the thing served, the key, the checksum function, and the receiver's disk. */
  datatype Setting = Setting(
    isDir: bool,
    dirName: Bytes,
    total: nat,                  // size announced in the offer
    served: seq<FileInfo>,       // in the order the files are queued, with their paths below the folder served
    links: seq<Link>,            // as they are sent, with relative paths
    relatable: bool,             // whether relative paths can be had for all of them
    disk: map<Bytes, Bytes>,     // sender's files, unchanged during a run
    key: Bytes,
    sum: Bytes -> Bytes,         // the checksum both nodes compute
    place: (Bytes, FileMeta) -> Bytes,  // where the receiver puts a file, given its download folder
    noFile: (map<Bytes, Bytes>, Bytes) -> bool,  // whether, with these files, a file cannot be made at a place
    noLink: (map<Bytes, Bytes>, Bytes) -> bool,  // the same of a symlink
    downloads: Bytes,            // receiver's download folder
    before: map<Bytes, Bytes>)   // receiver's files when it starts

  datatype Sender = Sender(
    stopped: bool, closed: bool, offered: bool,
    canSend: bool, allowed: bool, inTransfer: bool,
    files: seq<FileInfo>, links: seq<Link>,
    curId: nat, sentBytes: nat, linkIdx: nat)

  datatype Receiver = Receiver(
    stopped: bool, closed: bool,
    waiting: bool,               // blocked on the packet pipe
    offer: Option<Offer>,        // the goroutine that asks the user, if one is running
    key: Option<Bytes>,
    accepted: seq<FileInfo>, downloads: Bytes,
    total: nat, received: nat,
    store: map<Bytes, Bytes>, links: map<Bytes, Bytes>)

  datatype SenderOutcome = SenderNext(s: Sender, out: seq<Msg>) | SenderPanic

  // ------------------------------------------------------------------ sender

  /** File i as it enters the send queue: numbered. */
  function Prepared(c: Setting, i: nat): FileInfo
    requires i < |c.served|
  {
    c.served[i].(id := i)
  }

  /** The send queue from file i on. */
  function PreparedFrom(c: Setting, i: nat): (q: seq<FileInfo>)
    requires i <= |c.served|
    ensures |q| == |c.served| - i
    decreases |c.served| - i
  {
    if i == |c.served| then [] else [Prepared(c, i)] + PreparedFrom(c, i + 1)
  }

  function OfferOf(c: Setting): Offer
    requires !c.isDir ==> |c.served| > 0
  {
    if c.isDir then DirOffer(c.dirName, c.total) else FileOffer(Meta(c.served[0]))
  }

  /** Index of the first file with this ID, 0 if there is none. */
  function IndexOf(files: seq<FileInfo>, id: nat): nat {
    IndexFrom(files, id, 0)
  }

  function IndexFrom(files: seq<FileInfo>, id: nat, k: nat): nat
    decreases |files| - k
  {
    if k >= |files| then 0 else if files[k].id == id then k else IndexFrom(files, id, k + 1)
  }

  /** The queue, the current ID and the byte count after the peer says it already has file `id`. */
  function DropHeld(s: Sender, id: nat): Sender {
    var i := IndexOf(s.files, id);
    if i < |s.files| && s.files[i].id == id then
      s.(files := RemoveAt(s.files, i), curId := s.curId + 1,
         sentBytes := s.sentBytes + s.files[i].size, inTransfer := false)
    else s
  }

  function SenderReact(c: Setting, s: Sender, m: Msg): Sender {
    match m
    case Ready => s.(canSend := true)
    case Accept =>
      s.(allowed := true, files := s.files + PreparedFrom(c, 0),
         links := if c.isDir then c.links else s.links, curId := 0)
    case Reject => s.(stopped := true)
    case Bye => s.(stopped := true)
    case AlreadyHave(id) => DropHeld(s, id)
    case _ => s
  }

  datatype Piece = SentAll | Sent(f: FileInfo, data: Bytes) | ReadFailed

  /** One SendPiece call with room for `limit` file bytes; the subtraction is on uint64. */
  function NextPiece(f: FileInfo, disk: map<Bytes, Bytes>, limit: nat): Piece {
    if f.size == f.sent then SentAll
    else
      var n := Min((f.size - f.sent) % U64_LIMIT, limit);
      if f.path in disk && f.sent + n <= |disk[f.path]|
      then Sent(f.(sent := f.sent + n), disk[f.path][f.sent..f.sent + n])
      else ReadFailed
  }

  /** What SendPiece on the file at index i leads to. */
  function AfterCut(s: Sender, i: nat, piece: Piece): SenderOutcome
    requires i < |s.files|
  {
    match piece
    case SentAll =>
      SenderNext(s.(files := RemoveAt(s.files, i), curId := s.curId + 1, inTransfer := false), [EndFile(s.files[i].id)])
    case Sent(f, data) =>
      SenderNext(s.(files := s.files[i := f], sentBytes := s.sentBytes + |data|, canSend := false), [FileBytes(f.id, data)])
    case ReadFailed => SenderPanic
  }

  /** The transfer section at the end of the sender's loop: at most one packet leaves. */
  function SenderTransfer(c: Setting, s: Sender): SenderOutcome {
    if |s.files| == 0 && s.linkIdx < |s.links| then
      SenderNext(s.(linkIdx := s.linkIdx + 1), [SymlinkMsg(s.links[s.linkIdx])])
    else if |s.files| == 0 && s.linkIdx == |s.links| then
      SenderNext(s.(stopped := true), [Done])
    else if s.allowed && !s.inTransfer then
      var i := IndexOf(s.files, s.curId);
      if i >= |s.files| then SenderPanic
      else SenderNext(s.(inTransfer := true), [FileMsg(Meta(s.files[i]))])
    else if s.allowed && s.canSend && s.inTransfer then
      var i := IndexOf(s.files, s.curId);
      if i >= |s.files| then SenderPanic else AfterCut(s, i, NextPiece(s.files[i], c.disk, CHUNK))
    else SenderNext(s, [])
  }

  // ---------------------------------------------------------------- receiver

  function Accepted(c: Setting, downloads: Bytes, m: FileMeta): FileInfo {
    FileInfo(m.id, m.name, c.place(downloads, m), m.rel, m.size, m.checksum, 0)
  }

  function ContentOrEmpty(store: map<Bytes, Bytes>, path: Bytes): Bytes {
    if path in store then store[path] else []
  }

  /** Opening with O_CREATE. */
  function Opened(store: map<Bytes, Bytes>, path: Bytes): map<Bytes, Bytes> {
    store[path := ContentOrEmpty(store, path)]
  }

  /** FILEBYTES: every accepted file with this ID gets the bytes at its own offset. */
  function Absorb(r: Receiver, k: nat, id: nat, data: Bytes): Receiver
    requires k <= |r.accepted|
    decreases |r.accepted| - k
  {
    if k == |r.accepted| then r
    else
      var f := r.accepted[k];
      if f.id != id then Absorb(r, k + 1, id, data)
      else
        var content := WriteAt(ContentOrEmpty(r.store, f.path), f.sent, data);
        Absorb(r.(accepted := r.accepted[k := f.(sent := f.sent + |data|)],
                  received := r.received + |data|, store := r.store[f.path := content]), k + 1, id, data)
  }

  /** SYMLINK: made in the folder, its target joined to it, unless its place is taken or blocked. */
  function WithLink(c: Setting, root: Bytes, store: map<Bytes, Bytes>, links: map<Bytes, Bytes>, link: Link): map<Bytes, Bytes> {
    var at := Paths.Join(root, link.path);
    if at in links || c.noLink(store, at) then links else links[at := CleanPaths.Join(root, link.target)]
  }

  function ReceiverReact(c: Setting, r: Receiver, m: Msg): (Receiver, seq<Msg>) {
    match m
    case EncrKey(key) => (r.(key := Some(key)), [])
    case TransferOffer(offer) => (r.(offer := Some(offer)), [])
    case FileMsg(meta) =>
      var f := Accepted(c, r.downloads, meta);
      if f.path in r.store && c.sum(r.store[f.path]) == meta.checksum then
        (r.(received := r.received + meta.size), [AlreadyHave(meta.id)])
      else
        (r.(accepted := r.accepted + [f], store := r.store - {f.path}), [Ready])
    case FileBytes(id, data) => (Absorb(r, 0, id, data), [Ready])
    case EndFile(id) =>
      var i := IndexOf(r.accepted, id);
      if i < |r.accepted| && r.accepted[i].id == id then
        (r.(accepted := RemoveAt(r.accepted, i), store := Opened(r.store, r.accepted[i].path)), [Ready])
      else (r, [Ready])
    case SymlinkMsg(link) => (r.(links := WithLink(c, r.downloads, r.store, r.links, link)), [Ready])
    case Done => (r.(stopped := true), [])
    case Bye => (r.(stopped := true), [])
    case _ => (r, [])
  }

  /** The offer goroutine once the user has answered; `made` says whether the new folder could be created. */
  function ReceiverAnswer(r: Receiver, yes: bool, made: bool): (Receiver, Msg)
    requires r.offer.Some?
  {
    var o := r.offer.value;
    var total := if o.FileOffer? then o.meta.size else o.size;
    var downloads := if yes && o.DirOffer? && made then Paths.Join(r.downloads, o.name) else r.downloads;
    (r.(offer := None, total := total, downloads := downloads, stopped := r.stopped || !yes),
     if yes then Accept else Reject)
  }

  // ------------------------------------------------------------------ system

  /** Both nodes, the two directions of the connection, and every packet the sender has sent so far. */
  datatype System = System(sender: Sender, receiver: Receiver, s2r: seq<Msg>, r2s: seq<Msg>, trace: seq<Msg>)

  datatype Label =
    | SendOffer                           // the goroutine that sends the offer
    | SenderTurn                          // one pass of the sender's loop
    | ReceiverTop                         // the receiver's loop up to waiting for a packet, or its exit
    | ReceiverTurn                        // the receiver takes and handles one packet
    | Answer(yes: bool, made: bool)       // the user answers

  datatype Result = Disabled | Panicked | Took(next: System)

  function InitialSender(): Sender {
    Sender(false, false, false, false, false, false, [], [], 0, 0, 0)
  }

  function InitialReceiver(c: Setting): Receiver {
    Receiver(false, false, false, None, None, [], c.downloads, 0, 0, c.before, map[])
  }

  function Initial(c: Setting): System {
    System(InitialSender(), InitialReceiver(c), [EncrKey(c.key)], [], [EncrKey(c.key)])
  }

  /** SetRelativePaths fails on ACCEPT: some symlink served has a target that cannot be made relative. */
  predicate CannotPrepare(c: Setting, m: Msg) {
    m.Accept? && c.isDir && !c.relatable
  }

  function SenderPass(c: Setting, s: Sender, m: Msg): SenderOutcome {
    if CannotPrepare(c, m) then SenderPanic else SenderTransfer(c, SenderReact(c, s, m))
  }

  /** The folder of a file that arrives cannot be made, or there is a folder in the file's place. */
  predicate CannotStore(c: Setting, r: Receiver, m: Msg) {
    m.FileMsg? && c.noFile(r.store, c.place(r.downloads, m.meta))
  }

  function Step(c: Setting, t: System, l: Label): Result
    requires !c.isDir ==> |c.served| > 0
  {
    match l
    case SendOffer =>
      if t.sender.offered then Disabled
      else
        var m := TransferOffer(OfferOf(c));
        Took(t.(sender := t.sender.(offered := true), s2r := t.s2r + [m], trace := t.trace + [m]))
    case SenderTurn =>
      if t.sender.closed then Disabled
      else if t.sender.stopped then
        Took(t.(sender := t.sender.(closed := true), s2r := t.s2r + [Bye], trace := t.trace + [Bye]))
      else if t.r2s == [] then Disabled
      else
        var o := SenderPass(c, t.sender, t.r2s[0]);
        if o.SenderPanic? then Panicked
        else Took(t.(sender := o.s, r2s := t.r2s[1..], s2r := t.s2r + o.out, trace := t.trace + o.out))
    case ReceiverTop =>
      if t.receiver.closed || t.receiver.waiting then Disabled
      else if t.receiver.stopped then
        Took(t.(receiver := t.receiver.(closed := true), r2s := t.r2s + [Bye]))
      else Took(t.(receiver := t.receiver.(waiting := true)))
    case ReceiverTurn =>
      if t.receiver.closed || !t.receiver.waiting || t.s2r == [] then Disabled
      else if CannotStore(c, t.receiver, t.s2r[0]) then Panicked
      else
        var (r, out) := ReceiverReact(c, t.receiver.(waiting := false), t.s2r[0]);
        Took(t.(receiver := r, s2r := t.s2r[1..], r2s := t.r2s + out))
    case Answer(yes, made) =>
      if t.receiver.closed || t.receiver.offer.None? then Disabled
      else
        var (r, m) := ReceiverAnswer(t.receiver, yes, made);
        Took(t.(receiver := r, r2s := t.r2s + [m]))
  }
}
