# ftu, modelled and proved

ftu sends one file or one directory from a sender to a receiver over one TCP connection. This project models the
sender's loop, the receiver's loop, the packets between them and what feeds them (the directory tree, the partial
checksum), and proves what becomes of every transfer, whatever is served within the limits on sizes and lengths below,
whatever files the receiver has, whatever the interleaving of the two nodes and however the network cuts the byte
stream: **it ends; it ends in a panic if and only if the user agrees and the directory has a symlink with a relative
target, or a file of the receiver's is where a folder must be made, or a folder is where a file must go; otherwise an
agreed transfer leaves every readable file and symlink of the directory where it belongs with the right content, and
nothing else has changed** (`Serving.TransferDirectory`). That theorem is stated in the words of `Promises.dfy`: names
that lead from entry to entry, paths, files, symlinks. No node and nothing that feeds one uses these definitions, so
each of them is an independent account that the code is compared with.

`dafny verify dfyconfig.toml` checks everything.

## How it is built

The model has three layers, and each is proved to refine the one above it.

1. **Messages.** `Protocol.dfy` has one step per loop iteration of either node, one per offer goroutine and one per
   answer of the user, over two FIFO queues. `Invariant.dfy` states the joint invariant, `Steps.dfy` proves it
   inductive, `Trace.dfy`, `Runs.dfy`, `Links.dfy` and `Repeats.dfy` prove what follows for whole runs. The sender's
   flags alone do not say that it may send (`CanSendBytes` stays set after ENDFILE); what makes every packet wanted is
   that exactly one packet is on its way after ACCEPT and that its kind fixes the position of both nodes. These
   theorems are about settings in which nothing makes a node panic (`Servable`). `Hindrances.dfy` lifts them to all
   others: a step either panics or is the step it would be with nothing in the way, and what the receiver has got past
   is an invariant, from which follows exactly when a run ends in a panic (`Hindrances.Fate`).
2. **Bytes.** `Bytes.dfy`, `Ciphers.dfy`, `Packets.dfy`, `Recv.dfy`, `Codec.dfy`, `Send.dfy` and `Wire.dfy` model
   framing, sealing, reassembly, encoders, decoders and senders as the in-place code they are. `ByteRuns.dfy` runs
   the two nodes on raw byte streams and proves that this refines layer 1: no packet that arrives fails to parse,
   to open under the reader's own key, or to decode. `ByteFates.dfy` carries the results of `Hindrances.dfy` over,
   and `Lengths.dfy` says which names and paths fit into packets.
3. **The objects.** `SenderNodes.dfy` and `ReceiverNodes.dfy` are the loops as classes that update their fields and
   `File` records in place and write bytes. `Directions.dfy` is one direction of the connection: a network that hands
   over bytes in pieces of any size, and the goroutine that reads them with `ReadFromConn` and `BytesToPacket` into a
   pipe. `NodeSteps.dfy` and `Sessions.dfy` prove that a turn of either object on the next packet of its pipe, an
   offer, an answer and a loop head are each exactly a step of layer 2. `Transfers.dfy` runs the objects to the end in
   any interleaving, which needs the progress and termination results, and `Serving.dfy` joins it all: from a
   directory on the sender's disk to files and symlinks on the receiver's. `Trees.dfy` (`GetDir`, `GetAllFiles` with
   Go's slices and shared spare capacity) is proved against `Listings.dfy`, `Checksums.dfy` is the sampling loop,
   `CleanPaths.dfy` is `filepath.Clean`, `Rel` and `Join` for symlink targets, which can be any text, `Served.dfy`
   shows which directories and files meet the assumptions of layer 1, `Reaching.dfy` that a listing holds exactly the
   readable files and symlinks that names lead to, and `Ways.dfy` what can be in the way of them.

Three modules say apart from their definitions what small pieces of the code do: `Wording.dfy` gives the bytes of every
packet literally, `ShortBodies.dfy` what a body decodes to that has been cut off anywhere, and `Reactions.dfy` what
either node does with any message in any state.

A `Setting` holds what is fixed for a run: what is served, the key, the checksum function, the receiver's folder, the
receiver's files at the start, and which places are blocked. `Sized` says what it must meet; `Served.TreeSized` proves
that a directory with good, distinct names meets it exactly if it has at most 2^64 files and fewer than 2^64 bytes.
`Servable` adds that nothing makes a node panic. `Local` says that files served are not in each other's way;
`Ways.DirectoryLocal` proves it of every directory. `Transmissible` says that everything fits into packets;
`Lengths.DirectoryTransmissibleIff` turns it into limits on lengths. The cipher is a parameter with `Sound` as its only
demand (opening undoes sealing, sealing adds 28 bytes), and the digest is an arbitrary function: equal checksums are
never taken to mean equal contents.

## Where the code and its comments differ

The model follows the code.

- `src/protocol/headers.go:60` shows READY as `READY!~`; the constant in line 61 is `READY`, without the mark.
- `src/fsys/dir.go:183` says that relative paths begin with a separator and the directory; `filepath.Rel` yields
  `somefile.txt`.
- After REJECT or BYE! the sender does not leave at once but passes through its transfer section
  (`src/node/node.go:382-433`): a rejected run sends DONE before BYE! (`Runs.RejectedRun`).
- ALREADYHAVE is answered when partial checksums agree, although the comment in `src/node/node.go:702` calls it the
  exact same file. Sizes are not compared: `Checksums.SameSampleIff` says for any two files exactly when they are
  hashed alike, and `Checksums.ShortTwin` gives every long file a different one of 2500 bytes with its checksum. So
  the delivery theorems promise the old bytes, not the sender's, for a file that is held, and `Runs.RightBytesIff`
  says exactly when the bytes are the sender's.
- `ReadFromConn` ignores read errors (`src/protocol/recv.go:55`): its loop ends if and only if the whole packet
  arrives (`Recv.Reassemble`), so a stream that ends inside a packet keeps it spinning.
- The size of a directory is a uint64 sum that may wrap around; it is the sum of the file sizes exactly up to that
  (`Trees.GetDir`, `Served.TreeSized`).
- `SetRelativePaths` makes every symlink target relative to the directory served, and `filepath.Rel` fails on a target
  that does not start with a separator, which is how most symlinks are written: one such symlink anywhere in the
  directory makes the sender panic on ACCEPT (`src/node/node.go:355-358`, `Ways.RelativeLinkStops`). An absolute target
  outside the directory is not kept: at the receiver it points as many levels up from the download folder as it lies
  above the directory served (`CleanPaths.JoinRel`).

## Model

| member | source | states |
|---|---|---|
| Serving.TransferDirectory | src/node/node.go:240-917 | For any directory tree with names that a file system allows, any 32-byte key, any sound cipher, any interleaving and segmentation, within the limits on sizes and lengths: a whole transfer by the classes fails exactly if a directory to be gone into cannot be listed; it ends in a panic if and only if the user agrees and names lead to a symlink with a relative target, or to a readable file whose place has a file above it or files below it; otherwise, if the user agreed, every readable file that names lead to is where they lead in the folder, with the sender's bytes or older bytes of the same digest of the sampled bytes, every symlink is there unless its place was taken or blocked, and leads where Rel and Join lead, there are no others, and every other place is as before; if not, all is as before |
| Serving.TransferFile | src/node/node.go:240-917 | The same for a single file: it fails exactly if the file cannot be read, and panics if and only if the user agrees and at the receiver some file is above the file's place or below it |
| Serving.Transfer | src/node/node.go:240-917 | Whatever a sender node serves, connecting it to a new receiver comes to the end the answer calls for, or to a panic exactly if the user agrees and something is in the way |
| Serving.DirectoryDelivery | src/node/node.go:240-917 | The same outcome for every accepted byte run of a directory in which both nodes have left, by names; both byte counters equal the sum of the listed sizes modulo 2^64; and nothing was in its way |
| Serving.FileDelivery | src/node/node.go:240-917 | The same for a single file |
| Serving.DirectoryIsThere | src/node/node.go:662-759 | A finished job, read in terms of the directory listing: all files arrived at their places, no other place touched |
| Serving.LinksAreThere | src/node/node.go:869-902 | A finished job, read in terms of the listing: each symlink is at its place if and only if no file or folder of the receiver's was in its way, its target moved from the directory served to the folder, and there are no others |
| Serving.LinkIsThere | src/node/node.go:891-898 | One symlink of a finished job: it is there if and only if before the run its place held nothing, no file was above it and none below it; and it leads as many levels up from the folder as the target lies above the directory served, and then down, for the one point at which the two paths part |
| Serving.LimitsAreEnough | src/node/node.go:240-310 | The limits on sizes, counts and lengths, in numbers, are all that the theorems on runs ask of a directory under a 32-byte key |
| Serving.DirectoryOffered | src/protocol/send.go:80-136 | The offer of a directory carries its name and the sum of the sizes listed, modulo 2^64 |
| Serving.FileOffered | src/protocol/send.go:80-136 | The offer of a file carries its name, its length and the digest of its sampled bytes |
| Serving.FileAnnounced | src/node/node.go:435-465 | A FILE packet carries the position in the queue, the last of the names that lead to the file, its length, the digest of its sampled bytes and all the names with separators between them |
| Reaching.ListedIff | src/fsys/dir.go:75-157 | A path is among the paths of the listing if and only if it is reached by names, through directories only if served recursively, ends at a regular file and can be read; whatever the name |
| Reaching.ListedLinkIff | src/fsys/dir.go:103-177 | The same of symlinks whose target can be read, with their targets |
| Reaching.ReachedIsListed | src/fsys/dir.go:114-127 | Every readable file that names lead to is in the listing |
| Reaching.ListedIsReached | src/fsys/file.go:49-87 | Whatever is in the listing is what names lead to, recorded with its name, path, length and checksum |
| Reaching.ListableIff | src/fsys/dir.go:60-92 | Reading succeeds exactly if every directory below can be listed |
| Reaching.PlaceOfNames | src/node/node.go:673-678 | What names lead to in the directory served goes where the same names lead in the folder |
| Reaching.NoFileIff | src/node/node.go:680-698 | A place is blocked exactly if a file's path with a separator behind it is a prefix of it, or it with a separator behind it is a prefix of a file's path |
| Reaching.TreeIsWellNamed | src/fsys/dir.go:75-136 | What is asked of names is what a file system guarantees: not empty, no separator, not the two dot names, different in one directory |
| Ways.DirectoryFate | src/node/node.go:240-917 | A run of messages that serves a directory and cannot go on has ended in a panic if and only if the user agreed and, by names, a symlink is relative or a place is blocked; in all other cases both nodes have left |
| Ways.RelativeLinkStops | src/fsys/dir.go:196-207 | The input: /d with the one symlink b -> a, whatever the receiver has; this transfer meets the condition for the panic |
| Ways.FileInPlaceOfFolderStops | src/node/node.go:680-684 | The input: s/f served from /d into /r where /r/s is a file; this transfer meets the condition for the panic |
| Ways.FolderInPlaceOfFileStops | src/node/node.go:686-698 | The input: the single file f into /r where there is /r/f/x; this transfer meets the condition for the panic |
| Ways.ThereByNames | src/node/node.go:662-902 | A directory that is there entry by entry of its listing is there by names |
| Ways.DirectoryHindered | src/node/node.go:355-684 | What stops the transfer of a directory: names lead to a symlink whose target does not start with a separator, or to a readable file with some file of the receiver's above or below its place, as quantifiers over the receiver's files |
| Ways.StoreFails | src/node/node.go:680-698 | A FILE packet makes the receiver panic exactly if at that moment some file is above the place of the file announced, or below it, as a quantifier over the files it then has |
| Ways.DirectoryLocal | src/node/node.go:673-684 | The files of a directory are never in each other's way: what blocks one at any moment was there before the run |
| Ways.FileHindered | src/node/node.go:673-684 | What stops the transfer of a single file: some file of the receiver's above or below its place |
| Ways.TargetsAreClear | src/node/node.go:673-684 | No file's destination lies above another file's |
| Ways.LinkIsClear | src/node/node.go:889-898 | No symlink's place is a file's destination, above one or below one |
| Hindrances.Fate | src/node/node.go:240-917 | For any setting: a run that cannot go on has ended in a panic if and only if the user agreed and something is in the way; otherwise both nodes have left |
| Hindrances.SameStep | src/node/node.go:313-916 | A step panics over what is in the way, or is the step it would be with nothing in the way |
| Hindrances.GotPastKept | src/node/node.go:346-684 | Every step keeps: no file the receiver has handled was blocked, and after ACCEPT every symlink could be made relative |
| Hindrances.PanicIsHindrance | src/node/node.go:355-684 | A panic at any moment of a run means that the user agreed and that something was in the way from the start |
| Hindrances.HinderedNeverEnds | src/node/node.go:355-684 | If something is in the way, an agreed transfer never comes to both nodes having left |
| Hindrances.RunsEnd | src/node/node.go:313-916 | Runs are bounded, hindered or not |
| Hindrances.GoesOnOrPanics | src/node/node.go:313-916 | A run in which a node has not left can go on or panics |
| ByteFates.HinderedRunRefines | src/node/node.go:312-917 | Every run on bytes is a run on messages by the same steps, up to a panic too |
| ByteFates.CrashIsHindrance | src/node/node.go:355-684 | A crash on bytes is never one of parsing, opening or decoding: the user agreed and something was in the way |
| ByteFates.EndIsUnhindered | src/node/node.go:240-917 | A run on bytes in which both nodes have left was not hindered, or was refused, and has ended as the answer says |
| CleanPaths.JoinRel | src/node/node.go:896-898 | For any root, base and absolute target, and the one k at which the clean paths of base and target part: joined to the root the relative target is the place as many levels up as the base goes on behind k, and then down what the target has behind k |
| CleanPaths.RelIs | src/fsys/dir.go:201-205 | Rel for any k such that the first k names agree and behind them the paths end or differ: ".." for each further name of the base, then the further names of the target; "." for the base itself |
| CleanPaths.RelFails | src/fsys/dir.go:201-205 | Rel fails exactly on targets that do not start with a separator |
| CleanPaths.PartOnce | src/fsys/dir.go:201-205 | There is one such k, which the code finds |
| CleanPaths.LeadsOnce | src/node/node.go:896-898 | A target leads to one place only |
| CleanPaths.NextToBase | src/fsys/dir.go:201-205 | A target next to the base is "../" and its name, and leads next to the root |
| CleanPaths.BesideExample | src/node/node.go:896-898 | Whatever the letters: /a/c is "../c" seen from /a/b, and below /r/s it is /r/c |
| CleanPaths.CleanRules | src/fsys/dir.go:201-205 | At the end of any path cleaning drops separators and ".", drops a name with the ".." behind it, and drops ".." at the root |
| CleanPaths.CleanFront | src/node/node.go:896-898 | What comes before a separator can be cleaned first, so these rules apply anywhere |
| CleanPaths.CleanIff | src/node/node.go:896-898 | The paths that cleaning leaves as they are: the root, and entry names with separators in front |
| CleanPaths.JoinOfRel | src/fsys/dir.go:201-205 | Joined to the directory served itself, the relative target is the target, cleaned |
| CleanPaths.MovedBelow | src/node/node.go:896-898 | A target below the base leads to the same place below the receiver's folder |
| CleanPaths.PlainRel | src/fsys/dir.go:187-197 | On paths made of entry names Rel is cutting off the base |
| CleanPaths.PlainJoin | src/node/node.go:675-677 | On such paths Join is putting the folder in front |
| Repeats.SecondTransfer | src/node/node.go:686-727 | After an agreed transfer has ended, a second one of the same things into the same folder that ends sends each FILE and SYMLINK once, in order, and no file bytes, 4 + files + symlinks packets in all, and the receiver's files stay the same |
| Repeats.NotHinderedAgain | src/node/node.go:673-684 | Nothing is in the way of that second transfer |
| Repeats.DoneIsHeld | src/node/node.go:696-703 | Once DONE has been sent in an accepted run every file served is held |
| Repeats.HeldTrace | src/node/node.go:390-412 | The whole trace of an accepted transfer of files that are all held, packet by packet |
| Repeats.HeldUnchanged | src/node/node.go:686-727 | It changes no file of the receiver's |
| Serving.ServeDirectory | src/node/node.go:252-265 | Reading a directory gives a sender node that serves exactly the listing, with the symlinks and the size read, or fails, and it fails exactly if a directory that must be listed cannot be |
| Serving.ServeFile | src/node/node.go:257-277 | The same for a single file |
| Transfers.RunToEnd | src/node/node.go:312-917 | The two objects, their readers and the network, going on in any order from the key packet, come to an end: a panic if and only if the user agrees and something is in the way; otherwise both nodes have left and the receiver is as the answer says, and no pipe ever holds more than two packets |
| Transfers.Round | src/node/node.go:312-917 | In every state reached somebody can go on, and whoever does takes a step of the byte system, or moves bytes that it does not see, or panics where the byte system crashes |
| Transfers.ReachedIsHealthy | src/node/node.go:313-916 | What each turn needs holds in every state reached: no second ACCEPT, only whole packets under way, and a node that can move |
| Sessions.Session.SenderTurn | src/node/node.go:324-529 | A pass of the sender object over the next packet of its pipe is exactly the byte system's step, and a panic exactly its crash |
| Sessions.Session.ReceiverTurn | src/node/node.go:562-916 | The same for the receiver object |
| Sessions.Session.OfferTurn | src/node/node.go:309-310 | The goroutine that sends the offer takes the byte system's offer step |
| Sessions.Session.SenderLeaves | src/node/node.go:314-318 | Leaving the sender's loop is the byte system's step |
| Sessions.Session.ReceiverTop | src/node/node.go:547-563 | The head of the receiver's loop is the byte system's step |
| Sessions.Session.AnswerTurn | src/node/node.go:582-660 | The offer goroutine's answer is the byte system's step |
| Sessions.Session.constructor | src/node/node.go:296-310 | Two new nodes on a new connection, the key sent, are in the byte system's initial state |
| Sessions.Connect | src/node/node.go:296-310 | The same with the connection made too |
| NodeSteps.SenderTurnIsStep | src/node/node.go:324-529 | What Iterate does with the first packet of the stream is the step, on values |
| NodeSteps.ReceiverTurnIsStep | src/node/node.go:562-916 | The same for the receiver |
| NodeSteps.OutIsAll | src/node/node.go:417-521 | What a class writes for one pass is what the wire writes for all messages of that pass |
| NodeSteps.ReachableBytes | src/protocol/recv.go:69-89 | In every state reached both streams are whole packets as they were sent, two at most, and ACCEPT is not next once it has been acted on |
| Directions.Direction.Deliver | src/protocol/recv.go:55-58 | The network hands over any piece of what was written: what is under way stays the same |
| Directions.Direction.ReadNext | src/protocol/recv.go:69-89 | One round of ReceivePackets moves the next packet from the stream to the pipe, changes nothing else under way, and never meets a malformed packet |
| Directions.Direction.Take | src/node/node.go:325 | The loop takes the oldest packet |
| Directions.PipeIsPrefix | src/protocol/recv.go:87 | A pipe holds the first of the packets sent, in order, and the stream the rest |
| ByteRuns.ByteOutcome | src/node/node.go:582-660 | A run on bytes that has ended was answered; with yes the job is done, in the download folder or in the directory offered if it could be made; with no the receiver has what it had |
| ByteRuns.RunRefines | src/node/node.go:312-917 | Every run on bytes is a run on messages by the same steps, ending in the same nodes |
| Runs.AnswerDecides | src/node/node.go:618-659 | No run ends without an answer, and it ends accepted if and only if the answer was yes |
| Runs.RunFolder | src/node/node.go:621-632 | The receiver's folder after any steps, exactly |
| Runs.RightBytesIff | src/node/node.go:696-703 | At DONE a destination holds the sender's bytes if and only if the file was not held or what was held were the sender's bytes |
| Runs.OthersUntouched | src/node/node.go:662-853 | At every moment a place that is no destination holds what it held before |
| Runs.RejectedRun | src/node/node.go:382-433 | A finished run without ACCEPT has sent exactly ENCRKEY, TRANSFEROFFER, DONE, BYE!, left the receiver's files alone and made no symlink |
| Runs.FolderKept | src/node/node.go:621-632 | The receiver's folder is its download folder until it answers, then that or the offered directory in it |
| Links.LinkDelivery | src/node/node.go:869-902 | At DONE every served symlink is at its place, with its relative target joined to the folder, unless a file or an earlier symlink has the place; there are no other symlinks |
| Links.LinksKept | src/node/node.go:417-422 | At every step the symlinks made are those that have arrived, in order |
| Links.LinksMadeAt | src/node/node.go:896-898 | A place holds a symlink if and only if one goes there and no file is in the way |
| Recv.Reassemble | src/protocol/recv.go:43-61 | The reassembly loop itself, watched for any number of rounds: it ends if and only if the whole packet is in the stream, whatever the sizes of the reads, and it takes no byte beyond |
| Recv.ReadFromConn | src/protocol/recv.go:33-64 | On every stream: the next packet's bytes with the stream right behind them, an error exactly at the end of the stream, and no end exactly if the stream ends inside the packet |
| Recv.ReceivePackets | src/protocol/recv.go:69-89 | On every stream: the pipe gets exactly its packets, in order, up to a malformed one, and the loop hangs exactly if a packet is cut off |
| Recv.NextIs | src/protocol/recv.go:33-64 | A size n and what is behind it: the next n bytes are the packet, or the loop stalls if there are fewer |
| Recv.StreamEnds | src/protocol/recv.go:69-89 | Behind any whole packets: fewer than eight bytes end the stream, a packet cut off hangs the loop, bytes without a delimiter end it; the packets before are all there |
| Checksums.SameSampleIff | src/checksum/checksum.go:40-82 | When any two files are hashed alike, in four cases by their lengths, in numbers |
| Checksums.ShortTwin | src/checksum/checksum.go:53-61 | Every file of at least 14750 bytes shares its checksum with a different file of 2500 bytes |
| Send.CutsPartition | src/protocol/send.go:143-211 | With a key or without: the pieces repeated calls cut off a file put together are what was left of it |
| Send.CutsFull | src/protocol/send.go:172-183 | None of them is empty, none is longer than 131006 bytes (131054 without a key), and all but the last are that long |
| Send.CutsCount | src/protocol/send.go:172-183 | There are as many as the bytes left divided by that room, rounded up |
| SenderNodes.SenderNode.SetRelativePaths | src/fsys/dir.go:185-211 | Every file record gets its path below the base, every symlink both its paths, and nothing else changes; it fails exactly if a symlink's target is relative |
| SenderNodes.SenderNode.SetRelativeLinks | src/fsys/dir.go:194-207 | Its second loop, over the symlinks, which stops at the first target that cannot be made relative |
| SenderNodes.SenderNode.PrepareFiles | src/node/node.go:346-379 | ACCEPT: relative paths, IDs in queue order, the queue and the symlinks to send, or the panic if a path cannot be made relative |
| SenderNodes.SenderNode.SendOffer | src/protocol/send.go:80-136 | The offer written is that of the file or directory the node serves |
| SenderNodes.SenderNode.Greet | src/node/node.go:301-304 | The key packet is written |
| SenderNodes.SenderNode.AfterPiece | src/node/node.go:484-527 | ENDFILE, removal from the queue and the next ID at the end of a file; else CanSendBytes is cleared |
| Trees.GetInner | src/fsys/dir.go:83-97 | An inner directory is read on its own: it shares no array and no record with the one being built |
| Trees.ReadInner | src/fsys/dir.go:83-97 | An inner directory adds its files and its size |
| Served.FilesNotAbove | src/fsys/dir.go:75-136 | No file of a listing lies below another |
| Served.LinkIsNoFile | src/fsys/dir.go:103-127 | No symlink of a listing has a file's path |
| Served.AllLinksDistinct | src/fsys/dir.go:160-177 | No two symlinks of a listing have the same path |
| Served.FileNotAboveLink | src/fsys/dir.go:75-136 | No symlink of a listing lies below a file |
| Served.LinkNotAboveFile | src/fsys/dir.go:75-136 | No file of a listing lies below a symlink |
| Serving.FilesToSend | src/node/node.go:359 | Flattening the tree leaves every file record as GetFile made it |
| ByteRuns.ByteDelivery | src/node/node.go:296-917 | For every run on raw bytes: no panic (so every packet opens with the key it was sealed with and decodes), the run can go on until both nodes have left, its length is bounded, and once DONE is sent in an accepted run the job is done |
| ByteRuns.CarrierDelivery | src/node/node.go:312-917 | The same over any wire that carries messages faithfully, whatever its format |
| ByteRuns.ByteStepRefines | src/node/node.go:313-530 | Each step on bytes is the step on messages and does not crash |
| ByteRuns.WireIsFaithful | src/node/node.go:296-337 | What either node writes is what the other reads: the key packet by a receiver without a key, everything later under that key |
| ByteRuns.WireCarries | src/protocol/send.go:173-182 | All packets a run can produce fit the packet limit, given that names and paths do |
| Lengths.DirectoryTransmissibleIff | src/protocol/send.go:37-49 | Everything about a directory fits into packets if and only if the key has 16, 24 or 32 bytes, the name has at most 131013 bytes, each file's name, checksum and relative path together at most 130999, and each symlink's two paths at most 131020 |
| Lengths.FileTransmissibleIff | src/protocol/send.go:37-49 | The same for a single file: a key of 16, 24 or 32 bytes, and name and checksum together at most 130989 bytes, which the offer decides |
| Runs.Delivery | src/node/node.go:415-529 | Once DONE has been sent in an accepted run every destination holds the sender's bytes or a file held from before with equal checksum; all other places are as before; no file is left open |
| Runs.AcceptedRun | src/node/node.go:313-530 | A finished accepted run has sent exactly ENCRKEY, TRANSFEROFFER, per file FILE or FILE FILEBYTES* ENDFILE, then the symlinks, DONE, BYE!; the packet count is 4 + per file 1 if held, else 2 + ceil(size/131006), + one per symlink; the folder is the download folder or the offered directory in it |
| Runs.RestLength | src/node/node.go:417-521 | Length of the rest of the trace from any file and symlink on |
| Runs.PiecesLength | src/protocol/send.go:173-193 | A file takes ceil(bytes left / 131006) pieces and one ENDFILE |
| Runs.RunsTerminate | src/node/node.go:313-916 | No run is longer than a bound fixed by the setting: every run ends |
| Runs.StepDecreases | src/node/node.go:313-916 | Every step makes the measure smaller |
| Runs.Progress | src/node/node.go:313-916 | No deadlock: a run in which a node has not left yet can go on |
| Runs.Completes | src/node/node.go:313-916 | Every run goes on to an end in which both nodes have left, and an accepted one to the whole trace with its DONE |
| Runs.NeverPanics | src/node/node.go:435-528 | In no reachable state does a step index out of the queue or fail a read |
| Runs.LockStep | src/node/node.go:342-348 | After ACCEPT and before DONE exactly one packet is on its way in both directions together, and never more than two in one direction, so the 100-slot pipe never fills |
| Runs.QueueAgreement | src/node/node.go:390-412 | After ACCEPT the queue is the rest of the original list in order with IDs from CurrentFileID on, the search by ID lands on its head, and every ALREADYHAVE on its way names that head |
| Runs.ReceiverPrefix | src/node/node.go:772-793 | The receiver has at most one file open, with the name, relative path, size and checksum announced; what is stored for it is the sender's content up to the receiver's offset, whatever was there before; offset plus payload on its way is the sender's offset |
| Runs.ByteConservation | src/node/node.go:404-484 | Sender's count = sizes of finished and held files + current offset; receiver's count differs by payload on its way and by a held file the sender has not heard of; at DONE both equal the announced totals |
| Runs.EndfileVerifies | src/node/node.go:828-844 | Whenever an ENDFILE is on its way, what the receiver has stored has the announced checksum |
| Runs.RunKeeps | src/node/node.go:240-917 | The joint invariant, the trace equation and the folder hold at the end of every run |
| Steps.StepKeeps | src/node/node.go:313-916 | Every step of either node keeps the joint invariant and does not panic |
| Steps.InitialHolds | src/node/node.go:296-310 | The invariant holds when the key has been sent |
| Steps.AlreadyHaveTurn | src/node/node.go:390-412 | ALREADYHAVE and the transfer section after it keep the invariant |
| Steps.PieceTurn | src/node/node.go:471-521 | READY with bytes left keeps the invariant |
| Steps.EndTurn | src/node/node.go:486-518 | READY at the end of a file, with CanSendBytes left set after ENDFILE, keeps the invariant |
| Steps.FileArrives | src/node/node.go:662-759 | FILE is answered with ALREADYHAVE exactly for held files, else a different file at the place is removed and READY sent |
| Steps.BytesArrive | src/node/node.go:761-798 | A FILEBYTES packet extends the stored prefix by its payload and is answered with READY |
| Steps.EndArrives | src/node/node.go:800-853 | ENDFILE closes the one open file, which is then complete (an empty one is created) |
| Steps.AnswerKeeps | src/node/node.go:582-660 | Either answer of the user leads to a state of the invariant |
| Trace.TraceKept | src/node/node.go:415-529 | Packets sent so far followed by those left are always the whole trace |
| Trace.PassEmits | src/node/node.go:339-529 | One loop pass of an accepted sender sends the next packet of the trace and nothing else |
| Trace.PiecesPartition | src/protocol/send.go:143-211 | The pieces cut from a file are non-empty, at most 131006 bytes each, carry its ID, end with ENDFILE, and put together are the file |
| SenderNodes.SenderNode.Iterate | src/node/node.go:324-529 | One pass of the class's loop: opens and decodes the packet, ends in the state and writes the bytes that the message model says, or panics where it does |
| SenderNodes.SenderNode.Open | src/node/node.go:331-337 | Opening a packet with the node's own key and decoding it |
| SenderNodes.SenderNode.React | src/node/node.go:339-413 | The switch over headers, in place; false exactly where it panics |
| SenderNodes.SenderNode.Transfer | src/node/node.go:415-529 | The transfer section, in place, with the bytes it writes |
| SenderNodes.SenderNode.QueueFiles | src/node/node.go:364-371 | The queue is the list found, numbered 0, 1, ..., with distinct IDs |
| SenderNodes.RangeAndRemove | src/node/node.go:398-412 | The ranging loop over a shifting backing array removes exactly the one file with the ID, keeps the order of the rest, counts it once, and removes nothing if there is none |
| SenderNodes.RemoveSlot | src/node/node.go:400 | append(s[:i], s[i+1:]...) in place: later slots move down, the last is stale |
| SenderNodes.Remaining | src/node/node.go:398-412 | The same for the slice that is kept |
| SenderNodes.SenderNode.DropFromQueue | src/node/node.go:398-412 | The queue after ALREADYHAVE, and how many files and bytes went |
| SenderNodes.SenderNode.AlreadyHaveFile | src/node/node.go:390-412 | Queue, current ID and byte count after ALREADYHAVE |
| SenderNodes.SenderNode.CurrentIndex | src/node/node.go:439-445 | The index search: the first file with the current ID, 0 if there is none |
| SenderNodes.SenderNode.CutPiece | src/node/node.go:483 | SendPiece moves only the current record of the queue |
| SenderNodes.SenderNode.Disconnect | src/node/node.go:175-194 | Leaving the loop writes BYE! |
| SenderNodes.IndexBefore | src/node/node.go:438-445 | With distinct IDs the search finds the one file with the ID |
| SenderNodes.IndexOfIs | src/node/node.go:438-445 | For any queue the search gives the first file with the ID, or 0 if there is none |
| SenderNodes.PieceIsWritten | src/protocol/send.go:196-210 | A piece is written as the wire layer's FILEBYTES message |
| ReceiverNodes.ReceiverNode.Iterate | src/node/node.go:562-916 | One pass of the receiver's loop, in place, with the bytes of its answer |
| ReceiverNodes.ReceiverNode.Open | src/node/node.go:569-575 | Opening a packet with the node's own key, if it has one, and decoding it with the decoders of the codec |
| ReceiverNodes.ReceiverNode.React | src/node/node.go:577-915 | The switch over headers, in place |
| ReceiverNodes.ReceiverNode.Top | src/node/node.go:547-563 | Loop head: wait for a packet, or write BYE! and leave |
| ReceiverNodes.ReceiverNode.AnswerOffer | src/node/node.go:582-660 | The offer goroutine: totals, folder, ACCEPT or REJECT |
| ReceiverNodes.ReceiverNode.NoteOffer | src/node/node.go:589-632 | Totals and folder by the offer and the answer |
| ReceiverNodes.ReceiverNode.HandleFile | src/node/node.go:662-759 | FILE: panic if the place is blocked, else hold, replace or accept by GetPartialCheckSum, and the answer's bytes |
| ReceiverNodes.ReceiverNode.HandleBytes | src/node/node.go:761-798 | FILEBYTES: written at the file's own offset, counters moved, READY |
| ReceiverNodes.ReceiverNode.HandleEnd | src/node/node.go:800-853 | ENDFILE: the file leaves the pool, READY |
| ReceiverNodes.ReceiverNode.HandleLink | src/node/node.go:869-902 | SYMLINK: created unless its place is taken or blocked, its target joined to the folder and cleaned; READY |
| ReceiverNodes.AbsorbIs | src/node/node.go:772-793 | FILEBYTES moves the offset of every accepted file with the ID and of no other, adds the length once for each to the byte count, and leaves all other places alone |
| ReceiverNodes.AbsorbWrites | src/node/node.go:772-793 | For the one file with the ID the bytes are laid over its content at its own offset |
| Reactions.AnswersAre | src/node/node.go:577-915 | What the receiver answers to any message in any state |
| Reactions.StopsAtTheEnd | src/node/node.go:903-915 | DONE and BYE! stop the receiver and nothing else does |
| Reactions.EndIs | src/node/node.go:800-853 | ENDFILE takes the first file with the ID out of the pool, leaves the others in order, and creates the file if it is not there |
| Reactions.EndOfNone | src/node/node.go:800-853 | ENDFILE with an unknown ID changes nothing |
| Reactions.UnknownToReceiver | src/node/node.go:577-915 | A header other than the eight changes nothing and is not answered, whatever the body |
| Reactions.UnknownToSender | src/node/node.go:340-413 | A header other than the five changes nothing at the sender |
| Reactions.NoWholeId | src/node/node.go:761-812 | Without a whole ID the receiver panics, and the sender takes it for file 0 |
| Reactions.SenderStops | src/node/node.go:382-412 | REJECT and BYE! stop the sender and nothing else does; ALREADYHAVE of a file not queued changes nothing |
| Reactions.HeldIs | src/node/node.go:390-412 | ALREADYHAVE takes the first queued file with the ID out of the queue and counts its size as sent |
| Bytes.ValueOfBigEndian | src/protocol/packetConstruct.go:41-68 | Reading a big-endian number back gives the number |
| Bytes.BigEndianOfValue | src/protocol/packetDecode.go:43-104 | Every byte string is the big-endian form of its value |
| Bytes.TakeAfterPut | src/protocol/packetDecode.go:43-104 | A uint64 written in front of anything is read back, and the rest remains |
| Ciphers.DecryptAfterEncrypt | src/encryption/encrypt.go:32-45 | With a key that can be used sealing succeeds, adds 28 bytes and is undone by opening |
| Ciphers.ProgramKeys | src/encryption/key.go:28 | A key of 32 bytes, as the program generates it, always seals, adding 28 bytes, and opens what it sealed |
| Ciphers.SoundCipherExists | src/encryption/decrypt.go:32-51 | What is asked of the cipher can be met |
| Packets.ParseRaw | src/protocol/packet.go:57-79 | Parsing undoes framing if and only if the header has no delimiter; bodies may hold anything |
| Packets.RawParse | src/protocol/packet.go:57-79 | Bytes parse if and only if they hold a delimiter, and framing the result gives them back |
| Packets.Packet.ToBytes | src/protocol/packet.go:84-106 | Size field, header, delimiter, body; nothing if over 131072 bytes |
| Packets.Packet.Size | src/protocol/packet.go:47-54 | The size is that of header, delimiter and body |
| Packets.Packet.EncryptBody | src/protocol/packet.go:109-118 | The body is replaced by its sealed form exactly if the key has 16, 24 or 32 bytes, and left as it is otherwise |
| Packets.Packet.DecryptBody | src/protocol/packet.go:121-134 | An empty body is left alone; any other is opened in place exactly if the key has 16, 24 or 32 bytes, the body at least 12, and the seal is good |
| Packets.BytesToPacket | src/protocol/packet.go:57-79 | The scan splits at the first delimiter, and fails exactly if there is none |
| Recv.PacketsOfStream | src/protocol/recv.go:69-89 | The packets of a stream of sent packets are the packets sent, whatever follows |
| Recv.SendAndReceive | src/protocol/send.go:37-49 | Sending any list of packets and receiving it over any segmentation gives that list |
| Codec.MetaRoundTrip | src/protocol/packetDecode.go:35-109 | Decoding an encoded FILE body gives back ID, name, size, checksum and relative path, empty ones too |
| Codec.OfferRoundTrip | src/protocol/packetDecode.go:151-189 | Decoding an encoded offer gives back the one file or directory offered |
| Codec.DirRoundTrip | src/protocol/packetDecode.go:112-146 | Decoding an encoded directory gives back name and size |
| Codec.LinkRoundTrip | src/node/node.go:869-888 | Decoding an encoded symlink gives back path and target |
| ShortBodies.TruncatedMeta | src/protocol/packetDecode.go:35-109 | A FILE body cut off after any number of bytes is refused, except behind the first byte of the relative path, the rest of which then reads as zeros |
| ShortBodies.TruncatedDir | src/protocol/packetDecode.go:112-146 | A DIRECTORY body cut off anywhere is refused |
| ShortBodies.TruncatedLink | src/node/node.go:871-888 | A SYMLINK body cut off anywhere is read all the same: zeros for what is missing behind a length, nothing where there is none |
| Codec.IdRoundTrip | src/node/node.go:764-770 | The ID in front of a FILEBYTES, ENDFILE or ALREADYHAVE body is read back, with what follows |
| Codec.CreateFilePacket | src/protocol/packetConstruct.go:32-72 | The buffer writes make the FILE body whose decoding MetaRoundTrip describes |
| Codec.CreateDirectoryPacket | src/protocol/packetConstruct.go:75-103 | The same for DIRECTORY |
| Codec.DecodeFilePacket | src/protocol/packetDecode.go:35-109 | The reads of the cursor compute the decoding; a wrong header or a truncated body is an error |
| Codec.DecodeDirectoryPacket | src/protocol/packetDecode.go:112-146 | The same for DIRECTORY |
| Codec.DecodeTransferPacket | src/protocol/packetDecode.go:151-189 | Picks file or directory by the first byte |
| Codec.DecodeSymlink | src/node/node.go:871-888 | The reads of a SYMLINK body compute the decoding, whatever the body |
| Send.SendPiece | src/protocol/send.go:143-211 | The record moves by the piece sent, the packet of exactly those bytes is written, the three kinds of result are told apart, and nothing happens at the end of the file |
| Send.BytesToSend | src/protocol/send.go:172-183 | How many file bytes go into the packet, without a subtraction going below zero |
| Send.RoomIs | src/protocol/send.go:173-178 | Room is 131006 bytes encrypted, which is what the model of whole runs cuts files into, and 131054 not |
| Send.PieceIsSent | src/protocol/send.go:175-208 | No piece, sealed or not, ever makes a packet that ToBytes rejects; sealed, 20 bytes stay free |
| Send.SendPacket | src/protocol/send.go:37-49 | The packet's bytes are written, or nothing and an error if it is too big |
| Send.SendTransferOffer | src/protocol/send.go:80-136 | The offer is encoded, sealed and written |
| Send.SendEncryptionKey | src/protocol/send.go:52-73 | The key is written unsealed behind its length |
| Send.SendSymlink | src/protocol/send.go:214-244 | Path and target are encoded, sealed and written |
| Wire.SenderReadsWritten | src/node/node.go:324-337 | A message to the sender, written under a key, is the next one read under that key, and the stream goes on right behind it |
| Wire.ReceiverReadsWritten | src/node/node.go:562-575 | The same for messages to the receiver |
| Wire.KeyReadsWritten | src/node/node.go:855-865 | ENCRKEY is read by a receiver that has no key yet |
| Wire.BareWritten | src/protocol/packet.go:121-134 | Control packets are the same bytes with any key or none |
| Wording.PacketIs | src/protocol/headers.go:35-123 | For every message and every 32-byte key the literal bytes written: size in eight bytes, the header as text, "~", and the body, in the clear for the key and sealed otherwise |
| Wording.FieldsAre | src/protocol/packetConstruct.go:32-103 | The fields of every body in their order, texts behind their lengths, numbers in eight bytes, the codes f and d |
| Wording.ControlPackets | src/protocol/headers.go:35-123 | READY~, ACCEPT~, REJECT~, DONE~ and BYE!~ behind their sizes, with any key or none |
| Wording.PutU64Is | src/protocol/packetConstruct.go:41-68 | A uint64 is written as its eight base-256 digits, the most significant first |
| Wording.TooBigIs | src/protocol/send.go:37-49 | A message whose packet would exceed 131072 bytes is not written; for FILE and FILEBYTES that is a panic |
| Wire.DecodeAtReceiver | src/node/node.go:577-888 | Header by header, the receiver's reads compute what the wire layer says a packet means, or panic where it says so |
| Wire.DecodeAtSender | src/node/node.go:390-396 | The same for the sender |
| Checksums.GetPartialCheckSum | src/checksum/checksum.go:38-83 | The digest of the whole file below 14750 bytes, else of the 2500 bytes x[300 * (k / 50) + k % 50]: no read is short |
| Checksums.ReadAt | src/checksum/checksum.go:68 | Fills as much of the buffer as the file has from the offset on |
| Checksums.BlocksAt | src/checksum/checksum.go:63-76 | Byte k of the blocks is byte 300 * (k / 50) + k % 50 of the file |
| Checksums.SampleIs | src/checksum/checksum.go:40-82 | What is hashed of any file, in numbers: all of it below 14750 bytes, else those 2500 bytes |
| Checksums.SampleDecides | src/checksum/checksum.go:40-82 | Two files of 14750 bytes or more are hashed alike if and only if they agree at every p below 14750 with p % 300 < 50 |
| Checksums.AgreeIff | src/checksum/checksum.go:78-82 | Checksums agree under every digest if and only if the bytes hashed are the same |
| Checksums.OneByteNoticed | src/node/node.go:696-703 | Changing byte p is noticed if and only if the file is shorter than 14750 bytes, or p is below 14750 and p % 300 below 50 |
| Trees.GetDir | src/fsys/dir.go:43-136 | Builds fresh records for exactly the files of the listing, in order; Size is their total size as a uint64; no two directories share an array; fails exactly if a directory cannot be listed |
| Trees.GetAllFiles | src/fsys/dir.go:139-157 | Every file once, a directory's own before those below it; the visible files of no directory change, though append may reuse spare capacity |
| Trees.GetAllSymlinks | src/fsys/dir.go:160-177 | Every symlink once, in the same order |
| Trees.Append | src/fsys/dir.go:149 | append: the old slice stays what it was, the new one has the additions, in the same array or a fresh one |
| Trees.AppendBehind | src/fsys/dir.go:146-150 | Appending to a slice that shares a directory's own array changes nothing any directory shows |
| Trees.ReadFile | src/fsys/dir.go:114-127 | A file adds itself and its size, an unreadable one is passed over; which ones these are `Reaching.ListedIff` says |
| Trees.GetFile | src/fsys/file.go:49-87 | A fresh record of name, path, size and checksum, for readable files only |
| Trees.AllRead | src/fsys/dir.go:95-133 | Own files and inner files together are the listing, and the size counted is its total |
| Listings.TotalSizeOfBoth | src/fsys/dir.go:95-124 | Sizes add up over joined lists |
| Listings.WrapIsRemainder | src/fsys/dir.go:35 | The wrapping sum is the sum modulo 2^64 |
| Paths.RelOfJoin | src/fsys/dir.go:187 | The path below a base, of something joined to the base, is that something |
| Paths.JoinInjective | src/node/node.go:675-677 | Joining different paths to a folder gives different paths |
| Paths.BlankHasNoSlash | src/node/node.go:673 | Text of white space alone, Unicode's included, has no separator in it |
| Paths.BlankIff | src/node/node.go:673 | Trimming leaves nothing of a text exactly if it is a row of white space characters, listed in UTF-8 |
| Places.DestIs | src/node/node.go:673-678 | The place of any announced file: the folder, a separator, and the relative path, or the name if that is white space only |
| Fsys.WriteAtIs | src/node/node.go:780-790 | Byte by byte: the data at its offset, the old bytes elsewhere, zeros in a gap |
| Places.DestInjective | src/node/node.go:673-678 | Two files share a destination if and only if their local paths are equal |
| Served.AllDistinct | src/fsys/dir.go:75-136 | No two files of a listing with distinct entry names have the same path |
| Served.LocalIsRel | src/node/node.go:673-678 | The receiver's choice of path, blank names included, is the path below the served directory, and that path leads back to the file |
| Served.UnderOne | src/fsys/dir.go:87-116 | Nothing lies under two different entries of one directory |
| Served.DestinationIs | src/node/node.go:673-678 | Each file's destination is the receiver's folder joined with its path below the served directory |
| Served.TreeSized | src/node/node.go:264-265 | A directory meets what the run theorems ask of sizes and places if and only if it has at most 2^64 files and fewer than 2^64 bytes |
| Served.FileSized | src/node/node.go:276-277 | A single file of less than 2^64 bytes does, and goes to the download folder under its own name |
| Served.FilePathIsPlain | src/fsys/dir.go:187-192 | For every file of a tree under a clean path the real Rel and Join give what the plain operations on paths give |
| Served.LinkPathIsPlain | src/fsys/dir.go:195-199 | The same for every symlink's own path |
| Served.SizesAgree | src/node/node.go:265 | The announced size and the sizes of the queued files agree at every prefix |

## Left out

- Sockets, dialling, listening, lost connections and the exit on a closed pipe (`src/node/node.go:155-214`): a connection is two reliable FIFO byte streams with arbitrary segmentation.
- AES-GCM and key generation (`src/encryption`): a pair of functions with `Sound`; the fixed nonce of the source is not modelled. SHA-256 and hex text: one arbitrary function.
- Files on disk as such: open handles, permissions, files that change during a run. A store is a map from paths to bytes; the sender's is fixed. Folders at the receiver are those that files of the store lie in: an empty folder in a file's place, on which the source panics too, is not represented.
- Symlinks at the receiver: symlinks it has before the run, and following a symlink while writing a file, are not modelled.
- `filepath` on paths that are not absolute and clean, except for symlink targets: the directory served and the download folder are taken to be clean absolute paths, as `Served.FilePathIsPlain` needs them; symlink targets are any text.
- Peers that do not follow the protocol: decoders are modelled on every body, but run theorems are about two honest nodes. Allocation panics on huge length fields are not modelled.
- Names and paths too long for one packet: the theorems on bytes ask that FILE, TRANSFEROFFER and SYMLINK packets fit (`Transmissible`), which `Lengths.dfy` turns into limits.
- Prompts, progress output, flags, options and `main.go`: only the yes or no is kept.
- Scheduling inside one loop pass: a pass is one step; the two offer goroutines are steps of their own that interleave with everything.
- Unencrypted transfer: packets and pieces are modelled with and without a key, whole runs with one, as both nodes always have it.
- uint64 wrap of counters and IDs other than the directory size and the subtraction in SendPiece: totals below 2^64 are part of `Sized`.
- Trees.GetAllSymlinks: symlinks are values in sequences, so sharing of their arrays is not modelled; the argument is that of GetAllFiles.
- Trees.GetDir: a directory's own files are collected in a sequence and get their array, of any capacity, at the end; in the source the array grows on the way. A failing `entry.Info` is not modelled.
- Codec.DecodeTransferPacket: an empty body, on which the source panics, is an error like the others.
- SenderNodes.SenderNode.React: asks that ACCEPT come at most once, which `NodeSteps.ReachableBytes` proves of every state a transfer reaches; a second one, which the source would act on, is a peer that does not follow the protocol.
- SenderNodes.SenderNode.Iterate: asks the same.
- SenderNodes.SenderNode.SetRelativePaths: symlinks are values in a sequence that the loop updates, not shared records.
- Paths.RelOfJoin: about paths below the base only; `filepath.Rel` in full is `CleanPaths.Rel`, and `CleanPaths.PlainRel` says where they are the same.
- Paths.JoinInjective: about joining without cleaning; `CleanPaths.PlainJoin` says where `filepath.Join` does no more.
- ReceiverNodes.ReceiverNode.HandleFile: a folder of more than 14750 bytes in the file's place makes the source panic later, when the file is opened for writing; here it panics at FILE, as it does for smaller ones.
- Directions.Direction.ReadNext: a reader takes a packet in one go once all of it has come in; that it may have read a part before that is not a state of its own.
- IDs of the records before ACCEPT and the record `Handler` field, which no property here depends on.
