/** A second transfer into the same folder: everything is held, so no file bytes are sent and nothing is written. */
module Repeats {
  import opened Bytes
  import opened Fsys
  import opened Protocol
  import opened Invariant
  import opened Trace
  import opened Runs
  import opened Hindrances

  /** The same things served again, to a receiver with these files; key and download folder may be others. */
  ghost predicate Again(c: Setting, store: map<Bytes, Bytes>, c2: Setting) {
    c2 == c.(before := store, key := c2.key, downloads := c2.downloads)
  }

  ghost predicate AllHeld(c: Setting, root: Bytes) {
    forall i | 0 <= i < |c.served| :: Held(c, root, i)
  }

  lemma {:induction false} SameSums(c: Setting, store: map<Bytes, Bytes>, c2: Setting, k: nat)
    requires Again(c, store, c2) && k <= |c.served|
    ensures SizeUpTo(c2, k) == SizeUpTo(c, k)
  {
    if k > 0 {
      SameSums(c, store, c2, k - 1);
    }
  }

  lemma SizedAgain(c: Setting, store: map<Bytes, Bytes>, c2: Setting)
    requires Sized(c) && Again(c, store, c2)
    ensures Sized(c2)
  {
    SameSums(c, store, c2, |c.served|);
    forall i | 0 <= i < |c2.served|
      ensures FileOk(c2, i)
    {
      assert FileOk(c, i);
    }
    forall root: Bytes, i, j | 0 <= i < j < |c2.served|
      ensures Apart(c2, root, i, j)
    {
      assert Apart(c, root, i, j);
    }
  }

  lemma DeliveredIsHeld(c: Setting, root: Bytes, store: map<Bytes, Bytes>, c2: Setting, i: nat)
    requires Servable(c) && Again(c, store, c2) && i < |c.served| && Delivered(c, root, store, i)
    ensures Held(c2, root, i)
  {
    assert FileOk(c, i);
    assert DestOf(c2, root, i) == DestOf(c, root, i);
  }

  /** After an accepted transfer every file served is held, in the folder it went to. */
  lemma DoneIsHeld(c: Setting, run: seq<System>, c2: Setting)
    requires Servable(c) && IsRun(c, run) && Last(run).sender.allowed && Last(run).sender.stopped
    requires Again(c, Last(run).receiver.store, c2)
    ensures AllHeld(c2, Last(run).receiver.downloads)
  {
    Delivery(c, run);
    var r := Last(run).receiver;
    forall i | 0 <= i < |c2.served|
      ensures Held(c2, r.downloads, i)
    {
      DeliveredIsHeld(c, r.downloads, r.store, c2, i);
    }
  }

  /** Packet k of a transfer in which nothing needs to be sent. */
  function Notice(c: Setting, k: nat): Msg
    requires !c.isDir ==> |c.served| > 0
  {
    var files, links := |c.served|, |c.links|;
    if k < 2 then Hello(c)[k]
    else if k < 2 + files then FileMsg(Meta(Prepared(c, k - 2)))
    else if k < 2 + files + links then SymlinkMsg(c.links[k - 2 - files])
    else if k == 2 + files + links then Done
    else Bye
  }

  lemma {:induction false} HeldRest(c: Setting, root: Bytes, i: nat, l: nat, k: nat)
    requires (!c.isDir ==> |c.served| > 0) && AllHeld(c, root) && i <= |c.served| && l <= |c.links|
    requires i < |c.served| ==> l == 0
    ensures |Rest(c, root, i, l)| == (|c.served| - i) + (|c.links| - l) + 2
    ensures k < |Rest(c, root, i, l)| ==> Rest(c, root, i, l)[k] == Notice(c, 2 + i + l + k)
    decreases |c.served| - i, |c.links| - l
  {
    if i < |c.served| {
      assert Held(c, root, i);
      assert Rest(c, root, i, l) == [FileMsg(Meta(Prepared(c, i)))] + Rest(c, root, i + 1, l);
      HeldRest(c, root, i + 1, l, if k == 0 then 0 else k - 1);
    } else if l < |c.links| {
      HeldRest(c, root, i, l + 1, if k == 0 then 0 else k - 1);
    }
  }

  /** The whole trace of an accepted transfer of what is held: each file and symlink is named once, in order. */
  lemma HeldTrace(c: Setting, root: Bytes)
    requires (!c.isDir ==> |c.served| > 0) && AllHeld(c, root)
    ensures var t := AcceptedTrace(c, root);
            && |t| == 4 + |c.served| + |c.links|
            && (forall k | 0 <= k < |t| :: t[k] == Notice(c, k))
  {
    var t := AcceptedTrace(c, root);
    HeldRest(c, root, 0, 0, 0);
    forall k | 2 <= k < |t|
      ensures t[k] == Notice(c, k)
    {
      HeldRest(c, root, 0, 0, k - 2);
    }
  }

  lemma HeldUnchanged(c: Setting, run: seq<System>)
    requires Servable(c) && IsRun(c, run) && Last(run).sender.allowed && Last(run).sender.stopped
    requires AllHeld(c, Last(run).receiver.downloads)
    ensures Last(run).receiver.store == c.before
  {
    var r := Last(run).receiver;
    Delivery(c, run);
    forall p
      ensures SameAt(c.before, r.store, p)
    {
      if Touched(c, r.downloads, |c.served|, p) {
        var i :| 0 <= i < |c.served| && p == DestOf(c, r.downloads, i);
        assert Delivered(c, r.downloads, r.store, i) && Held(c, r.downloads, i);
      }
    }
    SameMaps(c.before, r.store);
  }

  lemma SameMaps(a: map<Bytes, Bytes>, b: map<Bytes, Bytes>)
    requires forall p :: SameAt(a, b, p)
    ensures a == b
  {
    forall p
      ensures p in a <==> p in b
      ensures p in a ==> a[p] == b[p]
    {
      assert SameAt(a, b, p);
    }
  }

  lemma FinalIsStopped(c: Setting, run: seq<System>)
    requires Servable(c) && IsRun(c, run) && Final(Last(run)) && Last(run).sender.allowed
    ensures Last(run).sender.stopped
  {
    RunKeeps(c, run);
    assert Closing(c, Last(run));
  }

  /** If nothing makes a node panic: the second transfer moves no file bytes and changes no file. */
  lemma SecondRun(c: Setting, run: seq<System>, c2: Setting, run2: seq<System>)
    requires Servable(c) && IsRun(c, run) && Last(run).sender.allowed && Last(run).sender.stopped
    requires Again(c, Last(run).receiver.store, c2)
    requires IsRun(c2, run2) && Final(Last(run2)) && Last(run2).sender.allowed
    requires Last(run2).receiver.downloads == Last(run).receiver.downloads
    ensures var t := Last(run2).trace;
            && |t| == 4 + |c.served| + |c.links|
            && (forall k | 0 <= k < |t| :: t[k] == Notice(c2, k))
    ensures Last(run2).receiver.store == Last(run).receiver.store
  {
    SizedAgain(c, Last(run).receiver.store, c2);
    DoneIsHeld(c, run, c2);
    AcceptedRun(c2, run2);
    HeldTrace(c2, Last(run2).receiver.downloads);
    FinalIsStopped(c2, run2);
    HeldUnchanged(c2, run2);
  }

  /**
   * Whatever may be in the way: after an agreed transfer that has ended, a second one of the same things into the
   * same folder that ends too names every file and symlink once, in order, and sends no file bytes; the receiver has
   * the same files before and after it.
   */
  lemma SecondTransfer(c: Setting, run: seq<System>, ls: seq<Label>, c2: Setting, run2: seq<System>, ls2: seq<Label>)
    requires Sized(c) && IsRunBy(c, run, ls) && Final(Last(run)) && Last(run).sender.allowed
    requires Again(c, Last(run).receiver.store, c2)
    requires IsRunBy(c2, run2, ls2) && Final(Last(run2)) && Last(run2).sender.allowed
    requires Last(run2).receiver.downloads == Last(run).receiver.downloads
    ensures var t := Last(run2).trace;
            && |t| == 4 + |c.served| + |c.links|
            && (forall k | 0 <= k < |t| :: t[k] == Notice(c2, k))
            && (forall m | m in t :: !m.FileBytes? && !m.EndFile?)
    ensures Last(run2).receiver.store == Last(run).receiver.store
  {
    var u, u2 := Unhindered(c), Unhindered(c2);
    UnhinderedServable(c);
    SameRun(c, run, ls);
    ByIsRun(u, run, ls);
    assert Again(u, Last(run).receiver.store, u2);
    SizedAgain(c, Last(run).receiver.store, c2);
    UnhinderedServable(c2);
    SameRun(c2, run2, ls2);
    ByIsRun(u2, run2, ls2);
    FinalIsStopped(u, run);
    SecondRun(u, run, u2, run2);
    forall k | 0 <= k < |Last(run2).trace|
      ensures Last(run2).trace[k] == Notice(c2, k)
    {
      assert Notice(c2, k) == Notice(u2, k);
    }
  }

  /** Nothing is in the way of a second transfer into the folder a first one went to. */
  lemma NotHinderedAgain(c: Setting, run: seq<System>, ls: seq<Label>, yes: bool, made: bool, c2: Setting)
    requires Sized(c) && Local(c) && AnsweredBy(c, run, ls, yes, made) && Final(Last(run)) && Last(run).sender.allowed
    requires Again(c, Last(run).receiver.store, c2)
    ensures !Hindered(c2, FolderOf(c, yes, made))
  {
    var u, r := Unhindered(c), Last(run).receiver;
    UnhinderedServable(c);
    SameRun(c, run, ls);
    ByIsRun(u, run, ls);
    RunKeeps(u, run);
    FinalHandled(u, Last(run));
    AgreedFolder(c, run, ls, yes, made);
    if Hindered(c, r.downloads) {
      HinderedNeverEnds(c, run, ls, yes, made);
    }
    RunOnlyDests(c, run, ls);
    forall i | 0 <= i < |c2.served|
      ensures !c2.noFile(c2.before, DestOf(c2, r.downloads, i))
    {
      assert LocalAt(c, r.downloads, r.store, i);
    }
  }
}
