/** Where the receiver puts a file. */
module Places {
  import opened Bytes
  import opened Fsys
  import Paths

  /** Path below the download folder: the relative path, or the bare name when that is blank. */
  function Local(m: FileMeta): Bytes {
    if Paths.IsBlank(m.rel) then m.name else m.rel
  }

  function Dest(downloads: Bytes, m: FileMeta): Bytes {
    Paths.Join(downloads, Local(m))
  }

  /** The place, character by character: white space in the relative path counts for nothing only if there is nothing else. */
  lemma DestIs(downloads: Bytes, m: FileMeta)
    ensures var blank := exists ws :: (forall k | 0 <= k < |ws| :: Paths.White(ws[k])) && Paths.Flat(ws) == m.rel;
            Dest(downloads, m) == (if downloads == [0x2F] then [0x2F] else downloads + [0x2F]) + (if blank then m.name else m.rel)
  {
    Paths.BlankIff(m.rel);
  }

  lemma DestInjective(downloads: Bytes, a: FileMeta, b: FileMeta)
    ensures Dest(downloads, a) == Dest(downloads, b) <==> Local(a) == Local(b)
  {
    Paths.JoinInjective(downloads, Local(a), Local(b));
  }

  /** A regular file stands where a folder above the place must be. */
  predicate FileAbove(store: map<Bytes, Bytes>, place: Bytes) {
    exists p | p in store :: p + [Paths.SLASH] <= place
  }

  /** There are files below the place: it is a folder. */
  predicate IsFolder(store: map<Bytes, Bytes>, place: Bytes) {
    exists p | p in store :: place + [Paths.SLASH] <= p
  }

  /** A file cannot be put at the place: its folder cannot be made, or it is a folder itself. */
  predicate NoFile(store: map<Bytes, Bytes>, place: Bytes) {
    FileAbove(store, place) || IsFolder(store, place)
  }

  /** A symlink cannot be made at the place: the same, or it is taken. */
  predicate NoLink(store: map<Bytes, Bytes>, place: Bytes) {
    place in store || NoFile(store, place)
  }
}
