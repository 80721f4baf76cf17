/** How long names and paths may be for everything about a directory or a file to go into packets. */
module Lengths {
  import opened Bytes
  import opened Ciphers
  import opened Fsys
  import opened Codec
  import opened Wire
  import opened Protocol
  import opened Invariant
  import opened Listings
  import opened Served
  import opened ByteRuns
  import Paths

  lemma MetaLength(m: FileMeta)
    ensures |EncodeMeta(m)| == 40 + |m.name| + |m.checksum| + |m.rel|
  {
  }

  lemma FileMsgFitsIff(m: FileMeta)
    requires m.id < U64_LIMIT && m.size < U64_LIMIT
    ensures Fits(FileMsg(m)) <==> |m.name| + |m.checksum| + |m.rel| <= 130999
  {
    MetaLength(m);
  }

  lemma SymlinkFitsIff(l: Link)
    ensures Fits(SymlinkMsg(l)) <==> |l.path| + |l.target| <= 131020
  {
    assert |EncodeLink(l)| == 16 + |l.path| + |l.target|;
  }

  lemma DirOfferFitsIff(name: Bytes, size: nat)
    requires size < U64_LIMIT
    ensures Fits(TransferOffer(DirOffer(name, size))) <==> |name| <= 131013
  {
    assert |EncodeDir(name, size)| == 16 + |name|;
  }

  lemma FileOfferFitsIff(m: FileMeta)
    requires m.id < U64_LIMIT && m.size < U64_LIMIT
    ensures Fits(TransferOffer(FileOffer(m))) <==> |m.name| + |m.checksum| + |m.rel| <= 130989
  {
    MetaLength(m);
  }

  /** The FILE packet of a file as found below the base has room for its texts. */
  predicate ShortFile(base: Bytes, f: FileInfo) {
    |f.name| + |f.checksum| + |Paths.Rel(base, f.path)| <= 130999
  }

  /** The SYMLINK packet of a symlink as found below the base has room for its paths. */
  predicate ShortLink(base: Bytes, l: Link) {
    |Related(base, l).path| + |Related(base, l).target| <= 131020
  }

  lemma SizeWithin(c: Setting, i: nat)
    requires Sized(c) && i < |c.served|
    ensures c.served[i].size < U64_LIMIT
  {
    SizeUpToMonotonic(c, i + 1, |c.served|);
  }

  predicate FileFits(c: Setting, i: nat)
    requires i < |c.served|
  {
    Fits(FileMsg(Meta(Prepared(c, i))))
  }

  predicate LinkFits(c: Setting, i: nat)
    requires i < |c.links|
  {
    Fits(SymlinkMsg(c.links[i]))
  }

  lemma FileIsShort(v: Volume, name: Bytes, base: Bytes, es: seq<Entry>, recursive: bool, c: Setting, i: nat)
    requires c == DirSetting(v, name, base, es, recursive, c.key, c.downloads, c.before) && Sized(c) && i < |c.served|
    ensures FileFits(c, i) <==> ShortFile(base, AllFiles(v, base, es, recursive)[i])
  {
    SizeWithin(c, i);
    FileMsgFitsIff(Meta(Prepared(c, i)));
  }

  lemma LinkIsShort(v: Volume, name: Bytes, base: Bytes, es: seq<Entry>, recursive: bool, c: Setting, i: nat)
    requires c == DirSetting(v, name, base, es, recursive, c.key, c.downloads, c.before) && i < |c.links|
    ensures LinkFits(c, i) <==> ShortLink(base, AllLinks(base, es, recursive)[i])
  {
    SymlinkFitsIff(c.links[i]);
  }

  lemma FilesFitIff(v: Volume, name: Bytes, base: Bytes, es: seq<Entry>, recursive: bool, c: Setting, fs: seq<FileInfo>)
    requires c == DirSetting(v, name, base, es, recursive, c.key, c.downloads, c.before) && Sized(c)
    requires fs == AllFiles(v, base, es, recursive)
    ensures |fs| == |c.served|
    ensures (forall i | 0 <= i < |fs| :: ShortFile(base, fs[i])) <==> (forall i | 0 <= i < |c.served| :: FileFits(c, i))
  {
    forall i: nat | i < |c.served|
      ensures FileFits(c, i) <==> ShortFile(base, fs[i])
    {
      FileIsShort(v, name, base, es, recursive, c, i);
    }
  }

  lemma LinksFitIff(v: Volume, name: Bytes, base: Bytes, es: seq<Entry>, recursive: bool, c: Setting, ls: seq<Link>)
    requires c == DirSetting(v, name, base, es, recursive, c.key, c.downloads, c.before)
    requires ls == AllLinks(base, es, recursive)
    ensures |ls| == |c.links|
    ensures (forall i | 0 <= i < |ls| :: ShortLink(base, ls[i])) <==> (forall i | 0 <= i < |c.links| :: LinkFits(c, i))
  {
    forall i: nat | i < |c.links|
      ensures LinkFits(c, i) <==> ShortLink(base, ls[i])
    {
      LinkIsShort(v, name, base, es, recursive, c, i);
    }
  }

  ghost predicate AllShort(base: Bytes, fs: seq<FileInfo>, ls: seq<Link>) {
    && (forall i | 0 <= i < |fs| :: ShortFile(base, fs[i]))
    && (forall i | 0 <= i < |ls| :: ShortLink(base, ls[i]))
  }

  lemma TransmissibleIs(c: Setting)
    requires !c.isDir ==> |c.served| > 0
    ensures Transmissible(c) <==>
              && KeyOk(c.key) && Fits(TransferOffer(OfferOf(c)))
              && (forall i | 0 <= i < |c.served| :: FileFits(c, i))
              && (forall i | 0 <= i < |c.links| :: LinkFits(c, i))
  {
    forall i | 0 <= i < |c.served|
      ensures Fits(FileMsg(Meta(Prepared(c, i)))) <==> FileFits(c, i)
    {
    }
    forall i | 0 <= i < |c.links|
      ensures Fits(SymlinkMsg(c.links[i])) <==> LinkFits(c, i)
    {
    }
  }

  /** A directory can be sent exactly if the key is an AES key and its names and paths are this short. */
  lemma DirectoryTransmissibleIff(v: Volume, name: Bytes, base: Bytes, es: seq<Entry>, recursive: bool, c: Setting)
    requires c == DirSetting(v, name, base, es, recursive, c.key, c.downloads, c.before) && Sized(c)
    ensures Transmissible(c) <==>
            (|c.key| == 16 || |c.key| == 24 || |c.key| == 32) && |name| <= 131013 && AllShort(base, AllFiles(v, base, es, recursive), AllLinks(base, es, recursive))
  {
    DirOfferFitsIff(name, c.total);
    FilesFitIff(v, name, base, es, recursive, c, AllFiles(v, base, es, recursive));
    LinksFitIff(v, name, base, es, recursive, c, AllLinks(base, es, recursive));
    TransmissibleIs(c);
  }

  /** A single file can be sent exactly if its name and checksum are short enough for the offer. */
  lemma FileTransmissibleIff(v: Volume, dir: Bytes, name: Bytes, c: Setting)
    requires FileAt(v, dir, name).Some? && c == FileSetting(v, FileAt(v, dir, name).value, c.key, c.downloads, c.before)
    requires FileAt(v, dir, name).value.size < U64_LIMIT
    ensures Transmissible(c) <==>
            (|c.key| == 16 || |c.key| == 24 || |c.key| == 32) && |name| + |CheckSum(v, v.files[Paths.Join(dir, name)])| <= 130989
  {
    FileOfferFitsIff(Meta(c.served[0]));
    FileMsgFitsIff(Meta(Prepared(c, 0)));
  }
}
