/** What becomes of a packet body that has been cut off: reads that come up short leave zeros behind, or fail. */
module ShortBodies {
  import opened Wrappers
  import opened Bytes
  import opened Fsys
  import opened Codec

  /** A text of which only the first n bytes have come. */
  function Padded(x: Bytes, n: nat): Bytes {
    seq(|x|, i requires 0 <= i < |x| => if i < n then x[i] else 0)
  }

  lemma PaddedIs(x: Bytes, n: nat)
    requires n <= |x|
    ensures Fill(x[..n], |x|) == (Padded(x, n), [])
  {
    var d := x[..n];
    assert d[..n] == d && d[n..] == [];
    assert d + Zeros(|x| - n) == Padded(x, n);
  }

  lemma ShortNumber(n: nat, rest: Bytes, k: nat)
    requires n < U64_LIMIT && k <= 8 + |rest|
    ensures TakeU64((PutU64(n) + rest)[..k]) == if k < 8 then None else Some((n, rest[..k - 8]))
  {
    if k >= 8 {
      assert (PutU64(n) + rest)[..k] == PutU64(n) + rest[..k - 8];
      TakeAfterPut(n, rest[..k - 8]);
    }
  }

  /** A text at the end of the input: missing altogether it is an error, in part it is padded. */
  lemma ShortText(x: Bytes, rest: Bytes, k: nat)
    requires |x| < U64_LIMIT && k <= 8 + |x| + |rest|
    ensures TakeText((PutText(x) + rest)[..k]) ==
            if k < 8 || (k == 8 && x != []) then None
            else if k < 8 + |x| then Some((Padded(x, k - 8), []))
            else Some((x, rest[..k - 8 - |x|]))
  {
    assert PutText(x) + rest == PutU64(|x|) + (x + rest);
    ShortNumber(|x|, x + rest, k);
    if 8 < k < 8 + |x| {
      assert (x + rest)[..k - 8] == x[..k - 8];
      PaddedIs(x, k - 8);
    } else if k >= 8 + |x| {
      assert (x + rest)[..k - 8] == x + rest[..k - 8 - |x|];
      FillExact(x, rest[..k - 8 - |x|]);
    }
  }

  /** The reads of a FILE body behind ID and name. */
  function FromSize(id: nat, name: Bytes, d2: Bytes): Option<FileMeta> {
    var (size, d3) :- TakeU64(d2);
    var (checksum, d4) :- TakeText(d3);
    var (rel, d5) :- TakeText(d4);
    Some(FileMeta(id, name, size, checksum, rel))
  }

  lemma FrontOfMeta(d: Bytes)
    ensures DecodeMeta(d) ==
            if TakeU64(d).None? then None
            else
              var (id, d1) := TakeU64(d).value;
              if TakeText(d1).None? then None
              else
                var (name, d2) := TakeText(d1).value;
                FromSize(id, name, d2)
  {
  }

  function FromChecksum(id: nat, name: Bytes, size: nat, d3: Bytes): Option<FileMeta> {
    var (checksum, d4) :- TakeText(d3);
    var (rel, d5) :- TakeText(d4);
    Some(FileMeta(id, name, size, checksum, rel))
  }

  lemma TruncatedTexts(m: FileMeta, j: nat)
    requires MetaFits(m) && j < 16 + |m.checksum| + |m.rel|
    ensures FromChecksum(m.id, m.name, m.size, (PutText(m.checksum) + PutText(m.rel))[..j]) ==
            if j <= 16 + |m.checksum| then None else Some(m.(rel := Padded(m.rel, j - 16 - |m.checksum|)))
  {
    ShortText(m.checksum, PutText(m.rel), j);
    var b := 8 + |m.checksum|;
    if j >= b {
      assert PutText(m.rel) + [] == PutText(m.rel);
      ShortText(m.rel, [], j - b);
    }
  }

  lemma TruncatedEnd(m: FileMeta, rest: Bytes, j: nat)
    requires MetaFits(m) && j < 24 + |m.checksum| + |m.rel|
    requires rest == PutU64(m.size) + (PutText(m.checksum) + PutText(m.rel))
    ensures FromSize(m.id, m.name, rest[..j]) ==
            if j <= 24 + |m.checksum| then None else Some(m.(rel := Padded(m.rel, j - 24 - |m.checksum|)))
  {
    ShortNumber(m.size, PutText(m.checksum) + PutText(m.rel), j);
    if j >= 8 {
      assert FromSize(m.id, m.name, rest[..j]) == FromChecksum(m.id, m.name, m.size, (PutText(m.checksum) + PutText(m.rel))[..j - 8]);
      TruncatedTexts(m, j - 8);
    }
  }

  lemma CutBeforeSize(id: nat, name: Bytes, rest: Bytes, k: nat)
    requires id < U64_LIMIT && |name| < U64_LIMIT && k < 16 + |name| <= 16 + |name| + |rest|
    ensures DecodeMeta((PutU64(id) + (PutText(name) + rest))[..k]) == None
  {
    FrontOfMeta((PutU64(id) + (PutText(name) + rest))[..k]);
    ShortNumber(id, PutText(name) + rest, k);
    if k >= 8 {
      ShortText(name, rest, k - 8);
    }
  }

  lemma CutBehindName(id: nat, name: Bytes, rest: Bytes, k: nat)
    requires id < U64_LIMIT && |name| < U64_LIMIT && 16 + |name| <= k <= 16 + |name| + |rest|
    ensures DecodeMeta((PutU64(id) + (PutText(name) + rest))[..k]) == FromSize(id, name, rest[..k - 16 - |name|])
  {
    FrontOfMeta((PutU64(id) + (PutText(name) + rest))[..k]);
    ShortNumber(id, PutText(name) + rest, k);
    ShortText(name, rest, k - 8);
  }

  /** What a FILE body cut off after k bytes decodes to. */
  function CutOff(m: FileMeta, k: nat): Option<FileMeta> {
    var h := 40 + |m.name| + |m.checksum|;
    if k <= h then None else Some(m.(rel := Padded(m.rel, k - h)))
  }

  lemma CutBefore(m: FileMeta, rest: Bytes, k: nat)
    requires MetaFits(m) && k < 16 + |m.name| <= 16 + |m.name| + |rest|
    ensures DecodeMeta((PutU64(m.id) + (PutText(m.name) + rest))[..k]) == CutOff(m, k)
  {
    CutBeforeSize(m.id, m.name, rest, k);
  }

  lemma CutBehind(m: FileMeta, rest: Bytes, k: nat)
    requires MetaFits(m) && 16 + |m.name| <= k <= 16 + |m.name| + |rest|
    requires FromSize(m.id, m.name, rest[..k - 16 - |m.name|]) == CutOff(m, k)
    ensures DecodeMeta((PutU64(m.id) + (PutText(m.name) + rest))[..k]) == CutOff(m, k)
  {
    CutBehindName(m.id, m.name, rest, k);
  }

  /** A FILE body cut off anywhere is refused, except in the relative path behind its first byte, which is padded. */
  lemma TruncatedMeta(m: FileMeta, k: nat)
    requires MetaFits(m) && k < 40 + |m.name| + |m.checksum| + |m.rel|
    ensures k < |EncodeMeta(m)| && DecodeMeta(EncodeMeta(m)[..k]) == CutOff(m, k)
  {
    var rest := PutU64(m.size) + (PutText(m.checksum) + PutText(m.rel));
    assert EncodeMeta(m) == PutU64(m.id) + (PutText(m.name) + rest);
    Ending(m, rest, k);
  }

  lemma Ending(m: FileMeta, rest: Bytes, k: nat)
    requires MetaFits(m) && k < 16 + |m.name| + |rest|
    requires rest == PutU64(m.size) + (PutText(m.checksum) + PutText(m.rel))
    ensures DecodeMeta((PutU64(m.id) + (PutText(m.name) + rest))[..k]) == CutOff(m, k)
  {
    if k < 16 + |m.name| {
      CutBefore(m, rest, k);
    } else {
      TruncatedEnd(m, rest, k - 16 - |m.name|);
      CutBehind(m, rest, k);
    }
  }

  /** A DIRECTORY body cut off anywhere is refused. */
  lemma TruncatedDir(name: Bytes, size: nat, k: nat)
    requires |name| < U64_LIMIT && size < U64_LIMIT && k < 16 + |name|
    ensures |EncodeDir(name, size)| == 16 + |name| && DecodeDir(EncodeDir(name, size)[..k]) == None
  {
    var rest := PutU64(size);
    assert EncodeDir(name, size) == PutU64(|name|) + (name + rest);
    ShortNumber(|name|, name + rest, k);
    if k >= 8 + |name| {
      var j := k - 8 - |name|;
      assert (name + rest)[..k - 8] == name + rest[..j];
      FillExact(name, rest[..j]);
    } else if k >= 8 {
      assert (name + rest)[..k - 8] == name[..k - 8];
      PaddedIs(name, k - 8);
    }
  }

  lemma ShortTextAnyway(x: Bytes, rest: Bytes, k: nat)
    requires |x| < U64_LIMIT && k <= 8 + |x| + |rest|
    ensures TakeTextAnyway((PutText(x) + rest)[..k]) ==
            if k < 8 then ([], []) else if k < 8 + |x| then (Padded(x, k - 8), []) else (x, rest[..k - 8 - |x|])
  {
    assert PutText(x) + rest == PutU64(|x|) + (x + rest);
    ShortNumber(|x|, x + rest, k);
    if 8 <= k < 8 + |x| {
      assert (x + rest)[..k - 8] == x[..k - 8];
      PaddedIs(x, k - 8);
    } else if k >= 8 + |x| {
      assert (x + rest)[..k - 8] == x + rest[..k - 8 - |x|];
      FillExact(x, rest[..k - 8 - |x|]);
    }
  }

  /** A SYMLINK body is never refused: what has not come is zeros where its length has, and nothing where it has not. */
  lemma TruncatedLink(l: Link, k: nat)
    requires |l.path| < U64_LIMIT && |l.target| < U64_LIMIT && k <= 16 + |l.path| + |l.target|
    ensures |EncodeLink(l)| == 16 + |l.path| + |l.target|
    ensures var b := 8 + |l.path|;
            DecodeLink(EncodeLink(l)[..k]) ==
            if k < 8 then Link([], [])
            else if k < b then Link(Padded(l.path, k - 8), [])
            else if k < b + 8 then Link(l.path, [])
            else Link(l.path, Padded(l.target, k - b - 8))
  {
    ShortTextAnyway(l.path, PutText(l.target), k);
    var b := 8 + |l.path|;
    if k >= b {
      assert PutText(l.target) + [] == PutText(l.target);
      ShortTextAnyway(l.target, [], k - b);
      assert k - b == 8 + |l.target| ==> Padded(l.target, |l.target|) == l.target;
    }
  }
}
