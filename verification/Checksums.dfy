/** The checksum both nodes compare: a digest of the whole file, or of blocks taken from it. */
module Checksums {
  import opened Bytes

  const CHUNKS: nat := 50
  const CHUNKSIZE: nat := 50
  const STEP: nat := 250

  /** Shortest file that is sampled: up to the end of the last block. */
  const THRESHOLD: nat := CHUNKS * CHUNKSIZE + STEP * (CHUNKS - 1)

  /** Blocks a..b of a long file, one after the other. */
  function Blocks(x: Bytes, n: nat): (r: Bytes)
    requires n <= CHUNKS && |x| >= THRESHOLD
    ensures |r| == CHUNKSIZE * n
  {
    if n == 0 then [] else Blocks(x, n - 1) + x[(CHUNKSIZE + STEP) * (n - 1)..(CHUNKSIZE + STEP) * (n - 1) + CHUNKSIZE]
  }

  /** What is hashed. */
  function Sample(x: Bytes): Bytes {
    if |x| < THRESHOLD then x else Blocks(x, CHUNKS)
  }

  /** The checksum of a file's content. */
  function PartialCheckSum(digest: Bytes -> Bytes, x: Bytes): Bytes {
    digest(Sample(x))
  }

  /** os.File.ReadAt: as much of the buffer as the file can fill from `off` on. */
  method ReadAt(file: Bytes, buffer: array<byte>, off: nat) returns (r: nat)
    modifies buffer
    ensures r == if off >= |file| then 0 else if |file| - off < buffer.Length then |file| - off else buffer.Length
    ensures buffer[..r] == if off >= |file| then [] else file[off..off + r]
    ensures forall k | r <= k < buffer.Length :: buffer[k] == old(buffer[k])
  {
    r := 0;
    while r < buffer.Length && off + r < |file|
      invariant 0 <= r <= buffer.Length && (r > 0 ==> off + r <= |file|)
      invariant forall k | 0 <= k < r :: buffer[k] == file[off + k]
      invariant forall k | r <= k < buffer.Length :: buffer[k] == old(buffer[k])
    {
      buffer[r] := file[off + r];
      r := r + 1;
    }
  }

  /** GetPartialCheckSum: no read is short, so the blocks lie at multiples of 300 and nothing is zero filled. */
  method GetPartialCheckSum(digest: Bytes -> Bytes, file: Bytes) returns (sum: Bytes)
    ensures sum == PartialCheckSum(digest, file)
    ensures sum == digest(if |file| < 14750 then file else seq(2500, k requires 0 <= k < 2500 => file[300 * (k / 50) + k % 50]))
  {
    SampleIs(file);
    if |file| < CHUNKS * CHUNKSIZE + STEP * (CHUNKS - 1) {
      return digest(file);
    }
    var captured: Bytes, read := [], 0;
    for i := 0 to CHUNKS
      invariant captured == Blocks(file, i) && read == (CHUNKSIZE + STEP) * i
    {
      var buffer := new byte[CHUNKSIZE];
      var r := ReadAt(file, buffer, read);
      assert buffer[..] == buffer[..r] == file[read..read + CHUNKSIZE];
      captured := captured + buffer[..];
      read := read + r + STEP;
    }
    sum := digest(captured);
  }

  // ---------------------------------------- what is hashed, in plain numbers

  /** All of a file below 14750 bytes; of any other 2500 bytes, the first 50 of every 300. */
  function Hashed(x: Bytes): Bytes {
    if |x| < 14750 then x else seq(2500, k requires 0 <= k < 2500 => x[300 * (k / 50) + k % 50])
  }

  lemma {:induction false} BlocksAt(x: Bytes, n: nat, k: nat)
    requires n <= 50 && |x| >= 14750 && k < 50 * n
    ensures 300 * (k / 50) + k % 50 < |x| && |Blocks(x, n)| == 50 * n && Blocks(x, n)[k] == x[300 * (k / 50) + k % 50]
  {
    if k < 50 * (n - 1) {
      BlocksAt(x, n - 1, k);
    } else {
      assert k / 50 == n - 1 && k % 50 == k - 50 * (n - 1);
    }
  }

  /** What the program hashes of a file, whatever its length. */
  lemma SampleIs(x: Bytes)
    ensures Sample(x) == Hashed(x)
  {
    if |x| >= 14750 {
      forall k: nat | k < 2500
        ensures Blocks(x, 50)[k] == x[300 * (k / 50) + k % 50]
      {
        BlocksAt(x, 50, k);
      }
      assert Blocks(x, 50) == Hashed(x);
    }
  }

  // ------------------------------------------- what the checksum depends on

  lemma SlotOf(p: nat)
    requires p < 14750 && p % 300 < 50
    ensures var k := 50 * (p / 300) + p % 300; k < 2500 && 300 * (k / 50) + k % 50 == p
  {
    var k := 50 * (p / 300) + p % 300;
    assert k / 50 == p / 300 && k % 50 == p % 300;
  }

  /** Two long files have the same sample exactly if they agree wherever a block lies, whatever their lengths. */
  lemma SampleDecides(x: Bytes, y: Bytes)
    requires |x| >= 14750 && |y| >= 14750
    ensures Sample(x) == Sample(y) <==> forall p: nat | p < 14750 && p % 300 < 50 :: x[p] == y[p]
  {
    SampleIs(x);
    SampleIs(y);
    if forall p: nat | p < 14750 && p % 300 < 50 :: x[p] == y[p] {
      forall k: nat | k < 2500
        ensures Hashed(x)[k] == Hashed(y)[k]
      {
        assert (300 * (k / 50) + k % 50) % 300 == k % 50;
      }
      assert Hashed(x) == Hashed(y);
    }
    if Sample(x) == Sample(y) {
      forall p: nat | p < 14750 && p % 300 < 50
        ensures x[p] == y[p]
      {
        SlotOf(p);
        var k := 50 * (p / 300) + p % 300;
        assert Hashed(x)[k] == x[p] && Hashed(y)[k] == y[p];
      }
    }
  }

  /** The short file x holds exactly what is hashed of the long file y. */
  predicate HoldsSampleOf(x: Bytes, y: Bytes)
    requires |y| >= 14750
  {
    |x| == 2500 && forall k: nat | k < 2500 :: x[k] == y[300 * (k / 50) + k % 50]
  }

  lemma ShortOfLong(x: Bytes, y: Bytes)
    requires |x| < 14750 <= |y|
    ensures Sample(x) == Sample(y) <==> HoldsSampleOf(x, y)
  {
    SampleIs(x);
    SampleIs(y);
    if HoldsSampleOf(x, y) {
      assert x == Hashed(y);
    }
    if x == Hashed(y) {
      assert forall k: nat | k < 2500 :: x[k] == Hashed(y)[k];
    }
  }

  /** When two files are hashed alike, for any two files: sizes are not compared, only samples are. */
  lemma SameSampleIff(x: Bytes, y: Bytes)
    ensures Sample(x) == Sample(y) <==>
            if |x| < 14750 && |y| < 14750 then x == y
            else if |x| < 14750 then HoldsSampleOf(x, y)
            else if |y| < 14750 then HoldsSampleOf(y, x)
            else forall p: nat | p < 14750 && p % 300 < 50 :: x[p] == y[p]
  {
    if |x| < 14750 && |y| < 14750 {
      SampleIs(x);
      SampleIs(y);
    } else if |x| < 14750 {
      ShortOfLong(x, y);
    } else if |y| < 14750 {
      ShortOfLong(y, x);
    } else {
      SampleDecides(x, y);
    }
  }

  /** Every long file shares its checksum with a different file of 2500 bytes. */
  lemma ShortTwin(y: Bytes) returns (x: Bytes)
    requires |y| >= 14750
    ensures |x| == 2500 && x != y && Sample(x) == Sample(y)
  {
    x := Hashed(y);
    SampleIs(x);
    SampleIs(y);
  }

  /** The checksums of two files agree whatever the digest exactly if their samples do. */
  lemma AgreeIff(x: Bytes, y: Bytes)
    ensures (forall digest: Bytes -> Bytes :: PartialCheckSum(digest, x) == PartialCheckSum(digest, y)) <==> Hashed(x) == Hashed(y)
  {
    var whole: Bytes -> Bytes := b => b;
    SampleIs(x);
    SampleIs(y);
    if forall digest: Bytes -> Bytes :: PartialCheckSum(digest, x) == PartialCheckSum(digest, y) {
      assert PartialCheckSum(whole, x) == PartialCheckSum(whole, y);
    }
  }

  /** Changing one byte is noticed exactly if the file is short or the byte lies in a block. */
  lemma OneByteNoticed(x: Bytes, p: nat, b: byte)
    requires p < |x| && x[p] != b
    ensures Sample(x[p := b]) != Sample(x) <==> |x| < 14750 || (p < 14750 && p % 300 < 50)
  {
    var y := x[p := b];
    assert y[p] != x[p];
    SameSampleIff(y, x);
  }
}
