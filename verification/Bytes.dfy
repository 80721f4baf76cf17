/** Bytes as Go sees them, and the big-endian uint64 fields every packet is built from. */
module Bytes {
  import opened Wrappers

  newtype byte = x: int | 0 <= x < 256

  /** A Go []byte or string: both are plain sequences of bytes. */
  type Bytes = seq<byte>

  const U64_LIMIT: nat := 0x1_0000_0000_0000_0000

  function Pow256(width: nat): (p: nat)
    ensures p > 0
  {
    if width == 0 then 1 else 256 * Pow256(width - 1)
  }

  function BigEndian(n: nat, width: nat): (b: Bytes)
    ensures |b| == width
  {
    if width == 0 then [] else BigEndian(n / 256, width - 1) + [(n % 256) as byte]
  }

  function Value(b: Bytes): (n: nat)
    ensures n < Pow256(|b|)
  {
    if b == [] then 0 else 256 * Value(b[..|b| - 1]) + b[|b| - 1] as nat
  }

  lemma {:induction false} ValueOfBigEndian(n: nat, width: nat)
    requires n < Pow256(width)
    ensures Value(BigEndian(n, width)) == n
  {
    if width > 0 {
      ValueOfBigEndian(n / 256, width - 1);
      assert BigEndian(n, width)[..width - 1] == BigEndian(n / 256, width - 1);
    }
  }

  lemma {:induction false} BigEndianOfValue(b: Bytes)
    ensures BigEndian(Value(b), |b|) == b
  {
    if b != [] {
      BigEndianOfValue(b[..|b| - 1]);
      assert Value(b) / 256 == Value(b[..|b| - 1]) && Value(b) % 256 == b[|b| - 1] as nat;
      assert b == b[..|b| - 1] + [b[|b| - 1]];
    }
  }

  lemma U64Width()
    ensures Pow256(8) == U64_LIMIT
  {
    assert Pow256(2) == 0x1_0000;
    assert Pow256(4) == 0x1_0000_0000;
    assert Pow256(6) == 0x1_0000_0000_0000;
  }

  /** binary.Write of a uint64: eight bytes, most significant first. */
  function PutU64(n: nat): (b: Bytes)
    ensures |b| == 8
  {
    BigEndian(n, 8)
  }

  /** binary.Read of a uint64: the number and what is left, or an error when fewer than eight bytes remain. */
  function TakeU64(d: Bytes): (r: Option<(nat, Bytes)>)
    ensures r.Some? <==> |d| >= 8
    ensures r.Some? ==> r.value.0 < U64_LIMIT && |r.value.1| == |d| - 8
  {
    if |d| < 8 then None else U64Width(); Some((Value(d[..8]), d[8..]))
  }

  lemma TakeAfterPut(n: nat, rest: Bytes)
    requires n < U64_LIMIT
    ensures TakeU64(PutU64(n) + rest) == Some((n, rest))
  {
    U64Width();
    ValueOfBigEndian(n, 8);
    assert (PutU64(n) + rest)[..8] == PutU64(n);
    assert (PutU64(n) + rest)[8..] == rest;
  }

  function Zeros(n: nat): (b: Bytes)
    ensures |b| == n
  {
    seq(n, _ => 0)
  }

  function Min(a: nat, b: nat): nat {
    if a < b then a else b
  }

  /** One Read into a fresh slice of n bytes: a short read leaves the tail of the slice zero. */
  function Fill(d: Bytes, n: nat): (r: (Bytes, Bytes))
    ensures |r.0| == n
  {
    var k := Min(n, |d|);
    (d[..k] + Zeros(n - k), d[k..])
  }

  /** Read on a bytes.Buffer: end of input is an error only when something was asked for. */
  function TakeFromBuffer(d: Bytes, n: nat): (r: Option<(Bytes, Bytes)>)
    ensures r.None? <==> d == [] && n > 0
  {
    if d == [] && n > 0 then None else Some(Fill(d, n))
  }

  /** Read on a bytes.Reader: end of input is an error even when nothing was asked for. */
  function TakeFromReader(d: Bytes, n: nat): (r: Option<(Bytes, Bytes)>)
    ensures r.None? <==> d == []
  {
    if d == [] then None else Some(Fill(d, n))
  }

  /** Byte by byte: what there was to read, then zeros; and what is left behind it. */
  lemma FillIs(d: Bytes, n: nat)
    ensures forall k | 0 <= k < n :: Fill(d, n).0[k] == if k < |d| then d[k] else 0
    ensures Fill(d, n).1 == if n < |d| then d[n..] else []
  {
  }

  lemma FillExact(x: Bytes, rest: Bytes)
    ensures Fill(x + rest, |x|) == (x, rest)
  {
    assert (x + rest)[..|x|] + Zeros(0) == x;
    assert (x + rest)[|x|..] == rest;
  }

  /** A bytes.Buffer: writes grow it at the end, reads consume it from the front. */
  class Buffer {
    var data: Bytes

    constructor (d: Bytes)
      ensures data == d
    {
      data := d;
    }

    method Write(b: Bytes)
      modifies this
      ensures data == old(data) + b
    {
      data := data + b;
    }

    method WriteU64(n: nat)
      modifies this
      ensures data == old(data) + PutU64(n)
    {
      data := data + PutU64(n);
    }

    method ReadU64() returns (r: Option<nat>)
      modifies this
      ensures r.Some? <==> TakeU64(old(data)).Some?
      ensures r.Some? ==> (r.value, data) == TakeU64(old(data)).value
    {
      var t := TakeU64(data);
      if t.None? {
        data := [];
        return None;
      }
      data := t.value.1;
      r := Some(t.value.0);
    }

    method Read(n: nat) returns (r: Option<Bytes>)
      modifies this
      ensures r.Some? <==> TakeFromBuffer(old(data), n).Some?
      ensures r.Some? ==> (r.value, data) == TakeFromBuffer(old(data), n).value
    {
      var t := TakeFromBuffer(data, n);
      if t.None? {
        return None;
      }
      data := t.value.1;
      r := Some(t.value.0);
    }
  }

  /** A bytes.Reader over a packet body. */
  class Reader {
    var data: Bytes

    constructor (d: Bytes)
      ensures data == d
    {
      data := d;
    }

    method ReadU64() returns (r: Option<nat>)
      modifies this
      ensures r.Some? <==> TakeU64(old(data)).Some?
      ensures r.Some? ==> (r.value, data) == TakeU64(old(data)).value
      ensures r.None? ==> data == []
    {
      var t := TakeU64(data);
      if t.None? {
        data := [];
        return None;
      }
      data := t.value.1;
      r := Some(t.value.0);
    }

    method Read(n: nat) returns (r: Option<Bytes>)
      modifies this
      ensures r.Some? <==> TakeFromReader(old(data), n).Some?
      ensures r.Some? ==> (r.value, data) == TakeFromReader(old(data), n).value
      ensures r.None? ==> data == []
    {
      var t := TakeFromReader(data, n);
      if t.None? {
        return None;
      }
      data := t.value.1;
      r := Some(t.value.0);
    }
  }
}
