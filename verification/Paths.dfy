/** The few path operations the transfer uses, on byte strings with '/' as the separator. */
module Paths {
  import opened Bytes

  const SLASH: byte := 0x2F

  /** The text every path below `base` starts with. */
  function Below(base: Bytes): Bytes {
    if base == [SLASH] then base else base + [SLASH]
  }

  /** filepath.Join of a clean absolute directory and a clean relative path. */
  function Join(base: Bytes, rel: Bytes): Bytes {
    Below(base) + rel
  }

  /** filepath.Rel for paths below `base`; paths elsewhere, which are never served, are returned as they are. */
  function Rel(base: Bytes, path: Bytes): Bytes {
    if Below(base) <= path then path[|Below(base)|..] else path
  }

  lemma RelOfJoin(base: Bytes, rel: Bytes)
    ensures Rel(base, Join(base, rel)) == rel
  {
    assert Join(base, rel)[|Below(base)|..] == rel;
  }

  lemma JoinInjective(base: Bytes, a: Bytes, b: Bytes)
    ensures Join(base, a) == Join(base, b) ==> a == b
  {
    RelOfJoin(base, a);
    RelOfJoin(base, b);
  }

  /** How many bytes the white space character at s[k] takes, 0 if there is none: ASCII and the wider Unicode spaces. */
  function SpaceWidth(s: Bytes, k: nat): nat
    requires k < |s|
  {
    if 0x09 <= s[k] <= 0x0D || s[k] == 0x20 then 1
    else if k + 1 < |s| && s[k] == 0xC2 && (s[k + 1] == 0x85 || s[k + 1] == 0xA0) then 2
    else if k + 2 < |s| && WideSpace(s[k], s[k + 1], s[k + 2]) then 3
    else 0
  }

  predicate WideSpace(a: byte, b: byte, c: byte) {
    || (a == 0xE1 && b == 0x9A && c == 0x80)
    || (a == 0xE2 && b == 0x80 && (0x80 <= c <= 0x8A || c == 0xA8 || c == 0xA9 || c == 0xAF))
    || (a == 0xE2 && b == 0x81 && c == 0x9F)
    || (a == 0xE3 && b == 0x80 && c == 0x80)
  }

  predicate BlankFrom(s: Bytes, k: nat)
    decreases |s| - k
  {
    k >= |s| || (SpaceWidth(s, k) > 0 && BlankFrom(s, k + SpaceWidth(s, k)))
  }

  /** strings.TrimSpace(s) == "": nothing but white space. */
  predicate IsBlank(s: Bytes) {
    BlankFrom(s, 0)
  }

  lemma {:induction false} BlankHasNoSlash(s: Bytes, k: nat)
    requires BlankFrom(s, k)
    ensures forall j | k <= j < |s| :: s[j] != SLASH
    decreases |s| - k
  {
    if k < |s| {
      BlankHasNoSlash(s, k + SpaceWidth(s, k));
    }
  }

  /** The white space characters, in UTF-8. */
  predicate White(w: Bytes) {
    || w == [0x09] || w == [0x0A] || w == [0x0B] || w == [0x0C] || w == [0x0D] || w == [0x20]
    || w == [0xC2, 0x85] || w == [0xC2, 0xA0] || w == [0xE1, 0x9A, 0x80]
    || (|w| == 3 && w[0] == 0xE2 && w[1] == 0x80 && (w[2] <= 0x8A || w[2] == 0xA8 || w[2] == 0xA9 || w[2] == 0xAF) && w[2] >= 0x80)
    || w == [0xE2, 0x81, 0x9F] || w == [0xE3, 0x80, 0x80]
  }

  function Flat(ws: seq<Bytes>): Bytes {
    if ws == [] then [] else ws[0] + Flat(ws[1..])
  }

  /** TrimSpace leaves nothing of a text exactly if it is a row of white space characters. */
  lemma BlankIff(s: Bytes)
    ensures IsBlank(s) <==> exists ws :: (forall k | 0 <= k < |ws| :: White(ws[k])) && Flat(ws) == s
  {
    if IsBlank(s) {
      var ws := SpacesOf(s, 0);
      assert s[0..] == s;
    }
    if ws :| (forall k | 0 <= k < |ws| :: White(ws[k])) && Flat(ws) == s {
      SpacesAreBlank([], ws);
      assert [] + Flat(ws) == s;
    }
  }

  lemma {:induction false} SpacesOf(s: Bytes, k: nat) returns (ws: seq<Bytes>)
    requires k <= |s| && BlankFrom(s, k)
    ensures (forall j | 0 <= j < |ws| :: White(ws[j])) && Flat(ws) == s[k..]
    decreases |s| - k
  {
    if k == |s| {
      ws := [];
    } else {
      var n := SpaceWidth(s, k);
      var rest := SpacesOf(s, k + n);
      var w := s[k..k + n];
      SpaceIsWhite(s, k);
      ws := [w] + rest;
      assert ws[1..] == rest && s[k..] == w + s[k + n..];
      assert forall j | 1 <= j < |ws| :: ws[j] == rest[j - 1];
    }
  }

  lemma SpaceIsWhite(s: Bytes, k: nat)
    requires k < |s| && SpaceWidth(s, k) > 0
    ensures k + SpaceWidth(s, k) <= |s| && White(s[k..k + SpaceWidth(s, k)])
  {
    var n := SpaceWidth(s, k);
    var w := s[k..k + n];
    assert forall j | 0 <= j < n :: w[j] == s[k + j];
    if n == 1 {
      assert w == [s[k]];
    } else if n == 2 {
      assert w == [s[k], s[k + 1]];
    } else {
      assert w == [s[k], s[k + 1], s[k + 2]];
    }
  }

  lemma {:induction false} SpacesAreBlank(before: Bytes, ws: seq<Bytes>)
    requires forall j | 0 <= j < |ws| :: White(ws[j])
    ensures BlankFrom(before + Flat(ws), |before|)
    decreases |ws|
  {
    if ws != [] {
      var s := before + Flat(ws);
      SpacesAreBlank(before + ws[0], ws[1..]);
      assert before + ws[0] + Flat(ws[1..]) == s;
      assert s[|before|..|before| + |ws[0]|] == ws[0];
      BlankBefore(s, |before|, ws[0]);
    }
  }

  lemma BlankBefore(s: Bytes, k: nat, w: Bytes)
    requires White(w) && k + |w| <= |s| && s[k..k + |w|] == w && BlankFrom(s, k + |w|)
    ensures BlankFrom(s, k)
  {
    WidthIs(s, k, w);
  }

  lemma WidthIs(s: Bytes, k: nat, w: Bytes)
    requires White(w) && k + |w| <= |s| && s[k..k + |w|] == w
    ensures SpaceWidth(s, k) == |w|
  {
    assert forall j | 0 <= j < |w| :: s[k + j] == w[j];
  }
}
