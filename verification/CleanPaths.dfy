/** filepath.Clean, filepath.Rel and filepath.Join of absolute paths, for symlink targets, which can be any text. */
module CleanPaths {
  import opened Wrappers
  import opened Bytes
  import Paths

  const SLASH: byte := Paths.SLASH
  const DOT: byte := 0x2E
  const UP: Bytes := [DOT, DOT]

  // -------------------------------------------------------- parts of a path

  function SlashFrom(p: Bytes, k: nat): (i: nat)
    requires k <= |p|
    ensures k <= i <= |p| && (forall j | k <= j < i :: p[j] != SLASH) && (i < |p| ==> p[i] == SLASH)
    decreases |p| - k
  {
    if k == |p| || p[k] == SLASH then k else SlashFrom(p, k + 1)
  }

  /** The texts between the separators. */
  function Split(p: Bytes): seq<Bytes>
    decreases |p|
  {
    var i := SlashFrom(p, 0);
    if i == |p| then [p] else [p[..i]] + Split(p[i + 1..])
  }

  function Joined(parts: seq<Bytes>): Bytes {
    if parts == [] then [] else if |parts| == 1 then parts[0] else parts[0] + [SLASH] + Joined(parts[1..])
  }

  /** Every part preceded by a separator. */
  function Slashed(names: seq<Bytes>): Bytes {
    if names == [] then [] else [SLASH] + names[0] + Slashed(names[1..])
  }

  predicate NoSlash(part: Bytes) {
    forall j | 0 <= j < |part| :: part[j] != SLASH
  }

  /** The name of an entry, not a direction. */
  predicate Proper(part: Bytes) {
    part != [] && part != [DOT] && part != UP && NoSlash(part)
  }

  predicate AllProper(names: seq<Bytes>) {
    forall k | 0 <= k < |names| :: Proper(names[k])
  }

  // ------------------------------------------------------- places they name

  /** Where one part leads from a place, which is the names on the way from the root. */
  function Move(at: seq<Bytes>, part: Bytes): seq<Bytes> {
    if part == [] || part == [DOT] then at
    else if part == UP then (if at == [] then [] else at[..|at| - 1])
    else at + [part]
  }

  function Walk(at: seq<Bytes>, parts: seq<Bytes>): seq<Bytes>
    decreases |parts|
  {
    if parts == [] then at else Walk(Move(at, parts[0]), parts[1..])
  }

  /** The place an absolute path names. */
  function Place(p: Bytes): seq<Bytes> {
    Walk([], Split(p))
  }

  /** The clean path of a place. */
  function Text(at: seq<Bytes>): Bytes {
    if at == [] then [SLASH] else Slashed(at)
  }

  predicate Absolute(p: Bytes) {
    p != [] && p[0] == SLASH
  }

  /** filepath.Clean of an absolute path. */
  function Clean(p: Bytes): Bytes {
    Text(Place(p))
  }

  /** filepath.Join of an absolute path and a relative one. */
  function Join(root: Bytes, rel: Bytes): Bytes {
    Clean(root + ([SLASH] + rel))
  }

  /** The first k names of two places are the same, and after them the places end or differ. */
  predicate PartAt(a: seq<Bytes>, b: seq<Bytes>, k: nat) {
    && k <= |a| && k <= |b| && (forall i | 0 <= i < k :: a[i] == b[i])
    && (k < |a| && k < |b| ==> a[k] != b[k])
  }

  function Common(a: seq<Bytes>, b: seq<Bytes>): (k: nat)
    ensures PartAt(a, b, k)
  {
    if a == [] || b == [] || a[0] != b[0] then 0 else Common(a[1..], b[1..]) + 1
  }

  lemma PartOnce(a: seq<Bytes>, b: seq<Bytes>, k: nat)
    requires PartAt(a, b, k)
    ensures k == Common(a, b) && a[..k] == b[..k]
  {
    var n := Common(a, b);
    assert a[..k] == b[..k];
  }

  function Ups(n: nat): (r: seq<Bytes>)
    ensures |r| == n
  {
    if n == 0 then [] else [UP] + Ups(n - 1)
  }

  /** The way from one place to another: up to where they part, then down. */
  function Way(b: seq<Bytes>, t: seq<Bytes>): seq<Bytes> {
    var k := Common(b, t);
    Ups(|b| - k) + t[k..]
  }

  /** filepath.Rel from an absolute base: an error exactly for a relative target. */
  function Rel(base: Bytes, target: Bytes): Option<Bytes> {
    if !Absolute(target) then None
    else
      var way := Way(Place(base), Place(target));
      Some(if way == [] then [DOT] else Joined(way))
  }

  // ------------------------------------------------------------------ facts

  lemma {:induction false} SplitNoSlash(p: Bytes)
    ensures forall k | 0 <= k < |Split(p)| :: NoSlash(Split(p)[k])
    decreases |p|
  {
    var i := SlashFrom(p, 0);
    if i < |p| {
      SplitNoSlash(p[i + 1..]);
    }
  }

  lemma {:induction false} SplitAt(a: Bytes, b: Bytes)
    ensures Split(a + ([SLASH] + b)) == Split(a) + Split(b)
    decreases |a|
  {
    var p, i := a + ([SLASH] + b), SlashFrom(a, 0);
    FirstSlash(a, [SLASH] + b, i);
    if i == |a| {
      assert p[..i] == a && p[i + 1..] == b;
    } else {
      assert p[..i] == a[..i] && p[i + 1..] == a[i + 1..] + ([SLASH] + b);
      SplitAt(a[i + 1..], b);
    }
  }

  lemma FirstSlash(a: Bytes, rest: Bytes, i: nat)
    requires i == SlashFrom(a, 0) && rest != [] && rest[0] == SLASH
    ensures SlashFrom(a + rest, 0) == i
  {
    var j := SlashFrom(a + rest, 0);
    assert forall k | 0 <= k < i :: (a + rest)[k] == a[k];
    assert (a + rest)[i] == SLASH;
  }

  lemma {:induction false} SplitPart(part: Bytes)
    requires NoSlash(part)
    ensures Split(part) == [part]
  {
    assert SlashFrom(part, 0) == |part|;
  }

  lemma {:induction false} SplitJoined(parts: seq<Bytes>)
    requires parts != [] && forall k | 0 <= k < |parts| :: NoSlash(parts[k])
    ensures Split(Joined(parts)) == parts
  {
    SplitPart(parts[0]);
    if |parts| > 1 {
      SplitJoined(parts[1..]);
      SplitAt(parts[0], Joined(parts[1..]));
      assert parts[0] + [SLASH] + Joined(parts[1..]) == parts[0] + ([SLASH] + Joined(parts[1..]));
    }
  }

  lemma {:induction false} WalkBoth(at: seq<Bytes>, a: seq<Bytes>, b: seq<Bytes>)
    ensures Walk(at, a + b) == Walk(Walk(at, a), b)
    decreases |a|
  {
    if a == [] {
      assert a + b == b;
    } else {
      assert (a + b)[0] == a[0] && (a + b)[1..] == a[1..] + b;
      WalkBoth(Move(at, a[0]), a[1..], b);
    }
  }

  lemma {:induction false} WalkNames(at: seq<Bytes>, names: seq<Bytes>)
    requires AllProper(names)
    ensures Walk(at, names) == at + names
    decreases |names|
  {
    if names == [] {
      assert at + names == at;
    } else {
      assert Proper(names[0]);
      WalkNames(at + [names[0]], names[1..]);
      assert (at + [names[0]]) + names[1..] == at + names;
    }
  }

  /** The place n levels above, or the root. */
  function Above(at: seq<Bytes>, n: nat): seq<Bytes> {
    if n >= |at| then [] else at[..|at| - n]
  }

  lemma {:induction false} WalkUps(at: seq<Bytes>, n: nat)
    ensures Walk(at, Ups(n)) == Above(at, n)
    decreases n
  {
    if n > 0 {
      WalkUps(Move(at, UP), n - 1);
    }
  }

  lemma {:induction false} WalkProper(at: seq<Bytes>, parts: seq<Bytes>)
    requires AllProper(at) && forall k | 0 <= k < |parts| :: NoSlash(parts[k])
    ensures AllProper(Walk(at, parts))
    decreases |parts|
  {
    if parts != [] {
      WalkProper(Move(at, parts[0]), parts[1..]);
    }
  }

  lemma PlaceProper(p: Bytes)
    ensures AllProper(Place(p))
  {
    SplitNoSlash(p);
    WalkProper([], Split(p));
  }

  /** Joining is walking on. */
  lemma JoinWalks(root: Bytes, rel: Bytes)
    ensures Place(root + ([SLASH] + rel)) == Walk(Place(root), Split(rel))
  {
    SplitAt(root, rel);
    WalkBoth([], Split(root), Split(rel));
  }

  /** A place written out names that place. */
  lemma {:induction false} PlaceOfText(at: seq<Bytes>)
    requires AllProper(at)
    ensures Place(Text(at)) == at
  {
    if at == [] {
      assert SlashFrom([SLASH], 0) == 0;
      SplitPart([]);
      var parts: seq<Bytes> := [[], []];
      assert Split([SLASH]) == parts && parts[1..] == [[]];
      assert Walk([], parts) == Walk([], parts[1..]);
    } else {
      SlashedIsJoined(at);
      SplitPart([]);
      SplitAt([], Joined(at));
      SplitJoined(at);
      assert [] + ([SLASH] + Joined(at)) == [SLASH] + Joined(at);
      assert ([[]] + at)[1..] == at;
      WalkNames([], at);
    }
  }

  lemma {:induction false} SlashedIsJoined(names: seq<Bytes>)
    requires names != []
    ensures Slashed(names) == [SLASH] + Joined(names)
  {
    if |names| > 1 {
      SlashedIsJoined(names[1..]);
      Shift([SLASH], names[0], Joined(names[1..]));
    } else {
      assert Slashed(names[1..]) == [];
      assert Slashed(names) == [SLASH] + names[0] + [];
    }
  }

  lemma Shift(s: Bytes, a: Bytes, b: Bytes)
    ensures s + a + (s + b) == s + (a + s + b)
  {
  }

  lemma RelWalks(base: Bytes, target: Bytes, at: seq<Bytes>)
    requires Absolute(target)
    ensures Walk(at, Split(Rel(base, target).value)) == Walk(at, Way(Place(base), Place(target)))
  {
    var way := Way(Place(base), Place(target));
    PlaceProper(target);
    if way == [] {
      SplitPart([DOT]);
      assert [[DOT]][1..] == [];
    } else {
      UpsNoSlash(|Place(base)| - Common(Place(base), Place(target)));
      SplitJoined(way);
    }
  }

  lemma {:induction false} UpsNoSlash(n: nat)
    ensures forall k | 0 <= k < n :: NoSlash(Ups(n)[k])
  {
    if n > 0 {
      UpsNoSlash(n - 1);
    }
  }

  /** The place n levels up from a path, then down these names, written out. */
  function UpDown(root: Bytes, n: nat, down: seq<Bytes>): Bytes {
    var at := Place(root);
    Text((if n >= |at| then [] else at[..|at| - n]) + down)
  }

  /** A target is found again below another root: as many levels up as from the base, then down the same way. */
  ghost predicate LeadsTo(root: Bytes, base: Bytes, target: Bytes, to: Bytes) {
    exists k: nat :: PartAt(Place(base), Place(target), k) && to == UpDown(root, |Place(base)| - k, Place(target)[k..])
  }

  /** filepath.Rel, for the one k at which base and target part: ".." as often as the base goes on, then the rest. */
  lemma RelIs(base: Bytes, target: Bytes, k: nat) returns (way: seq<Bytes>)
    requires Absolute(target) && PartAt(Place(base), Place(target), k)
    ensures var n := |Place(base)| - k;
            |way| >= n && (forall i | 0 <= i < n :: way[i] == [0x2E, 0x2E]) && way[n..] == Place(target)[k..]
    ensures Rel(base, target) == Some(if way == [] then [0x2E] else Joined(way))
  {
    PartOnce(Place(base), Place(target), k);
    UpsAre(|Place(base)| - k);
    way := Way(Place(base), Place(target));
  }

  /** filepath.Rel from an absolute base fails exactly on targets that do not start with a separator. */
  lemma RelFails(base: Bytes, target: Bytes)
    ensures Rel(base, target) == None <==> target == [] || target[0] != 0x2F
  {
  }

  lemma {:induction false} UpsAre(n: nat)
    ensures forall i | 0 <= i < n :: Ups(n)[i] == [0x2E, 0x2E]
  {
    if n > 0 {
      UpsAre(n - 1);
    }
  }

  /** What joining a root and a relative path comes to. */
  lemma JoinRel(root: Bytes, base: Bytes, target: Bytes, k: nat)
    requires Absolute(target) && PartAt(Place(base), Place(target), k)
    ensures Rel(base, target).Some?
    ensures Join(root, Rel(base, target).value) == UpDown(root, |Place(base)| - k, Place(target)[k..])
  {
    var b, t := Place(base), Place(target);
    PartOnce(b, t, k);
    JoinWalks(root, Rel(base, target).value);
    RelWalks(base, target, Place(root));
    WalkBoth(Place(root), Ups(|b| - k), t[k..]);
    WalkUps(Place(root), |b| - k);
    PlaceProper(target);
    WalkNames(Above(Place(root), |b| - k), t[k..]);
  }

  lemma JoinRelLeads(root: Bytes, base: Bytes, target: Bytes)
    requires Absolute(target)
    ensures Rel(base, target).Some? && LeadsTo(root, base, target, Join(root, Rel(base, target).value))
  {
    JoinRel(root, base, target, Common(Place(base), Place(target)));
  }

  /** A target leads to one place only. */
  lemma LeadsOnce(root: Bytes, base: Bytes, target: Bytes, to: Bytes, too: Bytes)
    requires LeadsTo(root, base, target, to) && LeadsTo(root, base, target, too)
    ensures to == too
  {
    var b, t := Place(base), Place(target);
    var k: nat :| PartAt(b, t, k) && to == UpDown(root, |b| - k, t[k..]);
    var n: nat :| PartAt(b, t, n) && too == UpDown(root, |b| - n, t[n..]);
    PartOnce(b, t, k);
    PartOnce(b, t, n);
  }

  /** Rel undoes Join: from the base itself a relative path leads back to the target. */
  lemma JoinOfRel(base: Bytes, target: Bytes)
    requires Absolute(target)
    ensures Rel(base, target).Some? && Join(base, Rel(base, target).value) == Clean(target)
  {
    var b, t := Place(base), Place(target);
    var k := Common(b, t);
    JoinRel(base, base, target, k);
    PartOnce(b, t, k);
    assert t[..k] + t[k..] == t;
  }

  lemma {:induction false} CommonOfExtension(b: seq<Bytes>, more: seq<Bytes>)
    ensures Common(b, b + more) == |b|
  {
    if b != [] {
      assert (b + more)[1..] == b[1..] + more;
      CommonOfExtension(b[1..], more);
    }
  }

  /** A target below the base is found at the same place below the root. */
  lemma MovedBelow(root: Bytes, base: Bytes, target: Bytes, names: seq<Bytes>)
    requires Place(target) == Place(base) + names
    ensures LeadsTo(root, base, target, Text(Place(root) + names))
  {
    var k := |Place(base)|;
    assert PartAt(Place(base), Place(target), k) && (Place(base) + names)[k..] == names;
    assert Place(root)[..|Place(root)|] == Place(root);
    assert UpDown(root, 0, names) == Text(Place(root) + names);
  }

  predicate Letter(x: byte) {
    x != SLASH && x != DOT
  }

  lemma TwoNames(x: byte, y: byte)
    requires Letter(x) && Letter(y)
    ensures Text([[x], [y]]) == [0x2F, x, 0x2F, y] && Place([0x2F, x, 0x2F, y]) == [[x], [y]]
  {
    var at: seq<Bytes> := [[x], [y]];
    assert at[1..] == [[y]] && Slashed([[y]]) == [0x2F, y];
    assert Slashed(at) == [0x2F] + [x] + [0x2F, y];
    PlaceOfText(at);
  }

  lemma JoinedTwo(parts: seq<Bytes>)
    requires |parts| == 2
    ensures Joined(parts) == parts[0] + [0x2F] + parts[1]
  {
    assert parts[1..] == [parts[1]];
  }

  /** A target next to the base is reached through its folder, and is found next to the root. */
  lemma NextToBase(root: Bytes, base: Bytes, target: Bytes, up: seq<Bytes>, at: seq<Bytes>, r: Bytes, n: Bytes, m: Bytes)
    requires Absolute(target) && n != m
    requires Place(base) == at + [n] && Place(target) == at + [m] && Place(root) == up + [r]
    ensures Rel(base, target) == Some([0x2E, 0x2E, 0x2F] + m)
    ensures LeadsTo(root, base, target, Text(up + [m]))
  {
    var k := |at|;
    assert PartAt(at + [n], at + [m], k) && (at + [m])[k..] == [m];
    var way := RelIs(base, target, k);
    assert way[1] == way[1..][0];
    JoinedTwo(way);
    assert way[0] + [0x2F] == [0x2E, 0x2E, 0x2F];
    assert (up + [r])[..|up|] == up;
    assert UpDown(root, 1, [m]) == Text(up + [m]);
  }

  /** Whatever the letters: /a/c is "../c" seen from /a/b, and below /r/s it is /r/c. */
  lemma BesideExample(a: byte, b: byte, c: byte, r: byte, t: byte)
    requires Letter(a) && Letter(b) && Letter(c) && Letter(r) && Letter(t) && b != c
    ensures Rel([0x2F, a, 0x2F, b], [0x2F, a, 0x2F, c]) == Some([0x2E, 0x2E, 0x2F, c])
    ensures LeadsTo([0x2F, r, 0x2F, t], [0x2F, a, 0x2F, b], [0x2F, a, 0x2F, c], [0x2F, r, 0x2F, c])
  {
    TwoNames(a, b);
    TwoNames(a, c);
    TwoNames(r, t);
    TwoNames(r, c);
    assert [[a]] + [[b]] == [[a], [b]] && [[a]] + [[c]] == [[a], [c]] && [[r]] + [[t]] == [[r], [t]] && [[r]] + [[c]] == [[r], [c]];
    NextToBase([0x2F, r, 0x2F, t], [0x2F, a, 0x2F, b], [0x2F, a, 0x2F, c], [[r]], [[a]], [t], [b], [c]);
    assert [0x2E, 0x2E, 0x2F] + [c] == [0x2E, 0x2E, 0x2F, c];
  }

  /** The text of a place below a clean path. */
  lemma TextBelow(base: Bytes, names: seq<Bytes>)
    requires Clean(base) == base && names != [] && AllProper(names)
    ensures Paths.Join(base, Joined(names)) == Text(Place(base) + names)
  {
    var b := Place(base);
    PlaceProper(base);
    OnlyRoot(b);
    SlashedIsJoined(names);
    SlashedBoth(b, names);
    if b == [] {
      assert b + names == names;
    } else {
      assert base + [SLASH] + Joined(names) == base + ([SLASH] + Joined(names));
    }
  }

  /** On the paths of a directory tree the plain operations of Paths do the same. */
  lemma PlainJoin(base: Bytes, names: seq<Bytes>)
    requires Clean(base) == base && names != [] && AllProper(names)
    ensures Paths.Join(base, Joined(names)) == Join(base, Joined(names))
  {
    TextBelow(base, names);
    JoinWalks(base, Joined(names));
    SplitJoined(names);
    WalkNames(Place(base), names);
  }

  lemma PlainRel(base: Bytes, names: seq<Bytes>)
    requires Absolute(base) && Clean(base) == base && names != [] && AllProper(names)
    ensures Rel(base, Paths.Join(base, Joined(names))) == Some(Paths.Rel(base, Paths.Join(base, Joined(names))))
  {
    var b := Place(base);
    TextBelow(base, names);
    PlaceProper(base);
    PlaceOfText(b + names);
    CommonOfExtension(b, names);
    assert (b + names)[|b|..] == names;
    assert Ups(0) + names == names;
    Paths.RelOfJoin(base, Joined(names));
  }

  lemma {:induction false} SlashedBoth(a: seq<Bytes>, b: seq<Bytes>)
    ensures Slashed(a + b) == Slashed(a) + Slashed(b)
  {
    if a == [] {
      assert a + b == b;
    } else {
      assert (a + b)[0] == a[0] && (a + b)[1..] == a[1..] + b;
      SlashedBoth(a[1..], b);
    }
  }

  lemma OnlyRoot(at: seq<Bytes>)
    requires AllProper(at)
    ensures Text(at) == [SLASH] <==> at == []
  {
    if at != [] {
      assert Proper(at[0]) && |Slashed(at)| >= 2;
    }
  }

  // ----------------------------------------------------------- what Clean does

  /** Clean paths are the root and the paths made of entry names. */
  lemma CleanIff(p: Bytes)
    ensures Clean(p) == p <==> p == [0x2F] || exists names :: names != [] && AllProper(names) && p == [0x2F] + Joined(names)
  {
    if Clean(p) == p && p != [0x2F] {
      PlaceProper(p);
      SlashedIsJoined(Place(p));
      assert p == [0x2F] + Joined(Place(p));
    }
    if names :| names != [] && AllProper(names) && p == [0x2F] + Joined(names) {
      SlashedIsJoined(names);
      PlaceOfText(names);
    }
    if p == [0x2F] {
      PlaceOfText([]);
    }
  }

  /** What comes before a separator can be cleaned first. */
  lemma CleanFront(a: Bytes, a': Bytes, b: Bytes)
    requires Clean(a) == Clean(a')
    ensures Clean(a + ([0x2F] + b)) == Clean(a' + ([0x2F] + b))
  {
    PlaceProper(a);
    PlaceProper(a');
    PlaceOfText(Place(a));
    PlaceOfText(Place(a'));
    JoinWalks(a, b);
    JoinWalks(a', b);
  }

  /**
   * The rules of filepath.Clean for the end of a path: separators and "." go, a name goes with the ".." behind it, and
   * ".." goes at the root.  With CleanFront they apply anywhere in a path, and CleanIff says where they stop.
   */
  lemma CleanRules(a: Bytes, name: Bytes)
    requires Proper(name)
    ensures Clean(a + [0x2F]) == Clean(a)
    ensures Clean(a + [0x2F, 0x2E]) == Clean(a)
    ensures Clean(a + ([0x2F] + name + [0x2F, 0x2E, 0x2E])) == Clean(a)
    ensures Clean([0x2F, 0x2E, 0x2E]) == [0x2F]
  {
    EndWalks(a, []);
    assert [0x2F] + [] == [0x2F];
    EndWalks(a, [0x2E]);
    assert [0x2F] + [0x2E] == [0x2F, 0x2E];
    UpGoesWithName(a, name);
    UpGoesAtRoot();
  }

  lemma UpGoesWithName(a: Bytes, name: Bytes)
    requires Proper(name)
    ensures Place(a + ([0x2F] + name + [0x2F, 0x2E, 0x2E])) == Place(a)
  {
    var inner := a + ([0x2F] + name);
    EndWalks(a, name);
    EndWalks(inner, [0x2E, 0x2E]);
    assert inner + ([0x2F] + [0x2E, 0x2E]) == a + ([0x2F] + name + [0x2F, 0x2E, 0x2E]);
    assert (Place(a) + [name])[..|Place(a)|] == Place(a);
  }

  lemma UpGoesAtRoot()
    ensures Place([0x2F, 0x2E, 0x2E]) == []
  {
    SplitPart([]);
    EndWalks([], [0x2E, 0x2E]);
    assert [] + ([0x2F] + [0x2E, 0x2E]) == [0x2F, 0x2E, 0x2E];
  }

  lemma EndWalks(a: Bytes, part: Bytes)
    requires NoSlash(part)
    ensures Place(a + ([0x2F] + part)) == Move(Place(a), part)
  {
    JoinWalks(a, part);
    SplitPart(part);
    assert [part][1..] == [];
  }
}
