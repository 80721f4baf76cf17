/** The bytes of every packet, written out: headers as text, numbers as eight bytes, fields in their order. */
module Wording {
  import opened Wrappers
  import opened Bytes
  import opened Ciphers
  import opened Fsys
  import opened Protocol
  import opened Packets
  import opened Codec
  import opened Wire

  /** The bytes of an ASCII text. */
  function Text(s: string): Bytes {
    seq(|s|, i requires 0 <= i < |s| => if s[i] < 128 as char then s[i] as int as byte else 0)
  }

  /** A uint64 on the wire: eight bytes, the most significant first. */
  function Eight(n: nat): Bytes {
    [(n / 0x100_0000_0000_0000 % 256) as byte, (n / 0x1_0000_0000_0000 % 256) as byte,
     (n / 0x100_0000_0000 % 256) as byte, (n / 0x1_0000_0000 % 256) as byte,
     (n / 0x100_0000 % 256) as byte, (n / 0x1_0000 % 256) as byte,
     (n / 0x100 % 256) as byte, (n % 256) as byte]
  }

  lemma {:induction false} DigitsOf(n: nat, width: nat, k: nat)
    requires k < width
    ensures BigEndian(n, width)[k] == (n / Pow256(width - 1 - k) % 256) as byte
  {
    if k < width - 1 {
      DigitsOf(n / 256, width - 1, k);
      OneDigitMore(n, width - 2 - k);
    }
  }

  lemma OneDigitMore(n: nat, w: nat)
    ensures n / 256 / Pow256(w) == n / Pow256(w + 1)
  {
    var p, q := Pow256(w), n / 256;
    var r, a := n % 256, q / p;
    assert n == 256 * (a * p + q % p) + r;
    assert n == a * (256 * p) + (256 * (q % p) + r) by {
      assert 256 * (a * p) == a * (256 * p);
    }
    Quotient(n, 256 * p, a, 256 * (q % p) + r);
  }

  lemma Quotient(n: nat, d: nat, a: nat, r: nat)
    requires d > 0 && n == a * d + r && r < d
    ensures n / d == a
  {
    var b := n / d;
    assert n == b * d + n % d;
    if b < a {
      Multiples(b + 1, a, d);
    } else if b > a {
      Multiples(a + 1, b, d);
    }
  }

  lemma Multiples(a: nat, b: nat, d: nat)
    requires a <= b
    ensures a * d <= b * d
  {
  }

  lemma PutU64Is(n: nat)
    ensures PutU64(n) == Eight(n)
  {
    assert Pow256(1) == 0x100 && Pow256(2) == 0x1_0000 && Pow256(3) == 0x100_0000 && Pow256(4) == 0x1_0000_0000;
    assert Pow256(5) == 0x100_0000_0000 && Pow256(6) == 0x1_0000_0000_0000 && Pow256(7) == 0x100_0000_0000_0000;
    forall k | 0 <= k < 8
      ensures PutU64(n)[k] == Eight(n)[k]
    {
      DigitsOf(n, 8, k);
    }
  }

  /** The header of each message, as the program spells it. */
  function Word(m: Msg): string
    requires !m.Other?
  {
    match m
    case EncrKey(_) => "ENCRKEY"
    case TransferOffer(_) => "TRANSFEROFFER"
    case Accept => "ACCEPT"
    case Reject => "REJECT"
    case FileMsg(_) => "FILE"
    case FileBytes(_, _) => "FILEBYTES"
    case EndFile(_) => "ENDFILE"
    case Ready => "READY"
    case AlreadyHave(_) => "ALREADYHAVE"
    case SymlinkMsg(_) => "SYMLINK"
    case Done => "DONE"
    case Bye => "BYE!"
  }

  lemma HeaderIs(m: Msg)
    requires !m.Other?
    ensures HeaderOf(m) == Text(Word(m))
  {
  }

  /** ID, name, size, checksum and relative path, the texts behind their lengths. */
  function FileFields(f: FileMeta): Bytes {
    Eight(f.id) + Eight(|f.name|) + f.name + Eight(f.size) + Eight(|f.checksum|) + f.checksum + Eight(|f.rel|) + f.rel
  }

  /** The body of each message before it is sealed. */
  function Fields(m: Msg): Bytes {
    match m
    case EncrKey(key) => Eight(|key|) + key
    case TransferOffer(FileOffer(f)) => Text("f") + FileFields(f)
    case TransferOffer(DirOffer(name, size)) => Text("d") + Eight(|name|) + name + Eight(size)
    case FileMsg(f) => FileFields(f)
    case FileBytes(id, data) => Eight(id) + data
    case EndFile(id) => Eight(id)
    case AlreadyHave(id) => Eight(id)
    case SymlinkMsg(l) => Eight(|l.path|) + l.path + Eight(|l.target|) + l.target
    case _ => []
  }

  lemma FileFieldsAre(f: FileMeta)
    ensures EncodeMeta(f) == FileFields(f)
  {
    FileBody(f);
    PutU64Is(f.id);
    PutU64Is(|f.name|);
    PutU64Is(f.size);
    PutU64Is(|f.checksum|);
    PutU64Is(|f.rel|);
  }

  lemma DirFieldsAre(name: Bytes, size: nat)
    ensures EncodeDir(name, size) == Eight(|name|) + name + Eight(size)
  {
    PutU64Is(|name|);
    PutU64Is(size);
  }

  lemma TextsAre(a: Bytes, b: Bytes)
    ensures PutText(a) == Eight(|a|) + a && PutText(a) + PutText(b) == Eight(|a|) + a + Eight(|b|) + b
  {
    PutU64Is(|a|);
    PutU64Is(|b|);
  }

  lemma FieldsAre(m: Msg)
    ensures BodyOf(m) == Fields(m)
  {
    match m {
      case EncrKey(key) => TextsAre(key, []);
      case TransferOffer(FileOffer(f)) =>
        FileFieldsAre(f);
        assert [FILECODE] == Text("f");
      case TransferOffer(DirOffer(name, size)) =>
        DirFieldsAre(name, size);
        assert [DIRCODE] == Text("d");
      case FileMsg(f) => FileFieldsAre(f);
      case FileBytes(id, _) => PutU64Is(id);
      case EndFile(id) => PutU64Is(id);
      case AlreadyHave(id) => PutU64Is(id);
      case SymlinkMsg(l) => TextsAre(l.path, l.target);
      case _ =>
    }
  }

  /** Size, header, "~" and body: what is written for a message under a key as the program generates it. */
  lemma PacketIs(c: Cipher, key: Bytes, m: Msg)
    requires |key| == 32 && Sound(c) && Fits(m) && !m.Other?
    ensures var body := if m.EncrKey? || Fields(m) == [] then Fields(m) else c.seal(key, Fields(m));
            var packet := Text(Word(m)) + [0x7E] + body;
            |packet| <= 131072 && WriteMsg(c, Some(key), m) == Some(Eight(|packet|) + packet)
  {
    HeaderIs(m);
    FieldsAre(m);
    ProgramKeys(c, key, Fields(m));
    var f := FrameOf(c, Some(key), m).value;
    PutU64Is(|Raw(f)|);
  }

  /** The control packets, whole, with or without a key. */
  lemma ControlPackets(c: Cipher, key: Option<Bytes>)
    ensures WriteMsg(c, key, Ready) == Some([0, 0, 0, 0, 0, 0, 0, 6] + Text("READY~"))
    ensures WriteMsg(c, key, Accept) == Some([0, 0, 0, 0, 0, 0, 0, 7] + Text("ACCEPT~"))
    ensures WriteMsg(c, key, Reject) == Some([0, 0, 0, 0, 0, 0, 0, 7] + Text("REJECT~"))
    ensures WriteMsg(c, key, Done) == Some([0, 0, 0, 0, 0, 0, 0, 5] + Text("DONE~"))
    ensures WriteMsg(c, key, Bye) == Some([0, 0, 0, 0, 0, 0, 0, 5] + Text("BYE!~"))
  {
    Control(c, key, Ready, "READY~");
    Control(c, key, Accept, "ACCEPT~");
    Control(c, key, Reject, "REJECT~");
    Control(c, key, Done, "DONE~");
    Control(c, key, Bye, "BYE!~");
  }

  lemma Control(c: Cipher, key: Option<Bytes>, m: Msg, s: string)
    requires Bare(m) && s == Word(m) + "~" && |s| < 256
    ensures WriteMsg(c, key, m) == Some([0, 0, 0, 0, 0, 0, 0, |s| as byte] + Text(s))
  {
    HeaderIs(m);
    var f := Frame(HeaderOf(m), []);
    assert Raw(f) == Text(s);
    PutU64Is(|s|);
  }

  /** A packet of more than 131072 bytes is not written: FILE and FILEBYTES end in a panic then, others go unnoticed. */
  lemma TooBigIs(c: Cipher, key: Bytes, m: Msg)
    requires |key| == 32 && Sound(c) && !m.Other? && !m.EncrKey? && Fields(m) != []
    requires |Text(Word(m))| + 1 + |Fields(m)| + 28 > 131072
    ensures WriteMsg(c, Some(key), m) == if m.FileMsg? || m.FileBytes? then None else Some([])
  {
    HeaderIs(m);
    FieldsAre(m);
    ProgramKeys(c, key, Fields(m));
  }
}
