/** AES-GCM as the program uses it (sections 7.1 and 7.2 of NIST SP 800-38D), with the block cipher left abstract. */
module Ciphers {
  import opened Wrappers
  import opened Bytes

  /** `seal` puts a 12 byte nonce in front and a 16 byte tag behind; `open` undoes it or fails. */
  datatype Cipher = Cipher(seal: (Bytes, Bytes) -> Bytes, open: (Bytes, Bytes) -> Option<Bytes>)

  const NONCE_SIZE: nat := 12
  const OVERHEAD: nat := 28

  predicate KeyOk(key: Bytes) {
    |key| == 16 || |key| == 24 || |key| == 32
  }

  ghost predicate Sound(c: Cipher) {
    forall key, data :: |c.seal(key, data)| == |data| + OVERHEAD && c.open(key, c.seal(key, data)) == Some(data)
  }

  /** None when the key has no valid length. */
  function Encrypt(c: Cipher, key: Bytes, data: Bytes): Option<Bytes> {
    if KeyOk(key) then Some(c.seal(key, data)) else None
  }

  /** None when the key has no valid length, the data has no room for a nonce, or authentication fails. */
  function Decrypt(c: Cipher, key: Bytes, data: Bytes): Option<Bytes> {
    if KeyOk(key) && |data| >= NONCE_SIZE then c.open(key, data) else None
  }

  lemma DecryptAfterEncrypt(c: Cipher, key: Bytes, data: Bytes)
    requires Sound(c) && KeyOk(key)
    ensures Encrypt(c, key, data).Some? && |Encrypt(c, key, data).value| == |data| + OVERHEAD
    ensures Decrypt(c, key, Encrypt(c, key, data).value) == Some(data)
  {
    assert |c.seal(key, data)| == |data| + OVERHEAD;
  }

  /** The program's own keys have 32 bytes (AES-256): they always seal, and what they sealed they open. */
  lemma ProgramKeys(c: Cipher, key: Bytes, data: Bytes)
    requires Sound(c) && |key| == 32
    ensures Encrypt(c, key, data) == Some(c.seal(key, data)) && |c.seal(key, data)| == |data| + 28
    ensures Decrypt(c, key, c.seal(key, data)) == Some(data)
  {
    DecryptAfterEncrypt(c, key, data);
  }

  /** Which keys can be used, and what can be opened at all. */
  lemma KeyLengths(c: Cipher, key: Bytes, data: Bytes)
    ensures Encrypt(c, key, data).Some? <==> |key| == 16 || |key| == 24 || |key| == 32
    ensures Decrypt(c, key, data).Some? <==> (|key| == 16 || |key| == 24 || |key| == 32) && |data| >= 12 && c.open(key, data).Some?
  {
  }

  /** Sound is not an empty demand: padding with 28 zero bytes meets it. */
  lemma SoundCipherExists() returns (c: Cipher)
    ensures Sound(c)
  {
    var seal := (key: Bytes, data: Bytes) => data + Zeros(OVERHEAD);
    var open := (key: Bytes, data: Bytes) => if |data| >= OVERHEAD then Some(data[..|data| - OVERHEAD]) else None;
    c := Cipher(seal, open);
    forall key: Bytes, data: Bytes
      ensures |c.seal(key, data)| == |data| + OVERHEAD && c.open(key, c.seal(key, data)) == Some(data)
    {
      assert (data + Zeros(OVERHEAD))[..|data|] == data;
    }
  }
}
