/**
 * What one `CryptoStream` pass over the whole buffer computes when the `Aes` object is set to
 * CipherMode.CBC and PaddingMode.PKCS7: cipher block chaining (NIST SP 800-38A, section 6.2)
 * around the AES block function (FIPS 197), with PKCS#7 padding (RFC 5652, section 6.3).
 * The block function itself is not modelled; it is a parameter.
 */
module AesCbc {
  import opened Bytes
  import opened Results

  const BlockSize := 16

  type Block = b: seq<byte> | |b| == BlockSize witness [0, 0, 0, 0, 0, 0, 0, 0, 0, 0, 0, 0, 0, 0, 0, 0]

  /** The block function under a key, and its inverse. */
  datatype BlockCipher = BlockCipher(encrypt: (seq<byte>, Block) -> Block, decrypt: (seq<byte>, Block) -> Block)

  /** Decrypting a block under the key it was encrypted with gives the block back. */
  ghost predicate Inverts(c: BlockCipher) {
    forall key: seq<byte>, b: Block :: c.decrypt(key, c.encrypt(key, b)) == b
  }

  /** The other half of being a permutation: encrypting a decrypted block gives it back. */
  ghost predicate Restores(c: BlockCipher) {
    forall key: seq<byte>, b: Block :: c.encrypt(key, c.decrypt(key, b)) == b
  }

  function Xor(a: Block, b: Block): (r: Block)
  {
    seq(BlockSize, i requires 0 <= i < BlockSize => XorByte(a[i], b[i]))
  }

  /** Bit k of byte i of the result is set exactly when bit k of byte i differs between the blocks. */
  lemma XorBits(a: Block, b: Block, i: nat, k: nat)
    requires i < BlockSize
    ensures Bit(Xor(a, b)[i] as nat, k) == (Bit(a[i] as nat, k) != Bit(b[i] as nat, k))
  {
    XorByteBits(a[i], b[i], k);
  }

  lemma XorCancel(a: Block, b: Block)
    ensures Xor(Xor(a, b), b) == a
  {
    forall i | 0 <= i < BlockSize
      ensures Xor(Xor(a, b), b)[i] == a[i]
    {
      XorByteCancel(a[i], b[i]);
    }
  }

  /** PKCS#7: always append 1 to 16 bytes, each holding the number of bytes appended. */
  function Pad(data: seq<byte>): (r: seq<byte>)
    ensures |r| == BlockSize * (|data| / BlockSize + 1)
    ensures |r| % BlockSize == 0 && r[..|data|] == data
    ensures 1 <= |r| - |data| <= BlockSize
    ensures forall i :: |data| <= i < |r| ==> r[i] as int == |r| - |data|
  {
    var n := BlockSize - |data| % BlockSize;
    data + seq(n, _ => n as byte)
  }

  /**
   * PKCS#7 removal: the last byte n must be between 1 and 16, and the last n bytes
   * must all equal n; otherwise the padding is invalid.
   */
  function Unpad(b: seq<byte>): (r: Option<seq<byte>>)
    ensures r.Some? ==> 1 <= |b| - |r.value| <= BlockSize && r.value == b[..|r.value|]
    ensures b == [] ==> r.None?
  {
    if |b| == 0 then None
    else
      var n := b[|b| - 1] as int;
      if 1 <= n <= BlockSize && n <= |b| && forall i | |b| - n <= i < |b| :: b[i] == b[|b| - 1]
      then Some(b[..|b| - n])
      else None
  }

  /** The padding is always recognised and removed. */
  lemma UnpadPad(data: seq<byte>)
    ensures Unpad(Pad(data)) == Some(data)
  {
    var n := BlockSize - |data| % BlockSize;
    var p := Pad(data);
    assert p[|p| - 1] as int == n;
    assert p[..|p| - n] == data;
  }

  /** Conversely, a block-aligned buffer with valid padding is the padding of what it unpads to. */
  lemma PadUnpad(b: seq<byte>)
    requires |b| % BlockSize == 0 && Unpad(b).Some?
    ensures Pad(Unpad(b).value) == b
  {
    var data := Unpad(b).value;
    var n := b[|b| - 1] as int;
    assert |data| == |b| - n;
    assert BlockSize - |data| % BlockSize == n;
    assert Pad(data) == data + b[|b| - n..];
    assert b == b[..|b| - n] + b[|b| - n..];
  }

  /** CBC encryption of whole blocks: each plaintext block is XORed with the previous ciphertext block (the IV for the first). */
  function CbcEncrypt(c: BlockCipher, key: seq<byte>, iv: Block, p: seq<byte>): (r: seq<byte>)
    requires |p| % BlockSize == 0
    ensures |r| == |p|
    decreases |p|
  {
    if |p| == 0 then []
    else
      var block := c.encrypt(key, Xor(p[..BlockSize], iv));
      block + CbcEncrypt(c, key, block, p[BlockSize..])
  }

  /** CBC decryption of whole blocks: each decrypted block is XORed with the previous ciphertext block (the IV for the first). */
  function CbcDecrypt(c: BlockCipher, key: seq<byte>, iv: Block, ct: seq<byte>): (r: seq<byte>)
    requires |ct| % BlockSize == 0
    ensures |r| == |ct|
    decreases |ct|
  {
    if |ct| == 0 then []
    else
      var block: Block := ct[..BlockSize];
      Xor(c.decrypt(key, block), iv) + CbcDecrypt(c, key, block, ct[BlockSize..])
  }

  lemma {:induction false} CbcDecryptEncrypt(c: BlockCipher, key: seq<byte>, iv: Block, p: seq<byte>)
    requires Inverts(c) && |p| % BlockSize == 0
    ensures CbcDecrypt(c, key, iv, CbcEncrypt(c, key, iv, p)) == p
    decreases |p|
  {
    if |p| > 0 {
      var ct := CbcEncrypt(c, key, iv, p);
      var block := c.encrypt(key, Xor(p[..BlockSize], iv));
      assert ct[..BlockSize] == block && ct[BlockSize..] == CbcEncrypt(c, key, block, p[BlockSize..]);
      XorCancel(p[..BlockSize], iv);
      CbcDecryptEncrypt(c, key, block, p[BlockSize..]);
      assert p == p[..BlockSize] + p[BlockSize..];
    }
  }

  lemma {:induction false} CbcEncryptDecrypt(c: BlockCipher, key: seq<byte>, iv: Block, ct: seq<byte>)
    requires Restores(c) && |ct| % BlockSize == 0
    ensures CbcEncrypt(c, key, iv, CbcDecrypt(c, key, iv, ct)) == ct
    decreases |ct|
  {
    if |ct| > 0 {
      var block: Block := ct[..BlockSize];
      var p := CbcDecrypt(c, key, iv, ct);
      var first := Xor(c.decrypt(key, block), iv);
      assert p[..BlockSize] == first && p[BlockSize..] == CbcDecrypt(c, key, block, ct[BlockSize..]);
      XorCancel(c.decrypt(key, block), iv);
      assert Xor(first, iv) == c.decrypt(key, block);
      CbcEncryptDecrypt(c, key, block, ct[BlockSize..]);
      assert ct == ct[..BlockSize] + ct[BlockSize..];
    }
  }

  /** One forward pass (an encryptor CryptoStream): pad, then CBC-encrypt the whole buffer. */
  function EncryptPass(c: BlockCipher, key: seq<byte>, iv: Block, data: seq<byte>): (r: seq<byte>)
    ensures |r| == BlockSize * (|data| / BlockSize + 1)
    ensures |r| % BlockSize == 0 && |data| + 1 <= |r| <= |data| + BlockSize
  {
    CbcEncrypt(c, key, iv, Pad(data))
  }

  /**
   * One reverse pass (a decryptor CryptoStream): a buffer that is not a whole number of
   * blocks is refused; otherwise CBC-decrypt it and strip the padding, which must be valid.
   * Nothing written leaves nothing to depad: the final block of an empty stream is empty and
   * the pass yields the empty buffer without failing.
   */
  function DecryptPass(c: BlockCipher, key: seq<byte>, iv: Block, data: seq<byte>): (r: Result<seq<byte>, Error>)
    ensures |data| % BlockSize != 0 ==> r == Err(IncompleteBlock)
    ensures |data| == 0 ==> r == Ok([])
    ensures r.Err? ==> r.error == IncompleteBlock || r.error == InvalidPadding
    ensures r.Ok? ==> |data| % BlockSize == 0
    ensures r.Ok? && |data| > 0 ==> |data| - BlockSize <= |r.value| < |data|
  {
    if |data| % BlockSize != 0 then Err(IncompleteBlock)
    else if |data| == 0 then Ok([])
    else
      match Unpad(CbcDecrypt(c, key, iv, data))
      case None => Err(InvalidPadding)
      case Some(plain) => Ok(plain)
  }

  /** A reverse pass with the same key and IV undoes a forward pass. */
  lemma DecryptEncryptPass(c: BlockCipher, key: seq<byte>, iv: Block, data: seq<byte>)
    requires Inverts(c)
    ensures DecryptPass(c, key, iv, EncryptPass(c, key, iv, data)) == Ok(data)
  {
    CbcDecryptEncrypt(c, key, iv, Pad(data));
    UnpadPad(data);
  }

  /** A reverse pass succeeds on a non-empty buffer only when a forward pass with the same key and IV produces it. */
  lemma EncryptDecryptPass(c: BlockCipher, key: seq<byte>, iv: Block, data: seq<byte>)
    requires Restores(c) && data != [] && DecryptPass(c, key, iv, data).Ok?
    ensures EncryptPass(c, key, iv, DecryptPass(c, key, iv, data).value) == data
  {
    var p := CbcDecrypt(c, key, iv, data);
    PadUnpad(p);
    CbcEncryptDecrypt(c, key, iv, data);
  }

  /**
   * The empty buffer is the one input a reverse pass accepts that no forward pass produces:
   * it passes through as the empty buffer, while a forward pass never writes fewer than 16 bytes.
   */
  lemma EmptyPassesThrough(c: BlockCipher, key: seq<byte>, iv: Block, data: seq<byte>)
    ensures DecryptPass(c, key, iv, []) == Ok([])
    ensures EncryptPass(c, key, iv, data) != []
  {
  }
}
