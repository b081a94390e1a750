/**
 * Key derivation and the keyfile: the Argon2id verification key (RFC 9106) and the fixed
 * 180-byte layout that stores everything needed to undo the layers except the password.
 */
module KeyGenerator {
  import opened Bytes
  import opened Results
  import opened FileStore

  datatype Argon2Type = DataDependentAddressing | DataIndependentAddressing | HybridAddressing

  /** The Argon2 parameters that are not inputs: variant, version, costs, parallelism, output length. */
  datatype Argon2Config = Argon2Config(
    kind: Argon2Type, version: nat, timeCost: nat, memoryCost: nat, lanes: nat, threads: nat, hashLength: nat)

  /** Argon2id, version 0x13, 4 passes over 256 MiB, 2 lanes on 2 threads, 64-byte output. */
  const VerificationConfig := Argon2Config(HybridAddressing, 0x13, 4, 1024 * 256, 2, 2, 64)

  /** The Argon2 hash as a function of (configuration, password, salt); its internals are not modelled. */
  type Argon2Hash = (Argon2Config, seq<byte>, seq<byte>) -> seq<byte>

  /** Encoding.UTF8.GetBytes; its internals are not modelled. */
  type Utf8Encoder = string -> seq<byte>

  /** The hash returns as many bytes as its configuration asks for. */
  ghost predicate HonorsHashLength(argon2: Argon2Hash) {
    forall config, password, salt :: |argon2(config, password, salt)| == config.hashLength
  }

  const SaltSize := 64
  const DerivedKeySize := 64
  const AesKeySize := 32
  const AesIvSize := 16
  const KeyfileSize := 180

  /** The Argon2 password: the password's bytes, then the AES key, then the IV. */
  function KdfInput(passwordBytes: seq<byte>, aesKey: seq<byte>, aesIV: seq<byte>): (r: seq<byte>)
    ensures |r| == |passwordBytes| + |aesKey| + |aesIV|
    ensures r[..|passwordBytes|] == passwordBytes
    ensures r[|passwordBytes|..|passwordBytes| + |aesKey|] == aesKey
    ensures r[|passwordBytes| + |aesKey|..] == aesIV
  {
    passwordBytes + aesKey + aesIV
  }

  /** With a 32-byte key and a 16-byte IV the Argon2 password determines all three parts. */
  lemma KdfInputUnambiguous(p1: seq<byte>, k1: seq<byte>, v1: seq<byte>, p2: seq<byte>, k2: seq<byte>, v2: seq<byte>)
    requires |k1| == |k2| == AesKeySize && |v1| == |v2| == AesIvSize
    requires KdfInput(p1, k1, v1) == KdfInput(p2, k2, v2)
    ensures p1 == p2 && k1 == k2 && v1 == v2
  {
    var r := KdfInput(p1, k1, v1);
    assert |p1| == |p2|;
    assert p1 == r[..|p1|] == p2;
  }

  /**
   * DeriveFinalKey: Argon2id over KdfInput, with the salt handed over as the salt parameter
   * and not concatenated. The result is 64 bytes when the hash honours its length parameter.
   */
  function DeriveFinalKey(argon2: Argon2Hash, utf8: Utf8Encoder, password: string, salt: seq<byte>,
                          aesKey: seq<byte>, aesIV: seq<byte>): (r: seq<byte>)
    ensures HonorsHashLength(argon2) ==> |r| == DerivedKeySize
  {
    argon2(VerificationConfig, KdfInput(utf8(password), aesKey, aesIV), salt)
  }

  /** The keyfile's five fields, in file order. */
  datatype Keyfile = Keyfile(salt: seq<byte>, derivedKey: seq<byte>, aesKey: seq<byte>, aesIV: seq<byte>, layers: int32)

  predicate WellSized(k: Keyfile) {
    |k.salt| == SaltSize && |k.derivedKey| == DerivedKeySize && |k.aesKey| == AesKeySize && |k.aesIV| == AesIvSize
  }

  /** The keyfile of a file is stored beside it, under the original path with ".xkey" appended. */
  function KeyfilePath(filePath: string): (r: string)
    ensures |r| == |filePath| + 5 && r[..|filePath|] == filePath && r[|filePath|..] == ".xkey"
  {
    filePath + ".xkey"
  }

  /** Salt, verification key, AES key, IV, then the layer count as four little-endian bytes. */
  function EncodeKeyfile(k: Keyfile): (r: seq<byte>)
    ensures WellSized(k) ==> |r| == KeyfileSize
    ensures WellSized(k) ==> r[0..64] == k.salt && r[64..128] == k.derivedKey && r[128..160] == k.aesKey
                             && r[160..176] == k.aesIV && r[176..180] == Le32(k.layers)
  {
    var fields := k.salt + k.derivedKey + k.aesKey + k.aesIV;
    assert WellSized(k) ==> (fields + Le32(k.layers))[|fields|..] == Le32(k.layers);
    fields + Le32(k.layers)
  }

  /**
   * The parsing in LoadKeyfileWithLayer: four slices and a 32-bit little-endian count.
   * Short input fails, because fewer than four bytes then remain at offset 176.
   */
  function DecodeKeyfile(full: seq<byte>): (r: Result<Keyfile, Error>)
    ensures r.Ok? <==> |full| >= KeyfileSize
    ensures r.Err? ==> r.error == KeyfileTooShort
    ensures r.Ok? ==> WellSized(r.value)
  {
    if |full| < KeyfileSize then Err(KeyfileTooShort)
    else Ok(Keyfile(full[0..64], full[64..128], full[128..160], full[160..176], ToInt32(full[176..180])))
  }

  /** Decoding an encoded keyfile gives back its fields, for every 32-bit layer count. */
  lemma DecodeEncode(k: Keyfile)
    requires WellSized(k)
    ensures DecodeKeyfile(EncodeKeyfile(k)) == Ok(k)
  {
    ToInt32OfLe32(k.layers);
  }

  /** Encoding the fields decoded from at least 180 bytes gives back the first 180 of them. */
  lemma EncodeDecode(full: seq<byte>)
    requires |full| >= KeyfileSize
    ensures EncodeKeyfile(DecodeKeyfile(full).value) == full[..KeyfileSize]
  {
    Le32OfToInt32(full[176..180]);
    var e := EncodeKeyfile(DecodeKeyfile(full).value);
    assert e == full[0..64] + full[64..128] + full[128..160] + full[160..176] + full[176..180];
  }

  /** Bytes past offset 180 are ignored. */
  lemma DecodeIgnoresTrailing(full: seq<byte>, extra: seq<byte>)
    requires |full| >= KeyfileSize
    ensures DecodeKeyfile(full + extra) == DecodeKeyfile(full)
  {
    assert (full + extra)[0..64] == full[0..64];
    assert (full + extra)[64..128] == full[64..128];
    assert (full + extra)[128..160] == full[128..160];
    assert (full + extra)[160..176] == full[160..176];
    assert (full + extra)[176..180] == full[176..180];
  }

  /** SaveKeyfile: write the five fields one after another into a buffer, then store it at the keyfile path. */
  method SaveKeyfile(disk: Disk, filePath: string, derivedKey: seq<byte>, salt: seq<byte>,
                     aesKey: seq<byte>, aesIV: seq<byte>, layers: int32)
    modifies disk
    ensures disk.files == old(disk.files)[KeyfilePath(filePath) := EncodeKeyfile(Keyfile(salt, derivedKey, aesKey, aesIV, layers))]
  {
    var keyPath := KeyfilePath(filePath);
    var ms: seq<byte> := [];
    ms := ms + salt;
    assert ms == salt;
    ms := ms + derivedKey;
    ms := ms + aesKey;
    ms := ms + aesIV;
    ms := ms + Le32(layers);
    disk.WriteAllBytes(keyPath, ms);
  }

  /** LoadKeyfileWithLayer: KeyfileNotFound before any parsing when the keyfile is absent. */
  method LoadKeyfileWithLayer(disk: Disk, filePath: string) returns (r: Result<Keyfile, Error>)
    ensures KeyfilePath(filePath) !in disk.files ==> r == Err(KeyfileNotFound)
    ensures KeyfilePath(filePath) in disk.files ==> r == DecodeKeyfile(disk.files[KeyfilePath(filePath)])
  {
    var keyPath := KeyfilePath(filePath);
    var present := disk.Exists(keyPath);
    if !present {
      return Err(KeyfileNotFound);
    }
    var full := disk.ReadAllBytes(keyPath);
    r := DecodeKeyfile(full.value);
  }
}
