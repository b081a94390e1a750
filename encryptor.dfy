/**
 * The layered cipher and the two file operations: EncryptFile runs `layers` forward passes
 * over the whole file with one key and one IV, DecryptFile checks the password against the
 * keyfile and then runs `layers` reverse passes.
 */
module Encryptor {
  import opened Bytes
  import opened Results
  import opened Text
  import opened AesCbc
  import opened FileStore
  import opened KeyGenerator

  /** The primitives the engine calls but does not implement. */
  datatype Platform = Platform(aes: BlockCipher, argon2: Argon2Hash, utf8: Utf8Encoder)

  /** The random salt, AES key and IV drawn at the start of EncryptFile. */
  datatype KeyMaterial = KeyMaterial(salt: seq<byte>, aesKey: seq<byte>, aesIV: Block)

  predicate WellSizedMaterial(m: KeyMaterial) {
    |m.salt| == SaltSize && |m.aesKey| == AesKeySize
  }

  /** Where EncryptFile writes the ciphertext of `path`. */
  function CiphertextPath(path: string): (r: string)
    ensures |r| == |path| + 5 && r[..|path|] == path && EndsWith(r, ".xenc")
  {
    path + ".xenc"
  }

  /** The original path DecryptFile works out: `path` with every ".xenc" in it removed. */
  function OriginalPath(path: string): (r: string)
    ensures |r| <= |path|
    ensures !Contains(path, ".xenc") ==> r == path
  {
    assert !Contains(path, ".xenc") ==> RemoveAll(path, ".xenc") == path by {
      if !Contains(path, ".xenc") {
        RemoveAllAbsent(path, ".xenc");
      }
    }
    RemoveAll(path, ".xenc")
  }

  /** Where DecryptFile writes the plaintext. */
  function DecryptedPath(originalPath: string): (r: string)
    ensures |r| == |originalPath| + 5 && r[..|originalPath|] == originalPath && EndsWith(r, ".xdec")
    ensures r != CiphertextPath(originalPath)
  {
    assert (originalPath + ".xdec")[|originalPath| + 2] != CiphertextPath(originalPath)[|originalPath| + 2];
    originalPath + ".xdec"
  }

  /** For a path without ".xenc" in it, the ciphertext path leads back to the original path. */
  lemma OriginalOfCiphertextPath(path: string)
    requires !Contains(path, ".xenc")
    ensures OriginalPath(CiphertextPath(path)) == path
  {
    RemoveAllAppended(path, ".xenc");
  }

  /** The removal is not a suffix strip: a ".xenc" inside a directory name goes too. */
  lemma OriginalPathRemovesInnerOccurrences()
    ensures OriginalPath("d.xenc/f.xenc") == "d/f"
  {
    assert "d.xenc/f.xenc"[..5] != ".xenc" && "d.xenc/f.xenc"[1..] == ".xenc/f.xenc";
    assert ".xenc/f.xenc"[..5] == ".xenc" && ".xenc/f.xenc"[5..] == "/f.xenc";
    assert "/f.xenc"[..5] != ".xenc" && "/f.xenc"[1..] == "f.xenc";
    assert "f.xenc"[..5] != ".xenc" && "f.xenc"[1..] == ".xenc";
    assert ".xenc"[..5] == ".xenc" && ".xenc"[5..] == "";
    assert RemoveAll(".xenc", ".xenc") == "";
    assert RemoveAll("f.xenc", ".xenc") == "f";
    assert RemoveAll("/f.xenc", ".xenc") == "/f";
    assert RemoveAll(".xenc/f.xenc", ".xenc") == "/f";
  }

  /** A ciphertext encrypted once more leads back, through both extensions, to the first original path. */
  lemma DoubleCiphertextPath(path: string)
    requires !Contains(path, ".xenc")
    ensures OriginalPath(CiphertextPath(CiphertextPath(path))) == path
  {
    RemoveAllAfterClean(path, ".xenc", ".xenc");
    assert path + ".xenc" + ".xenc" == CiphertextPath(CiphertextPath(path));
  }

  /** The four paths one file's operations touch are all different. */
  lemma PathsDistinct(path: string)
    ensures CiphertextPath(path) != KeyfilePath(path) && CiphertextPath(path) != path
    ensures KeyfilePath(path) != path && DecryptedPath(path) != path
    ensures DecryptedPath(path) != KeyfilePath(path) && DecryptedPath(path) != CiphertextPath(path)
  {
    assert CiphertextPath(path)[|path| + 2] == 'e' && KeyfilePath(path)[|path| + 2] == 'k';
    assert DecryptedPath(path)[|path| + 2] == 'd';
  }

  /** A forward pass with its key and IV fixed, and a reverse pass, which can throw. */
  type Transform = seq<byte> -> seq<byte>
  type CheckedTransform = seq<byte> -> Result<seq<byte>, Error>

  /** aes.CreateEncryptor() after the key and IV are set: the forward pass under that key and IV. */
  function CreateEncryptor(aes: BlockCipher, key: seq<byte>, iv: Block): (r: Transform)
    ensures PadsAndAligns(r)
  {
    data => EncryptPass(aes, key, iv, data)
  }

  /** aes.CreateDecryptor() after the key and IV are set: the reverse pass under that key and IV. */
  function CreateDecryptor(aes: BlockCipher, key: seq<byte>, iv: Block): (r: CheckedTransform)
    ensures FailsAsCryptoStream(r) && KeepsEmpty(r)
  {
    data => DecryptPass(aes, key, iv, data)
  }

  /** The decryptor undoes every output of the encryptor. */
  ghost predicate Undoes(decryptor: CheckedTransform, encryptor: Transform) {
    forall x :: decryptor(encryptor(x)) == Ok(x)
  }

  /** The encryptor rebuilds every non-empty input the decryptor accepts. */
  ghost predicate Rebuilds(encryptor: Transform, decryptor: CheckedTransform) {
    forall x :: x != [] && decryptor(x).Ok? ==> encryptor(decryptor(x).value) == x
  }

  /** The decryptor passes the empty buffer through. */
  ghost predicate KeepsEmpty(decryptor: CheckedTransform) {
    decryptor([]) == Ok([])
  }

  lemma TransformsUndo(aes: BlockCipher, key: seq<byte>, iv: Block)
    requires Inverts(aes)
    ensures Undoes(CreateDecryptor(aes, key, iv), CreateEncryptor(aes, key, iv))
  {
    forall x {
      DecryptEncryptPass(aes, key, iv, x);
    }
  }

  lemma TransformsRebuild(aes: BlockCipher, key: seq<byte>, iv: Block)
    requires Restores(aes)
    ensures Rebuilds(CreateEncryptor(aes, key, iv), CreateDecryptor(aes, key, iv))
  {
    forall x | x != [] && DecryptPass(aes, key, iv, x).Ok? {
      EncryptDecryptPass(aes, key, iv, x);
    }
  }

  /**
   * The forward loop: the same encryptor `layers` times, the output of each pass the input of
   * the next. The input itself when `layers` <= 0.
   */
  function EncryptLayers(encryptor: Transform, data: seq<byte>, layers: int): (r: seq<byte>)
    ensures layers <= 0 ==> r == data
    decreases layers
  {
    if layers <= 0 then data else encryptor(EncryptLayers(encryptor, data, layers - 1))
  }

  /** The reverse loop: the same decryptor `layers` times, stopping at the first failure. */
  function DecryptLayers(decryptor: CheckedTransform, data: seq<byte>, layers: int): (r: Result<seq<byte>, Error>)
    ensures layers <= 0 ==> r == Ok(data)
    decreases layers
  {
    if layers <= 0 then Ok(data)
    else
      match decryptor(data)
      case Err(e) => Err(e)
      case Ok(plain) => DecryptLayers(decryptor, plain, layers - 1)
  }

  /** Every output of the transform is block-aligned and 1 to 16 bytes longer than its input. */
  ghost predicate PadsAndAligns(encryptor: Transform) {
    forall x :: |encryptor(x)| % BlockSize == 0 && |x| + 1 <= |encryptor(x)| <= |x| + BlockSize
  }

  /** The transform fails only with an incomplete block or invalid padding. */
  ghost predicate FailsAsCryptoStream(decryptor: CheckedTransform) {
    forall x :: decryptor(x).Err? ==> decryptor(x).error == IncompleteBlock || decryptor(x).error == InvalidPadding
  }

  /**
   * After L >= 1 forward layers the buffer is block-aligned, between L and 16 * L bytes
   * longer than the input, and at least one block per layer long.
   */
  lemma {:induction false} EncryptLayersLength(encryptor: Transform, data: seq<byte>, layers: int)
    requires PadsAndAligns(encryptor)
    ensures var r := EncryptLayers(encryptor, data, layers);
      layers >= 1 ==> |r| % BlockSize == 0 && |data| + layers <= |r| <= |data| + 16 * layers && |r| >= BlockSize * layers
    decreases layers
  {
    if layers > 1 {
      EncryptLayersLength(encryptor, data, layers - 1);
      var prev := EncryptLayers(encryptor, data, layers - 1);
      AlignedStep(|prev|, |encryptor(prev)|);
    } else if layers == 1 {
      AlignedStep(0, |encryptor(data)|);
    }
  }

  /** A block-aligned length above another block-aligned length is at least one block above it. */
  lemma AlignedStep(a: nat, b: nat)
    requires a % BlockSize == 0 && b % BlockSize == 0 && a < b
    ensures a + BlockSize <= b
  {
    assert a == BlockSize * (a / BlockSize) && b == BlockSize * (b / BlockSize);
    assert a / BlockSize < b / BlockSize;
  }

  /** The ciphertext EncryptFile writes after L >= 1 layers: block-aligned, between L and 16 * L bytes longer. */
  lemma CiphertextLength(aes: BlockCipher, key: seq<byte>, iv: Block, data: seq<byte>, layers: int)
    requires layers >= 1
    ensures var r := EncryptLayers(CreateEncryptor(aes, key, iv), data, layers);
      |r| % BlockSize == 0 && |data| + layers <= |r| <= |data| + 16 * layers && |r| >= BlockSize * layers
  {
    EncryptLayersLength(CreateEncryptor(aes, key, iv), data, layers);
  }

  /** A failing reverse loop fails the way a reverse pass does. */
  lemma {:induction false} DecryptLayersErrors(decryptor: CheckedTransform, data: seq<byte>, layers: int)
    requires FailsAsCryptoStream(decryptor)
    ensures var r := DecryptLayers(decryptor, data, layers);
      r.Err? ==> r.error == IncompleteBlock || r.error == InvalidPadding
    decreases layers
  {
    if layers > 0 && decryptor(data).Ok? {
      DecryptLayersErrors(decryptor, decryptor(data).value, layers - 1);
    }
  }

  /** `layers` reverse passes undo `layers` forward passes, outermost first. */
  lemma {:induction false} LayersRoundTrip(encryptor: Transform, decryptor: CheckedTransform, data: seq<byte>, layers: int)
    requires Undoes(decryptor, encryptor)
    ensures DecryptLayers(decryptor, EncryptLayers(encryptor, data, layers), layers) == Ok(data)
    decreases layers
  {
    if layers > 0 {
      LayersRoundTrip(encryptor, decryptor, data, layers - 1);
    }
  }

  /** Once the buffer is empty it stays empty, however many reverse passes follow. */
  lemma {:induction false} EmptyStaysEmpty(decryptor: CheckedTransform, layers: int)
    requires KeepsEmpty(decryptor)
    ensures DecryptLayers(decryptor, [], layers) == Ok([])
    decreases layers
  {
    if layers > 0 {
      EmptyStaysEmpty(decryptor, layers - 1);
    }
  }

  /**
   * Whatever `layers` reverse passes accept re-encrypts to exactly the input, when the input
   * has at least one block per layer, as every output of the forward loop has
   * (EncryptLayersLength). Then no pass sees the empty buffer, the one input the decryptor
   * accepts that the encryptor never writes.
   */
  lemma {:induction false} DecryptLayersInverse(encryptor: Transform, decryptor: CheckedTransform, data: seq<byte>,
                                                layers: int)
    requires Rebuilds(encryptor, decryptor) && PadsAndAligns(encryptor)
    requires DecryptLayers(decryptor, data, layers).Ok? && |data| >= BlockSize * layers
    ensures EncryptLayers(encryptor, DecryptLayers(decryptor, data, layers).value, layers) == data
    decreases layers
  {
    if layers > 0 {
      var plain := decryptor(data).value;
      assert encryptor(plain) == data;
      DecryptLayersInverse(encryptor, decryptor, plain, layers - 1);
    }
  }

  /**
   * What EncryptFile does to the file store: derive the verification key, write the keyfile
   * if asked (before the file is read), read the file, and write the layered ciphertext.
   */
  function EncryptOutcome(files: map<string, seq<byte>>, platform: Platform, path: string, password: string,
                          saveKey: bool, layers: int32, m: KeyMaterial): (r: (map<string, seq<byte>>, Result<(), Error>))
    ensures r.1.Err? <==> path !in files
    ensures r.1.Err? ==> r.1.error == FileNotFound
    ensures files.Keys <= r.0.Keys
  {
    var derived := DeriveFinalKey(platform.argon2, platform.utf8, password, m.salt, m.aesKey, m.aesIV);
    var withKeyfile :=
      if saveKey then files[KeyfilePath(path) := EncodeKeyfile(Keyfile(m.salt, derived, m.aesKey, m.aesIV, layers))]
      else files;
    if path !in withKeyfile then (withKeyfile, Err(FileNotFound))
    else
      var ciphertext := EncryptLayers(CreateEncryptor(platform.aes, m.aesKey, m.aesIV), withKeyfile[path], layers as int);
      (withKeyfile[CiphertextPath(path) := ciphertext], Ok(()))
  }

  /**
   * What DecryptFile does to the file store: find the keyfile of the original path, check the
   * password, read the ciphertext, and write the result of the reverse passes.
   */
  function DecryptOutcome(files: map<string, seq<byte>>, platform: Platform, path: string, password: string)
    : (r: (map<string, seq<byte>>, Result<(), Error>))
    ensures r.1.Err? ==> r.0 == files
    ensures r.1.Ok? ==> r.0.Keys == files.Keys + {DecryptedPath(OriginalPath(path))}
  {
    var originalPath := OriginalPath(path);
    if KeyfilePath(originalPath) !in files then (files, Err(KeyfileNotFound))
    else
      match DecodeKeyfile(files[KeyfilePath(originalPath)])
      case Err(e) => (files, Err(e))
      case Ok(k) =>
        if DeriveFinalKey(platform.argon2, platform.utf8, password, k.salt, k.aesKey, k.aesIV) != k.derivedKey
        then (files, Err(InvalidPassword))
        else if path !in files then (files, Err(FileNotFound))
        else
          match DecryptLayers(CreateDecryptor(platform.aes, k.aesKey, k.aesIV), files[path], k.layers as int)
          case Err(e) => (files, Err(e))
          case Ok(plain) => (files[DecryptedPath(originalPath) := plain], Ok(()))
  }

  /**
   * EncryptFile fails only when the file is missing, and then writes no ciphertext. On success
   * the ciphertext is the layered encryption of the file. When a keyfile is asked for, it is
   * written (even when the file turns out to be missing) and decodes to the salt, the
   * verification key, the AES key, the IV and the layer count; otherwise the keyfile path is
   * left alone. No other path changes.
   */
  lemma EncryptEffects(files: map<string, seq<byte>>, platform: Platform, path: string, password: string,
                       saveKey: bool, layers: int32, m: KeyMaterial)
    requires HonorsHashLength(platform.argon2) && WellSizedMaterial(m)
    ensures var (after, r) := EncryptOutcome(files, platform, path, password, saveKey, layers, m);
      var derived := DeriveFinalKey(platform.argon2, platform.utf8, password, m.salt, m.aesKey, m.aesIV);
      && (r.Err? <==> path !in files)
      && (r.Err? ==> r.error == FileNotFound && (CiphertextPath(path) in after <==> CiphertextPath(path) in files))
      && (r.Err? && CiphertextPath(path) in files ==> after[CiphertextPath(path)] == files[CiphertextPath(path)])
      && (r.Ok? ==> CiphertextPath(path) in after
                    && after[CiphertextPath(path)] == EncryptLayers(CreateEncryptor(platform.aes, m.aesKey, m.aesIV), files[path], layers as int))
      && (saveKey ==> KeyfilePath(path) in after
                      && DecodeKeyfile(after[KeyfilePath(path)]) == Ok(Keyfile(m.salt, derived, m.aesKey, m.aesIV, layers)))
      && (!saveKey ==> (KeyfilePath(path) in after <==> KeyfilePath(path) in files))
      && (!saveKey && KeyfilePath(path) in files ==> after[KeyfilePath(path)] == files[KeyfilePath(path)])
      && (forall q :: q != KeyfilePath(path) && q != CiphertextPath(path) ==>
            (q in after <==> q in files) && (q in files ==> after[q] == files[q]))
  {
    PathsDistinct(path);
    var derived := DeriveFinalKey(platform.argon2, platform.utf8, password, m.salt, m.aesKey, m.aesIV);
    DecodeEncode(Keyfile(m.salt, derived, m.aesKey, m.aesIV, layers));
  }

  /**
   * The password check comes first: when the keyfile decodes but the re-derived key differs from
   * the stored one, DecryptFile fails with InvalidPassword whether or not the ciphertext exists,
   * and the store is unchanged, so no ".xdec" file is written.
   */
  lemma AuthenticationGate(files: map<string, seq<byte>>, platform: Platform, path: string, password: string)
    requires KeyfilePath(OriginalPath(path)) in files
    requires var loaded := DecodeKeyfile(files[KeyfilePath(OriginalPath(path))]);
      loaded.Ok? && DeriveFinalKey(platform.argon2, platform.utf8, password, loaded.value.salt,
                                   loaded.value.aesKey, loaded.value.aesIV) != loaded.value.derivedKey
    ensures DecryptOutcome(files, platform, path, password) == (files, Err(InvalidPassword))
  {
  }

  /**
   * DecryptFile changes nothing when it fails, and otherwise writes only the ".xdec" file of the
   * original path. A missing keyfile and a keyfile under 180 bytes are reported as such,
   * before any key derivation. Past them, InvalidPassword is reported exactly when the
   * re-derived key differs from the stored one; past the password, FileNotFound exactly when
   * the ciphertext is missing; and past that, the outcome is the reverse loop's: its error
   * (an incomplete block or invalid padding) or its result, written to the ".xdec" file.
   */
  lemma DecryptEffects(files: map<string, seq<byte>>, platform: Platform, path: string, password: string)
    ensures var (after, r) := DecryptOutcome(files, platform, path, password);
      var keyPath := KeyfilePath(OriginalPath(path));
      var outPath := DecryptedPath(OriginalPath(path));
      && (r.Err? ==> after == files)
      && (r.Ok? ==> outPath in after && after == files[outPath := after[outPath]])
      && (r == Err(KeyfileNotFound) <==> keyPath !in files)
      && (r == Err(KeyfileTooShort) <==> keyPath in files && |files[keyPath]| < KeyfileSize)
      && (keyPath in files && DecodeKeyfile(files[keyPath]).Ok? ==>
            var k := DecodeKeyfile(files[keyPath]).value;
            var admitted := DeriveFinalKey(platform.argon2, platform.utf8, password, k.salt, k.aesKey, k.aesIV) == k.derivedKey;
            && (r == Err(InvalidPassword) <==> !admitted)
            && (admitted ==> (r == Err(FileNotFound) <==> path !in files))
            && (admitted && path in files ==>
                  var plain := DecryptLayers(CreateDecryptor(platform.aes, k.aesKey, k.aesIV), files[path], k.layers as int);
                  && (r.Err? <==> plain.Err?)
                  && (r.Err? ==> r.error == plain.error && (r.error == IncompleteBlock || r.error == InvalidPadding))
                  && (r.Ok? ==> after[outPath] == plain.value)))
  {
    var keyPath := KeyfilePath(OriginalPath(path));
    if keyPath in files && DecodeKeyfile(files[keyPath]).Ok? && path in files {
      var k := DecodeKeyfile(files[keyPath]).value;
      DecryptLayersErrors(CreateDecryptor(platform.aes, k.aesKey, k.aesIV), files[path], k.layers as int);
    }
  }

  /**
   * An empty ciphertext passes every reverse pass unchanged: with a valid keyfile and the right
   * password, DecryptFile writes an empty ".xdec" file, whatever the layer count.
   */
  lemma EmptyCiphertextDecryptsToEmpty(files: map<string, seq<byte>>, platform: Platform, path: string, password: string)
    requires KeyfilePath(OriginalPath(path)) in files
    requires var loaded := DecodeKeyfile(files[KeyfilePath(OriginalPath(path))]);
      loaded.Ok? && DeriveFinalKey(platform.argon2, platform.utf8, password, loaded.value.salt,
                                   loaded.value.aesKey, loaded.value.aesIV) == loaded.value.derivedKey
    requires path in files && files[path] == []
    ensures DecryptOutcome(files, platform, path, password) == (files[DecryptedPath(OriginalPath(path)) := []], Ok(()))
  {
    var k := DecodeKeyfile(files[KeyfilePath(OriginalPath(path))]).value;
    EmptyStaysEmpty(CreateDecryptor(platform.aes, k.aesKey, k.aesIV), k.layers as int);
  }

  /**
   * A successful DecryptFile has checked the password against the keyfile, and what it writes
   * re-encrypts under the keyfile's key, IV and layer count to exactly the ciphertext, when the
   * ciphertext has at least one block per layer, as every ciphertext EncryptFile writes has
   * (CiphertextLength).
   */
  lemma DecryptSound(files: map<string, seq<byte>>, platform: Platform, path: string, password: string)
    requires Restores(platform.aes)
    requires DecryptOutcome(files, platform, path, password).1.Ok?
    ensures var after := DecryptOutcome(files, platform, path, password).0;
      var originalPath := OriginalPath(path);
      && KeyfilePath(originalPath) in files && path in files
      && DecodeKeyfile(files[KeyfilePath(originalPath)]).Ok?
      && var k := DecodeKeyfile(files[KeyfilePath(originalPath)]).value;
      && DeriveFinalKey(platform.argon2, platform.utf8, password, k.salt, k.aesKey, k.aesIV) == k.derivedKey
      && DecryptedPath(originalPath) in after
      && (|files[path]| >= BlockSize * k.layers as int ==>
            EncryptLayers(CreateEncryptor(platform.aes, k.aesKey, k.aesIV), after[DecryptedPath(originalPath)], k.layers as int)
            == files[path])
  {
    var originalPath := OriginalPath(path);
    var k := DecodeKeyfile(files[KeyfilePath(originalPath)]).value;
    if |files[path]| >= BlockSize * k.layers as int {
      TransformsRebuild(platform.aes, k.aesKey, k.aesIV);
      DecryptLayersInverse(CreateEncryptor(platform.aes, k.aesKey, k.aesIV), CreateDecryptor(platform.aes, k.aesKey, k.aesIV),
                           files[path], k.layers as int);
    }
  }

  /**
   * Encrypting a file with its keyfile saved and then decrypting the ciphertext with the same
   * password writes the original contents to the ".xdec" file, for every layer count.
   */
  lemma EncryptThenDecrypt(files: map<string, seq<byte>>, platform: Platform, path: string, password: string,
                           layers: int32, m: KeyMaterial)
    requires Inverts(platform.aes) && HonorsHashLength(platform.argon2) && WellSizedMaterial(m)
    requires path in files && !Contains(path, ".xenc")
    ensures var (encrypted, r) := EncryptOutcome(files, platform, path, password, true, layers, m);
      && r == Ok(())
      && DecryptOutcome(encrypted, platform, CiphertextPath(path), password)
         == (encrypted[DecryptedPath(path) := files[path]], Ok(()))
  {
    var (encrypted, r) := EncryptOutcome(files, platform, path, password, true, layers, m);
    var derived := DeriveFinalKey(platform.argon2, platform.utf8, password, m.salt, m.aesKey, m.aesIV);
    var k := Keyfile(m.salt, derived, m.aesKey, m.aesIV, layers);
    PathsDistinct(path);
    OriginalOfCiphertextPath(path);
    DecodeEncode(k);
    assert encrypted[KeyfilePath(path)] == EncodeKeyfile(k);
    TransformsUndo(platform.aes, m.aesKey, m.aesIV);
    LayersRoundTrip(CreateEncryptor(platform.aes, m.aesKey, m.aesIV), CreateDecryptor(platform.aes, m.aesKey, m.aesIV),
                    files[path], layers as int);
  }

  /**
   * Encrypting an existing ciphertext "p.xenc" again, with its keyfile saved, writes that
   * keyfile at "p.xenc.xkey"; decrypting "p.xenc.xenc" strips both extensions, looks for
   * "p.xkey" instead, and fails with KeyfileNotFound when that is absent.
   */
  lemma DoubleEncryptionLosesKeyfile(files: map<string, seq<byte>>, platform: Platform, path: string, password: string,
                                     layers: int32, m: KeyMaterial)
    requires !Contains(path, ".xenc") && CiphertextPath(path) in files && KeyfilePath(path) !in files
    ensures var (encrypted, r) := EncryptOutcome(files, platform, CiphertextPath(path), password, true, layers, m);
      && r == Ok(())
      && KeyfilePath(CiphertextPath(path)) in encrypted
      && DecryptOutcome(encrypted, platform, CiphertextPath(CiphertextPath(path)), password) == (encrypted, Err(KeyfileNotFound))
  {
    DoubleCiphertextPath(path);
    var (encrypted, r) := EncryptOutcome(files, platform, CiphertextPath(path), password, true, layers, m);
    assert |KeyfilePath(path)| < |KeyfilePath(CiphertextPath(path))| && |KeyfilePath(path)| < |CiphertextPath(CiphertextPath(path))|;
    assert KeyfilePath(path) !in encrypted;
  }

  /**
   * The for loop of EncryptFile: each round resets the stream and replaces the buffer with what
   * the encryptor writes for it.
   */
  method ApplyEncryptLayers(encryptor: Transform, data: seq<byte>, layers: int) returns (mem: seq<byte>)
    ensures mem == EncryptLayers(encryptor, data, layers)
  {
    mem := data;
    var i := 0;
    while i < layers
      invariant 0 <= i <= if layers < 0 then 0 else layers
      invariant mem == EncryptLayers(encryptor, data, i)
    {
      mem := encryptor(mem);
      i := i + 1;
    }
  }

  /**
   * The for loop of DecryptFile: each round replaces the buffer with what the decryptor writes
   * for it; a pass that throws ends the loop with its error.
   */
  method ApplyDecryptLayers(decryptor: CheckedTransform, data: seq<byte>, layers: int) returns (r: Result<seq<byte>, Error>)
    ensures r == DecryptLayers(decryptor, data, layers)
  {
    var mem := data;
    var i := 0;
    while i < layers
      invariant 0 <= i <= if layers < 0 then 0 else layers
      invariant DecryptLayers(decryptor, mem, layers - i) == DecryptLayers(decryptor, data, layers)
    {
      var pass := decryptor(mem);
      if pass.Err? {
        return Err(pass.error);
      }
      mem := pass.value;
      i := i + 1;
    }
    r := Ok(mem);
  }

  /** EncryptFile: the loop runs EncryptPass `layers` times on the file's bytes with one key and one IV. */
  method EncryptFile(disk: Disk, platform: Platform, path: string, password: string, saveKey: bool, useHWID: bool,
                     layers: int32, material: KeyMaterial) returns (r: Result<(), Error>)
    requires WellSizedMaterial(material)
    modifies disk
    ensures (disk.files, r) == EncryptOutcome(old(disk.files), platform, path, password, saveKey, layers, material)
  {
    // useHWID is accepted and never read.
    var fullKey := DeriveFinalKey(platform.argon2, platform.utf8, password, material.salt, material.aesKey, material.aesIV);
    if saveKey {
      SaveKeyfile(disk, path, fullKey, material.salt, material.aesKey, material.aesIV, layers);
    }
    var read := disk.ReadAllBytes(path);
    if read.Err? {
      return Err(read.error);
    }
    var mem := ApplyEncryptLayers(CreateEncryptor(platform.aes, material.aesKey, material.aesIV), read.value, layers as int);
    disk.WriteAllBytes(CiphertextPath(path), mem);
    r := Ok(());
  }

  /** DecryptFile: load the keyfile, check the password, then run DecryptPass `layers` times. */
  method DecryptFile(disk: Disk, platform: Platform, path: string, password: string) returns (r: Result<(), Error>)
    modifies disk
    ensures (disk.files, r) == DecryptOutcome(old(disk.files), platform, path, password)
  {
    var originalPath := OriginalPath(path);
    var loaded := LoadKeyfileWithLayer(disk, originalPath);
    if loaded.Err? {
      return Err(loaded.error);
    }
    var k := loaded.value;
    var derived := DeriveFinalKey(platform.argon2, platform.utf8, password, k.salt, k.aesKey, k.aesIV);
    if derived != k.derivedKey {
      return Err(InvalidPassword);
    }
    var aesIV: Block := k.aesIV;
    var read := disk.ReadAllBytes(path);
    if read.Err? {
      return Err(read.error);
    }
    var plain := ApplyDecryptLayers(CreateDecryptor(platform.aes, k.aesKey, aesIV), read.value, k.layers as int);
    if plain.Err? {
      return Err(plain.error);
    }
    disk.WriteAllBytes(DecryptedPath(originalPath), plain.value);
    r := Ok(());
  }
}
