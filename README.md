# XENCNG core, modelled in Dafny

XENCNG is a console tool that encrypts files with stacked AES-256-CBC passes. It asks for a
path, a mode, a password and, when encrypting, two yes/no flags and a strength level from 1 to 3.
Those map to 100, 10 000 or 100 000 layers. The tool then works on one file or on every file
of a directory. Three parts are modelled here:

- **The engine** (`Engine/Encryptor.cs`). EncryptFile draws a salt, an AES key and an IV. It
  derives an Argon2id verification key and can write a keyfile. It then runs `layers` forward
  CBC/PKCS#7 passes with the same key and IV, and writes `path + ".xenc"`. DecryptFile removes
  every ".xenc" from the path and loads that path's keyfile. It re-derives the verification key
  and refuses a wrong password before it reads the ciphertext. It then runs `layers` reverse
  passes and writes `original + ".xdec"`.
- **Key generation and the keyfile** (`Engine/KeyGenerator.cs`). The Argon2id input is
  `UTF8(password) ‖ aesKey ‖ aesIV`, and the salt is passed separately. The keyfile is 180
  bytes: salt, verification key, AES key, IV, then the layer count as a little-endian int32.
  It sits at `filePath + ".xkey"`.
- **The console decision rules** (`Program.cs`). Help detection, the path, mode and password
  checks, the y/n flags, the `int.TryParse`-then-switch layer choice, and the per-file loops
  with the ".xenc" filter on batch decryption.

Modules:

- `Bytes`: bytes, int32, XOR, and the little-endian layout BitConverter uses.
- `AesCbc`: PKCS#7, CBC over an abstract block cipher, and one CryptoStream pass.
- `Text`: Trim, ToLower, EndsWith and Replace.
- `Numbers`: `int.TryParse`, with a reference decimal encoding of int32 used to state what it
  accepts.
- `FileStore`: the file system as a class holding a path-to-bytes map.
- `KeyGenerator`: the verification key and the keyfile codec.
- `Encryptor`: the layer loops and the two file operations.
- `Cli`: the console program.

Each engine method (EncryptFile, DecryptFile, SaveKeyfile and LoadKeyfileWithLayer) is
imperative and works on a `Disk` object; the layer loops (ApplyEncryptLayers and
ApplyDecryptLayers) are imperative and work on the byte buffer. Each Disk method is proved
equal to a pure outcome function of the old file map, and each loop to a pure function of its
input buffer (`EncryptLayers`, `DecryptLayers`). The lemmas about those functions state what the source promises: the round
trip, the password gate, that nothing is written on failure, and the lengths.

The AES block function is a parameter `BlockCipher(encrypt, decrypt)`. The round trips assume
`Inverts` (decrypt after encrypt is the identity) or `Restores` (the converse). Both are stated
as `requires`, never as axioms. Argon2id and UTF-8 encoding are also parameters, and so are the
random salt, key and IV.

Where the program's own comments and help text and its code disagree, the model follows the
code:

- The comment at Engine/Encryptor.cs:86 says DecryptFile removes the ".xenc" extension, but the
  code is `path.Replace(".xenc", "")` (Engine/Encryptor.cs:87). This removes every occurrence,
  not only a trailing extension, so `d.xenc/f.xenc` decrypts to `d/f.xdec`
  (`Encryptor.OriginalPathRemovesInnerOccurrences`). The round trip is therefore stated for
  paths that contain no ".xenc".
- The help text says the IV is random "per layer" (Program.cs:167). The code sets one key and
  one IV before the loop and reuses them in every layer, and the model does too.

A consequence of that `Replace`: batch encryption also encrypts an existing "p.xenc", and saves
its keyfile as "p.xenc.xkey". Decrypting "p.xenc.xenc" removes both occurrences and looks for
"p.xkey" instead, so it fails with KeyfileNotFound when that is absent
(`Encryptor.DoubleEncryptionLosesKeyfile`).

## Model

| member | source | states |
|---|---|---|
| Bytes.XorByteCancel | Engine/Encryptor.cs:44 | XOR of a byte with the same byte twice gives the byte back, which is what CBC chaining relies on |
| Bytes.ToInt32OfLe32 | Engine/KeyGenerator.cs:77-102 | reading back the four little-endian bytes of any int32, negative ones included, gives the same value |
| Bytes.Le32OfToInt32 | Engine/KeyGenerator.cs:102 | every four-byte pattern is the encoding of the int32 read from it, so the codec is a bijection |
| Bytes.XorNatBits | Engine/Encryptor.cs:44 | every bit of the exclusive or of two naturals is set exactly when the two bits at that place differ |
| Bytes.XorByteBits | Engine/Encryptor.cs:44 | the byte XOR used in CBC chaining is bitwise exclusive or |
| Bytes.Le32 | Engine/KeyGenerator.cs:77 | BitConverter.GetBytes writes four bytes whose little-endian base-256 value is the two's-complement pattern of the int32 |
| Bytes.ToInt32 | Engine/KeyGenerator.cs:102 | BitConverter.ToInt32 reads the int32 whose two's-complement pattern is the little-endian value of the first four bytes |
| AesCbc.XorBits | Engine/Encryptor.cs:44 | each bit of each byte of a block XOR is set exactly when the two blocks differ there |
| AesCbc.XorCancel | Engine/Encryptor.cs:44 | XOR of a block with the same block twice gives the block back |
| AesCbc.Pad | Engine/Encryptor.cs:45 | PKCS#7 output keeps the data as a prefix, is block-aligned, adds 1 to 16 bytes (16 for empty input), and every added byte holds the number of bytes added |
| AesCbc.Unpad | Engine/Encryptor.cs:102 | a successful unpad removes 1 to 16 trailing bytes and keeps the prefix; empty input is rejected |
| AesCbc.UnpadPad | Engine/Encryptor.cs:45 | padding is always recognised and removed again |
| AesCbc.PadUnpad | Engine/Encryptor.cs:102 | a block-aligned buffer with valid padding is the padding of what it unpads to |
| AesCbc.CbcEncrypt | Engine/Encryptor.cs:44 | CBC encryption of whole blocks preserves the length |
| AesCbc.CbcDecrypt | Engine/Encryptor.cs:101 | CBC decryption of whole blocks preserves the length |
| AesCbc.CbcDecryptEncrypt | Engine/Encryptor.cs:44 | with a block cipher whose decrypt inverts encrypt, CBC decryption undoes CBC encryption under the same key and IV |
| AesCbc.CbcEncryptDecrypt | Engine/Encryptor.cs:101 | conversely, re-encrypting a CBC decryption gives back the ciphertext |
| AesCbc.EncryptPass | Engine/Encryptor.cs:59-63 | one forward pass over n bytes yields exactly 16 * (n div 16 + 1) bytes: aligned, 1 to 16 bytes longer |
| AesCbc.DecryptPass | Engine/Encryptor.cs:116-117 | a reverse pass refuses a length that is not a multiple of 16 (IncompleteBlock); an empty buffer passes through as empty; it fails only with an incomplete block or invalid padding; on a non-empty buffer it succeeds only on whole blocks and is 1 to 16 bytes shorter |
| AesCbc.DecryptEncryptPass | Engine/Encryptor.cs:59-63 | a reverse pass with the same key and IV undoes a forward pass |
| AesCbc.EncryptDecryptPass | Engine/Encryptor.cs:116-120 | whatever non-empty buffer a reverse pass accepts is exactly what a forward pass under the same key and IV makes of the reverse pass's output |
| AesCbc.EmptyPassesThrough | Engine/Encryptor.cs:59-117 | a reverse pass turns the empty buffer into the empty buffer, while no forward pass writes an empty buffer |
| Text.TrimStart | Program.cs:22 | keeps a suffix and removes only white space in front of it; what is kept does not start with white space |
| Text.TrimStartSuffix | Program.cs:22 | what TrimStart keeps is a suffix of its input |
| Text.TrimEnd | Program.cs:22 | removes only trailing white space; what is kept does not end with white space |
| Text.TrimEndPrefix | Program.cs:22 | what TrimEnd keeps is a prefix of its input |
| Text.Trim | Program.cs:22 | Trim never lengthens, and what it keeps neither starts nor ends with white space, where white space is the Char.IsWhiteSpace set (`Text.IsWhiteSpace`: U+0009–U+000D, U+0020, U+0085, U+00A0, U+1680, U+2000–U+200A, U+2028, U+2029, U+202F, U+205F, U+3000) |
| Text.TrimSlice | Program.cs:22 | Trim keeps a contiguous middle slice, with only white space on both sides, that starts and ends with non-white characters |
| Text.TrimEmpty | Program.cs:17-22 | a string trims to nothing exactly when it is all white space |
| Text.IsNullOrWhiteSpace | Program.cs:17 | string.IsNullOrWhiteSpace holds exactly for null and for a string that trims to nothing |
| Text.TrimPadded | Program.cs:37 | Trim removes exactly the white-space padding around a string with non-white ends |
| Text.TrimStartPadded | Program.cs:37 | TrimStart removes exactly a white-space prefix in front of a non-white character |
| Text.TrimEndPadded | Program.cs:37 | TrimEnd removes exactly a white-space suffix after a non-white character |
| Text.LowerChar | Program.cs:37 | an upper-case ASCII letter becomes the lower-case letter 32 code points above it ('A' to 'a'), no upper-case ASCII letter remains, and every other character is kept |
| Text.ToLower | Program.cs:37 | lower-casing keeps the length, maps each upper-case ASCII letter to its lower-case letter, leaves no upper-case ASCII letter, and keeps every other character |
| Text.LowersToY | Program.cs:58 | a string lower-cases to "y" exactly when it is "y" or "Y" |
| Text.EndsWithIff | Program.cs:104 | a string ends with a suffix exactly when it is some string followed by that suffix |
| Text.RemoveAll | Engine/Encryptor.cs:87 | Replace(pat, "") never lengthens the string |
| Text.RemoveAllAbsent | Engine/Encryptor.cs:87 | a string without the pattern is left as it is |
| Text.RemoveAllAfterClean | Engine/Encryptor.cs:87 | when the pattern's first character does not recur in it, removing every occurrence from p + pattern + rest, with p free of the pattern, gives p followed by the removal from rest |
| Text.RemoveAllAppended | Engine/Encryptor.cs:87 | appending the pattern to a string that lacks it, then removing every occurrence, gives the string back |
| Numbers.SkipWhite | Program.cs:71 | TryParse skips only leading parse white space (`Numbers.IsParseWhite`: the NumberStyles set U+0009–U+000D and U+0020), and what is left does not start with it |
| Numbers.SkipWhiteSuffix | Program.cs:71 | what SkipWhite leaves is a suffix of its input |
| Numbers.DigitRun | Program.cs:71 | the digit run is all ASCII digits and is followed by a non-digit or the end |
| Numbers.ParseMagnitude | Program.cs:71 | the unsigned part parses only if it starts with a digit; its full shape and value are stated by `Numbers.MagnitudeSound` and `Numbers.MagnitudeOfDigits` |
| Numbers.ParseSigned | Program.cs:71 | after the white space, a value is read only from a digit or from a sign followed by a digit, and a negative value only after '-'; its full shape and value are stated by `Numbers.SignedSound` and `Numbers.ParseSignedOfText` |
| Numbers.DecimalValueOfDigits | Program.cs:71 | reading back the decimal digits of n gives n |
| Numbers.SkipWhiteOfPadded | Program.cs:71 | white space in front of a non-white character is skipped entirely |
| Numbers.DigitRunOfDigits | Program.cs:71 | the digit run of digits followed by a non-digit is exactly those digits |
| Numbers.MagnitudeOfDigits | Program.cs:71 | digits followed by white space and then NUL characters parse as the number the digits denote |
| Numbers.MagnitudeSound | Program.cs:71 | everything the unsigned part accepts is digits, then white space, then only NULs, and its value is the number the digits denote |
| Numbers.ParseSignedOfText | Program.cs:71 | no sign, '+' or '-', then digits, white space and NULs, parse as the signed number they denote |
| Numbers.SignedSound | Program.cs:71 | everything the signed parse accepts is an optional sign, digits, white space and NULs, read as the signed number they denote |
| Numbers.ParseSignedOfDigits | Program.cs:71 | unsigned digits followed by white space parse as their value |
| Numbers.ParseSignedOfNegative | Program.cs:71 | a minus sign, digits and white space parse as the negated value |
| Numbers.TryParseOfPadded | Program.cs:71 | TryParse is the signed parse after the leading white space, with the 32-bit range check |
| Numbers.TryParseComplete | Program.cs:71 | white space, an optional sign, digits, white space and NULs parse as the signed number denoted when it is in the int32 range, and fail otherwise |
| Numbers.TryParseSound | Program.cs:71 | every string TryParse accepts is white space, an optional sign, digits, white space and NULs, and the value returned is the signed number the digits denote |
| Numbers.TryParseRejectsTrailing | Program.cs:71 | "2x" and "1 2" do not parse: text after the digits other than white space and NULs fails |
| Numbers.ParseFormat | Program.cs:71 | TryParse reads back the reference decimal text of every int32 (`Numbers.Format`: '-' exactly for negative values, then digits with no leading zero), with any parse white space around it |
| Numbers.SignedNeedsDigit | Program.cs:71 | a signed reading after the white space exists only for a string containing an ASCII digit |
| Numbers.TryParseInt32 | Program.cs:71 | int.TryParse succeeds only on a string containing an ASCII digit; its full shape and value are stated by `Numbers.TryParseSound` and `Numbers.TryParseComplete` |
| Numbers.ParseOverflow | Program.cs:71 | unsigned digits denoting 2^31 or more fail to parse |
| Numbers.ParseSmallChoices | Program.cs:71 | "1", "2" and "3" parse as 1, 2 and 3, so a null read (which defaults to "1") means choice 1 |
| FileStore.Disk.Exists | Engine/KeyGenerator.cs:93 | File.Exists is true exactly for a path in the store |
| FileStore.Disk.ReadAllBytes | Engine/Encryptor.cs:48 | a read returns the stored bytes, or FileNotFound for a missing path |
| FileStore.Disk.WriteAllBytes | Engine/Encryptor.cs:71 | a write creates or overwrites one path and changes nothing else |
| KeyGenerator.KdfInput | Engine/KeyGenerator.cs:27-30 | the Argon2 password is the password bytes, then the AES key, then the IV, with the summed length |
| KeyGenerator.KdfInputUnambiguous | Engine/KeyGenerator.cs:27-30 | with a 32-byte key and a 16-byte IV, the Argon2 input determines the password bytes, the key and the IV |
| KeyGenerator.DeriveFinalKey | Engine/KeyGenerator.cs:23-49 | the fixed Argon2id parameters of `VerificationConfig` (version 0x13, time cost 4, 256 MiB, 2 lanes, 2 threads, 64-byte output), with the salt passed as the salt; the result has 64 bytes when the hash honours its length parameter |
| KeyGenerator.KeyfilePath | Engine/KeyGenerator.cs:64 | the keyfile path is the file path followed by ".xkey" |
| KeyGenerator.EncodeKeyfile | Engine/KeyGenerator.cs:66-77 | correctly sized fields give exactly 180 bytes, with the fields at offsets 0, 64, 128 and 160 and LE32(layers) at 176 |
| KeyGenerator.DecodeKeyfile | Engine/KeyGenerator.cs:97-102 | decoding succeeds exactly on input of at least 180 bytes and yields correctly sized fields; shorter input fails with KeyfileTooShort |
| KeyGenerator.DecodeEncode | Engine/KeyGenerator.cs:73-102 | decoding an encoded keyfile gives back every field, for every int32 layer count |
| KeyGenerator.EncodeDecode | Engine/KeyGenerator.cs:98-102 | re-encoding what was decoded from 180 or more bytes gives back the first 180 |
| KeyGenerator.DecodeIgnoresTrailing | Engine/KeyGenerator.cs:98-102 | bytes past offset 180 are ignored |
| KeyGenerator.SaveKeyfile | Engine/KeyGenerator.cs:62-81 | the five sequential writes store exactly the encoded keyfile at the keyfile path, and nothing else changes |
| KeyGenerator.LoadKeyfileWithLayer | Engine/KeyGenerator.cs:90-105 | a missing keyfile fails with KeyfileNotFound before any parsing; otherwise the result is the decoding of the file's bytes |
| Encryptor.CiphertextPath | Engine/Encryptor.cs:71 | the ciphertext path is the path followed by ".xenc", five characters longer |
| Encryptor.OriginalPath | Engine/Encryptor.cs:87 | the original path is never longer than the given one, and is the given one when it contains no ".xenc" |
| Encryptor.DecryptedPath | Engine/Encryptor.cs:128 | the output path is the original path followed by ".xdec", five characters longer, and never the ciphertext path of that original |
| Encryptor.OriginalOfCiphertextPath | Engine/Encryptor.cs:71-87 | for a path containing no ".xenc", the original path of its ciphertext path is the path itself |
| Encryptor.OriginalPathRemovesInnerOccurrences | Engine/Encryptor.cs:87 | Replace removes every ".xenc", so "d.xenc/f.xenc" leads to "d/f" |
| Encryptor.DoubleCiphertextPath | Engine/Encryptor.cs:71-87 | for a path without ".xenc", encrypting its ciphertext again gives a name whose original path is the first path, not the first ciphertext |
| Encryptor.PathsDistinct | Engine/Encryptor.cs:71-128 | the file, its ".xenc", ".xkey" and ".xdec" paths are pairwise different |
| Encryptor.CreateEncryptor | Engine/Encryptor.cs:40-59 | the encryptor made from a key and IV pads and aligns: every output is block-aligned and 1 to 16 bytes longer |
| Encryptor.CreateDecryptor | Engine/Encryptor.cs:97-116 | the decryptor made from a key and IV fails only with an incomplete block or invalid padding, and passes the empty buffer through |
| Encryptor.TransformsUndo | Engine/Encryptor.cs:98-102 | the decryptor made from a key and IV undoes every output of the encryptor made from the same key and IV |
| Encryptor.TransformsRebuild | Engine/Encryptor.cs:41-45 | the encryptor rebuilds every non-empty input the decryptor with the same key and IV accepts |
| Encryptor.EncryptLayers | Engine/Encryptor.cs:53 | zero or fewer layers leave the bytes unchanged |
| Encryptor.DecryptLayers | Engine/Encryptor.cs:110 | zero or fewer layers leave the bytes unchanged |
| Encryptor.EncryptLayersLength | Engine/Encryptor.cs:53-68 | after L >= 1 layers of a padding transform, the buffer is aligned, between L and 16 * L bytes longer, and at least 16 * L bytes long |
| Encryptor.CiphertextLength | Engine/Encryptor.cs:53-68 | the same bound for the CBC/PKCS#7 encryptor EncryptFile uses |
| Encryptor.DecryptLayersErrors | Engine/Encryptor.cs:110-125 | a failing reverse loop fails as a reverse pass does |
| Encryptor.LayersRoundTrip | Engine/Encryptor.cs:53-125 | L reverse passes undo L forward passes with the same key and IV, for every L |
| Encryptor.EmptyStaysEmpty | Engine/Encryptor.cs:110-125 | a decryptor that passes the empty buffer through leaves it empty over any number of layers |
| Encryptor.DecryptLayersInverse | Engine/Encryptor.cs:110-125 | whatever L reverse passes accept re-encrypts in L forward passes to exactly the input, when the input has at least one block per layer |
| Encryptor.EncryptOutcome | Engine/Encryptor.cs:22-73 | EncryptFile fails exactly when the file is missing, then with FileNotFound, and never removes a path |
| Encryptor.DecryptOutcome | Engine/Encryptor.cs:82-130 | a failing DecryptFile leaves the store as it was; a successful one adds at most the ".xdec" path of the original path |
| Encryptor.EncryptEffects | Engine/Encryptor.cs:22-73 | EncryptFile fails only when the file is missing, and then writes no ciphertext; on success the ".xenc" file is the layered encryption; a requested keyfile is written even then and decodes to the material and the layer count; no other path changes |
| Encryptor.AuthenticationGate | Engine/Encryptor.cs:93-95 | a re-derived key that differs from the stored one fails with InvalidPassword whether or not the ciphertext exists, and leaves the store unchanged, so no ".xdec" is written |
| Encryptor.DecryptEffects | Engine/Encryptor.cs:82-130 | a failing DecryptFile changes nothing; a successful one writes only the ".xdec" of the original path; a missing keyfile and one under 180 bytes are reported exactly when they occur; with a valid keyfile InvalidPassword exactly when the re-derived key differs; past the password FileNotFound exactly when the ciphertext is missing; past that the reverse loop's error (block or padding only) or its result, written to the ".xdec" |
| Encryptor.EmptyCiphertextDecryptsToEmpty | Engine/Encryptor.cs:105-128 | an empty ciphertext with a valid keyfile and the right password decrypts to an empty ".xdec" file, for every layer count |
| Encryptor.DecryptSound | Engine/Encryptor.cs:93-128 | a successful DecryptFile has matched the password and written the ".xdec"; what it writes re-encrypts under the keyfile's key, IV and layer count to exactly the ciphertext, when that has at least one block per layer, as every ciphertext EncryptFile writes does |
| Encryptor.EncryptThenDecrypt | Engine/Encryptor.cs:22-130 | encrypting with the keyfile saved, then decrypting the ciphertext with the same password, writes the original bytes to the ".xdec" file, for every layer count |
| Encryptor.DoubleEncryptionLosesKeyfile | Engine/Encryptor.cs:38-90 | encrypting an existing "p.xenc" again with its keyfile saved writes "p.xenc.xkey", but decrypting "p.xenc.xenc" looks for "p.xkey" and fails with KeyfileNotFound when it is absent |
| Encryptor.ApplyEncryptLayers | Engine/Encryptor.cs:53-68 | the forward loop computes exactly EncryptLayers |
| Encryptor.ApplyDecryptLayers | Engine/Encryptor.cs:110-125 | the reverse loop, which stops at the first failing pass, computes exactly DecryptLayers |
| Encryptor.EncryptFile | Engine/Encryptor.cs:22-73 | the new store and the result are those of EncryptOutcome on the old store |
| Encryptor.DecryptFile | Engine/Encryptor.cs:82-130 | the new store and the result are those of DecryptOutcome on the old store |
| Cli.ReadLine | Program.cs:16 | Console.ReadLine gives the next line while there is one and null after the last |
| Cli.WantsHelp | Program.cs:4 | help is asked for exactly when the first argument is one of "--help", "-h", "help", "/?" |
| Cli.HelpIsExact | Program.cs:4 | only the first argument counts, differently cased spellings are not help, and no arguments means no help |
| Cli.ParsePath | Program.cs:15-28 | blank input is NoPath; otherwise the trimmed path must exist (PathNotFound); the accepted path is the trimmed, non-empty, existing input |
| Cli.ParseMode | Program.cs:30-43 | blank input is NoMode; a mode is accepted exactly when the trimmed, lower-cased input is "encrypt" or "decrypt" |
| Cli.ModeIsLenient | Program.cs:37 | white space around the answer and upper case in it are accepted |
| Cli.ModeIgnoresCase | Program.cs:37 | "  ENCRYPT " is accepted as encrypt and "Decrypt" as decrypt |
| Cli.ModeIsWhole | Program.cs:39-43 | a prefix of a mode name is InvalidMode and a null read is NoMode |
| Cli.ParsePassword | Program.cs:45-52 | a null or all-white-space password is refused; otherwise it is used as typed, untrimmed |
| Cli.YesFlag | Program.cs:58-62 | a flag is set exactly by the answers "y" and "Y"; a null read gives false |
| Cli.LayerCount | Program.cs:76-82 | the layer count is always 100, 10 000 or 100 000 |
| Cli.LayerCountCases | Program.cs:70-82 | 10 000 exactly when the input parses as 2, 100 000 exactly when it parses as 3, and 100 otherwise, null read included |
| Cli.LayerCountRejectsTrailing | Program.cs:70-82 | the answer "2x" fails to parse, defaults to choice 1 and selects 100 layers |
| Cli.LayerChoiceMapping | Program.cs:70-82 | the answers 1, 2 and 3, with any white space around them, give 100, 10 000 and 100 000 layers; a null read gives 100 |
| Cli.Interpret | Program.cs:4-82 | help exactly when asked for; otherwise an encrypt or decrypt plan exactly when path, mode and password pass, by the mode, and a stop exactly when one fails, with the first failing answer's reason; an engine plan carries the trimmed, existing path, the untrimmed non-blank password, flags set by "y" or "Y", and the layer count of the sixth line, one of the three; NoPath exactly for a blank first line |
| Cli.EncryptEach | Program.cs:85-93 | the encrypt loop never removes a path and fails only with FileNotFound |
| Cli.Ciphertexts | Program.cs:104 | the names kept are exactly those in the listing that end in ".xenc" |
| Cli.CiphertextsAppend | Program.cs:102-106 | the filter distributes over concatenation and keeps or drops each single name by its ".xenc" ending, so it keeps listing order |
| Cli.DecryptSequence | Program.cs:102-106 | DecryptFile on each name in turn never removes a path |
| Cli.DecryptEach | Program.cs:99-107 | the decrypt loop with its ".xenc" filter never removes a path |
| Cli.DecryptEachFilters | Program.cs:99-107 | the decrypt loop calls DecryptFile on exactly the ".xenc" names, in listing order |
| Cli.NoCiphertextsNoChange | Program.cs:102-106 | a listing with no ".xenc" name leaves the store untouched |
| Cli.EncryptEachCovers | Program.cs:85-90 | over a listing of existing files the encrypt loop succeeds, removes no path, and leaves a ciphertext for every file |
| Cli.DecryptEachCovers | Program.cs:99-107 | a successful decrypt loop removes no path and writes the ".xdec" of every ".xenc" name |
| Cli.EncryptAll | Program.cs:88-89 | the foreach with EncryptFile computes EncryptEach, stopping at the first failure |
| Cli.DecryptAll | Program.cs:102-106 | the foreach with the ".xenc" filter and DecryptFile computes DecryptEach |
| Cli.StopsChangeNothing | Program.cs:4-52 | help and a refused prompt leave the store as it was |
| Cli.Outcome | Program.cs:4-112 | no run removes a path, and help or a refused prompt leaves the store as it was |
| Cli.Execute | Program.cs:84-112 | the dispatch on mode and on directory or file computes Outcome |

## Left out

- AES block function internals (FIPS 197): a parameter. The round trips assume it is a
  permutation (`Inverts`, `Restores`). Key and IV sizes are not checked by the block function.
- Argon2id internals (RFC 9106) and UTF-8 encoding: parameters. The length result assumes the
  hash returns `hashLength` bytes (`HonorsHashLength`).
- `RandomNumberGenerator` (Engine/Encryptor.cs:27-29): the salt, key and IV are an argument
  (`KeyMaterial`), and in `Cli.Execute` a function from the file's index to its material.
- Real file I/O: the store is a path-to-bytes map. The only I/O failure modelled is a missing
  file. Permissions, disk errors and concurrent changes are not modelled.
- Exceptions: each one escaping the engine is an `Err` value, and a failure in a batch ends the
  run, as an unhandled exception ends the program.
- Console output, the progress condition `i % (layers / 10 + 1)` (Engine/Encryptor.cs:66-67,
  123-124) and the ShowHelp text: nothing there affects the files or the result.
- `FileWalker.GetAllFiles` is a one-line wrapper over directory enumeration, and is not part of
  this model. The listing is an argument, and so are `File.Exists || Directory.Exists` and
  `Directory.Exists` of the input path.
- The `useHWID` flag is parsed and passed on but never read (Engine/Encryptor.cs:20-22); the
  model passes it on unread.
- `BitConverter` host endianness: little-endian is assumed, as the layout comment at
  Engine/KeyGenerator.cs:71 says.
- Culture-sensitive string operations. `ToLower` (Program.cs:37, 58, 62) is modelled on ASCII
  letters only, so culture-specific case mappings are not captured. `file.EndsWith(".xenc")`
  (Program.cs:104) is a culture-sensitive comparison in .NET that ignores zero-weight code
  points such as U+00AD and U+200B; `Text.EndsWith` is ordinal, so a name like
  "a.xenc\u200B" is skipped by the model but handed to DecryptFile by the program.
  `int.TryParse` (Program.cs:71) uses the current culture's NumberFormatInfo; the model assumes
  a culture whose signs are '+' and '-' and whose digits are ASCII, as the invariant culture's are.
- AesCbc.EncryptDecryptPass: stated for non-empty buffers only. A CryptoStream decrypting an
  empty buffer writes nothing and does not throw, so the empty buffer is accepted but is not
  re-encrypted to itself (a forward pass always writes at least one block).
- Encryptor.DecryptLayersInverse: stated for inputs of at least 16 bytes per layer, for the
  same reason: a shorter input can reach a pass as the empty buffer.
- Encryptor.DecryptSound: the re-encryption clause is stated for ciphertexts of at least 16
  bytes per layer, which covers every ciphertext EncryptFile writes (`Encryptor.CiphertextLength`).
  A shorter one, such as an empty ".xenc", can decrypt without error (to an empty ".xdec",
  `Encryptor.EmptyCiphertextDecryptsToEmpty`) and then does not re-encrypt to itself.
- Strings: a Dafny `string` is a sequence of Unicode scalar values, while a C# string is a
  sequence of UTF-16 code units. The model does not depend on the difference: Trim, ToLower,
  Replace and the ordinal EndsWith are applied with ASCII patterns and BMP white space.
- The aliasing and in-place updates of `MemoryStream`: each layer is a value-to-value
  transformation of the buffer, which is what the loops compute.
