/** Optional values, results and the failures the engine reports. */
module Results {

  /** A value that may be absent: a `string?` read from the console is `None` at end of input. */
  datatype Option<+T> = None | Some(value: T)

  /** The outcome of an operation that either yields a value or fails with an error. */
  datatype Result<+T, +E> = Ok(value: T) | Err(error: E)

  /** The exceptions the engine lets escape, one constructor per cause. */
  datatype Error =
    | FileNotFound     // File.ReadAllBytes on a path that does not exist
    | KeyfileNotFound  // FileNotFoundException("Keyfile not found") from the keyfile loader
    | KeyfileTooShort  // BitConverter.ToInt32 given fewer than 4 bytes at offset 176
    | InvalidPassword  // UnauthorizedAccessException("Invalid password.")
    | IncompleteBlock  // CryptographicException: the ciphertext is not a whole number of blocks
    | InvalidPadding   // CryptographicException: the PKCS#7 padding does not check out
}
