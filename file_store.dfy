/** The file system as the engine sees it: whole files, read and written at once. */
module FileStore {
  import opened Bytes
  import opened Results

  class Disk {
    /** The contents of every existing file, by path. */
    var files: map<string, seq<byte>>

    constructor (initial: map<string, seq<byte>>)
      ensures files == initial
    {
      files := initial;
    }

    /** File.Exists. */
    method Exists(path: string) returns (b: bool)
      ensures b <==> path in files
    {
      b := path in files;
    }

    /** File.ReadAllBytes: the whole file, or FileNotFound. */
    method ReadAllBytes(path: string) returns (r: Result<seq<byte>, Error>)
      ensures r == if path in files then Ok(files[path]) else Err(FileNotFound)
    {
      if path in files {
        r := Ok(files[path]);
      } else {
        r := Err(FileNotFound);
      }
    }

    /** File.WriteAllBytes: create or overwrite one file; nothing else changes. */
    method WriteAllBytes(path: string, data: seq<byte>)
      modifies this
      ensures files == old(files)[path := data]
    {
      files := files[path := data];
    }
  }
}
