/**
 * The file system as the ingestion pipeline sees it during one call:
 * which paths exist, what their bytes are, what a directory lists, and
 * the MD5 digest, which is left uninterpreted.
 */
module Files {
  import opened Text

  newtype Byte = x: int | 0 <= x < 256
  type Bytes = seq<Byte>

  /** A path that `stat` succeeds on. Its content is `None` when opening
      or reading it raises (a permission error, say). */
  datatype DiskFile = DiskFile(content: Option<Bytes>, size: nat)

  /** `files`: the regular files; `dirs`: every directory with the paths
      `glob('*')` yields for it, in that order; `md5`: `hashlib.md5(b).hexdigest()`.
      A directory is not in `files`, so `stat()` on one is treated as
      raising where Python's succeeds. The pipeline never reaches that
      call with a directory: `stat()` comes only after a load that gave
      text, and opening a directory gives none. */
  datatype Disk = Disk(files: map<string, DiskFile>, dirs: map<string, seq<string>>, md5: Bytes -> string)

  /** `open(p, 'rb').read()`, or `None` when that raises. */
  function ReadBytes(disk: Disk, p: string): Option<Bytes> {
    if p in disk.files then disk.files[p].content else None
  }
}
