/** What the adapter hands back to the filesystem transport, and the errors
    the table's name resolution can raise. The transport's reply objects are
    collapsed into one datatype: a request gets exactly one of these. */
module Replies {
  import opened Ints

  datatype Option<+T> = None | Some(value: T)

  datatype Result<+T, +E> = Success(value: T) | Failure(error: E)

  /** A failure of the table's filename lookup: an I/O error, which may or
      may not carry an OS error code, or any other (non-I/O) error. */
  datatype NameError = Io(osCode: Option<int>) | Other

  /** Error numbers the adapter replies with (Linux values). */
  const ENOENT: int := 2
  const EIO: int := 5
  const ENOTDIR: int := 20

  const READ_ONLY_FILE: int := 292  // 0o444: r--r--r--
  const READ_ONLY_DIR: int := 365   // 0o555: r-xr-xr-x
  const BLOCK_SIZE: int := 512

  datatype FileType = RegularFile | Directory

  /** The attribute record of an entry. The four timestamps are all the
      Unix epoch and are not represented. */
  datatype Attr = Attr(
    ino: u64,
    size: u64,
    blocks: u64,
    kind: FileType,
    perm: int,
    nlink: u32,
    uid: u32,
    gid: u32,
    rdev: u32,
    blksize: u32,
    flags: u32)

  /** One line of a directory listing: inode, kind and name. */
  datatype DirItem = DirItem(ino: u64, kind: FileType, name: string)

  /** A listing line as added to the reply buffer, with the cookie (resume
      offset) the transport hands back to continue after it. */
  datatype Listed = Listed(item: DirItem, cookie: int)

  datatype Reply =
    | NoReply                        // the request is left without an answer
    | ErrorReply(errno: int)
    | EntryReply(attr: Attr)         // a successful lookup
    | AttrReply(attr: Attr)          // a successful getattr
    | DirReply(listed: seq<Listed>)  // the entries added, then `ok`
    | DataReply(bytes: seq<byte>)

  /** The reply to a failed filename lookup: an I/O error's OS code when it
      has one, no reply at all when it has none, and EIO for any other
      error. It never answers with success. */
  function ErrorFor(e: NameError): (r: Reply)
    ensures r.ErrorReply? || r.NoReply?
    ensures r.NoReply? <==> e == Io(None)
    ensures e.Io? && e.osCode.Some? ==> r.errno == e.osCode.value
    ensures e.Other? ==> r.errno == EIO
  {
    match e
    case Io(Some(code)) => ErrorReply(code)
    case Io(None) => NoReply
    case Other => ErrorReply(EIO)
  }
}
