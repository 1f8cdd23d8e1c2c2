/** The older copy of the adapter in src/main.rs, the one the binary
    actually mounts. It shares the table, the walk and the reply buffer with
    src/fuse.rs but differs from it in six ways:
    - owner and group are 1;
    - a lookup that finds nothing sends no reply;
    - `..` lists the directory itself;
    - a read ignores the requested offset;
    - `get_entry` (lookup, readdir, read) does no 32-bit truncation, so an
      inode past the table panics there; `getattr` truncates as src/fuse.rs
      does;
    - a negative readdir offset becomes a huge usize and gives an empty
      page, where src/fuse.rs panics. */
module Legacy {
  import opened Ints
  import opened Fst
  import opened Replies
  import opened Inodes
  import opened Walk
  import opened Paging

  /** `get_entry`: inode n names entry n - 1 (a 64-bit subtraction, with no
      truncation). */
  function GetEntry(t: seq<Entry>, ino: u64): (e: Entry)
    requires 1 <= ino <= |t|
    ensures ino <= U32_LIMIT ==> e == t[IndexOfInode(ino)]
  {
    t[ino - 1]
  }

  /** `get_attr`: the same attributes as src/fuse.rs computes, except that
      the owner and group are 1. */
  function GetAttr(t: seq<Entry>, index: u32): (a: Attr)
    requires WellFormed(t) && index < |t|
    ensures a.ino == index + 1
    ensures a.uid == 1 && a.gid == 1 && a.rdev == 0 && a.blksize == BLOCK_SIZE && a.flags == 0
    ensures t[index].File? ==>
              && a.kind == RegularFile && a.perm == READ_ONLY_FILE && a.nlink == 1
              && a.size == t[index].size
              && (a.blocks - 1) * BLOCK_SIZE <= a.size < a.blocks * BLOCK_SIZE
    ensures t[index].Directory? ==>
              && a.kind == FileType.Directory && a.perm == READ_ONLY_DIR
              && a.size == 0 && a.blocks == 0
              && a.nlink == 2 + |DirsIn(t, index + 1, t[index].endIndex)|
  {
    match t[index]
    case File(size, _) =>
      Attr(index + 1, size, size / BLOCK_SIZE + 1, RegularFile, READ_ONLY_FILE, 1, 1, 1, 0, BLOCK_SIZE, 0)
    case Directory(dirIndex, endIndex, _) =>
      CountDirsIsCardinality(t, dirIndex + 1, endIndex);
      var subdirs := CountDirs(t[dirIndex + 1..endIndex]);
      Attr(index + 1, 0, 0, FileType.Directory, READ_ONLY_DIR, 2 + subdirs, 1, 1, 0, BLOCK_SIZE, 0)
  }

  /** `lookup`: EIO for a file parent; otherwise the attributes of the first
      direct child with the requested name, or the reply for the first name
      that fails to resolve if that comes earlier. When no direct child has
      the name the loop runs out and nothing is sent: no ENOENT. */
  method Lookup(t: seq<Entry>, names: Namer, parent: u64, name: string) returns (r: Reply)
    requires WellFormed(t) && 1 <= parent <= |t|
    ensures var p := parent - 1;
      t[p].File? ==> r == ErrorReply(EIO)
    ensures var p := parent - 1;
      t[p].Directory? && (forall c :: IsDirectChild(t, p, c) ==> Passes(names, c, name)) ==>
        r == NoReply
    ensures var p := parent - 1;
      forall c :: StopsAt(t, p, names, name, c) ==>
        r == (if names(c).Success? then EntryReply(GetAttr(t, c)) else ErrorFor(names(c).error))
    ensures var p := parent - 1;
      r.EntryReply? ==>
        && StopsAt(t, p, names, name, r.attr.ino - 1)
        && names(r.attr.ino - 1) == Success(name)
  {
    var parentEntry := GetEntry(t, parent);
    if parentEntry.File? {
      return ErrorReply(EIO);
    }
    var p := parent - 1;
    var search := FindDirectChild(t, names, p, name);
    match search {
      case Exhausted =>
        r := NoReply;
      case Match(index) =>
        var a := GetAttr(t, index);
        assert a.ino - 1 == index;
        r := EntryReply(a);
      case Abort(_, error) =>
        r := ErrorFor(error);
    }
    forall c | StopsAt(t, p, names, name, c)
      ensures c == search.index
    {
      StopsAtUnique(t, p, names, name, c, search.index);
    }
  }

  /** `getattr`: the attributes of entry `(ino - 1) as u32`. */
  function GetAttrRequest(t: seq<Entry>, ino: u64): (r: Reply)
    requires WellFormed(t) && 1 <= ino && TruncU32(ino - 1) < |t|
    ensures r.AttrReply? && r.attr == GetAttr(t, TruncU32(ino - 1))
    ensures ino <= |t| ==> r.attr.ino == ino
  {
    AttrReply(GetAttr(t, TruncU32(ino - 1)))
  }

  /** The two synthetic lines of a listing: `.` and `..` both carry the
      directory's own inode. */
  function Prelude(ino: u64): seq<DirItem> {
    [ DirItem(ino, FileType.Directory, "."),
      DirItem(ino, FileType.Directory, "..") ]
  }

  function Listing(t: seq<Entry>, names: Namer, ino: u64): seq<DirItem>
    requires WellFormed(t) && 1 <= ino <= |t| && t[ino - 1].Directory?
    requires AllResolve(DirectChildren(t, ino - 1), names)
  {
    Prelude(ino) + ChildItems(t, names, DirectChildren(t, ino - 1))
  }

  /** `readdir`: ENOTDIR for a file; the reply for the first child name that
      fails to resolve; otherwise a page of the listing, followed by `ok`.
      The offset is cast to a 64-bit usize, so a negative one skips past
      every line and the page is empty. */
  method ReadDir(t: seq<Entry>, names: Namer, ino: u64, offset: i64, full: Full) returns (r: Reply)
    requires WellFormed(t) && 1 <= ino <= |t|
    ensures t[ino - 1].File? ==> r == ErrorReply(ENOTDIR)
    ensures t[ino - 1].Directory? ==>
              forall c :: FailsFirstAt(t, ino - 1, names, c) ==> r == ErrorFor(names(c).error)
    ensures t[ino - 1].Directory? && AllResolve(DirectChildren(t, ino - 1), names) ==>
              r.DirReply? && IsPage(Listing(t, names, ino), TruncU64(offset), full, r.listed)
    ensures t[ino - 1].Directory? && AllResolve(DirectChildren(t, ino - 1), names) && offset < 0 ==>
              r == DirReply([])
  {
    var entry := GetEntry(t, ino);
    if entry.File? {
      return ErrorReply(ENOTDIR);
    }
    var head := Prelude(ino);
    var d := ino - 1;
    var start := TruncU32(ino);
    var children := ListDirectChildren(t, names, d, start);
    if children.Failure? {
      return ErrorFor(children.error);
    }
    var listed := Emit(head + children.value, TruncU64(offset), full);
    if offset < 0 {
      // The cast lands at 2^63 or beyond, far past the end of the listing.
      assert |head + children.value| <= 2 + |t| < TruncU64(offset);
    }
    return DirReply(listed);
  }

  /** `read`: ENOTDIR for a directory; for a file, min(size, file size)
      bytes from the start of the file, whatever offset was asked for. */
  function Read(t: seq<Entry>, source: seq<byte>, ino: u64, offset: i64, size: u32): (r: Reply)
    requires 1 <= ino <= |t|
    requires t[ino - 1].File? ==> t[ino - 1].offset + Min(size, t[ino - 1].size) <= |source|
    ensures t[ino - 1].Directory? ==> r == ErrorReply(ENOTDIR)
    ensures var e := t[ino - 1];
      e.File? ==>
        && r.DataReply?
        && |r.bytes| <= size && |r.bytes| <= e.size
        && (|r.bytes| == size || |r.bytes| == e.size)
        && forall j :: 0 <= j < |r.bytes| ==> r.bytes[j] == source[e.offset + j]
  {
    match GetEntry(t, ino)
    case Directory(_, _, _) => ErrorReply(ENOTDIR)
    case File(fileSize, fileOffset) =>
      var readSize := Min(size, fileSize);
      DataReply(source[fileOffset..][..readSize])
  }
}
