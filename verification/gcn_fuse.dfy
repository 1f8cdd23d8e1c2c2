/** The adapter of src/fuse.rs: attributes, lookup, getattr, readdir and
    read over a well-formed table, with names resolved by the table's
    fallible filename lookup and file bytes taken from the byte source. */
module GcnFuse {
  import opened Ints
  import opened Fst
  import opened Replies
  import opened Inodes
  import opened Walk
  import opened Paging

  /** An inode the transport may hand in: not 0, and naming an entry. */
  predicate Resolvable(t: seq<Entry>, ino: u64) {
    1 <= ino && IndexOfInode(ino) < |t|
  }

  /** `get_entry`: the entry an inode names. */
  function GetEntry(t: seq<Entry>, ino: u64): (e: Entry)
    requires Resolvable(t, ino)
    ensures ino <= U32_LIMIT ==> e == t[ino - 1]
  {
    t[IndexOfInode(ino)]
  }

  /** `get_attr`: a file is a read-only regular file with one link and
      enough 512-byte blocks to hold it; a directory is read-and-search-only,
      with two links plus one for every directory anywhere in its range. */
  function GetAttr(t: seq<Entry>, index: u32): (a: Attr)
    requires WellFormed(t) && index < |t|
    ensures a.ino == index + 1 && IndexOfInode(a.ino) == index
    ensures a.uid == 0 && a.gid == 0 && a.rdev == 0 && a.blksize == BLOCK_SIZE && a.flags == 0
    ensures t[index].File? ==>
              && a.kind == RegularFile && a.perm == READ_ONLY_FILE && a.nlink == 1
              && a.size == t[index].size
              && (a.blocks - 1) * BLOCK_SIZE <= a.size < a.blocks * BLOCK_SIZE
    ensures t[index].Directory? ==>
              && a.kind == FileType.Directory && a.perm == READ_ONLY_DIR
              && a.size == 0 && a.blocks == 0
              && a.nlink == 2 + |DirsIn(t, index + 1, t[index].endIndex)|
  {
    match t[index]
    case File(size, _) =>
      Attr(InodeOfIndex(index), size, size / BLOCK_SIZE + 1, RegularFile, READ_ONLY_FILE, 1, 0, 0, 0, BLOCK_SIZE, 0)
    case Directory(dirIndex, endIndex, _) =>
      CountDirsIsCardinality(t, dirIndex + 1, endIndex);
      var subdirs := CountDirs(t[dirIndex + 1..endIndex]);
      Attr(InodeOfIndex(index), 0, 0, FileType.Directory, READ_ONLY_DIR, 2 + subdirs, 0, 0, 0, BLOCK_SIZE, 0)
  }

  /** A directory's link count is never below the POSIX one (two plus its
      direct subdirectories): it counts nested directories as well. */
  lemma NlinkAtLeastDirectSubdirs(t: seq<Entry>, index: u32)
    requires WellFormed(t) && index < |t| && t[index].Directory?
    ensures GetAttr(t, index).nlink >= 2 + |set c | c in DirectChildren(t, index) && t[c].Directory?|
  {
    var direct := set c | c in DirectChildren(t, index) && t[c].Directory?;
    assert direct <= DirsIn(t, index + 1, t[index].endIndex);
    SubsetCardinality(direct, DirsIn(t, index + 1, t[index].endIndex));
  }

  lemma SubsetCardinality(a: set<int>, b: set<int>)
    requires a <= b
    ensures |a| <= |b|
  {
    assert b == a + (b - a);
    assert a * (b - a) == {};
  }

  /** `lookup`: EIO for a file parent; otherwise the attributes of the
      first direct child with the requested name, the reply for the first
      name that fails to resolve if that comes earlier, and ENOENT when no
      direct child has the name. Names inside subdirectories are never
      candidates. */
  method Lookup(t: seq<Entry>, names: Namer, parent: u64, name: string) returns (r: Reply)
    requires WellFormed(t) && Resolvable(t, parent)
    ensures var p := IndexOfInode(parent);
      t[p].File? ==> r == ErrorReply(EIO)
    ensures var p := IndexOfInode(parent);
      t[p].Directory? && (forall c :: IsDirectChild(t, p, c) ==> Passes(names, c, name)) ==>
        r == ErrorReply(ENOENT)
    ensures var p := IndexOfInode(parent);
      forall c :: StopsAt(t, p, names, name, c) ==>
        r == (if names(c).Success? then EntryReply(GetAttr(t, c)) else ErrorFor(names(c).error))
    ensures var p := IndexOfInode(parent);
      r.EntryReply? ==>
        && StopsAt(t, p, names, name, r.attr.ino - 1)
        && names(r.attr.ino - 1) == Success(name)
  {
    var p := IndexOfInode(parent);
    var parentEntry := GetEntry(t, parent);
    if parentEntry.File? {
      return ErrorReply(EIO);
    }
    var search := FindDirectChild(t, names, p, name);
    match search {
      case Exhausted =>
        r := ErrorReply(ENOENT);
      case Match(index) =>
        var a := GetAttr(t, index);
        assert a.ino - 1 == index;
        r := EntryReply(a);
      case Abort(_, error) =>
        r := ErrorFor(error);
    }
    forall c | StopsAt(t, p, names, name, c)
      ensures c == search.index
    {
      StopsAtUnique(t, p, names, name, c, search.index);
    }
  }

  /** `getattr`: the attributes of the entry the inode names, reporting the
      same inode back. */
  function GetAttrRequest(t: seq<Entry>, ino: u64): (r: Reply)
    requires WellFormed(t) && Resolvable(t, ino)
    ensures r.AttrReply? && r.attr == GetAttr(t, IndexOfInode(ino))
    ensures ino <= |t| ==> r.attr.ino == ino
  {
    AttrReply(GetAttr(t, IndexOfInode(ino)))
  }

  /** The two synthetic lines of a listing: `.` is the directory itself and
      `..` the directory its parent index names. */
  function Prelude(t: seq<Entry>, ino: u64): seq<DirItem>
    requires Resolvable(t, ino) && t[IndexOfInode(ino)].Directory?
  {
    [ DirItem(ino, FileType.Directory, "."),
      DirItem(InodeOfIndex(t[IndexOfInode(ino)].parentIndex), FileType.Directory, "..") ]
  }

  /** The whole listing of a directory whose children's names all resolve:
      `.`, `..`, then one line per direct child in index order. */
  function Listing(t: seq<Entry>, names: Namer, ino: u64): seq<DirItem>
    requires WellFormed(t) && Resolvable(t, ino) && t[IndexOfInode(ino)].Directory?
    requires AllResolve(DirectChildren(t, IndexOfInode(ino)), names)
  {
    Prelude(t, ino) + ChildItems(t, names, DirectChildren(t, IndexOfInode(ino)))
  }

  /** `readdir`: ENOTDIR for a file; the reply for the first child name that
      fails to resolve; otherwise the page of the listing that starts at the
      offset and ends where the buffer fills, followed by `ok`. */
  method ReadDir(t: seq<Entry>, names: Namer, ino: u64, offset: i64, full: Full) returns (r: Reply)
    requires WellFormed(t) && Resolvable(t, ino)
    requires t[IndexOfInode(ino)].Directory? && AllResolve(DirectChildren(t, IndexOfInode(ino)), names) ==> offset >= 0
    ensures var d := IndexOfInode(ino);
      t[d].File? ==> r == ErrorReply(ENOTDIR)
    ensures var d := IndexOfInode(ino);
      t[d].Directory? ==> forall c :: FailsFirstAt(t, d, names, c) ==> r == ErrorFor(names(c).error)
    ensures var d := IndexOfInode(ino);
      t[d].Directory? && AllResolve(DirectChildren(t, d), names) ==>
        r.DirReply? && IsPage(Listing(t, names, ino), offset, full, r.listed)
  {
    var d := IndexOfInode(ino);
    var entry := GetEntry(t, ino);
    if entry.File? {
      return ErrorReply(ENOTDIR);
    }
    var head := Prelude(t, ino);
    var children := ListDirectChildren(t, names, d, d + 1);
    if children.Failure? {
      return ErrorFor(children.error);
    }
    var listed := Emit(head + children.value, offset, full);
    return DirReply(listed);
  }

  /** What `read` needs beyond a valid inode: for a file, the offset (cast
      to 32 bits) does not pass the end of the file, where the size
      subtraction would underflow, and the bytes to read lie inside the byte
      source, where seek and read_exact would fail. */
  predicate ReadInBounds(t: seq<Entry>, source: seq<byte>, ino: u64, offset: i64, size: u32)
    requires Resolvable(t, ino)
  {
    var e := t[IndexOfInode(ino)];
    var off := TruncU32(offset);
    e.File? ==> off <= e.size && e.offset + off + Min(size, e.size - off) <= |source|
  }

  /** `read`: ENOTDIR for a directory; for a file, min(size, file size -
      offset) bytes, which are the file's bytes from the offset on. */
  function Read(t: seq<Entry>, source: seq<byte>, ino: u64, offset: i64, size: u32): (r: Reply)
    requires Resolvable(t, ino) && ReadInBounds(t, source, ino, offset, size)
    ensures var e := t[IndexOfInode(ino)];
      e.Directory? ==> r == ErrorReply(ENOTDIR)
    ensures var e := t[IndexOfInode(ino)]; var off := TruncU32(offset);
      e.File? ==>
        && r.DataReply?
        && |r.bytes| <= size && |r.bytes| <= e.size - off
        && (|r.bytes| == size || off + |r.bytes| == e.size)
        && forall j :: 0 <= j < |r.bytes| ==> r.bytes[j] == source[e.offset + off + j]
  {
    match GetEntry(t, ino)
    case Directory(_, _, _) => ErrorReply(ENOTDIR)
    case File(fileSize, fileOffset) =>
      var off := TruncU32(offset);
      var readSize := Min(size, fileSize - off);
      DataReply(source[fileOffset + off..][..readSize])
  }

  /** The bytes of a file inside the byte source. */
  function FileBytes(source: seq<byte>, e: Entry): seq<byte>
    requires e.File? && e.offset + e.size <= |source|
  {
    source[e.offset..e.offset + e.size]
  }

  /** Reading is windowing the file: the bytes returned are the file's own
      bytes from the offset, cut at the request size or the end of file. */
  lemma ReadIsFileWindow(t: seq<Entry>, source: seq<byte>, ino: u64, offset: u32, size: u32)
    requires Resolvable(t, ino) && t[IndexOfInode(ino)].File?
    requires var e := t[IndexOfInode(ino)]; offset <= e.size && e.offset + e.size <= |source|
    ensures ReadInBounds(t, source, ino, offset, size)
    ensures var e := t[IndexOfInode(ino)];
      Read(t, source, ino, offset, size).bytes == FileBytes(source, e)[offset..offset + Min(size, e.size - offset)]
  {
  }

  /** Reading a file in consecutive chunks yields the same bytes as one
      read of their combined length. */
  lemma SequentialReadsConcatenate(t: seq<Entry>, source: seq<byte>, ino: u64, offset: u32, n1: u32, n2: u32)
    requires Resolvable(t, ino) && t[IndexOfInode(ino)].File?
    requires var e := t[IndexOfInode(ino)];
      offset + n1 <= e.size && e.offset + e.size <= |source| && n1 + n2 < U32_LIMIT
    ensures ReadInBounds(t, source, ino, offset, n1)
    ensures ReadInBounds(t, source, ino, offset + n1, n2)
    ensures ReadInBounds(t, source, ino, offset, n1 + n2)
    ensures Read(t, source, ino, offset, n1).bytes + Read(t, source, ino, offset + n1, n2).bytes
            == Read(t, source, ino, offset, n1 + n2).bytes
  {
    var e := t[IndexOfInode(ino)];
    ReadIsFileWindow(t, source, ino, offset, n1);
    ReadIsFileWindow(t, source, ino, offset + n1, n2);
    ReadIsFileWindow(t, source, ino, offset, n1 + n2);
    var file := FileBytes(source, e);
    var m := Min(n2, e.size - offset - n1);
    assert file[offset..offset + n1] + file[offset + n1..offset + n1 + m] == file[offset..offset + n1 + m];
  }

  /** With consistent parent links, `..` names the directory that holds
      this one as a direct child, and the root's `..` is the root. */
  lemma DotDotNamesParent(t: seq<Entry>, ino: u64)
    requires WellFormed(t) && ParentLinks(t) && Resolvable(t, ino) && t[IndexOfInode(ino)].Directory?
    ensures var d := IndexOfInode(ino); var up := Prelude(t, ino)[1].ino;
      && Prelude(t, ino)[0].ino == ino
      && up >= 1
      && (d == 0 ==> up == 1)
      && (d > 0 ==> IsDirectChild(t, up - 1, d))
  {
  }
}
