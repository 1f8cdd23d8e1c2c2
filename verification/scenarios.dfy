/** A small disc worked through both copies of the adapter: a root holding
    the file `a.txt` (10 bytes at byte 100 of the image) and the empty
    directory `sub`. The lemmas here are the concrete inputs behind the
    differences between the copies. */
module Scenarios {
  import opened Ints
  import opened Fst
  import opened Replies
  import opened Walk
  import opened Paging
  import GcnFuse
  import Legacy

  /** Entry 0 is the root, entry 1 `a.txt`, entry 2 `sub`. */
  function Disc(): (t: seq<Entry>)
    ensures WellFormed(t) && ParentLinks(t)
  {
    [Entry.Directory(0, 3, 0), File(10, 100), Entry.Directory(2, 3, 0)]
  }

  function DiscNames(k: nat): Result<string, NameError> {
    if k == 1 then Success("a.txt") else if k == 2 then Success("sub") else Success("")
  }

  /** An image whose byte at each position below 256 is that position, so
      that any two different windows of the file differ. */
  function Image(): (source: seq<byte>)
    ensures |source| == 256 && forall i :: 0 <= i < 256 ==> source[i] == i
  {
    seq(256, i requires 0 <= i < 256 => i)
  }

  /** The root's direct children are `a.txt` and `sub`; `sub` has none. */
  lemma DiscChildren()
    ensures DirectChildren(Disc(), 0) == [1, 2]
    ensures DirectChildren(Disc(), 2) == []
  {
    var t := Disc();
    assert Children(t, 3, 3) == [];
    assert Children(t, 2, 3) == [2];
    assert Children(t, 1, 3) == [1, 2];
  }

  /** The root links to itself, to `.` and to `sub`. */
  lemma DiscRootAttr()
    ensures var a := GcnFuse.GetAttr(Disc(), 0);
      a.ino == 1 && a.kind == FileType.Directory && a.nlink == 3
  {
    assert DirsIn(Disc(), 1, 3) == {2};
  }

  /** `a.txt` is one 512-byte block. */
  lemma DiscFileAttr()
    ensures var a := GcnFuse.GetAttr(Disc(), 1);
      a.ino == 2 && a.kind == RegularFile && a.size == 10 && a.blocks == 1 && a.nlink == 1
  {
  }

  /** The root's listing: `.`, `..` (the root again), `a.txt`, `sub`. */
  lemma DiscRootListing()
    ensures AllResolve(DirectChildren(Disc(), 0), DiscNames)
    ensures GcnFuse.Listing(Disc(), DiscNames, 1) ==
              [ DirItem(1, FileType.Directory, "."),
                DirItem(1, FileType.Directory, ".."),
                DirItem(2, RegularFile, "a.txt"),
                DirItem(3, FileType.Directory, "sub") ]
  {
    DiscChildren();
  }

  /** Reading 100 bytes of `a.txt` from offset 5 returns its last five
      bytes, those at 105 to 109 of the image. */
  lemma DiscReadFromFive()
    ensures GcnFuse.ReadInBounds(Disc(), Image(), 2, 5, 100)
    ensures GcnFuse.Read(Disc(), Image(), 2, 5, 100) == DataReply([105, 106, 107, 108, 109])
  {
    var r := GcnFuse.Read(Disc(), Image(), 2, 5, 100);
    assert |r.bytes| == 5;
  }

  /** The read of src/main.rs, asked for the same bytes, returns the whole
      file from its first byte. */
  lemma LegacyReadFromFive()
    ensures Legacy.Read(Disc(), Image(), 2, 5, 100) == DataReply([100, 101, 102, 103, 104, 105, 106, 107, 108, 109])
    ensures Legacy.Read(Disc(), Image(), 2, 5, 100) != GcnFuse.Read(Disc(), Image(), 2, 5, 100)
  {
    DiscReadFromFive();
    var r := Legacy.Read(Disc(), Image(), 2, 5, 100);
    assert |r.bytes| == 10;
  }

  /** In src/main.rs the `..` line of `sub` carries inode 3, `sub` itself,
      although `sub`'s parent is the root, inode 1, as src/fuse.rs says. */
  lemma LegacyDotDotOfSub()
    ensures AllResolve(DirectChildren(Disc(), 2), DiscNames)
    ensures IsDirectChild(Disc(), 0, 2)
    ensures Legacy.Listing(Disc(), DiscNames, 3)[1] == DirItem(3, FileType.Directory, "..")
    ensures GcnFuse.Listing(Disc(), DiscNames, 3)[1] == DirItem(1, FileType.Directory, "..")
  {
    DiscChildren();
  }

  /** Looking up `missing` in the root passes over every direct child, so
      src/fuse.rs answers ENOENT and src/main.rs sends nothing. */
  lemma MissingNamePassesEveryChild()
    ensures forall c :: IsDirectChild(Disc(), 0, c) ==> Passes(DiscNames, c, "missing")
  {
    DiscChildren();
  }

  /** A root holding the directory `d`, which holds the directory `e`. */
  function Nested(): (t: seq<Entry>)
    ensures WellFormed(t) && ParentLinks(t)
  {
    [Entry.Directory(0, 3, 0), Entry.Directory(1, 3, 0), Entry.Directory(2, 3, 1)]
  }

  /** A directory's link count includes directories nested below its
      direct children: the root of Nested has one direct subdirectory, yet
      its count is 4, not 3. */
  lemma NestedDirectoriesCount()
    ensures DirectChildren(Nested(), 0) == [1]
    ensures GcnFuse.GetAttr(Nested(), 0).nlink == 4
  {
    var t := Nested();
    assert Children(t, 3, 3) == [];
    assert Children(t, 1, 3) == [1];
    assert DirsIn(t, 1, 3) == {1, 2};
  }

  function NestedNames(k: nat): Result<string, NameError> {
    if k == 1 then Success("d") else if k == 2 then Success("e") else Success("")
  }

  /** A buffer that never fills. */
  function Roomy(): Full {
    (added: seq<Listed>, item: DirItem) => false
  }

  /** `missing` is no name in the root: src/fuse.rs answers ENOENT, src/main.rs
      sends no reply at all. */
  method LookupMissing() returns (current: Reply, legacy: Reply)
    ensures current == ErrorReply(ENOENT)
    ensures legacy == NoReply
  {
    MissingNamePassesEveryChild();
    current := GcnFuse.Lookup(Disc(), DiscNames, 1, "missing");
    legacy := Legacy.Lookup(Disc(), DiscNames, 1, "missing");
  }

  /** Both copies find `sub` in the root, inode 3, and differ only in its
      owner. */
  method LookupSub() returns (current: Reply, legacy: Reply)
    ensures current.EntryReply? && current.attr.ino == 3 && current.attr.kind == FileType.Directory && current.attr.uid == 0
    ensures legacy.EntryReply? && legacy.attr.ino == 3 && legacy.attr.kind == FileType.Directory && legacy.attr.uid == 1
  {
    DiscChildren();
    assert StopsAt(Disc(), 0, DiscNames, "sub", 2);
    current := GcnFuse.Lookup(Disc(), DiscNames, 1, "sub");
    legacy := Legacy.Lookup(Disc(), DiscNames, 1, "sub");
  }

  /** `e` lives inside `d`, so looking it up in the root of Nested finds
      nothing, although the walk steps over the entry that carries it. */
  method LookupNestedName() returns (r: Reply)
    ensures r == ErrorReply(ENOENT)
  {
    NestedDirectoriesCount();
    r := GcnFuse.Lookup(Nested(), NestedNames, 1, "e");
  }

  /** With room for everything, one call lists the whole root at once, each
      line with its position plus one as the cookie. */
  method ListRoot() returns (r: Reply)
    ensures r == DirReply([ Listed(DirItem(1, FileType.Directory, "."), 1),
                            Listed(DirItem(1, FileType.Directory, ".."), 2),
                            Listed(DirItem(2, RegularFile, "a.txt"), 3),
                            Listed(DirItem(3, FileType.Directory, "sub"), 4) ])
  {
    DiscRootListing();
    r := GcnFuse.ReadDir(Disc(), DiscNames, 1, 0, Roomy());
    assert |r.listed| == 4;
  }
}
