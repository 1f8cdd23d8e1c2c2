/** How the two copies of the adapter relate: where src/main.rs and
    src/fuse.rs agree, and exactly where they part. */
module Compare {
  import opened Ints
  import opened Fst
  import opened Inodes
  import opened Walk
  import GcnFuse
  import Legacy

  /** Both copies compute the same attributes for every entry, except that
      src/main.rs reports owner and group 1 where src/fuse.rs reports 0. */
  lemma AttrsDifferOnlyInOwner(t: seq<Entry>, index: u32)
    requires WellFormed(t) && index < |t|
    ensures Legacy.GetAttr(t, index) == GcnFuse.GetAttr(t, index).(uid := 1, gid := 1)
  {
  }

  /** Both copies resolve the inodes the table issues to the same entry. */
  lemma GetEntryAgrees(t: seq<Entry>, ino: u64)
    requires WellFormed(t) && 1 <= ino <= |t|
    ensures GcnFuse.Resolvable(t, ino)
    ensures Legacy.GetEntry(t, ino) == GcnFuse.GetEntry(t, ino)
  {
  }

  /** The read of src/main.rs answers every request as src/fuse.rs answers
      a request at offset 0: the offset it is given is never used. */
  lemma LegacyReadIsReadAtZero(t: seq<Entry>, source: seq<byte>, ino: u64, offset: i64, size: u32)
    requires WellFormed(t) && 1 <= ino <= |t|
    requires t[ino - 1].File? ==> t[ino - 1].offset + Min(size, t[ino - 1].size) <= |source|
    ensures GcnFuse.Resolvable(t, ino) && GcnFuse.ReadInBounds(t, source, ino, 0, size)
    ensures Legacy.Read(t, source, ino, offset, size) == GcnFuse.Read(t, source, ino, 0, size)
  {
  }

  /** The two listings of a directory have the same lines in the same
      order, except the second: src/main.rs gives `..` the directory's own
      inode, src/fuse.rs the inode of the parent index. */
  lemma ListingsDifferOnlyAtDotDot(t: seq<Entry>, names: Namer, ino: u64)
    requires WellFormed(t) && 1 <= ino <= |t| && t[ino - 1].Directory?
    requires AllResolve(DirectChildren(t, ino - 1), names)
    ensures GcnFuse.Resolvable(t, ino)
    ensures var old_ := Legacy.Listing(t, names, ino); var new_ := GcnFuse.Listing(t, names, ino);
      && |old_| == |new_|
      && (forall j :: 0 <= j < |old_| && j != 1 ==> old_[j] == new_[j])
      && old_[1] == new_[1].(ino := ino)
      && new_[1].ino == InodeOfIndex(t[ino - 1].parentIndex)
  {
  }
}
