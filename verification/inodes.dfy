/** The conversion between the table's 32-bit entry index and the 64-bit
    inode number the transport sees: inode = index + 1, so the root (index 0)
    is inode 1 and inode 0 is never issued. */
module Inodes {
  import opened Ints

  /** `Inode::from(Index)`: widen to 64 bits, then add one. */
  function InodeOfIndex(i: u32): (n: u64)
    ensures n >= 1
    ensures n <= U32_LIMIT
  {
    i + 1
  }

  /** `Index::from(Inode)`: subtract one (a u64 subtraction that panics on
      inode 0), then truncate to 32 bits. The truncation loses nothing for
      every inode the adapter issues. */
  function IndexOfInode(n: u64): (i: u32)
    requires n >= 1
    ensures n <= U32_LIMIT ==> i == n - 1
    ensures i < n
  {
    TruncU32(n - 1)
  }

  /** Every index survives the trip through its inode. */
  lemma IndexInodeRoundTrip(i: u32)
    ensures IndexOfInode(InodeOfIndex(i)) == i
  {
  }

  /** Every issued inode survives the trip through its index. */
  lemma InodeIndexRoundTrip(n: u64)
    requires 1 <= n <= U32_LIMIT
    ensures InodeOfIndex(IndexOfInode(n)) == n
  {
  }

  /** Distinct indices get distinct inodes. */
  lemma InodeOfIndexInjective(i: u32, j: u32)
    requires InodeOfIndex(i) == InodeOfIndex(j)
    ensures i == j
  {
  }

  /** Beyond the issued range the truncation aliases: inode 2^32 + 1 names
      the root, like inode 1. */
  lemma TruncationAliasesBeyondIssuedRange()
    ensures IndexOfInode(U32_LIMIT + 1) == IndexOfInode(1) == 0
  {
  }
}
