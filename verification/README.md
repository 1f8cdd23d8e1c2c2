# gcnfuse-rs, modelled in Dafny

gcnfuse-rs mounts a GameCube disc image read-only through FUSE. It reads the
disc's File System Table (FST), a flat pre-order array of entries. Each entry
is either a file (a size and a byte offset into the image) or a directory
(its own index, the end of its descendant range and its parent's index).
It answers the kernel's `lookup`, `getattr`, `readdir` and `read` requests
from that array. Inode `n` is table entry `n - 1`.

This project models that request logic in two copies, one module each:

- `GcnFuse` models `src/fuse.rs`.
- `Legacy` models the older copy in `src/main.rs`. That copy is the one the
  binary actually mounts.

The two copies share these modules:

- `Fst`: the table, its well-formedness, and the skip walk over a
  directory's range. The walk steps one past a file and to the end of the
  range past a directory.
- `Walk`: the lookup and listing loops.
- `Paging`: emission into the bounded reply buffer.
- `Replies`: replies and errno values.
- `Ints`: the fixed-width casts.
- `Inodes`: the inode/index conversions of `src/fuse.rs`.

`Compare` relates the two copies. `Scenarios` works both copies through a
small disc: a root holding the file `a.txt` and the directory `sub`.

The model takes these things as parameters:

- Names: the table's filename lookup, which goes to the disc image, is an
  arbitrary function from index to `Result<string, NameError>`. It can fail
  with an I/O error that may or may not carry an OS code, or with any other
  error.
- Bytes: the image is a sequence of bytes.
- Buffer: the reply buffer's "full" answer is an arbitrary function of the
  lines already added and the candidate line.

Rust's `as u32` cast is written out as reduction modulo 2^32. `usize` is
modelled for a 64-bit target, so `as usize` is reduction modulo 2^64. Rust
panics become preconditions: an out-of-range index, an arithmetic underflow,
or an `unwrap`.

Behaviour of the code worth knowing:

- If a name lookup fails with an I/O error that carries no OS code, no
  reply is sent (src/fuse.rs:146-156).
- A failed seek or short read panics rather than replying with an error
  (src/fuse.rs:287-292). The model makes it a precondition.
- `..` carries the inode of the directory's recorded parent index
  (src/fuse.rs:204-209). When the table's parent links are consistent,
  this is the directory that holds it, and the root's `..` is the root
  itself (`GcnFuse.DotDotNamesParent`).
- A directory's link count is two plus every directory anywhere in its
  range, not only its direct subdirectories (`GcnFuse.GetAttr`,
  `Scenarios.NestedDirectoriesCount`).

## Model

| member | source | states |
|---|---|---|
| Ints.TruncU32 | src/fuse.rs:57 | `as u32` keeps every value below 2^32 and differs from its input by a multiple of 2^32 |
| Ints.TruncU64 | src/main.rs:202 | the result equals the input on [0, 2^64), differs from it by a multiple of 2^64, and is at least 2^63 for a negative `i64` input |
| Fst.Next | src/fuse.rs:166-174 | the walk's step moves strictly forward within the table, and past a directory lands exactly on its end index |
| Fst.Children | src/fuse.rs:139-175 | every index the walk visits over [lo, hi) lies in that range, and there are at most hi - lo of them |
| Fst.ChildrenIncreasing | src/fuse.rs:139-175 | the walk visits indices in strictly increasing order, so no index twice |
| Fst.ChildrenChain | src/fuse.rs:166-174 | the walk starts at lo, each visit is the step from the previous one, and the step from the last visit reaches hi |
| Fst.ChildrenMembership | src/fuse.rs:139-175 | the walk visits c exactly when c is in range and no directory started before c still encloses it |
| Fst.DirectChildren | src/fuse.rs:211-246 | the walk from just past a directory visits exactly its direct children, each once, in increasing order, all inside its range |
| Fst.InsideSubdirIsNotDirectChild | src/fuse.rs:171-173 | an entry inside a subdirectory's range is never a direct child of the enclosing directory |
| Fst.CountDirs | src/fuse.rs:112-115 | the filtered count of directory entries is at most the slice length |
| Fst.CountDirsIsCardinality | src/fuse.rs:109-116 | the filtered count equals the number of directory entries in the index range |
| Replies.ErrorFor | src/fuse.rs:146-156 | an I/O error with an OS code replies that code, one without a code gets no reply, and any other error replies EIO |
| Inodes.InodeOfIndex | src/fuse.rs:61-67 | every issued inode is at least 1 and at most 2^32 |
| Inodes.IndexOfInode | src/fuse.rs:53-59 | an inode up to 2^32 maps to inode - 1, and no inode maps to an index at or above itself |
| Inodes.IndexInodeRoundTrip | src/fuse.rs:53-67 | converting an index to an inode and back gives the index |
| Inodes.InodeIndexRoundTrip | src/fuse.rs:53-67 | converting an inode of the issued range to an index and back gives the inode |
| Inodes.InodeOfIndexInjective | src/fuse.rs:61-67 | distinct indices get distinct inodes |
| Inodes.TruncationAliasesBeyondIssuedRange | src/fuse.rs:55-57 | the 32-bit truncation maps inode 2^32 + 1 to entry 0, the same entry as inode 1 |
| Walk.FindChild | src/fuse.rs:139-175 | the lookup loop stops at the first visited entry whose name matches or fails to resolve, with that outcome, and is exhausted only when every visited name resolved to another name |
| Walk.FindDirectChild | src/fuse.rs:139-175 | the lookup loop over a directory is exhausted exactly when every direct child resolves to another name, and otherwise stops where StopsAt says |
| Walk.StopsAtIsFirstStop | src/fuse.rs:139-175 | the direct child where a lookup stops is the first stopping entry among the walk's visits |
| Walk.ListChildren | src/fuse.rs:211-246 | the listing loop succeeds exactly when every visited name resolves, with one line per visit in order, and otherwise fails with the first failure's error |
| Walk.ListDirectChildren | src/fuse.rs:211-246 | listing a directory yields one (inode, kind, name) line per direct child in index order, or the error of the first direct child whose name fails |
| Walk.FailsFirstAtIsFirstFailure | src/fuse.rs:211-234 | the first direct child whose name fails is the first failure among the walk's visits |
| Paging.Emit | src/fuse.rs:249-256 | one call emits consecutive lines from the offset, with cookie position + 1, each accepted by the buffer, and stops only at the end or at the first refused line |
| Paging.ResumeAtLastCookie | src/fuse.rs:249-256 | a page followed by the listing from its last cookie is the listing from the page's offset: nothing skipped, nothing repeated |
| Paging.SessionCoversListing | src/fuse.rs:206-256 | the pages of a run of calls, each resuming at the previous last cookie, concatenate to the listing from the first offset |
| GcnFuse.GetEntry | src/fuse.rs:123-126 | inode n names table entry n - 1 |
| GcnFuse.GetAttr | src/fuse.rs:80-121 | a file gets kind, perm 0o444, one link, its size and enough 512-byte blocks; a directory gets perm 0o555, size 0, and two links plus one per directory in its range; owner and group 0 and inode index + 1 throughout |
| GcnFuse.NlinkAtLeastDirectSubdirs | src/fuse.rs:105-118 | a directory's link count is at least two plus its direct subdirectories |
| GcnFuse.Lookup | src/fuse.rs:129-177 | EIO for a file parent; ENOENT when no direct child has the name; otherwise the attributes of the first direct child with the name, or the reply for an earlier failing name; a match is always a direct child |
| GcnFuse.GetAttrRequest | src/fuse.rs:179-183 | getattr replies with the attributes of the entry the inode names, reporting the same inode |
| GcnFuse.ReadDir | src/fuse.rs:185-257 | ENOTDIR for a file; the first failing child name's reply; otherwise a page of `.`, `..`, then the direct children, from the offset |
| GcnFuse.Read | src/fuse.rs:259-294 | ENOTDIR for a directory; for a file, min(size, file size - offset) bytes taken from the file's offset plus the requested offset |
| GcnFuse.ReadIsFileWindow | src/fuse.rs:283-293 | the bytes read are the file's own bytes from the offset, cut at the request size or the end of the file |
| GcnFuse.SequentialReadsConcatenate | src/fuse.rs:283-293 | two consecutive reads return the same bytes as one read of their combined length |
| GcnFuse.DotDotNamesParent | src/fuse.rs:204-209 | with consistent parent links, `..` names the directory that holds this one as a direct child, and the root's `..` is the root |
| Legacy.GetEntry | src/main.rs:90-92 | inode n names table entry n - 1, the same entry src/fuse.rs picks for every inode up to 2^32 |
| Legacy.GetAttr | src/main.rs:50-88 | the same attributes as src/fuse.rs, with owner and group 1 and inode index + 1 |
| Legacy.Lookup | src/main.rs:95-138 | EIO for a file parent; no reply at all when no direct child has the name; otherwise as src/fuse.rs |
| Legacy.GetAttrRequest | src/main.rs:140-143 | getattr replies with the attributes of entry `(ino - 1) as u32`, reporting the same inode |
| Legacy.ReadDir | src/main.rs:145-208 | ENOTDIR for a file; the first failing child name's reply; otherwise a page from the offset cast to usize, empty for a negative offset |
| Legacy.Read | src/main.rs:210-236 | ENOTDIR for a directory; for a file, min(size, file size) bytes from the file's first byte, whatever the offset |
| Compare.AttrsDifferOnlyInOwner | src/main.rs:63-64 | the two copies' attributes agree on every entry except owner and group |
| Compare.GetEntryAgrees | src/main.rs:90-92 | both copies resolve every issued inode to the same entry |
| Compare.LegacyReadIsReadAtZero | src/main.rs:230-234 | the older read answers every request as src/fuse.rs answers the same request at offset 0 |
| Compare.ListingsDifferOnlyAtDotDot | src/main.rs:163-166 | the two listings agree line by line except `..`, which the older copy gives the directory's own inode |
| Scenarios.DiscChildren | src/fuse.rs:211-246 | the example root's direct children are entries 1 and 2; `sub` has none |
| Scenarios.DiscRootAttr | src/fuse.rs:105-118 | the example root has inode 1, is a directory, and has link count 3 |
| Scenarios.DiscFileAttr | src/fuse.rs:100-104 | `a.txt` has inode 2, size 10, one block and one link |
| Scenarios.DiscRootListing | src/fuse.rs:204-246 | the example root lists `.`, `..`, `a.txt` (file, inode 2), `sub` (directory, inode 3) |
| Scenarios.ListRoot | src/fuse.rs:249-256 | with room for every line, one readdir returns the whole root listing with cookies 1 to 4 |
| Scenarios.DiscReadFromFive | src/fuse.rs:283-293 | reading 100 bytes of `a.txt` from offset 5 returns the five bytes at 105 to 109 of the image |
| Scenarios.LegacyReadFromFive | src/main.rs:230-234 | the older read of the same request returns all ten bytes from 100, not those from 105 |
| Scenarios.LegacyDotDotOfSub | src/main.rs:163-166 | the older listing of `sub` gives `..` inode 3, where src/fuse.rs gives the root, inode 1 |
| Scenarios.MissingNamePassesEveryChild | src/fuse.rs:176 | no direct child of the example root is named `missing` |
| Scenarios.LookupMissing | src/main.rs:106-138 | looking up `missing` in the example root gives ENOENT in src/fuse.rs and no reply in src/main.rs |
| Scenarios.LookupSub | src/fuse.rs:159-163 | both copies find `sub` in the root as the directory with inode 3, owned by 0 and by 1 respectively |
| Scenarios.LookupNestedName | src/fuse.rs:166-176 | a name that exists only inside a subdirectory is not found from its grandparent |
| Scenarios.NestedDirectoriesCount | src/fuse.rs:109-116 | a root with one direct subdirectory that itself holds one has link count 4 |

## Left out

- Transport: the fuser `Request` and `Reply*` objects, TTLs, timestamps and
  mounting are left out. What fuser does with a request that gets no reply
  is library code outside this repository. Replies are a datatype, and
  "no reply" is one of its values.
- Disc parsing: `Disc::new`, FST parsing and `Fst::get_filename` are not part
  of this model. The table is a given sequence, and names are an arbitrary
  fallible function.
- Startup: RVZ decompression, file opening, argument parsing and `main()`
  (src/main.rs:239-248) are plumbing with no logic to model.
- `println!` logging is left out. Its output does not reach any reply. But
  in `lookup` it evaluates `name.to_str().unwrap()` (src/fuse.rs:131,
  src/main.rs:96), which panics before any reply on a name that is not
  valid UTF-8.
- GcnFuse.Lookup: the requested name is a Dafny string, a sequence of
  Unicode characters. So the panic on a non-UTF-8 name is not modelled.
  The same holds for Legacy.Lookup.
- Errno values: EIO, ENOENT and ENOTDIR take their Linux values (5, 2, 20).
  Nothing depends on the numbers.
- The byte source's seek cursor is left out. A read is a slice of the image.
- GcnFuse.ReadDir: requires a non-negative offset when the inode is a
  directory and every child name resolves. The
  `usize::try_from(offset).unwrap()` at src/fuse.rs:248 panics otherwise.
  A file or a failing child name replies before that line, so a negative
  offset is allowed on those paths.
- GcnFuse.Read: requires the cast offset to be at most the file size. The
  subtraction at src/fuse.rs:284 underflows otherwise: a panic in debug
  builds, a wrap-around in release builds, and neither is modelled.
- GcnFuse.Read: also requires the bytes to lie inside the image. Seek and
  `read_exact` are unwrapped at src/fuse.rs:287-292.
- Legacy.Read: requires the bytes to lie inside the image, for the same
  unwraps at src/main.rs:233-234.
- GcnFuse.Lookup: requires the inode to name an entry. The same holds for
  `GetAttrRequest`, `ReadDir` and `Read`, because indexing the table panics
  otherwise. Inode 0 is also excluded, because `val.0 - 1` underflows.
- Legacy.Lookup: requires 1 <= inode <= table length. The same holds for
  `ReadDir` and `Read`, for the same reason.
- Paging.SessionCoversListing: assumes an empty buffer always accepts one
  line. Otherwise an empty page could end a session early, and nothing in
  the source rules that out.
- The tables are well-formed (`Fst.WellFormed`): a root spanning the table,
  each directory's index equal to its position, and properly nested
  ranges. The walks rely on this to stay in bounds and terminate. Neither
  src/fuse.rs nor src/main.rs checks it, and a malformed table is not
  modelled.

## Findings

| source | as written | input that shows it | evidently intended | confidence | as-written member | corrected member |
|---|---|---|---|---|---|---|
| src/main.rs:230-234 | `read` seeks to the file's start and returns min(size, file size) bytes; the requested offset is never used | `a.txt` (10 bytes at 100), offset 5, size 100: returns bytes 100 to 109 | the five bytes at 105 to 109, as src/fuse.rs returns | not executed | Legacy.Read, Scenarios.LegacyReadFromFive | GcnFuse.Read, GcnFuse.SequentialReadsConcatenate |
| src/main.rs:163-166 | `readdir` gives `..` the directory's own inode | `sub` (inode 3, parent the root): `..` is inode 3 | the parent's inode, 1, as src/fuse.rs gives | not executed | Legacy.ReadDir, Scenarios.LegacyDotDotOfSub | GcnFuse.ReadDir, GcnFuse.DotDotNamesParent |
| src/main.rs:106-138 | `lookup` that finds no direct child with the name leaves the loop without replying | lookup of `missing` in the example root | ENOENT, as src/fuse.rs:176 replies | not executed | Legacy.Lookup, Scenarios.LookupMissing | GcnFuse.Lookup |
