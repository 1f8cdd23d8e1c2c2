/** The flat File System Table of a GameCube disc: a pre-order sequence of
    entries in which a directory's descendants occupy the contiguous index
    range just after it, up to its end index. */
module Fst {
  import opened Ints

  datatype Entry =
    | File(size: u32, offset: u32)
    | Directory(index: u32, endIndex: u32, parentIndex: u32)

  /** The table holds fewer than 2^32 - 1 entries, so that `index + 1`
      never wraps in 32-bit arithmetic. */
  const MAX_ENTRIES: int := 0xFFFF_FFFF

  /** What the adapter assumes of the table without checking it: entry 0 is
      the root directory spanning the whole table, every directory knows its
      own position and ends after it, and directories nest. */
  predicate WellFormed(t: seq<Entry>) {
    && 0 < |t| < MAX_ENTRIES
    && t[0].Directory? && t[0].endIndex == |t|
    && (forall i :: 0 <= i < |t| && t[i].Directory? ==>
          t[i].index == i && i < t[i].endIndex <= |t|)
    && (forall i, j :: 0 <= i < j < |t| && t[i].Directory? && t[j].Directory? && j < t[i].endIndex ==>
          t[j].endIndex <= t[i].endIndex)
  }

  /** The parent links of the table agree with its ranges: the root is its
      own parent and every other directory is a direct child of the
      directory its parent index names. The adapter never relies on this;
      it only gives the `..` entry of a listing its meaning. */
  predicate ParentLinks(t: seq<Entry>) {
    && 0 < |t| && t[0].Directory? && t[0].parentIndex == 0
    && forall i :: 0 < i < |t| && t[i].Directory? ==> IsDirectChild(t, t[i].parentIndex, i)
  }

  /** Every directory inside [lo, hi) ends no later than hi. */
  predicate Enclosed(t: seq<Entry>, lo: int, hi: int) {
    && 0 <= lo <= hi <= |t|
    && forall j :: lo <= j < hi && t[j].Directory? ==> t[j].endIndex <= hi
  }

  /** The step of the child walk: one past a file, over the whole subtree of
      a directory. */
  function Next(t: seq<Entry>, i: int): (n: int)
    requires WellFormed(t) && 0 <= i < |t|
    ensures i < n <= |t|
    ensures t[i].Directory? ==> n == t[i].endIndex
  {
    match t[i]
    case File(_, _) => i + 1
    case Directory(_, endIndex, _) => endIndex
  }

  /** The indices the walk visits from lo while it stays below hi. */
  function Children(t: seq<Entry>, lo: int, hi: int): (kids: seq<nat>)
    requires WellFormed(t) && Enclosed(t, lo, hi)
    ensures forall j :: 0 <= j < |kids| ==> lo <= kids[j] < hi
    ensures |kids| <= hi - lo
    decreases hi - lo
  {
    if lo >= hi then [] else [lo] + Children(t, Next(t, lo), hi)
  }

  predicate Increasing(s: seq<nat>) {
    forall j, j' :: 0 <= j < j' < |s| ==> s[j] < s[j']
  }

  /** The walk only moves forward, so it never visits an index twice. */
  lemma {:induction false} ChildrenIncreasing(t: seq<Entry>, lo: int, hi: int)
    requires WellFormed(t) && Enclosed(t, lo, hi)
    ensures Increasing(Children(t, lo, hi))
    decreases hi - lo
  {
    if lo < hi {
      ChildrenIncreasing(t, Next(t, lo), hi);
    }
  }

  /** The visited indices form a chain of walk steps: the first is lo, each
      next one is one step on, and one step past the last lands on hi. */
  lemma {:induction false} ChildrenChain(t: seq<Entry>, lo: int, hi: int)
    requires WellFormed(t) && Enclosed(t, lo, hi)
    ensures |Children(t, lo, hi)| == 0 <==> lo == hi
    ensures |Children(t, lo, hi)| > 0 ==>
              && Children(t, lo, hi)[0] == lo
              && Next(t, Children(t, lo, hi)[|Children(t, lo, hi)| - 1]) == hi
    ensures forall j :: 0 <= j < |Children(t, lo, hi)| - 1 ==>
              Children(t, lo, hi)[j + 1] == Next(t, Children(t, lo, hi)[j])
    decreases hi - lo
  {
    if lo < hi {
      var n := Next(t, lo);
      ChildrenChain(t, n, hi);
      var rest := Children(t, n, hi);
      assert Children(t, lo, hi) == [lo] + rest;
      if |rest| == 0 {
        assert n == hi;
      } else {
        assert rest[0] == n;
      }
    }
  }

  /** c is a direct child of the directory at p: it lies in p's range and
      no directory between them still encloses it. */
  predicate IsDirectChild(t: seq<Entry>, p: int, c: int) {
    && 0 <= p < |t| && t[p].Directory?
    && p < c < t[p].endIndex <= |t|
    && forall k :: p < k < c && t[k].Directory? ==> t[k].endIndex <= c
  }

  /** An entry inside the range of a subdirectory is that subdirectory's
      descendant, never a direct child of the enclosing directory. */
  lemma InsideSubdirIsNotDirectChild(t: seq<Entry>, p: int, d: int, c: int)
    requires IsDirectChild(t, p, d) && t[d].Directory? && d < c < t[d].endIndex
    ensures !IsDirectChild(t, p, c)
  {
  }

  /** The walk visits c exactly when c lies in [lo, hi) and is not inside a
      directory that starts in [lo, c). */
  lemma {:induction false} ChildrenMembership(t: seq<Entry>, lo: int, hi: int, c: int)
    requires WellFormed(t) && Enclosed(t, lo, hi)
    ensures c in Children(t, lo, hi) <==>
              (lo <= c < hi && forall k :: lo <= k < c && t[k].Directory? ==> t[k].endIndex <= c)
    decreases hi - lo
  {
    if lo < hi {
      var n := Next(t, lo);
      assert Children(t, lo, hi) == [lo] + Children(t, n, hi);
      ChildrenMembership(t, n, hi, c);
      if t[lo].Directory? && lo < c < hi && n <= c
         && forall k :: n <= k < c && t[k].Directory? ==> t[k].endIndex <= c
      {
        // Directories nested in t[lo] end inside it, hence before c too.
        forall k | lo < k < n && t[k].Directory?
          ensures t[k].endIndex <= c
        {
          assert t[k].endIndex <= t[lo].endIndex;
        }
      }
    }
  }

  /** The direct children of a directory, in the order the walk visits them:
      exactly the direct children, each once, in increasing index order. */
  function DirectChildren(t: seq<Entry>, p: int): (kids: seq<nat>)
    requires WellFormed(t) && 0 <= p < |t| && t[p].Directory?
    ensures forall c :: c in kids <==> IsDirectChild(t, p, c)
    ensures Increasing(kids)
    ensures forall j :: 0 <= j < |kids| ==> p < kids[j] < t[p].endIndex
  {
    assert Enclosed(t, p + 1, t[p].endIndex);
    var kids := Children(t, p + 1, t[p].endIndex);
    ChildrenIncreasing(t, p + 1, t[p].endIndex);
    assert forall c :: c in kids <==> IsDirectChild(t, p, c) by {
      forall c
        ensures c in kids <==> IsDirectChild(t, p, c)
      {
        ChildrenMembership(t, p + 1, t[p].endIndex, c);
      }
    }
    kids
  }

  /** The number of directory entries in a slice of the table. */
  function CountDirs(s: seq<Entry>): (n: nat)
    ensures n <= |s|
  {
    if s == [] then 0 else (if s[0].Directory? then 1 else 0) + CountDirs(s[1..])
  }

  /** The positions in [a, b) that hold a directory. */
  ghost function DirsIn(t: seq<Entry>, a: int, b: int): set<int>
    requires 0 <= a <= b <= |t|
  {
    set j | a <= j < b && t[j].Directory?
  }

  lemma {:induction false} CountDirsIsCardinality(t: seq<Entry>, a: int, b: int)
    requires 0 <= a <= b <= |t|
    ensures CountDirs(t[a..b]) == |DirsIn(t, a, b)|
    decreases b - a
  {
    if a < b {
      CountDirsIsCardinality(t, a + 1, b);
      assert t[a..b][1..] == t[a + 1..b];
      if t[a].Directory? {
        assert DirsIn(t, a, b) == {a} + DirsIn(t, a + 1, b);
      } else {
        assert DirsIn(t, a, b) == DirsIn(t, a + 1, b);
      }
    } else {
      assert DirsIn(t, a, b) == {};
    }
  }
}
