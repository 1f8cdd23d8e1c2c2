/** The direct-child walk that name lookup and directory listing both run:
    start just past a directory, resolve the name of the entry at the cursor,
    and advance one past a file or to the end of a subdirectory's range. */
module Walk {
  import opened Fst
  import opened Replies

  /** The table's filename lookup by entry index. Reading a name goes to the
      disc image, so it can fail. */
  type Namer = nat -> Result<string, NameError>

  /** The entry at k resolves to a name other than `name`: a lookup moves on. */
  predicate Passes(names: Namer, k: nat, name: string) {
    names(k).Success? && names(k).value != name
  }

  /** k is where a lookup for `name` over kids stops: the first of kids, in
      index order, whose name either fails to resolve or equals `name`. */
  predicate FirstStop(kids: seq<nat>, names: Namer, name: string, k: nat) {
    && k in kids && !Passes(names, k, name)
    && forall k' :: k' in kids && k' < k ==> Passes(names, k', name)
  }

  predicate AllResolve(kids: seq<nat>, names: Namer) {
    forall k :: k in kids ==> names(k).Success?
  }

  /** k is the first of kids, in index order, whose name fails to resolve. */
  predicate FirstFailure(kids: seq<nat>, names: Namer, k: nat) {
    && k in kids && names(k).Failure?
    && forall k' :: k' in kids && k' < k ==> names(k').Success?
  }

  lemma FirstStopUnique(kids: seq<nat>, names: Namer, name: string, k: nat, k': nat)
    requires FirstStop(kids, names, name, k) && FirstStop(kids, names, name, k')
    ensures k == k'
  {
  }

  lemma FirstFailureUnique(kids: seq<nat>, names: Namer, k: nat, k': nat)
    requires FirstFailure(kids, names, k) && FirstFailure(kids, names, k')
    ensures k == k'
  {
  }

  /** When a lookup stops at position pos of the visited indices, that
      entry is where it stops: every earlier one passed, and the indices
      only increase. */
  lemma StopsAtPosition(kids: seq<nat>, pos: nat, names: Namer, name: string)
    requires Increasing(kids) && pos < |kids|
    requires forall j :: 0 <= j < pos ==> Passes(names, kids[j], name)
    requires !Passes(names, kids[pos], name)
    ensures FirstStop(kids, names, name, kids[pos])
  {
  }

  lemma FailsAtPosition(kids: seq<nat>, pos: nat, names: Namer)
    requires Increasing(kids) && pos < |kids|
    requires forall j :: 0 <= j < pos ==> names(kids[j]).Success?
    requires names(kids[pos]).Failure?
    ensures FirstFailure(kids, names, kids[pos])
  {
  }

  /** When the listing walk fails at position pos, the listing does not
      resolve, and that entry is the one first failure. */
  lemma FailureAtPosition(kids: seq<nat>, pos: nat, names: Namer)
    requires Increasing(kids) && pos < |kids|
    requires forall j :: 0 <= j < pos ==> names(kids[j]).Success?
    requires names(kids[pos]).Failure?
    ensures !AllResolve(kids, names)
    ensures forall k :: FirstFailure(kids, names, k) ==> k == kids[pos]
  {
    FailsAtPosition(kids, pos, names);
    forall k | FirstFailure(kids, names, k)
      ensures k == kids[pos]
    {
      FirstFailureUnique(kids, names, k, kids[pos]);
    }
  }

  /** The outcome of a lookup walk: the index where it stopped, on a match
      or on a name that failed to resolve, or exhaustion of the range. */
  datatype Search = Match(index: nat) | Abort(index: nat, error: NameError) | Exhausted

  /** The lookup loop over [lo, hi): it stops at the first visited entry
      whose name is `name` (a match) or cannot be resolved (an abort), and
      reports exhaustion only when every visited name resolved to something
      else. */
  method FindChild(t: seq<Entry>, names: Namer, lo: nat, hi: nat, name: string) returns (r: Search)
    requires WellFormed(t) && Enclosed(t, lo, hi)
    ensures r.Exhausted? ==> forall k :: k in Children(t, lo, hi) ==> Passes(names, k, name)
    ensures !r.Exhausted? ==>
              && FirstStop(Children(t, lo, hi), names, name, r.index)
              && names(r.index) == (if r.Match? then Success(name) else Failure(r.error))
  {
    ghost var kids := Children(t, lo, hi);
    ChildrenChain(t, lo, hi);
    ChildrenIncreasing(t, lo, hi);
    ghost var pos: nat := 0;
    var index := lo;
    while index < hi
      invariant pos <= |kids|
      invariant index == (if pos < |kids| then kids[pos] else hi)
      invariant forall j :: 0 <= j < pos ==> Passes(names, kids[j], name)
      decreases |kids| - pos
    {
      var entryName := names(index);
      if entryName.Failure? || entryName.value == name {
        StopsAtPosition(kids, pos, names, name);
        r := if entryName.Failure? then Abort(index, entryName.error) else Match(index);
        return;
      }
      index := Next(t, index);
      pos := pos + 1;
    }
    r := Exhausted;
  }

  function KindOf(e: Entry): FileType {
    if e.File? then RegularFile else FileType.Directory
  }

  /** The listing line of the entry at k: its inode (k + 1), kind and name. */
  function ItemOf(t: seq<Entry>, names: Namer, k: nat): DirItem
    requires k < |t| < MAX_ENTRIES && names(k).Success?
  {
    DirItem(k + 1, KindOf(t[k]), names(k).value)
  }

  /** The listing lines of kids, in the order of kids. */
  function ChildItems(t: seq<Entry>, names: Namer, kids: seq<nat>): seq<DirItem>
    requires |t| < MAX_ENTRIES && AllResolve(kids, names)
    requires forall k :: k in kids ==> k < |t|
  {
    seq(|kids|, j requires 0 <= j < |kids| && kids[j] in kids => ItemOf(t, names, kids[j]))
  }

  /** The listing loop over [lo, hi): one line per visited entry, unless a
      name fails to resolve, in which case the first such failure is the
      result. */
  method ListChildren(t: seq<Entry>, names: Namer, lo: nat, hi: nat) returns (r: Result<seq<DirItem>, NameError>)
    requires WellFormed(t) && Enclosed(t, lo, hi)
    ensures r.Success? <==> AllResolve(Children(t, lo, hi), names)
    ensures r.Success? ==> r.value == ChildItems(t, names, Children(t, lo, hi))
    ensures forall k :: FirstFailure(Children(t, lo, hi), names, k) ==> r == Failure(names(k).error)
  {
    ghost var kids := Children(t, lo, hi);
    ChildrenChain(t, lo, hi);
    ChildrenIncreasing(t, lo, hi);
    ghost var pos: nat := 0;
    var index := lo;
    var items: seq<DirItem> := [];
    while index < hi
      invariant pos <= |kids|
      invariant index == (if pos < |kids| then kids[pos] else hi)
      invariant forall j :: 0 <= j < pos ==> names(kids[j]).Success?
      invariant |items| == pos
      invariant forall j :: 0 <= j < pos ==> items[j] == ItemOf(t, names, kids[j])
      decreases |kids| - pos
    {
      var kind := KindOf(t[index]);
      var inode := index + 1;
      var entryName := names(index);
      if entryName.Failure? {
        FailureAtPosition(kids, pos, names);
        return Failure(entryName.error);
      }
      items := items + [DirItem(inode, kind, entryName.value)];
      index := Next(t, index);
      pos := pos + 1;
    }
    return Success(items);
  }

  /** c is the direct child of the directory at p where a lookup for `name`
      stops: the first direct child, in index order, whose name fails to
      resolve or equals `name`. */
  predicate StopsAt(t: seq<Entry>, p: int, names: Namer, name: string, c: int) {
    && IsDirectChild(t, p, c) && !Passes(names, c, name)
    && forall c' :: p < c' < c && IsDirectChild(t, p, c') ==> Passes(names, c', name)
  }

  /** A direct-child walk over a directory's range stops where StopsAt says. */
  lemma StopsAtIsFirstStop(t: seq<Entry>, p: int, names: Namer, name: string, c: int)
    requires WellFormed(t) && 0 <= p < |t| && t[p].Directory?
    ensures c >= 0 ==> (StopsAt(t, p, names, name, c) <==> FirstStop(DirectChildren(t, p), names, name, c))
  {
  }

  /** At most one direct child is where a lookup stops. */
  lemma StopsAtUnique(t: seq<Entry>, p: int, names: Namer, name: string, c: int, c': int)
    requires StopsAt(t, p, names, name, c) && StopsAt(t, p, names, name, c')
    ensures c == c'
  {
  }

  /** The lookup walk over the range of the directory at p, its outcome
      stated in terms of that directory's direct children: it is exhausted
      exactly when every direct child resolves to another name, and
      otherwise stops where StopsAt says. */
  method FindDirectChild(t: seq<Entry>, names: Namer, p: nat, name: string) returns (r: Search)
    requires WellFormed(t) && p < |t| && t[p].Directory?
    ensures r.Exhausted? <==> forall c :: IsDirectChild(t, p, c) ==> Passes(names, c, name)
    ensures !r.Exhausted? ==>
              && StopsAt(t, p, names, name, r.index)
              && names(r.index) == (if r.Match? then Success(name) else Failure(r.error))
  {
    ghost var kids := DirectChildren(t, p);
    assert kids == Children(t, p + 1, t[p].endIndex);
    r := FindChild(t, names, t[p].index + 1, t[p].endIndex, name);
    if !r.Exhausted? {
      StopsAtIsFirstStop(t, p, names, name, r.index);
    }
  }

  /** c is the direct child of the directory at p whose name is the first,
      in index order, to fail to resolve. */
  predicate FailsFirstAt(t: seq<Entry>, p: int, names: Namer, c: int) {
    && IsDirectChild(t, p, c) && names(c).Failure?
    && forall c' :: p < c' < c && IsDirectChild(t, p, c') ==> names(c').Success?
  }

  lemma FailsFirstAtIsFirstFailure(t: seq<Entry>, p: int, names: Namer, c: int)
    requires WellFormed(t) && 0 <= p < |t| && t[p].Directory?
    ensures c >= 0 ==> (FailsFirstAt(t, p, names, c) <==> FirstFailure(DirectChildren(t, p), names, c))
  {
  }

  /** The listing walk over the range of the directory at p, which starts at
      lo, the index just past p: it succeeds exactly when every direct child
      resolves, then with one line per direct child in index order, and
      otherwise fails with the first failing child's error. */
  method ListDirectChildren(t: seq<Entry>, names: Namer, p: nat, lo: nat) returns (r: Result<seq<DirItem>, NameError>)
    requires WellFormed(t) && p < |t| && t[p].Directory? && lo == p + 1
    ensures r.Success? <==> AllResolve(DirectChildren(t, p), names)
    ensures r.Success? ==> r.value == ChildItems(t, names, DirectChildren(t, p))
    ensures forall c :: FailsFirstAt(t, p, names, c) ==> r == Failure(names(c).error)
  {
    ghost var kids := DirectChildren(t, p);
    assert kids == Children(t, lo, t[p].endIndex);
    r := ListChildren(t, names, lo, t[p].endIndex);
    forall c | FailsFirstAt(t, p, names, c)
      ensures r == Failure(names(c).error)
    {
      FailsFirstAtIsFirstFailure(t, p, names, c);
    }
  }
}
