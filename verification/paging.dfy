/** Emission of a directory listing into the transport's bounded reply
    buffer. The listing is rebuilt in full on every call; the caller's resume
    offset says how many lines to skip; lines are added with cookie
    `position + 1` until the buffer reports that it is full. */
module Paging {
  import opened Replies

  /** The reply buffer's answer to adding `item` after `added`: true when it
      is full and the item was not added. Its capacity is left abstract. */
  type Full = (seq<Listed>, DirItem) -> bool

  /** out is what one call emits from list when told to skip `skip` lines:
      consecutive lines from position skip on, each with cookie position + 1,
      each accepted by the buffer, stopping only at the end of the list or at
      the first line the buffer refused. */
  predicate IsPage(list: seq<DirItem>, skip: nat, full: Full, out: seq<Listed>) {
    && (out == [] || skip + |out| <= |list|)
    && (forall j :: 0 <= j < |out| ==> out[j] == Listed(list[skip + j], skip + j + 1))
    && (forall j :: 0 <= j < |out| ==> !full(out[..j], list[skip + j]))
    && (skip + |out| < |list| ==> full(out, list[skip + |out|]))
  }

  /** The loop over the listing positions from `skip` on. */
  method Emit(list: seq<DirItem>, skip: nat, full: Full) returns (out: seq<Listed>)
    ensures IsPage(list, skip, full, out)
  {
    out := [];
    var i := skip;
    while i < |list|
      invariant i == skip + |out|
      invariant out == [] || i <= |list|
      invariant forall j :: 0 <= j < |out| ==> out[j] == Listed(list[skip + j], skip + j + 1)
      invariant forall j :: 0 <= j < |out| ==> !full(out[..j], list[skip + j])
    {
      if full(out, list[i]) {
        break;
      }
      ghost var before := out;
      out := out + [Listed(list[i], i + 1)];
      i := i + 1;
      assert out[..|before|] == before;
      assert forall j :: 0 <= j < |before| ==> out[..j] == before[..j];
    }
  }

  function Items(out: seq<Listed>): (items: seq<DirItem>)
    ensures |items| == |out|
  {
    seq(|out|, j requires 0 <= j < |out| => out[j].item)
  }

  /** Resuming at the last cookie of a page continues exactly where the page
      stopped: the page followed by the rest of the list from that cookie is
      the list from the original offset, with nothing skipped or repeated. */
  lemma ResumeAtLastCookie(list: seq<DirItem>, skip: nat, full: Full, out: seq<Listed>)
    requires skip <= |list|
    requires IsPage(list, skip, full, out)
    ensures out != [] ==> out[|out| - 1].cookie == skip + |out|
    ensures Items(out) + list[skip + |out|..] == list[skip..]
  {
    assert Items(out) == list[skip..skip + |out|];
  }

  /** A run of calls as the transport makes them: each call resumes at the
      last cookie of the previous page, and the run ends with the first
      empty page. */
  predicate Session(list: seq<DirItem>, full: Full, start: nat, pages: seq<seq<Listed>>)
    decreases |pages|
  {
    && |pages| > 0
    && IsPage(list, start, full, pages[0])
    && if |pages| == 1 then pages[0] == []
       else pages[0] != [] && Session(list, full, start + |pages[0]|, pages[1..])
  }

  function Flatten(pages: seq<seq<Listed>>): seq<DirItem> {
    if pages == [] then [] else Items(pages[0]) + Flatten(pages[1..])
  }

  /** Paginating never changes the listing: when an empty buffer always has
      room for one line, the pages of a session concatenate to the listing
      from the session's first offset, each line once and in order. */
  lemma {:induction false} SessionCoversListing(list: seq<DirItem>, full: Full, start: nat, pages: seq<seq<Listed>>)
    requires start <= |list|
    requires Session(list, full, start, pages)
    requires forall x :: !full([], x)
    ensures Flatten(pages) == list[start..]
    decreases |pages|
  {
    if |pages| == 1 {
      // The last page is empty; were the list not exhausted, the buffer
      // would have refused a line while empty.
      assert start == |list|;
      assert Flatten(pages[1..]) == [];
    } else {
      var n := |pages[0]|;
      ResumeAtLastCookie(list, start, full, pages[0]);
      SessionCoversListing(list, full, start + n, pages[1..]);
    }
  }
}
