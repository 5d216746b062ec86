/**
 The page arithmetic of GET /api/messages: page p of a room's history is
 `slice(max(L - 20(p+1), 0), L - 20p)` with JavaScript's Array.prototype.slice,
 where a negative index counts from the end and an index past the end is
 clamped to the length.
 */
module Paging {

  const PageSize: nat := 20

  function Max(a: int, b: int): int
  {
    if a >= b then a else b
  }

  /** How slice turns one argument into a position in [0, len]. */
  function SliceIndex(i: int, len: nat): (r: nat)
    ensures r <= len
    ensures 0 <= i <= len ==> r == i
    ensures i < 0 ==> r == Max(len + i, 0)
    ensures i > len ==> r == len
  {
    if i < 0 then (if len + i < 0 then 0 else len + i)
    else if i > len then len
    else i
  }

  /** Array.prototype.slice(start, end). */
  function Slice<T>(s: seq<T>, start: int, end: int): (r: seq<T>)
    ensures 0 <= start <= end <= |s| ==> r == s[start..end]
    ensures |r| == Max(SliceIndex(end, |s|) - SliceIndex(start, |s|), 0)
  {
    var a := SliceIndex(start, |s|);
    var b := SliceIndex(end, |s|);
    if a < b then s[a..b] else []
  }

  /** The k-th element of a slice is the element k places after its start. */
  lemma SliceAt<T>(s: seq<T>, start: int, end: int)
    ensures forall k :: 0 <= k < |Slice(s, start, end)| ==> Slice(s, start, end)[k] == s[SliceIndex(start, |s|) + k]
  {
  }

  /** The server's page, as written. */
  function Page<T>(h: seq<T>, p: int): (r: seq<T>)
    // In range: the p-th block of PageSize counted back from the newest.
    ensures 0 <= p && PageSize * p <= |h| ==>
              r == h[Max(|h| - PageSize * (p + 1), 0) .. |h| - PageSize * p]
    ensures 0 <= p && PageSize * p <= |h| ==> |r| <= PageSize
    ensures PageSize * p == |h| ==> r == []
    // Past the end, the negative end index counts back from the end.
    ensures |h| < PageSize * p < 2 * |h| ==> r == h[..2 * |h| - PageSize * p]
    ensures 2 * |h| <= PageSize * p ==> r == []
    ensures p < 0 ==> r == []
  {
    var L := |h|;
    Slice(h, Max(L - (p + 1) * PageSize, 0), L - p * PageSize)
  }

  /** Consecutive in-range pages are adjacent and do not overlap: page p+1
      followed by page p is one contiguous run of the history. */
  lemma PagesAdjacent<T>(h: seq<T>, p: int)
    requires 0 <= p && PageSize * (p + 1) <= |h|
    ensures Page(h, p + 1) + Page(h, p) == h[Max(|h| - PageSize * (p + 2), 0) .. |h| - PageSize * p]
  {
    var lo := Max(|h| - PageSize * (p + 2), 0);
    var mid := |h| - PageSize * (p + 1);
    var hi := |h| - PageSize * p;
    assert Page(h, p + 1) == h[lo..mid];
    assert Page(h, p) == h[mid..hi];
    assert h[lo..mid] + h[mid..hi] == h[lo..hi];
  }

  /** The history as a client that has requested pages n-1, ..., 0 holds it,
      each older page prepended. */
  function Loaded<T>(h: seq<T>, n: nat): seq<T>
  {
    if n == 0 then [] else Page(h, n - 1) + Loaded(h, n - 1)
  }

  /** While every requested page is in range, the loaded pages form exactly
      the newest 20n messages: nothing is repeated and nothing skipped. */
  lemma {:induction false} LoadedInRange<T>(h: seq<T>, n: nat)
    requires PageSize * n <= |h|
    ensures Loaded(h, n) == h[|h| - PageSize * n..]
  {
    if n > 0 {
      LoadedInRange(h, n - 1);
      assert Page(h, n - 1) == h[|h| - PageSize * n .. |h| - PageSize * (n - 1)];
      assert h[|h| - PageSize * n .. |h| - PageSize * (n - 1)] + h[|h| - PageSize * (n - 1)..]
          == h[|h| - PageSize * n..];
    }
  }

  /** The as-written page past the end repeats messages: with 30 stored
      messages, page 1 is the oldest 10 and page 2 the oldest 20, so pages
      0, 1 and 2 together hold 50 entries of a 30-entry history. With 39
      stored messages, page 2 holds 38 of them, not at most 20. */
  lemma PagePastEndRepeats()
    ensures var h := seq(30, i => i);
            && Page(h, 1) == h[..10]
            && Page(h, 2) == h[..20]
            && Page(h, 3) == []
            && |Loaded(h, 3)| == 50
    ensures |Page(seq(39, i => i), 2)| == 38
  {
    var h := seq(30, i => i);
    assert Loaded(h, 1) == Page(h, 0) + Loaded(h, 0);
    assert Loaded(h, 2) == Page(h, 1) + Loaded(h, 1);
    assert Loaded(h, 3) == Page(h, 2) + Loaded(h, 2);
    assert |Page(h, 0)| == 20;
  }

  /** The corrected page: empty once 20p reaches the length, which the
      client's stop-on-empty rule (Chat.jsx:79) relies on to end paging. */
  function PageIntended<T>(h: seq<T>, p: int): (r: seq<T>)
    ensures r == [] <==> p < 0 || PageSize * p >= |h|
    ensures |r| <= PageSize
    ensures 0 <= p && PageSize * p <= |h| ==>
              r == h[Max(|h| - PageSize * (p + 1), 0) .. |h| - PageSize * p]
  {
    if PageSize * p >= |h| then [] else Page(h, p)
  }

  function LoadedIntended<T>(h: seq<T>, n: nat): seq<T>
  {
    if n == 0 then [] else PageIntended(h, n - 1) + LoadedIntended(h, n - 1)
  }

  /** With the intended page, pages 0, ..., n-1 of one unchanged history
      join into a suffix of it: no message arrives twice. */
  lemma {:induction false} LoadedIntendedIsSuffix<T>(h: seq<T>, n: nat)
    ensures PageSize * n <= |h| ==> LoadedIntended(h, n) == h[|h| - PageSize * n..]
    ensures PageSize * n >= |h| ==> LoadedIntended(h, n) == h
  {
    if n > 0 {
      LoadedIntendedIsSuffix(h, n - 1);
      var before := PageSize * (n - 1);
      var pg, rest := PageIntended(h, n - 1), LoadedIntended(h, n - 1);
      assert LoadedIntended(h, n) == pg + rest;
      assert PageSize * n == before + PageSize;
      if before < |h| {
        LoadedIntendedStep(h, before, pg, rest);
      } else {
        assert pg == [];
      }
    } else {
      assert h[|h|..] == [];
    }
  }

  /** One more in-range page placed before the newest `before` messages
      extends that suffix by PageSize, or reaches the start of h. */
  lemma LoadedIntendedStep<T>(h: seq<T>, before: nat, pg: seq<T>, rest: seq<T>)
    requires before < |h|
    requires rest == h[|h| - before..]
    requires pg == h[Max(|h| - (before + PageSize), 0) .. |h| - before]
    ensures before + PageSize <= |h| ==> pg + rest == h[|h| - (before + PageSize)..]
    ensures before + PageSize >= |h| ==> pg + rest == h
  {
    SliceJoin(h, Max(|h| - (before + PageSize), 0), |h| - before);
  }

  /** Page 0 is the newest PageSize messages, or the whole history. */
  lemma NewestPage<T>(h: seq<T>)
    ensures Page(h, 0) == h[Max(|h| - PageSize, 0)..]
  {
  }

  /** Two adjacent slices of h join into one. */
  lemma SliceJoin<T>(h: seq<T>, lo: nat, mid: nat)
    requires lo <= mid <= |h|
    ensures h[lo..mid] + h[mid..] == h[lo..]
    ensures lo == 0 ==> h[lo..] == h
  {
  }
}
