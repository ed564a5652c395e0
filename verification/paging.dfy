/** The paging sweep of `simple_text_query` (lines 83-93, 128): requests
    of `PageSize` hits at offsets 0, P, 2P, ... until the reported total is
    covered. The per-page lists are re-created inside the loop, so only the
    final page's lists are returned. */
module PagedQuery {
  import opened Wrappers
  import opened Records
  import opened Accumulator

  /** `PAGE_SIZE` (line 29). */
  const PageSize: nat := 500

  /** The search index as this core sees it: a fixed ranking of hits and a
      reported total match count, both stable for the whole sweep. The total
      is kept apart from the hits because the index reports it separately. */
  datatype Provider = Provider(records: seq<SearchRecord>, total: nat)

  function Min(a: nat, b: nat): nat {
    if a <= b then a else b
  }

  /** The answer to `search(top=size, skip=skip)`: the hits ranked
      `skip .. skip+size-1`, fewer at the end of the ranking. */
  function Page(p: Provider, skip: nat, size: nat): seq<SearchRecord>
  {
    p.records[Min(skip, |p.records|)..Min(skip + size, |p.records|)]
  }

  /** A page holds at most `size` hits, exactly `size` while the ranking
      lasts, and they are the ranking's hits from `skip` on. */
  lemma PageIsRankingSlice(p: Provider, skip: nat, size: nat)
    ensures |Page(p, skip, size)| <= size
    ensures skip + size <= |p.records| ==> |Page(p, skip, size)| == size
    ensures forall i :: 0 <= i < |Page(p, skip, size)| ==>
              skip + i < |p.records| && Page(p, skip, size)[i] == p.records[skip + i]
  {
  }

  /** Number of requests the sweep makes: one for an empty result,
      otherwise the total divided by the page size, rounded up. */
  function RequestCount(total: nat, size: nat): nat
    requires size >= 1
  {
    if total == 0 then 1 else (total + size - 1) / size
  }

  lemma MulNonNegative(a: int, b: int)
    requires a >= 0 && b >= 0
    ensures a * b >= 0
  {
  }

  lemma MulAwayFromZero(e: int, d: int)
    requires d > 0
    ensures e >= 1 ==> e * d >= d
    ensures e <= -1 ==> e * d <= -d
  {
    if e >= 1 {
      MulNonNegative(e - 1, d);
      assert e * d == (e - 1) * d + d;
    } else if e <= -1 {
      MulNonNegative(-e - 1, d);
      assert e * d == -((-e - 1) * d) - d;
    }
  }

  /** Euclidean division has a unique quotient. */
  lemma DivisionPinned(x: int, d: int, q: int)
    requires d > 0 && q * d <= x < q * d + d
    ensures x / d == q
  {
    var r := x / d;
    assert r * d + x % d == x;
    assert (r - q) * d == r * d - q * d;
    MulAwayFromZero(r - q, d);
  }

  /** The stopping rule yields exactly `RequestCount` requests: the first
      `k` with `total <= k * size`, and at least one. */
  lemma {:induction false} RequestCountIsFirstCovering(total: nat, size: nat, k: nat)
    requires size >= 1 && k >= 1
    requires total <= k * size
    requires k == 1 || (k - 1) * size < total
    ensures k == RequestCount(total, size)
  {
    assert (k - 1) * size >= 0;
    if total > 0 {
      assert (k - 1) * size == k * size - size;
      DivisionPinned(total + size - 1, size, k);
    }
  }

  /** The hits of the first `k` requests, in the order they arrive. */
  function Swept(p: Provider, size: nat, k: nat): seq<SearchRecord>
  {
    if k == 0 then [] else Swept(p, size, k - 1) + Page(p, (k - 1) * size, size)
  }

  /** The sweep reads every hit in the ranking prefix it covers exactly once,
      in order: no hit read twice, none skipped. */
  lemma {:induction false} SweptIsPrefix(p: Provider, size: nat, k: nat)
    ensures Swept(p, size, k) == p.records[..Min(k * size, |p.records|)]
  {
    if k > 0 {
      SweptIsPrefix(p, size, k - 1);
      var n := |p.records|;
      assert (k - 1) * size + size == k * size;
      var lo, hi := Min((k - 1) * size, n), Min(k * size, n);
      assert p.records[..hi] == p.records[..lo] + p.records[lo..hi];
    } else {
      assert p.records[..0] == [];
    }
  }

  /** With a truthful total, the full sweep reads the whole ranking. */
  lemma SweepReadsAll(p: Provider, size: nat)
    requires size >= 1 && p.total == |p.records|
    ensures Swept(p, size, RequestCount(p.total, size)) == p.records
  {
    var k := RequestCount(p.total, size);
    if p.total > 0 {
      var r := (p.total + size - 1) % size;
      assert p.total + size - 1 == k * size + r;
    }
    SweptIsPrefix(p, size, k);
  }

  lemma NextOffset(k: nat, size: nat)
    ensures k * size + size == (k + 1) * size
  {
  }

  /** Offsets that start at 0 and advance by `size` per request. */
  ghost predicate Stepped(skips: seq<nat>, size: nat) {
    && (|skips| > 0 ==> skips[0] == 0)
    && forall i, j {:trigger skips[i], skips[j]} :: 0 <= i < j < |skips| && j == i + 1 ==> skips[j] == skips[i] + size
  }

  /** The next request of a sweep keeps its offsets stepped. */
  lemma SteppedNext(skips: seq<nat>, size: nat, skip: nat)
    requires Stepped(skips, size)
    requires |skips| == 0 ==> skip == 0
    requires |skips| > 0 ==> skip == skips[|skips| - 1] + size
    ensures Stepped(skips + [skip], size)
  {
    var next := skips + [skip];
    forall i, j | 0 <= i < j < |next| && j == i + 1
      ensures next[j] == next[i] + size
    {
      if j < |skips| {
        assert next[i] == skips[i] && next[j] == skips[j];
      }
    }
  }

  /** Stepped offsets are the multiples 0, P, 2P, ... */
  lemma {:induction false} SteppedAreMultiples(skips: seq<nat>, size: nat)
    requires Stepped(skips, size)
    ensures forall i :: 0 <= i < |skips| ==> skips[i] == i * size
    decreases |skips|
  {
    if |skips| > 1 {
      var n := |skips| - 1;
      assert Stepped(skips[..n], size) by {
        forall i, j | 0 <= i < j < n && j == i + 1
          ensures skips[..n][j] == skips[..n][i] + size
        {
          assert skips[j] == skips[i] + size;
        }
      }
      SteppedAreMultiples(skips[..n], size);
      assert skips[n - 1] == skips[..n][n - 1];
      assert skips[n] == skips[n - 1] + size;
      NextOffset(n - 1, size);
    }
  }

  /** Where the stopping rule first fires, the number of requests made is
      `RequestCount`. */
  lemma StoppedSweepCount(total: nat, size: nat, skips: seq<nat>)
    requires size >= 1 && |skips| >= 1 && Stepped(skips, size)
    requires total <= skips[|skips| - 1] + size
    requires |skips| == 1 || total > skips[|skips| - 2] + size
    ensures |skips| == RequestCount(total, size)
  {
    var k := |skips|;
    SteppedAreMultiples(skips, size);
    assert k == 1 || (k - 1) * size < total by {
      if k > 1 {
        NextOffset(k - 2, size);
      }
    }
    NextOffset(k - 1, size);
    RequestCountIsFirstCovering(total, size, k);
  }

  /** The offset of the last request of a complete sweep. */
  function LastSkip(total: nat, size: nat): nat
    requires size >= 1
  {
    (RequestCount(total, size) - 1) * size
  }

  lemma DivLowerBound(x: int, d: int, k: int)
    requires d > 0 && k * d <= x
    ensures k <= x / d
  {
    var q := x / d;
    assert q * d + x % d == x;
    assert (k - q) * d == k * d - q * d;
    MulAwayFromZero(k - q, d);
  }

  /** A sweep, complete or stopped early by an exception, never requests
      past the last offset of a complete sweep, and reaches it exactly when
      the stopping rule fires. */
  lemma SweepWithinLastSkip(total: nat, size: nat, skips: seq<nat>)
    requires size >= 1 && |skips| >= 1 && Stepped(skips, size)
    requires forall i :: 0 <= i < |skips| - 1 ==> total > skips[i] + size
    ensures skips[|skips| - 1] <= LastSkip(total, size)
    ensures total <= skips[|skips| - 1] + size ==> skips[|skips| - 1] == LastSkip(total, size)
  {
    var k := |skips|;
    SteppedAreMultiples(skips, size);
    if total <= skips[k - 1] + size {
      StoppedSweepCount(total, size, skips);
    }
    if k > 1 {
      assert skips[k - 2] == (k - 2) * size;
      NextOffset(k - 2, size);
      NextOffset(k - 1, size);
      DivLowerBound(total + size - 1, size, k);
      MulNonNegative(RequestCount(total, size) - k, size);
      assert LastSkip(total, size) - skips[k - 1] == (RequestCount(total, size) - k) * size;
    }
  }

  /** Every hit ranked before `upto` has a non-empty storage path. */
  predicate CoveredOk(p: Provider, upto: nat) {
    forall j :: 0 <= j < Min(upto, |p.records|) ==> |p.records[j].path| > 0
  }

  /** Fetching the page at `skip` raises exactly when it extends the
      range of good hits with a bad one. */
  lemma CoveredExtends(p: Provider, skip: nat, size: nat)
    requires CoveredOk(p, skip)
    ensures CoveredOk(p, skip + size) <==> PathsNonEmpty(Page(p, skip, size))
  {
    var page := Page(p, skip, size);
    var lo := Min(skip, |p.records|);
    assert forall i :: 0 <= i < |page| ==> page[i] == p.records[lo + i];
    if !CoveredOk(p, skip + size) {
      var j :| 0 <= j < Min(skip + size, |p.records|) && |p.records[j].path| == 0;
      assert page[j - lo] == p.records[j];
    }
  }

  /** The page a sweep ended on, by an exception or by the stopping rule,
      tells the same story as the last page of a complete sweep. */
  lemma FinalPageAtLastSkip(p: Provider, size: nat, skips: seq<nat>)
    requires size >= 1 && |skips| >= 1 && Stepped(skips, size)
    requires forall i :: 0 <= i < |skips| - 1 ==> p.total > skips[i] + size
    ensures !CoveredOk(p, skips[|skips| - 1] + size) ==> !CoveredOk(p, LastSkip(p.total, size) + size)
    ensures p.total <= skips[|skips| - 1] + size ==> skips[|skips| - 1] == LastSkip(p.total, size)
  {
    SweepWithinLastSkip(p.total, size, skips);
    if !CoveredOk(p, skips[|skips| - 1] + size) {
      var j :| 0 <= j < Min(skips[|skips| - 1] + size, |p.records|) && |p.records[j].path| == 0;
      assert j < Min(LastSkip(p.total, size) + size, |p.records|);
    }
  }

  /** The sweep, with the page size and the per-page handler as parameters.
      It returns the final page's result; the ghost `skips` records the
      offsets it requested: 0 first, each next one `size` further on. The
      sweep goes on exactly while the reported total exceeds the range
      covered so far. The handler raises on a page exactly when the page
      holds an empty storage path; the sweep then stops at that page. */
  method Sweep(p: Provider, handle: seq<SearchRecord> -> Result<PageState, QueryError>, size: nat)
    returns (outcome: Result<PageState, QueryError>, ghost skips: seq<nat>)
    requires size >= 1
    requires forall page :: handle(page).Failure? <==> !PathsNonEmpty(page)
    ensures |skips| >= 1 && Stepped(skips, size)
    ensures forall i :: 0 <= i < |skips| - 1 ==> p.total > skips[i] + size
    ensures outcome.Failure? <==> !CoveredOk(p, skips[|skips| - 1] + size)
    ensures outcome.Failure? ==> CoveredOk(p, skips[|skips| - 1])
    ensures outcome.Success? ==> p.total <= skips[|skips| - 1] + size
    ensures outcome.Success? ==> |skips| == RequestCount(p.total, size)
    ensures outcome.Success? ==> outcome == handle(Page(p, skips[|skips| - 1], size))
    ensures outcome.Failure? <==> !CoveredOk(p, LastSkip(p.total, size) + size)
    ensures outcome.Success? ==> outcome == handle(Page(p, LastSkip(p.total, size), size))
  {
    var skip: nat := 0;
    skips := [];
    while true
      invariant Stepped(skips, size)
      invariant |skips| == 0 ==> skip == 0
      invariant |skips| > 0 ==> skip == skips[|skips| - 1] + size
      invariant skip == 0 || skip < p.total
      invariant forall i :: 0 <= i < |skips| ==> p.total > skips[i] + size
      invariant CoveredOk(p, skip)
      decreases p.total - skip
    {
      var page := Page(p, skip, size);
      SteppedNext(skips, size, skip);
      skips := skips + [skip];
      var done := p.total <= skip + size;
      outcome := handle(page);
      CoveredExtends(p, skip, size);
      if outcome.Failure? {
        FinalPageAtLastSkip(p, size, skips);
        return;
      }
      if done {
        StoppedSweepCount(p.total, size, skips);
        FinalPageAtLastSkip(p, size, skips);
        return;
      }
      skip := skip + size;
    }
  }

  /** `simple_text_query` with its fixed page size. */
  method SimpleTextQuery(p: Provider, decode: string -> Option<string>)
    returns (outcome: Result<PageState, QueryError>, ghost skips: seq<nat>)
    ensures |skips| >= 1 && Stepped(skips, PageSize)
    ensures forall i :: 0 <= i < |skips| - 1 ==> p.total > skips[i] + PageSize
    ensures outcome.Failure? <==> !CoveredOk(p, skips[|skips| - 1] + PageSize)
    ensures outcome.Success? ==> p.total <= skips[|skips| - 1] + PageSize
    ensures outcome.Success? ==> |skips| == RequestCount(p.total, PageSize)
    ensures outcome.Success? ==> outcome == CollectPage(decode, Page(p, skips[|skips| - 1], PageSize))
    ensures outcome.Failure? <==> !CoveredOk(p, LastSkip(p.total, PageSize) + PageSize)
    ensures outcome.Success? ==> outcome == CollectPage(decode, Page(p, LastSkip(p.total, PageSize), PageSize))
  {
    forall page ensures CollectPage(decode, page).Failure? <==> !PathsNonEmpty(page) {
      CollectPageFailsIffEmptyPath(decode, page);
    }
    outcome, skips := Sweep(p, page => CollectPage(decode, page), PageSize);
  }
}
