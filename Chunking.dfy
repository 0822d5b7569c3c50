/** The chunked download loop of `fetch_punches_in_chunks`
    (utils/utils.py): the requested window is cut into consecutive windows
    of at most eight days and the punches of each are appended in order.
    Timestamps are integer milliseconds; the fetch of one window
    (`get_punch`, an HTTP call) is a parameter of the model. */
module Chunking {

  /** Eight days in milliseconds: `timedelta(days=8)`. */
  const ChunkMs: int := 8 * 86400000

  function Min(a: int, b: int): int { if a <= b then a else b }

  /** The windows the loop requests, in order: from `s`, eight days at a
      time, the last one cut at `e`; none when `s >= e`. */
  function Chunks(s: int, e: int): seq<(int, int)>
    decreases e - s
  {
    if s >= e then []
    else
      var c := Min(s + ChunkMs, e);
      [(s, c)] + Chunks(c, e)
  }

  /** The punches of the windows `cs`, concatenated in window order. */
  function Gather<T>(fetch: (int, int) -> seq<T>, cs: seq<(int, int)>): seq<T>
  {
    if cs == [] then [] else fetch(cs[0].0, cs[0].1) + Gather(fetch, cs[1..])
  }

  /** The shape of the windows: they start at `s`, end at `e`, follow each
      other without gap or overlap, each is non-empty and at most eight days
      long, and all but the last are exactly eight days long. */
  lemma ChunksShape(s: int, e: int)
    ensures s >= e <==> Chunks(s, e) == []
    ensures s < e ==> Chunks(s, e)[0].0 == s && Chunks(s, e)[|Chunks(s, e)| - 1].1 == e
    ensures forall i :: 0 <= i < |Chunks(s, e)| ==>
      Chunks(s, e)[i].0 < Chunks(s, e)[i].1 <= Chunks(s, e)[i].0 + ChunkMs
    ensures forall i :: 0 <= i < |Chunks(s, e)| - 1 ==>
      Chunks(s, e)[i].1 == Chunks(s, e)[i + 1].0 && Chunks(s, e)[i].1 - Chunks(s, e)[i].0 == ChunkMs
  {
    ChunksEnds(s, e);
    ChunksBounded(s, e);
    ChunksContiguous(s, e);
  }

  /** The windows start at `s` and end at `e`, and there are none exactly
      when `s >= e`. */
  lemma {:induction false} ChunksEnds(s: int, e: int)
    ensures s >= e <==> Chunks(s, e) == []
    ensures s < e ==> Chunks(s, e)[0].0 == s && Chunks(s, e)[|Chunks(s, e)| - 1].1 == e
    decreases e - s
  {
    if s < e {
      var c := Min(s + ChunkMs, e);
      ChunksEnds(c, e);
      var r, t := Chunks(s, e), Chunks(c, e);
      assert r == [(s, c)] + t;
      if c < e {
        assert r[|r| - 1] == t[|t| - 1];
      }
    }
  }

  /** Each window is non-empty and at most eight days long. */
  lemma {:induction false} ChunksBounded(s: int, e: int)
    ensures forall i :: 0 <= i < |Chunks(s, e)| ==>
      Chunks(s, e)[i].0 < Chunks(s, e)[i].1 <= Chunks(s, e)[i].0 + ChunkMs
    decreases e - s
  {
    if s < e {
      var c := Min(s + ChunkMs, e);
      ChunksBounded(c, e);
      var r, t := Chunks(s, e), Chunks(c, e);
      assert r == [(s, c)] + t;
      assert forall i :: 1 <= i < |r| ==> r[i] == t[i - 1];
    }
  }

  /** Each window but the last is eight days long and ends where the next
      one starts. */
  lemma {:induction false} ChunksContiguous(s: int, e: int)
    ensures forall i :: 0 <= i < |Chunks(s, e)| - 1 ==>
      Chunks(s, e)[i].1 == Chunks(s, e)[i + 1].0 && Chunks(s, e)[i].1 - Chunks(s, e)[i].0 == ChunkMs
    decreases e - s
  {
    if s < e {
      var c := Min(s + ChunkMs, e);
      ChunksContiguous(c, e);
      ChunksEnds(c, e);
      var r, t := Chunks(s, e), Chunks(c, e);
      assert r == [(s, c)] + t;
      assert forall i :: 1 <= i < |r| ==> r[i] == t[i - 1];
      if c < e {
        assert r[1].0 == c;
      }
    }
  }

  /** There are ceil((e - s) / 8 days) windows. */
  lemma {:induction false} ChunksCount(s: int, e: int)
    requires s < e
    ensures |Chunks(s, e)| == (e - s + ChunkMs - 1) / ChunkMs
    decreases e - s
  {
    var c := Min(s + ChunkMs, e);
    if c < e {
      ChunksCount(c, e);
      assert (e - s + ChunkMs - 1) / ChunkMs == (e - c + ChunkMs - 1) / ChunkMs + 1;
    }
  }

  /** Every instant of the requested window lies in exactly one of the
      windows fetched. */
  lemma {:induction false} ChunksPartition(s: int, e: int, t: int)
    requires s <= t < e
    ensures exists i :: 0 <= i < |Chunks(s, e)| && Chunks(s, e)[i].0 <= t < Chunks(s, e)[i].1
    ensures forall i, j ::
      (0 <= i < |Chunks(s, e)| && 0 <= j < |Chunks(s, e)| &&
       Chunks(s, e)[i].0 <= t < Chunks(s, e)[i].1 && Chunks(s, e)[j].0 <= t < Chunks(s, e)[j].1) ==> i == j
    decreases e - s
  {
    var c := Min(s + ChunkMs, e);
    var r, rest := Chunks(s, e), Chunks(c, e);
    assert r == [(s, c)] + rest;
    ChunksShape(c, e);
    if t < c {
      assert r[0].0 <= t < r[0].1;
      forall j | 0 <= j < |r| && r[j].0 <= t < r[j].1 ensures j == 0 {
        if j > 0 { assert r[j] == rest[j - 1]; ChunksStartAfter(c, e, j - 1); }
      }
    } else {
      ChunksPartition(c, e, t);
      var k :| 0 <= k < |rest| && rest[k].0 <= t < rest[k].1;
      assert r[k + 1] == rest[k];
      forall i, j | 0 <= i < |r| && 0 <= j < |r| && r[i].0 <= t < r[i].1 && r[j].0 <= t < r[j].1
        ensures i == j
      {
        assert i > 0 && j > 0;
        assert r[i] == rest[i - 1] && r[j] == rest[j - 1];
      }
    }
  }

  /** Every window of `Chunks(s, e)` starts at or after `s`. */
  lemma {:induction false} ChunksStartAfter(s: int, e: int, i: int)
    requires 0 <= i < |Chunks(s, e)|
    ensures Chunks(s, e)[i].0 >= s
    decreases e - s
  {
    var c := Min(s + ChunkMs, e);
    if i > 0 {
      assert Chunks(s, e)[i] == Chunks(c, e)[i - 1];
      ChunksStartAfter(c, e, i - 1);
    }
  }

  /** `fetch_punches_in_chunks`: walks the window eight days at a time,
      fetching each sub-window and extending the accumulated list. */
  method FetchPunchesInChunks<T>(startMs: int, endMs: int, fetch: (int, int) -> seq<T>)
    returns (punches: seq<T>)
    ensures punches == Gather(fetch, Chunks(startMs, endMs))
  {
    punches := [];
    var current := startMs;
    while current < endMs
      invariant punches + Gather(fetch, Chunks(current, endMs)) == Gather(fetch, Chunks(startMs, endMs))
      decreases endMs - current
    {
      var currentEnd := current + ChunkMs;
      if currentEnd > endMs {
        currentEnd := endMs;
      }
      var chunk := fetch(current, currentEnd);
      assert Chunks(current, endMs) == [(current, currentEnd)] + Chunks(currentEnd, endMs);
      punches := punches + chunk;
      current := currentEnd;
    }
  }
}
