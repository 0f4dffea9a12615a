/** Sequence helpers shared by the union-find groups and the text renderer. */
module Seqs {

  /** Every entry of `gs`, one after the other (Python's `sum(gs, [])` or `"".join(gs)`). */
  function Concat<T>(gs: seq<seq<T>>): seq<T>
  {
    if |gs| == 0 then [] else gs[0] + Concat(gs[1..])
  }

  lemma {:induction false} ConcatAppend<T>(gs: seq<seq<T>>, hs: seq<seq<T>>)
    ensures Concat(gs + hs) == Concat(gs) + Concat(hs)
    decreases |gs|
  {
    if |gs| > 0 {
      assert (gs + hs)[1..] == gs[1..] + hs;
      ConcatAppend(gs[1..], hs);
    } else {
      assert gs + hs == hs;
    }
  }

  lemma ConcatCons<T>(g: seq<T>, gs: seq<seq<T>>)
    ensures Concat([g] + gs) == g + Concat(gs)
  {
    assert ([g] + gs)[1..] == gs;
  }


  /**
    Pieces of one width `w` laid end to end: the result is `|gs| * w` long,
    and entry `r` of piece `q` sits at `q * w + r`.
    */
  lemma {:induction false} ConcatAt<T>(gs: seq<seq<T>>, w: nat, q: int, r: int)
    requires forall i :: 0 <= i < |gs| ==> |gs[i]| == w
    requires 0 <= q < |gs| && 0 <= r < w
    ensures |Concat(gs)| == |gs| * w
    ensures q * w + r < |gs| * w
    ensures Concat(gs)[q * w + r] == gs[q][r]
    decreases q
  {
    ConcatLength(gs, w);
    assert |gs| * w == w + (|gs| - 1) * w;
    if q > 0 {
      ConcatAt(gs[1..], w, q - 1, r);
      assert q * w + r == w + ((q - 1) * w + r);
    }
  }

  /** Pieces of one width `w` laid end to end make `|gs| * w` entries. */
  lemma {:induction false} ConcatLength<T>(gs: seq<seq<T>>, w: nat)
    requires forall i :: 0 <= i < |gs| ==> |gs[i]| == w
    ensures |Concat(gs)| == |gs| * w
    decreases |gs|
  {
    if |gs| > 0 {
      ConcatLength(gs[1..], w);
      assert |gs| * w == w + (|gs| - 1) * w;
    }
  }

  /** `q` and `r` are the quotient and remainder of `k` by `w` when `k == q * w + r` with `0 <= r < w`. */
  lemma DivModOf(k: int, w: int, q: int, r: int)
    requires 0 < w && 0 <= r < w && k == q * w + r
    ensures k / w == q && k % w == r
  {
    var q', r' := k / w, k % w;
    assert k == q' * w + r' && 0 <= r' < w;
    if q' < q {
      assert (q - q') * w >= w by {
        MulAtLeast(q - q', w);
      }
    } else if q < q' {
      assert (q' - q) * w >= w by {
        MulAtLeast(q' - q, w);
      }
    }
  }

  /** An index below `n * w` is entry `k % w` of chunk `k / w`, with `k / w` below `n`. */
  lemma Chunk(k: int, w: int, n: int)
    requires 0 < w && 0 <= k < n * w
    ensures 0 <= k / w < n && 0 <= k % w < w
    ensures k == k / w * w + k % w
  {
  }

  /** Entry `r` of chunk `q` lies below `n * w`. */
  lemma InChunk(q: int, r: int, w: int, n: int)
    requires 0 <= q < n && 0 <= r < w
    ensures 0 <= q * w + r < n * w
  {
    MulMonotone(q + 1, n, w);
    assert (q + 1) * w == q * w + w;
  }

  lemma MulMonotone(a: int, b: int, w: int)
    requires a <= b && 0 <= w
    ensures a * w <= b * w
  {
    assert b * w - a * w == (b - a) * w;
  }

  lemma MulAtLeast(a: int, w: int)
    requires 1 <= a && 0 < w
    ensures a * w >= w
  {
  }
}
