/**
 * The forced exit of bayer_circular_downscale (sane-dcm300.c): when the
 * output guard fires after k triples, the call has stored the whole row
 * pairs before the one holding triple number k and a prefix of that one,
 * and leaves *bayer_start at the start of that row pair.
 *
 * Before, Stop and Rest follow the recursion of Bayer.Run; RestIs and
 * BeforeRows relate them to the closed forms Triples, Span and RingRows.
 */
module ForcedExit {
  import opened Dcm300Types
  import opened Bayer

  /** Whole row pairs before the one holding triple number k. */
  function Done(w: nat, k: nat): nat
    requires w > 0
    decreases k
  {
    if k <= Columns(w) then 0 else 1 + Done(w, k - Columns(w))
  }

  /** The whole row pairs a call forced out after k triples stores before the one it stops in. */
  function Before(ring: seq<byte>, w: nat, i: nat, k: nat): seq<byte>
    requires |ring| == BAYER_CIRCULAR && w > 0
    decreases k
  {
    if k <= Columns(w) then [] else RingRow(ring, w, i, Columns(w)) + Before(ring, w, i + 2 * w, k - Columns(w))
  }

  /** The stream offset of the row pair holding triple number k, counted from row pair i. */
  function Stop(w: nat, i: nat, k: nat): nat
    requires w > 0
    decreases k
  {
    if k <= Columns(w) then i else Stop(w, i + 2 * w, k - Columns(w))
  }

  /** How many triples of its own row pair come up to triple number k. */
  function Rest(w: nat, k: nat): nat
    requires w > 0
    decreases k
  {
    if k <= Columns(w) then k else Rest(w, k - Columns(w))
  }

  /**
   * Triple number k is the Rest(w, k)-th, between 1 and Columns(w), of row
   * pair Done(w, k), which starts Span(w, Done(w, k)) after i.
   */
  lemma {:induction false} RestIs(w: nat, i: nat, k: nat)
    requires w > 0 && k > 0
    ensures 0 < Rest(w, k) <= Columns(w) && Rest(w, k) <= k
    ensures Rest(w, k) == k - Triples(w, Done(w, k))
    ensures Stop(w, i, k) == i + Span(w, Done(w, k))
    decreases k
  {
    if k > Columns(w) {
      RestIs(w, i + 2 * w, k - Columns(w));
      TriplesShift(w, Done(w, k - Columns(w)));
      SpanShift(w, Done(w, k - Columns(w)));
    }
  }

  /** Before is the full demosaic of the Done(w, k) row pairs from i. */
  lemma {:induction false} BeforeRows(ring: seq<byte>, w: nat, i: nat, k: nat)
    requires |ring| == BAYER_CIRCULAR && w > 0
    ensures Before(ring, w, i, k) == RingRows(ring, w, i, Done(w, k))
    decreases k
  {
    if k > Columns(w) {
      var i', k' := i + 2 * w, k - Columns(w);
      BeforeRows(ring, w, i', k');
      var d := Done(w, k');
      assert Done(w, k) == d + 1;
      assert RingRows(ring, w, i, d + 1) == RingRow(ring, w, i, Columns(w)) + RingRows(ring, w, i', d);
    }
  }

  /**
   * A Run forced out after k triples stores the whole row pairs before
   * the one holding triple number k, then the first Rest(w, k) triples of it.
   */
  lemma {:induction false} RunSplit(ring: seq<byte>, w: nat, i: nat, n: nat, k: nat)
    requires |ring| == BAYER_CIRCULAR && w > 0 && 0 < k <= Triples(w, n)
    ensures Run(ring, w, i, n, k).rgb == Before(ring, w, i, k) + RingRow(ring, w, Stop(w, i, k), Rest(w, k))
    decreases n
  {
    if k > Columns(w) {
      var i', n', k' := i + 2 * w, n - 1, k - Columns(w);
      assert k' <= Triples(w, n');
      RunSplit(ring, w, i', n', k');
      var row, before, tail := RingRow(ring, w, i, Columns(w)), Before(ring, w, i', k'), RingRow(ring, w, Stop(w, i', k'), Rest(w, k'));
      assert Run(ring, w, i, n, k).rgb == row + Run(ring, w, i', n', k').rgb;
      assert Before(ring, w, i, k) == row + before;
      assert Stop(w, i, k) == Stop(w, i', k') && Rest(w, k) == Rest(w, k');
      Regroup(row, before, tail);
    }
  }

  /**
   * When the guard fires, exactly k triples are stored, within the n row
   * pairs, and the start is left at the row pair holding triple number k.
   */
  lemma {:induction false} RunForced(ring: seq<byte>, w: nat, i: nat, n: nat, k: nat)
    requires |ring| == BAYER_CIRCULAR && w > 0 && 0 < k <= Triples(w, n)
    ensures |Run(ring, w, i, n, k).rgb| == 3 * k
    ensures Done(w, k) < n && Run(ring, w, i, n, k).next == Stop(w, i, k)
    decreases n
  {
    if k > Columns(w) {
      var i', k' := i + 2 * w, k - Columns(w);
      RunForced(ring, w, i', n - 1, k');
    }
  }
}
