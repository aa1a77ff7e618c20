/**
 * The half-resolution RGGB -> RGB demosaic shared by dcm300_output_bayer
 * (dcm300.c) and bayer_circular_downscale (sane-dcm300.c).
 *
 * Raw rows come in pairs: an R G R G ... row followed by a G B G B ... row
 * of the same width.  Each 2x2 block becomes one R, G, B triple whose G is
 * the truncated mean of the two greens.  The raw bytes live in a ring of
 * BAYER_CIRCULAR bytes addressed by ever-growing stream offsets reduced
 * modulo the ring size.
 *
 * Two families of specification functions are given: the Ring* family reads
 * the ring exactly as the C loops do (any width), and the stream family
 * (Triple, Row, Rows) reads a linear stream of bytes (even widths, where a
 * row pair's blocks never reach past the pair).  RowsMirror connects them
 * under the live-window invariant.
 */
module Bayer {
  import opened Dcm300Types

  /** Inner-loop iterations per row pair: j runs over [i, i + width) in steps of 2. */
  function Columns(w: nat): nat { (w + 1) / 2 }

  /** A 2x2 block as an R, G, B triple; G is the mean of the two greens, rounded down. */
  function Pixel(r: byte, g1: byte, g2: byte, b: byte): (p: seq<byte>)
    ensures |p| == 3 && p[0] == r && p[2] == b
    ensures 2 * (p[1] as int) <= g1 as int + g2 as int <= 2 * (p[1] as int) + 1
  {
    [r, (g1 as int + g2 as int) / 2, b]
  }

  // ---------------------------------------------------------------------
  // The ring as the loops read it
  // ---------------------------------------------------------------------

  /** The triple the loop body stores for column start j. */
  function RingTriple(ring: seq<byte>, w: nat, j: nat): seq<byte>
    requires |ring| == BAYER_CIRCULAR
  {
    Pixel(ring[j % BAYER_CIRCULAR], ring[(j + 1) % BAYER_CIRCULAR],
          ring[(j + w) % BAYER_CIRCULAR], ring[(j + w + 1) % BAYER_CIRCULAR])
  }

  /** c triples from column start j on, two raw columns apart. */
  function RingRow(ring: seq<byte>, w: nat, j: nat, c: nat): (r: seq<byte>)
    requires |ring| == BAYER_CIRCULAR
    ensures |r| == 3 * c
    decreases c
  {
    if c == 0 then [] else RingTriple(ring, w, j) + RingRow(ring, w, j + 2, c - 1)
  }

  /** Triples in n row pairs: n * Columns(w), counted pair by pair. */
  function Triples(w: nat, n: nat): nat
  {
    if n == 0 then 0 else Columns(w) + Triples(w, n - 1)
  }

  /** Raw bytes spanned by n row pairs: n * 2 * w, counted pair by pair. */
  function Span(w: nat, n: nat): nat
  {
    if n == 0 then 0 else 2 * w + Span(w, n - 1)
  }

  lemma {:induction false} TriplesIs(w: nat, n: nat)
    ensures Triples(w, n) == n * Columns(w)
  {
    if n > 0 {
      TriplesIs(w, n - 1);
      assert n * Columns(w) == (n - 1) * Columns(w) + Columns(w);
    }
  }

  lemma {:induction false} SpanIs(w: nat, n: nat)
    ensures Span(w, n) == 2 * w * n
  {
    if n > 0 {
      SpanIs(w, n - 1);
      assert 2 * w * n == 2 * w * (n - 1) + 2 * w;
    }
  }

  /** n whole row pairs from stream offset i on, 2 * w bytes apart. */
  function RingRows(ring: seq<byte>, w: nat, i: nat, n: nat): (r: seq<byte>)
    requires |ring| == BAYER_CIRCULAR
    ensures |r| == 3 * Triples(w, n)
    decreases n
  {
    if n == 0 then [] else RingRow(ring, w, i, Columns(w)) + RingRows(ring, w, i + 2 * w, n - 1)
  }

  /** Fewer columns of the same row give a prefix of it. */
  lemma {:induction false} RowPrefix(ring: seq<byte>, w: nat, j: nat, k: nat, c: nat)
    requires |ring| == BAYER_CIRCULAR && k <= c
    ensures RingRow(ring, w, j, k) <= RingRow(ring, w, j, c)
    decreases k
  {
    if k > 0 {
      RowPrefix(ring, w, j + 2, k - 1, c - 1);
    }
  }

  // ---------------------------------------------------------------------
  // The demosaic of a linear stream (even widths)
  // ---------------------------------------------------------------------

  /**
   * Stream byte k.  The stream functions are total so that a row can be
   * handed around as a value; every statement about them below requires the
   * bytes they read to be present, where Byte(s, k) is s[k].
   */
  function Byte(s: seq<byte>, k: nat): byte
  {
    if k < |s| then s[k] else 0
  }

  /** The triple of the 2x2 block whose top-left byte is stream offset j. */
  function Triple(s: seq<byte>, w: nat, j: nat): seq<byte>
  {
    Pixel(Byte(s, j), Byte(s, j + 1), Byte(s, j + w), Byte(s, j + w + 1))
  }

  /** An even-width row pair holds w / 2 blocks. */
  lemma EvenColumns(w: nat)
    requires w % 2 == 0
    ensures 2 * Columns(w) == w
  {
  }

  /** c blocks of one row pair from offset j on. */
  function Row(s: seq<byte>, w: nat, j: nat, c: nat): (r: seq<byte>)
    ensures |r| == 3 * c
    decreases c
  {
    if c == 0 then [] else Triple(s, w, j) + Row(s, w, j + 2, c - 1)
  }

  /** The whole image row of the row pair starting at stream offset j. */
  function RowOf(s: seq<byte>, w: nat): nat -> seq<byte>
  {
    j => Row(s, w, j, Columns(w))
  }

  /** The image rows row(i), row(i + 2w), ... of n consecutive row pairs, one after the other. */
  function Stack(row: nat -> seq<byte>, w: nat, i: nat, n: nat): seq<byte>
    decreases n
  {
    if n == 0 then [] else row(i) + Stack(row, w, i + 2 * w, n - 1)
  }

  /** Every image row holds Columns(w) triples. */
  ghost predicate RowSized(row: nat -> seq<byte>, w: nat)
  {
    forall j :: |row(j)| == 3 * Columns(w)
  }

  lemma {:induction false} StackLength(row: nat -> seq<byte>, w: nat, i: nat, n: nat)
    requires RowSized(row, w)
    ensures |Stack(row, w, i, n)| == 3 * Triples(w, n)
    decreases n
  {
    if n > 0 {
      StackLength(row, w, i + 2 * w, n - 1);
    }
  }

  /** The first m row pairs followed by the remaining ones. */
  lemma {:induction false} StackSplit(row: nat -> seq<byte>, w: nat, i: nat, m: nat, n: nat)
    requires m <= n
    ensures Span(w, m) + Span(w, n - m) == Span(w, n)
    ensures Stack(row, w, i, n) == Stack(row, w, i, m) + Stack(row, w, i + Span(w, m), n - m)
    decreases m
  {
    if m > 0 {
      StackSplit(row, w, i + 2 * w, m - 1, n - 1);
    }
  }

  /** Image row y of a stack sits 3 * Triples(w, y) bytes in. */
  lemma StackAt(row: nat -> seq<byte>, w: nat, i: nat, n: nat, y: nat)
    requires RowSized(row, w) && y < n
    ensures 3 * Triples(w, y) + 3 * Columns(w) <= |Stack(row, w, i, n)|
    ensures Stack(row, w, i, n)[3 * Triples(w, y)..3 * Triples(w, y) + 3 * Columns(w)] == row(i + Span(w, y))
  {
    StackSplit(row, w, i, y, n);
    StackLength(row, w, i, y);
    StackLength(row, w, i, n);
    var head, tail := Stack(row, w, i, y), Stack(row, w, i + Span(w, y), n - y);
    assert tail == row(i + Span(w, y)) + Stack(row, w, i + Span(w, y) + 2 * w, n - y - 1);
    assert Stack(row, w, i, n) == head + tail;
  }

  /** Row pairs a, a + 2w, ... of one stack have the same image rows as b, b + 2w, ... of another. */
  predicate Agree(row: nat -> seq<byte>, a: nat, row': nat -> seq<byte>, b: nat, w: nat, n: nat)
    decreases n
  {
    n == 0 || (row(a) == row'(b) && Agree(row, a + 2 * w, row', b + 2 * w, w, n - 1))
  }

  lemma {:induction false} StackAgree(row: nat -> seq<byte>, a: nat, row': nat -> seq<byte>, b: nat, w: nat, n: nat)
    requires Agree(row, a, row', b, w, n)
    ensures Stack(row, w, a, n) == Stack(row', w, b, n)
    decreases n
  {
    if n > 0 {
      StackAgree(row, a + 2 * w, row', b + 2 * w, w, n - 1);
    }
  }

  /** The half-resolution image of n row pairs of an even-width stream from offset i on. */
  function Rows(s: seq<byte>, w: nat, i: nat, n: nat): (r: seq<byte>)
    ensures |r| == 3 * Triples(w, n)
  {
    StackLength(RowOf(s, w), w, i, n);
    Stack(RowOf(s, w), w, i, n)
  }

  /** The first row pair, then the rest. */
  lemma RowsStep(s: seq<byte>, w: nat, i: nat, n: nat)
    requires n > 0
    ensures Rows(s, w, i, n) == Row(s, w, i, Columns(w)) + Rows(s, w, i + 2 * w, n - 1)
  {
  }

  /** Block x of a row is the triple of raw columns 2x and 2x + 1 of its two rows. */
  lemma {:induction false} RowAt(s: seq<byte>, w: nat, j: nat, c: nat, x: nat)
    requires j + 2 * c + w <= |s| && x < c
    ensures Row(s, w, j, c)[3 * x..3 * x + 3] ==
      Pixel(s[j + 2 * x], s[j + 2 * x + 1], s[j + 2 * x + w], s[j + 2 * x + w + 1])
    decreases x
  {
    if x > 0 {
      RowAt(s, w, j + 2, c - 1, x - 1);
      assert Row(s, w, j, c)[3 * x..3 * x + 3] == Row(s, w, j + 2, c - 1)[3 * (x - 1)..3 * (x - 1) + 3];
    }
  }

  /** Image row y is the row pair starting Span(w, y) bytes after i: raw rows 2y and 2y + 1. */
  lemma RowsAt(s: seq<byte>, w: nat, i: nat, n: nat, y: nat)
    requires w % 2 == 0 && i + Span(w, n) <= |s| && y < n
    ensures i + Span(w, y) + 2 * w <= |s|
    ensures 3 * Triples(w, y) + 3 * Columns(w) <= |Rows(s, w, i, n)|
    ensures Rows(s, w, i, n)[3 * Triples(w, y)..3 * Triples(w, y) + 3 * Columns(w)] == Row(s, w, i + Span(w, y), Columns(w))
  {
    SpanMono(w, y + 1, n);
    StackAt(RowOf(s, w), w, i, n, y);
  }

  /** Fewer row pairs span fewer bytes. */
  lemma {:induction false} SpanMono(w: nat, m: nat, n: nat)
    requires m <= n
    ensures Span(w, m) <= Span(w, n)
    decreases n
  {
    if m < n {
      SpanMono(w, m, n - 1);
    }
  }

  /** For even widths, each row pair of 2w bytes yields w / 2 triples: 3/4 of the raw bytes come out. */
  lemma {:induction false} SpanTriples(w: nat, n: nat)
    requires w % 2 == 0
    ensures Span(w, n) == 4 * Triples(w, n)
  {
    if n > 0 {
      SpanTriples(w, n - 1);
    }
  }

  /** The first m row pairs followed by the remaining ones. */
  lemma RowsSplit(s: seq<byte>, w: nat, i: nat, m: nat, n: nat)
    requires m <= n
    ensures i + Span(w, m) + Span(w, n - m) == i + Span(w, n)
    ensures Rows(s, w, i, n) == Rows(s, w, i, m) + Rows(s, w, i + Span(w, m), n - m)
  {
    StackSplit(RowOf(s, w), w, i, m, n);
  }

  /** The image of row pairs only depends on the bytes they span. */
  lemma RowsExtend(s: seq<byte>, t: seq<byte>, w: nat, i: nat, n: nat)
    requires w % 2 == 0 && i + Span(w, n) <= |s|
    ensures Rows(s + t, w, i, n) == Rows(s, w, i, n)
  {
    ExtendAgree(s, t, w, i, n);
    StackAgree(RowOf(s + t, w), i, RowOf(s, w), i, w, n);
  }

  lemma {:induction false} ExtendAgree(s: seq<byte>, t: seq<byte>, w: nat, i: nat, n: nat)
    requires w % 2 == 0 && i + Span(w, n) <= |s|
    ensures Agree(RowOf(s + t, w), i, RowOf(s, w), i, w, n)
    decreases n
  {
    if n > 0 {
      EvenColumns(w);
      RowExtend(s, t, w, i, Columns(w));
      ExtendAgree(s, t, w, i + 2 * w, n - 1);
    }
  }

  lemma {:induction false} RowExtend(s: seq<byte>, t: seq<byte>, w: nat, j: nat, c: nat)
    requires j + 2 * c + w <= |s|
    ensures Row(s + t, w, j, c) == Row(s, w, j, c)
    decreases c
  {
    if c > 0 {
      RowExtend(s, t, w, j + 2, c - 1);
    }
  }

  /** Row pairs past a prefix read the same bytes from the rest of the stream. */
  lemma RowsDrop(s: seq<byte>, t: seq<byte>, w: nat, i: nat, n: nat)
    requires w % 2 == 0 && i + Span(w, n) <= |t|
    ensures Rows(s + t, w, |s| + i, n) == Rows(t, w, i, n)
  {
    DropAgree(s, t, w, i, n);
    StackAgree(RowOf(s + t, w), |s| + i, RowOf(t, w), i, w, n);
  }

  lemma {:induction false} DropAgree(s: seq<byte>, t: seq<byte>, w: nat, i: nat, n: nat)
    requires w % 2 == 0 && i + Span(w, n) <= |t|
    ensures Agree(RowOf(s + t, w), |s| + i, RowOf(t, w), i, w, n)
    decreases n
  {
    if n > 0 {
      EvenColumns(w);
      RowDrop(s, t, w, i, Columns(w));
      DropAgree(s, t, w, i + 2 * w, n - 1);
      assert |s| + i + 2 * w == |s| + (i + 2 * w);
    }
  }

  lemma {:induction false} RowDrop(s: seq<byte>, t: seq<byte>, w: nat, j: nat, c: nat)
    requires j + 2 * c + w <= |t|
    ensures Row(s + t, w, |s| + j, c) == Row(t, w, j, c)
    decreases c
  {
    if c > 0 {
      RowDrop(s, t, w, j + 2, c - 1);
    }
  }

  /**
   * Processing a stream in pieces that each end on a row-pair boundary gives
   * the image of the whole stream.
   */
  lemma {:induction false} RowsAppend(s: seq<byte>, t: seq<byte>, w: nat, m: nat, n: nat)
    requires w % 2 == 0 && |s| == Span(w, m) && Span(w, n) <= |t|
    ensures Span(w, m + n) <= |s + t|
    ensures Rows(s + t, w, 0, m + n) == Rows(s, w, 0, m) + Rows(t, w, 0, n)
  {
    SpanAdd(w, m, n);
    RowsSplit(s + t, w, 0, m, m + n);
    RowsExtend(s, t, w, 0, m);
    RowsDrop(s, t, w, 0, n);
  }

  lemma {:induction false} SpanAdd(w: nat, m: nat, n: nat)
    ensures Span(w, m + n) == Span(w, m) + Span(w, n)
    decreases m
  {
    if m > 0 {
      SpanAdd(w, m - 1, n);
    }
  }

  /** The ring holds stream byte k of s at ring offset (base + k) mod BAYER_CIRCULAR. */
  predicate Mirrors(ring: seq<byte>, s: seq<byte>, base: nat)
    requires |ring| == BAYER_CIRCULAR
  {
    forall k :: 0 <= k < |s| ==> ring[(base + k) % BAYER_CIRCULAR] == s[k]
  }

  /** Within one pass of the ring, stream offsets map to consecutive ring offsets. */
  lemma ModShift(a: nat, k: nat)
    requires a % BAYER_CIRCULAR + k < BAYER_CIRCULAR
    ensures (a + k) % BAYER_CIRCULAR == a % BAYER_CIRCULAR + k
  {
    assert a == BAYER_CIRCULAR * (a / BAYER_CIRCULAR) + a % BAYER_CIRCULAR;
    DivModUnique(a + k, BAYER_CIRCULAR, a / BAYER_CIRCULAR, a % BAYER_CIRCULAR + k);
  }

  /** A read of got stored from ring offset read % BAYER_CIRCULAR on mirrors it at base read. */
  lemma ReadMirrors(ring: seq<byte>, got: seq<byte>, read: nat)
    requires |ring| == BAYER_CIRCULAR && read % BAYER_CIRCULAR + |got| <= BAYER_CIRCULAR
    requires ring[read % BAYER_CIRCULAR..read % BAYER_CIRCULAR + |got|] == got
    ensures Mirrors(ring, got, read)
  {
    forall k | 0 <= k < |got|
      ensures ring[(read + k) % BAYER_CIRCULAR] == got[k]
    {
      ModShift(read, k);
      assert ring[read % BAYER_CIRCULAR..read % BAYER_CIRCULAR + |got|][k] == got[k];
    }
  }

  /**
   * Stream byte base + k of a window of len bytes lies in the ring outside a
   * read of g bytes stored at the window's end, while both fit in one ring.
   */
  lemma OutsideRead(base: nat, k: nat, len: nat, g: nat)
    requires k < len && len + g <= BAYER_CIRCULAR
    ensures var m, at := (base + k) % BAYER_CIRCULAR, (base + len) % BAYER_CIRCULAR;
      m < at || at + g <= m
  {
    var m, d, q := (base + k) % BAYER_CIRCULAR, len - k, (base + k) / BAYER_CIRCULAR;
    assert base + k == q * BAYER_CIRCULAR + m;
    if m + d < BAYER_CIRCULAR {
      DivModUnique(base + len, BAYER_CIRCULAR, q, m + d);
    } else {
      DivModUnique(base + len, BAYER_CIRCULAR, q + 1, m + d - BAYER_CIRCULAR);
    }
  }

  /**
   * A read of got stored right after the window s at base, without wrapping
   * and leaving the rest of the ring alone, extends the window by got as long
   * as the window stays within one ring.
   */
  lemma MirrorsAppend(ring: seq<byte>, ring': seq<byte>, s: seq<byte>, base: nat, got: seq<byte>, at: nat)
    requires |ring| == BAYER_CIRCULAR && |ring'| == BAYER_CIRCULAR
    requires Mirrors(ring, s, base) && |s| + |got| <= BAYER_CIRCULAR
    requires at == (base + |s|) % BAYER_CIRCULAR && at + |got| <= BAYER_CIRCULAR && ring'[at..at + |got|] == got
    requires forall q :: 0 <= q < BAYER_CIRCULAR && !(at <= q < at + |got|) ==> ring'[q] == ring[q]
    ensures Mirrors(ring', s + got, base)
  {
    ReadMirrors(ring', got, base + |s|);
    forall k | 0 <= k < |s + got|
      ensures ring'[(base + k) % BAYER_CIRCULAR] == (s + got)[k]
    {
      if k < |s| {
        var m := (base + k) % BAYER_CIRCULAR;
        OutsideRead(base, k, |s|, |got|);
        assert ring'[m] == ring[m];
      } else {
        assert ring'[(base + |s| + (k - |s|)) % BAYER_CIRCULAR] == got[k - |s|];
      }
    }
  }

  /** Under the live-window invariant, the ring loops compute the demosaic of the stream. */
  lemma {:induction false} RowMirror(ring: seq<byte>, s: seq<byte>, base: nat, w: nat, j: nat, c: nat)
    requires |ring| == BAYER_CIRCULAR && Mirrors(ring, s, base) && j + 2 * c + w <= |s|
    ensures RingRow(ring, w, base + j, c) == Row(s, w, j, c)
    decreases c
  {
    if c > 0 {
      assert ring[(base + j) % BAYER_CIRCULAR] == s[j];
      assert ring[(base + j + 1) % BAYER_CIRCULAR] == s[j + 1];
      assert ring[(base + j + w) % BAYER_CIRCULAR] == s[j + w];
      assert ring[(base + j + w + 1) % BAYER_CIRCULAR] == s[j + w + 1];
      RowMirror(ring, s, base, w, j + 2, c - 1);
    }
  }

  lemma RowsMirror(ring: seq<byte>, s: seq<byte>, base: nat, w: nat, i: nat, n: nat)
    requires |ring| == BAYER_CIRCULAR && Mirrors(ring, s, base)
    requires w % 2 == 0 && i + Span(w, n) <= |s|
    ensures RingRows(ring, w, base + i, n) == Rows(s, w, i, n)
  {
    RingStack(ring, w, base + i, n);
    MirrorAgree(ring, s, base, w, i, n);
    StackAgree(RingRowOf(ring, w), base + i, RowOf(s, w), i, w, n);
  }

  /** The whole ring row of the row pair starting at stream offset j. */
  function RingRowOf(ring: seq<byte>, w: nat): nat -> seq<byte>
    requires |ring| == BAYER_CIRCULAR
  {
    j => RingRow(ring, w, j, Columns(w))
  }

  lemma {:induction false} RingStack(ring: seq<byte>, w: nat, i: nat, n: nat)
    requires |ring| == BAYER_CIRCULAR
    ensures RingRows(ring, w, i, n) == Stack(RingRowOf(ring, w), w, i, n)
    decreases n
  {
    if n > 0 {
      var row, i', n' := RingRowOf(ring, w), i + 2 * w, n - 1;
      RingStack(ring, w, i', n');
      assert row(i) == RingRow(ring, w, i, Columns(w));
      assert Stack(row, w, i, n) == row(i) + Stack(row, w, i', n');
    }
  }

  lemma {:induction false} MirrorAgree(ring: seq<byte>, s: seq<byte>, base: nat, w: nat, i: nat, n: nat)
    requires |ring| == BAYER_CIRCULAR && Mirrors(ring, s, base)
    requires w % 2 == 0 && i + Span(w, n) <= |s|
    ensures Agree(RingRowOf(ring, w), base + i, RowOf(s, w), i, w, n)
    decreases n
  {
    if n > 0 {
      MirrorRowOf(ring, s, base, w, i);
      MirrorAgree(ring, s, base, w, i + 2 * w, n - 1);
      assert base + i + 2 * w == base + (i + 2 * w);
    }
  }

  lemma MirrorRowOf(ring: seq<byte>, s: seq<byte>, base: nat, w: nat, i: nat)
    requires |ring| == BAYER_CIRCULAR && Mirrors(ring, s, base)
    requires w % 2 == 0 && i + 2 * w <= |s|
    ensures RingRowOf(ring, w)(base + i) == RowOf(s, w)(i)
  {
    EvenColumns(w);
    RowMirror(ring, s, base, w, i, Columns(w));
  }

  // ---------------------------------------------------------------------
  // bayer_last and the outcome of one call
  // ---------------------------------------------------------------------

  /** The row pairs the outer loop processes when nothing forces it out. */
  function Pairs(from: int, stop: int, w: nat): nat
    requires w > 0
  {
    if stop >= from then DivBounds(stop - from, 2 * w); (stop - from) / (2 * w) else 0
  }

  /**
   * bayer_last: from plus (stop - from) less its C remainder by 2 * width.
   * When stop >= from it lies Pairs whole row pairs after from, never past
   * stop, and less than one row pair before it; otherwise it is not above
   * from, so the loop does not run.
   */
  function Last(from: int, stop: int, w: nat): (last: int)
    requires w > 0
    ensures stop >= from ==> last == from + Span(w, Pairs(from, stop, w))
    ensures stop >= from ==> from <= last <= stop < last + 2 * w
    ensures stop < from ==> last <= from
    ensures stop < from && from - stop < 2 * w ==> last == from
  {
    SpanIs(w, Pairs(from, stop, w));
    if stop >= from then DivBounds(stop - from, 2 * w); from + (stop - from) - CRem(stop - from, 2 * w)
    else from + (stop - from) - CRem(stop - from, 2 * w)
  }

  /** The result of one call: the bytes stored and the new value of *bayer_start. */
  datatype Downscaled = Downscaled(rgb: seq<byte>, next: int)

  /** Triples stored when the guard irgb > cap first holds. */
  function Limit(cap: nat): nat { cap / 3 + 1 }

  /** The guard irgb > cap, with irgb == 3 * c, holds exactly from triple Limit(cap) on. */
  lemma GuardAt(c: int, cap: nat)
    ensures 3 * c > cap <==> c >= Limit(cap)
  {
    assert cap == 3 * (cap / 3) + cap % 3;
  }

  /**
   * The loops from stream offset i with n row pairs to go and k triples to
   * store before the guard fires.  A row pair is processed whole while it
   * holds fewer than k triples; otherwise its first k triples are stored and
   * the start stays at that row pair.
   */
  function Run(ring: seq<byte>, w: nat, i: nat, n: nat, k: nat): Downscaled
    requires |ring| == BAYER_CIRCULAR && k > 0
    decreases n
  {
    if n == 0 then Downscaled([], i)
    else if k <= Columns(w) then Downscaled(RingRow(ring, w, i, k), i)
    else
      var d := Run(ring, w, i + 2 * w, n - 1, k - Columns(w));
      Downscaled(RingRow(ring, w, i, Columns(w)) + d.rgb, d.next)
  }

  /**
   * Run stores min(Triples(w, n), k) triples, a prefix of the demosaic of
   * its n row pairs, and leaves the start within them.
   */
  lemma {:induction false} RunBounds(ring: seq<byte>, w: nat, i: nat, n: nat, k: nat)
    requires |ring| == BAYER_CIRCULAR && k > 0
    ensures |Run(ring, w, i, n, k).rgb| == 3 * Min(Triples(w, n), k)
    ensures Run(ring, w, i, n, k).rgb <= RingRows(ring, w, i, n)
    ensures i <= Run(ring, w, i, n, k).next <= i + Span(w, n)
    decreases n
  {
    if n > 0 {
      if k <= Columns(w) {
        RowPrefix(ring, w, i, k, Columns(w));
      } else {
        RunBounds(ring, w, i + 2 * w, n - 1, k - Columns(w));
      }
    }
  }

  /** One whole row pair of Run, when more than its triples remain before the guard. */
  lemma RunStep(ring: seq<byte>, w: nat, i: nat, n: nat, k: nat)
    requires |ring| == BAYER_CIRCULAR && n > 0 && k > Columns(w)
    ensures Run(ring, w, i, n, k).rgb == RingRow(ring, w, i, Columns(w)) + Run(ring, w, i + 2 * w, n - 1, k - Columns(w)).rgb
    ensures Run(ring, w, i, n, k).next == Run(ring, w, i + 2 * w, n - 1, k - Columns(w)).next
  {
  }


  /** An outer iteration of DownscaleInto has a row pair to go and room for its stores. */
  lemma LoopRoom(ring: seq<byte>, w: nat, i: nat, n: nat, k: nat, last: int, done: seq<byte>, whole: Downscaled)
    requires |ring| == BAYER_CIRCULAR && w > 0 && 0 < k
    requires (n == 0 && last <= i) || (n > 0 && last == i + Span(w, n))
    requires i < last && whole.rgb == done + Run(ring, w, i, n, k).rgb
    ensures n > 0 && |done| + 3 * Min(Columns(w), k) <= |whole.rgb|
  {
    RunBounds(ring, w, i, n, k);
  }

  /** When the guard fires in this row pair, the call's outcome is complete. */
  lemma LoopForced(ring: seq<byte>, w: nat, i: nat, n: nat, k: nat, done: seq<byte>, whole: Downscaled)
    requires |ring| == BAYER_CIRCULAR && 0 < k <= Columns(w) && n > 0
    requires whole.rgb == done + Run(ring, w, i, n, k).rgb && whole.next == Run(ring, w, i, n, k).next
    ensures whole.rgb == done + RingRow(ring, w, i, k) && whole.next == i
  {
  }

  /** Otherwise the row pair is stored whole and the rest of the Run remains. */
  lemma LoopMore(ring: seq<byte>, w: nat, i: nat, n: nat, k: nat, done: seq<byte>, whole: Downscaled,
                 i': nat, n': nat, k': nat, rest: Downscaled)
    requires |ring| == BAYER_CIRCULAR && k > Columns(w) && n > 0
    requires i' == i + 2 * w && n' == n - 1 && k' == k - Columns(w) && rest == Run(ring, w, i', n', k')
    requires whole.rgb == done + Run(ring, w, i, n, k).rgb && whole.next == Run(ring, w, i, n, k).next
    ensures whole.rgb == (done + RingRow(ring, w, i, Columns(w))) + rest.rgb && whole.next == rest.next
  {
    LoopWhole(ring, w, i, n, k, done, whole);
    RunArgs(ring, w, i, n, k, i', n', k');
  }

  lemma LoopWhole(ring: seq<byte>, w: nat, i: nat, n: nat, k: nat, done: seq<byte>, whole: Downscaled)
    requires |ring| == BAYER_CIRCULAR && k > Columns(w) && n > 0
    requires whole.rgb == done + Run(ring, w, i, n, k).rgb && whole.next == Run(ring, w, i, n, k).next
    ensures whole.rgb == (done + RingRow(ring, w, i, Columns(w))) + Run(ring, w, i + 2 * w, n - 1, k - Columns(w)).rgb
    ensures whole.next == Run(ring, w, i + 2 * w, n - 1, k - Columns(w)).next
  {
    RunStep(ring, w, i, n, k);
  }

  /** Run at equal arguments. */
  lemma RunArgs(ring: seq<byte>, w: nat, i: nat, n: nat, k: nat, i': nat, n': nat, k': nat)
    requires |ring| == BAYER_CIRCULAR && k > Columns(w) && n > 0
    requires i' == i + 2 * w && n' == n - 1 && k' == k - Columns(w)
    ensures Run(ring, w, i + 2 * w, n - 1, k - Columns(w)) == Run(ring, w, i', n', k')
  {
  }

  /** The stream offset of the next row pair keeps the loop bound in step. */
  lemma LoopBound(w: nat, i: nat, n: nat, last: int, i': nat, n': nat)
    requires n > 0 && last == i + Span(w, n) && i' == i + 2 * w && n' == n - 1
    ensures (n' == 0 && last <= i') || (n' > 0 && last == i' + Span(w, n'))
  {
  }

  /** With fewer than k triples to go, every row pair is processed and the start moves past all of them. */
  lemma {:induction false} RunComplete(ring: seq<byte>, w: nat, i: nat, n: nat, k: nat)
    requires |ring| == BAYER_CIRCULAR && 0 < k && Triples(w, n) < k
    ensures Run(ring, w, i, n, k) == Downscaled(RingRows(ring, w, i, n), i + Span(w, n))
    decreases n
  {
    if n > 0 {
      RunComplete(ring, w, i + 2 * w, n - 1, k - Columns(w));
    }
  }

  /** Triples(w, m + 1) counts one row pair more than Triples(w, m). */
  lemma TriplesShift(w: nat, m: nat)
    ensures Triples(w, m + 1) == Columns(w) + Triples(w, m)
  {
  }

  /** Span(w, m + 1) spans one row pair more than Span(w, m). */
  lemma SpanShift(w: nat, m: nat)
    ensures Span(w, m + 1) == 2 * w + Span(w, m)
  {
  }

  /** Triples the call stores: all of its row pairs', or Limit(cap) if that comes first. */
  function Stored(from: int, stop: int, w: nat, cap: nat): nat
    requires w > 0
  {
    Min(Triples(w, Pairs(from, stop, w)), Limit(cap))
  }

  /** One call of the loops: Run over the whole row pairs of [from, stop), storing at most Limit(cap) triples. */
  function Downscale(ring: seq<byte>, w: nat, from: nat, stop: int, cap: nat): Downscaled
    requires |ring| == BAYER_CIRCULAR && w > 0
  {
    Run(ring, w, from, Pairs(from, stop, w), Limit(cap))
  }

  /**
   * The outcome of one call.  The bytes stored are a prefix of the demosaic
   * of the whole row pairs of [from, stop): all of it, or the first
   * Limit(cap) triples when the guard fires, in which case the start stays
   * at the beginning of the interrupted row pair (whose stored triples the
   * next call produces again).  Without a forced exit the start moves to
   * bayer_last, or stays put when stop is below from.
   */
  lemma DownscaleBounds(ring: seq<byte>, w: nat, from: nat, stop: int, cap: nat)
    requires |ring| == BAYER_CIRCULAR && w > 0
    ensures var d := Downscale(ring, w, from, stop, cap);
      |d.rgb| == 3 * Stored(from, stop, w, cap) <= cap + 3 &&
      d.rgb <= RingRows(ring, w, from, Pairs(from, stop, w)) &&
      from <= d.next && (stop >= from ==> d.next <= Last(from, stop, w))
    ensures Triples(w, Pairs(from, stop, w)) < Limit(cap) ==>
      Downscale(ring, w, from, stop, cap) ==
      Downscaled(RingRows(ring, w, from, Pairs(from, stop, w)), if stop >= from then Last(from, stop, w) else from)
  {
    var p := Pairs(from, stop, w);
    RunBounds(ring, w, from, p, Limit(cap));
    if Triples(w, p) < Limit(cap) {
      RunComplete(ring, w, from, p, Limit(cap));
    }
  }

  /** Three stores after a prefix extend it by the triple stored. */
  lemma Appended(now: seq<byte>, before: seq<byte>, tr: seq<byte>)
    requires |tr| == 3 && |now| == |before| + 3
    requires now[..|before|] == before
    requires now[|before|] == tr[0] && now[|before| + 1] == tr[1] && now[|before| + 2] == tr[2]
    ensures now == before + tr
  {
  }

  /** Moving the head of the rest onto the done part keeps their concatenation. */
  lemma Shift<T>(done: seq<T>, head: seq<T>, rest: seq<T>, all: seq<T>)
    requires done + (head + rest) == all
    ensures (done + head) + rest == all
  {
  }

  /**
   * The loop body: the three stores of the triple at column start j, at
   * rgb[at..at + 3].  It moves that triple from the c still to come in the
   * row onto the stored part.
   */
  method StoreTriple(ring: array<byte>, w: int, j: int, rgb: array<byte>, at: int,
                     ghost c: nat, ghost row: seq<byte>)
    requires ring.Length == BAYER_CIRCULAR && w > 0 && j >= 0 && c > 0
    requires ring != rgb && 0 <= at && at + 3 <= rgb.Length
    requires rgb[..at] + RingRow(ring[..], w, j, c) == row
    modifies rgb
    ensures rgb[..at + 3] + RingRow(ring[..], w, j + 2, c - 1) == row
  {
    ghost var before := rgb[..at];
    rgb[at] := ring[j % BAYER_CIRCULAR];
    rgb[at + 1] := (ring[(j + 1) % BAYER_CIRCULAR] as int + ring[(j + w) % BAYER_CIRCULAR] as int) / 2;
    rgb[at + 2] := ring[(j + w + 1) % BAYER_CIRCULAR];
    Appended(rgb[..at + 3], before, RingTriple(ring[..], w, j));
    RowStep(ring[..], w, j, c, c - 1, before, rgb[..at + 3], row);
  }

  /**
   * The inner loop over the row pair at stream offset i, storing from
   * rgb[at] on, where at holds the bytes of Limit(cap) - k triples: the whole
   * row pair, or its first k triples when the guard fires first.
   */
  method StoreRowPair(ring: array<byte>, w: int, i: int, cap: int, rgb: array<byte>, at: int, ghost k: int)
    returns (stored: int, forced: bool)
    requires ring.Length == BAYER_CIRCULAR && w > 0 && i >= 0 && ring != rgb && cap >= 0
    requires 0 < k <= Limit(cap) && at == 3 * (Limit(cap) - k)
    requires at + 3 * Min(Columns(w), k) <= rgb.Length
    modifies rgb
    ensures forced <==> k <= Columns(w)
    ensures stored == at + 3 * Min(Columns(w), k)
    ensures rgb[..stored] == old(rgb[..at]) + RingRow(ring[..], w, i, Min(Columns(w), k))
  {
    ghost var r, m := ring[..], Min(Columns(w), k);
    ghost var row := rgb[..at] + RingRow(r, w, i, m);
    var j := i;
    stored, forced := at, false;
    ghost var col := 0;
    while j < i + w
      invariant 0 <= col <= m && col < k && j == i + 2 * col && stored == at + 3 * col
      invariant rgb[..stored] + RingRow(r, w, j, m - col) == row
      invariant ring[..] == r
    {
      StoreTriple(ring, w, j, rgb, stored, m - col, row);
      stored := stored + 3;
      col := col + 1;
      GuardAt(Limit(cap) - k + col, cap);
      if stored > cap {
        forced := true;
        PrefixOf(rgb[..stored], RingRow(r, w, j + 2, m - col), row);
        return;
      }
      j := j + 2;
    }
    PrefixOf(rgb[..stored], RingRow(r, w, j, m - col), row);
  }

  /** Storing the triple at column start j moves it from the rest of the row onto the stored part. */
  lemma RowStep(ring: seq<byte>, w: nat, j: nat, c: nat, c': nat, before: seq<byte>, now: seq<byte>, row: seq<byte>)
    requires |ring| == BAYER_CIRCULAR && c > 0 && c' == c - 1
    requires before + RingRow(ring, w, j, c) == row && now == before + RingTriple(ring, w, j)
    ensures now + RingRow(ring, w, j + 2, c') == row
  {
    assert RingRow(ring, w, j, c) == RingTriple(ring, w, j) + RingRow(ring, w, j + 2, c');
  }

  /** The left part of a concatenation is a prefix of it. */
  lemma PrefixOf<T>(a: seq<T>, b: seq<T>, c: seq<T>)
    requires a + b == c
    ensures a == c[..|a|]
  {
  }

  /**
   * The loops of both downscalers.  Stores go to rgb from index 0; the
   * caller's array must hold the bytes the call stores (at most cap + 3).
   * Returns the new *bayer_start and the number of bytes stored.
   */
  method DownscaleInto(ring: array<byte>, w: int, from: int, stop: int, cap: int, rgb: array<byte>)
    returns (next: int, len: int)
    requires ring.Length == BAYER_CIRCULAR && w > 0 && from >= 0 && cap >= 0
    requires rgb.Length >= 3 * Stored(from, stop, w, cap)
    requires ring != rgb
    modifies rgb
    ensures 0 <= len <= rgb.Length
    ensures var d := Downscale(ring[..], w, from, stop, cap);
      next == d.next && len == |d.rgb| && rgb[..len] == d.rgb
  {
    ghost var r, p, cnt := ring[..], Pairs(from, stop, w), Limit(cap);
    var last := from + (stop - from) - CRem(stop - from, 2 * w);
    assert last == Last(from, stop, w);
    var i, irgb := from, 0;
    ghost var left, k := p, cnt;
    ghost var whole := Run(r, w, from, p, cnt);
    ghost var rest := whole;
    assert Downscale(r, w, from, stop, cap) == whole;
    DownscaleBounds(r, w, from, stop, cap);
    while i < last
      invariant from <= i && 0 <= left && 0 < k <= cnt && irgb == 3 * (cnt - k)
      invariant (left == 0 && last <= i) || (left > 0 && last == i + Span(w, left))
      invariant rest == Run(r, w, i, left, k)
      invariant irgb + |rest.rgb| == |whole.rgb| <= rgb.Length
      invariant whole.rgb == rgb[..irgb] + rest.rgb && whole.next == rest.next
      invariant ring[..] == r
    {
      ghost var before := rgb[..irgb];
      LoopRoom(r, w, i, left, k, last, before, whole);
      var stored, forced := StoreRowPair(ring, w, i, cap, rgb, irgb, k);
      if forced {
        LoopForced(r, w, i, left, k, before, whole);
        return i, stored;
      }
      ghost var i0, left0, k0 := i, left, k;
      i, left, k := i + 2 * w, left - 1, k - Columns(w);
      rest := Run(r, w, i, left, k);
      LoopMore(r, w, i0, left0, k0, before, whole, i, left, k, rest);
      LoopBound(w, i0, left0, last, i, left);
      irgb := stored;
    }
    assert left == 0;
    next := i;
    len := irgb;
  }
}
