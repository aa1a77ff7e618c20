/**
 * The SANE backend's capture (sane-dcm300.c): dcm300_scan, which always
 * takes the full 2048 x 1536 Bayer frame twice (a discarded warm-up pass and
 * the real one), demosaics it chunk by chunk through a 32768-byte ring with
 * bayer_circular_downscale into a 1024 x 768 RGB image, and hands the
 * requested crop row by row to writefunc, which clamps what it passes on to
 * the pipe to the scan's byte budget.
 *
 * Unlike the standalone tool, the backend reads each chunk at bytes_read,
 * after the bytes not yet demosaiced, so the live window [bayer_from,
 * bytes_read) survives from call to call: the image it builds depends only
 * on the bytes received, not on how the camera chunked them (Pass).
 */
module Backend {
  import opened Dcm300Types
  import opened Transport
  import Bayer
  import ForcedExit
  import Request

  // ---------------------------------------------------------------------
  // Fixed geometry
  // ---------------------------------------------------------------------

  /** Output columns and rows: dcm300_scan always captures the whole sensor at half resolution. */
  const OUT_W: nat := 1024
  const OUT_H: nat := 768
  /** Bytes of rgbimage, the full RGB image. */
  const IMAGE_RGB: nat := 3 * 1024 * 768
  /** Raw row width and raw rows asked of the camera. */
  const RES_X: nat := 2048
  const RES_Y: nat := 1536
  /** image_len: raw bytes of the frame. */
  const IMAGE_LEN: nat := 2048 * 1536
  /** bulk_header_len, bulk_content_len, bulk_footer_len. */
  const HEADER_LEN: nat := 64
  const CONTENT_LEN: nat := 16384
  const FOOTER_LEN: nat := 256
  /** bayer_circular_downscale gives up once it has stored more than this many bytes. */
  const RGB_CAP: nat := 3 * 8192
  /** Size of dcm300_scan's rgb scratch array. */
  const RGB_SCRATCH: nat := 3 * BAYER_CIRCULAR / 2

  /** 0xfff0 & v: v modulo 2^16 with its low four bits cleared. */
  function Mask(v: u32): (r: u32)
    ensures r % 16 == 0 && r < 0x1_0000 && r <= v
    ensures v < 0x1_0000 ==> v - 16 < r
    ensures v < 0x1_0000 && v % 16 == 0 ==> r == v
  {
    var low := v % 0x1_0000;
    low - low % 16
  }

  /** s->resolution_x and s->resolution_y: twice the output size in unsigned arithmetic, masked. */
  function DeviceResolution(n: u32): (r: u32)
    ensures r % 16 == 0 && r < 0x1_0000
  {
    Mask(AddU32(n, n))
  }

  /** The backend's hard-coded 1024 x 768 asks for an even-width 2048 x 1536 raw frame. */
  lemma ResolutionIs()
    ensures DeviceResolution(OUT_W) == RES_X && DeviceResolution(OUT_H) == RES_Y
    ensures RES_X % 2 == 0 && IMAGE_LEN == RES_X * RES_Y && IMAGE_LEN == 192 * MAXBULK
    ensures 4 * IMAGE_RGB == 3 * IMAGE_LEN
  {
  }

  // ---------------------------------------------------------------------
  // Read windows
  // ---------------------------------------------------------------------

  /** bulk_want of a content read: a full chunk, or what is left of the image. */
  function ContentWant(read: nat): (want: nat)
    requires read < IMAGE_LEN
    ensures 0 < want <= CONTENT_LEN && read + want <= IMAGE_LEN
    ensures want == CONTENT_LEN || read + want == IMAGE_LEN
  {
    if IMAGE_LEN - read > CONTENT_LEN then CONTENT_LEN else IMAGE_LEN - read
  }

  /** bulk_want of the footer read: what is left of the image plus the 256 trailing bytes, at most a chunk. */
  function FooterWant(read: nat): (want: nat)
    requires read <= IMAGE_LEN
    ensures FOOTER_LEN <= want <= CONTENT_LEN
    ensures want == CONTENT_LEN || read + want == IMAGE_LEN + FOOTER_LEN
  {
    if IMAGE_LEN - read + FOOTER_LEN > CONTENT_LEN then CONTENT_LEN else IMAGE_LEN - read + FOOTER_LEN
  }

  /**
   * bulk_len before a read: the bytes wanted when they fit before the ring
   * end, otherwise only up to the ring end, so a read never wraps.
   */
  function ReadWindow(read: nat, want: nat): (len: nat)
    ensures read % BAYER_CIRCULAR + len <= BAYER_CIRCULAR
    ensures len <= want
    ensures len == want <==> read % BAYER_CIRCULAR + want <= BAYER_CIRCULAR
    ensures len < want ==> read % BAYER_CIRCULAR + len == BAYER_CIRCULAR
  {
    if read % BAYER_CIRCULAR + want <= BAYER_CIRCULAR then want else BAYER_CIRCULAR - read % BAYER_CIRCULAR
  }

  /** A chunk-aligned read position never needs the window cut: a full chunk fits before the ring end. */
  lemma {:induction false} AlignedWindow(k: nat, want: nat)
    requires want <= MAXBULK
    ensures ReadWindow(k * MAXBULK, want) == want
  {
    AlignedReadFits(k);
  }

  // ---------------------------------------------------------------------
  // The transfers of one pass, as a specification
  // ---------------------------------------------------------------------

  /** The bytes the content loop received and the transfer that comes after it. */
  datatype Received = Received(data: seq<byte>, pos: nat)

  /**
   * The content loop from transfer p, read bytes having been received:
   * while the image is not complete, read the wanted bytes (cut at the ring
   * end) and go on only if exactly the wanted bytes came.  A failed read ends
   * the loop like a short one.
   */
  function ContentReads(replies: seq<Transfer>, p: nat, read: nat): (r: Received)
    requires read <= IMAGE_LEN
    ensures read + |r.data| <= IMAGE_LEN && p <= r.pos
    ensures read < IMAGE_LEN ==> p < r.pos
    decreases IMAGE_LEN - read
  {
    if read >= IMAGE_LEN then Received([], p)
    else
      var want := ContentWant(read);
      var got := Taken(Reply(replies, p), ReadWindow(read, want));
      if |got| == want then
        var rest := ContentReads(replies, p + 1, read + want);
        Received(got + rest.data, rest.pos)
      else Received(got, p + 1)
  }

  /** How a pass ends: aborted by a failed transfer, or with the raw stream it received. */
  datatype PassResult = Aborted(pos: nat) | Finished(pos: nat, stream: seq<byte>)

  /**
   * One pass from transfer p: the request write, the 64-byte header read,
   * the content loop and the footer read.  A failed write, header read or
   * footer read aborts; a failed content read only ends the content loop.
   */
  function PassSpec(replies: seq<Transfer>, p: nat): (r: PassResult)
    ensures p < r.pos
    ensures r.Finished? ==> |r.stream| <= IMAGE_LEN + FOOTER_LEN
  {
    if Reply(replies, p).Failed? then Aborted(p + 1)
    else if Reply(replies, p + 1).Failed? then Aborted(p + 2)
    else
      var c := ContentReads(replies, p + 2, 0);
      var foot := Reply(replies, c.pos);
      if foot.Failed? then Aborted(c.pos + 1)
      else Finished(c.pos + 1, c.data + Taken(foot, ReadWindow(|c.data|, FooterWant(|c.data|))))
  }

  /** Raw widths the window reasoning covers: even, and small enough that a row pair and a chunk fit the ring. */
  predicate EvenWidth(w: nat) { 0 < w <= 8192 && w % 2 == 0 }

  /** The half-resolution image of all whole row pairs of a raw stream of width w. */
  function Demosaic(s: seq<byte>, w: nat): (rgb: seq<byte>)
    requires EvenWidth(w)
    ensures 4 * |rgb| <= 3 * |s|
  {
    var n := |s| / (2 * w);
    Bayer.SpanIs(w, n);
    DivBounds(|s|, 2 * w);
    Bayer.SpanTriples(w, n);
    Bayer.Rows(s, w, 0, n)
  }

  /** What a scan does: the transfers it used, the passes it started, and the image it hands out, if any. */
  datatype ScanResult = ScanResult(pos: nat, passes: nat, image: Option<seq<byte>>)

  /**
   * dcm300_scan: a warm-up pass whose image is thrown away, then the real
   * pass; the image goes out only if the real pass demosaiced a whole
   * 1024 x 768 image, otherwise the size mismatch is only logged.  Any abort
   * ends the scan.
   */
  function ScanSpec(replies: seq<Transfer>, p: nat): (r: ScanResult)
    ensures r.image.Some? ==> |r.image.value| == IMAGE_RGB
  {
    var first := PassSpec(replies, p);
    if first.Aborted? then ScanResult(first.pos, 1, None)
    else
      var second := PassSpec(replies, first.pos);
      if second.Aborted? then ScanResult(second.pos, 2, None)
      else ScanResult(second.pos, 2, Frame(second.stream))
  }

  /**
   * The image handed out after the real pass: the demosaic of its stream
   * when that fills rgbimage (rgb_done == 3*w*h), otherwise nothing.
   */
  function Frame(stream: seq<byte>): (r: Option<seq<byte>>)
    ensures r.Some? ==> |r.value| == IMAGE_RGB
  {
    var img := Demosaic(stream, RES_X);
    if |img| >= IMAGE_RGB then Some(img[..IMAGE_RGB]) else None
  }

  // ---------------------------------------------------------------------
  // Properties of the specification
  // ---------------------------------------------------------------------

  /** A transfer that delivers at least a full chunk. */
  predicate Full(t: Transfer) { t.Ok? && |t.data| >= MAXBULK }

  /** Transfers p .. p + n - 1 all deliver full chunks. */
  predicate AllFull(replies: seq<Transfer>, p: nat, n: nat)
    decreases n
  {
    n == 0 || (Full(Reply(replies, p)) && AllFull(replies, p + 1, n - 1))
  }

  /**
   * When the k-th and later content reads all deliver full chunks, the
   * content loop receives the rest of the image exactly, chunk by chunk.
   */
  lemma {:induction false} ContentComplete(replies: seq<Transfer>, p: nat, k: nat)
    requires k <= 192
    requires AllFull(replies, p, 192 - k)
    ensures var c := ContentReads(replies, p, k * MAXBULK);
      k * MAXBULK + |c.data| == IMAGE_LEN && c.pos == p + (192 - k)
    decreases 192 - k
  {
    if k < 192 {
      var read := k * MAXBULK;
      var want := ContentWant(read);
      assert want == MAXBULK;
      AlignedWindow(k, want);
      ContentComplete(replies, p + 1, k + 1);
      assert read + want == (k + 1) * MAXBULK;
    }
  }

  /** The demosaic of the first rows row pairs is the start of the demosaic of the whole stream. */
  lemma DemosaicPrefix(s: seq<byte>, w: nat, rows: nat)
    requires EvenWidth(w) && Bayer.Span(w, rows) <= |s|
    ensures 3 * Bayer.Triples(w, rows) <= |Demosaic(s, w)|
    ensures Demosaic(s[..Bayer.Span(w, rows)], w) == Demosaic(s, w)[..3 * Bayer.Triples(w, rows)]
  {
    var m := Bayer.Span(w, rows);
    var all := RowPairs(|s|, w);
    SpanBelow(w, rows, all);
    ProducedIsDemosaic(s, w, all);
    ProducedIsDemosaic(s[..m], w, rows);
    Bayer.RowsSplit(s, w, 0, rows, all);
    Bayer.RowsExtend(s[..m], s[m..], w, 0, rows);
    Rejoin(s, m);
  }

  /** The number of whole row pairs in len raw bytes. */
  function RowPairs(len: nat, w: nat): (n: nat)
    requires w > 0
    ensures Bayer.Span(w, n) <= len < Bayer.Span(w, n) + 2 * w
  {
    PairCount(len, w);
    len / (2 * w)
  }

  /** A stream of len bytes holds len / (2w) whole row pairs and less than one more. */
  lemma PairCount(len: nat, w: nat)
    requires w > 0
    ensures Bayer.Span(w, len / (2 * w)) <= len < Bayer.Span(w, len / (2 * w)) + 2 * w
  {
    Bayer.SpanIs(w, len / (2 * w));
    assert len == 2 * w * (len / (2 * w)) + len % (2 * w);
  }

  /** A stream ending within the row pair after boundary n holds exactly n whole row pairs. */
  lemma PairCountIs(len: nat, w: nat, n: nat)
    requires w > 0 && Bayer.Span(w, n) <= len < Bayer.Span(w, n) + 2 * w
    ensures len / (2 * w) == n
  {
    Bayer.SpanIs(w, n);
    DivModUnique(len, 2 * w, n, len - Bayer.Span(w, n));
  }

  /** A boundary before the end of row pair b is not past b. */
  lemma SpanBelow(w: nat, a: nat, b: nat)
    requires w > 0 && Bayer.Span(w, a) < Bayer.Span(w, b) + 2 * w
    ensures a <= b
  {
    if a > b {
      Bayer.SpanMono(w, b + 1, a);
    }
  }

  /** A stream of len raw bytes holds at least 768 row pairs of width 2048 exactly when it holds the frame. */
  lemma FramePairs(len: nat)
    ensures len / (2 * RES_X) >= RES_Y / 2 <==> len >= IMAGE_LEN
  {
    var n := len / (2 * RES_X);
    assert len == 4096 * n + len % 4096;
  }

  /**
   * The image is handed out exactly when the stream holds the whole raw
   * frame, and it is then the demosaic of the frame's bytes.
   */
  lemma FrameIff(stream: seq<byte>)
    ensures Frame(stream).Some? <==> |stream| >= IMAGE_LEN
    ensures Frame(stream).Some? ==> Frame(stream).value == Demosaic(stream[..IMAGE_LEN], RES_X)
  {
    var n := |stream| / (2 * RES_X);
    Bayer.TriplesIs(RES_X, n);
    FramePairs(|stream|);
    if |stream| >= IMAGE_LEN {
      Bayer.SpanIs(RES_X, 768);
      Bayer.TriplesIs(RES_X, 768);
      DemosaicPrefix(stream, RES_X, 768);
    }
  }

  /**
   * The scan hands out an image exactly when both passes finished and the
   * real pass received at least the whole raw frame; a short or failed
   * content read in the real pass leaves the image short and it is not
   * handed out.
   */
  lemma ScanEmitsIff(replies: seq<Transfer>, p: nat)
    ensures var r := ScanSpec(replies, p);
      var first := PassSpec(replies, p);
      r.image.Some? <==>
        first.Finished? && PassSpec(replies, first.pos).Finished? && |PassSpec(replies, first.pos).stream| >= IMAGE_LEN
  {
    var first := PassSpec(replies, p);
    if first.Finished? {
      var second := PassSpec(replies, first.pos);
      if second.Finished? {
        FrameIff(second.stream);
      }
    }
  }

  /**
   * A pass whose request write, header read and footer read succeed and
   * whose 192 content reads all deliver full chunks finishes with at least
   * the whole raw frame.
   */
  lemma PassComplete(replies: seq<Transfer>, q: nat)
    requires Reply(replies, q).Ok? && Reply(replies, q + 1).Ok?
    requires AllFull(replies, q + 2, 192) && Reply(replies, q + 194).Ok?
    ensures PassSpec(replies, q).Finished? && |PassSpec(replies, q).stream| >= IMAGE_LEN
  {
    ContentComplete(replies, q + 2, 0);
  }

  /**
   * A real pass whose content reads all deliver full chunks and whose other
   * transfers succeed hands out the image of the raw frame: the demosaic of
   * its first IMAGE_LEN bytes.
   */
  lemma ScanComplete(replies: seq<Transfer>, p: nat, q: nat)
    requires PassSpec(replies, p).Finished? && q == PassSpec(replies, p).pos
    requires Reply(replies, q).Ok? && Reply(replies, q + 1).Ok?
    requires AllFull(replies, q + 2, 192) && Reply(replies, q + 194).Ok?
    ensures ScanSpec(replies, p).image.Some?
    ensures var s := PassSpec(replies, q).stream;
      |s| >= IMAGE_LEN && ScanSpec(replies, p).image.value == Demosaic(s[..IMAGE_LEN], RES_X)
  {
    PassComplete(replies, q);
    FrameIff(PassSpec(replies, q).stream);
  }

  // ---------------------------------------------------------------------
  // bayer_circular_downscale
  // ---------------------------------------------------------------------

  /**
   * The backend's output guard irgb > 3*8192 stops a call after at most
   * 3*8192 + 3 bytes, well inside the 49152-byte rgb scratch array.
   */
  lemma ScratchFits(ring: seq<byte>, w: nat, from: nat, stop: int)
    requires |ring| == BAYER_CIRCULAR && w > 0
    ensures |Bayer.Downscale(ring, w, from, stop, RGB_CAP).rgb| <= RGB_CAP + 3 < RGB_SCRATCH
  {
    Bayer.DownscaleBounds(ring, w, from, stop, RGB_CAP);
  }

  /**
   * A forced exit stores a prefix of the interrupted row pair, and leaves
   * *bayer_start at that row pair: the next call, from there, stores those
   * triples again before anything new.
   */
  lemma ForcedExitRepeats(ring: seq<byte>, w: nat, from: nat, stop: int)
    requires |ring| == BAYER_CIRCULAR && w > 0
    requires Bayer.Triples(w, Bayer.Pairs(from, stop, w)) >= Bayer.Limit(RGB_CAP)
    ensures var d := Bayer.Downscale(ring, w, from, stop, RGB_CAP);
      var k := ForcedExit.Done(w, Bayer.Limit(RGB_CAP));
      && 3 * Bayer.Triples(w, k) <= |d.rgb|
      && from <= d.next && d.next + 2 * w <= Bayer.Last(from, stop, w)
      && d.next == from + Bayer.Span(w, k)
      && d.rgb == Bayer.RingRows(ring, w, from, k) + d.rgb[3 * Bayer.Triples(w, k)..]
      && d.rgb[3 * Bayer.Triples(w, k)..] <= Bayer.Downscale(ring, w, d.next, stop, RGB_CAP).rgb
  {
    var n, lim := Bayer.Pairs(from, stop, w), Bayer.Limit(RGB_CAP);
    var k := ForcedExit.Done(w, lim);
    var d := Bayer.Downscale(ring, w, from, stop, RGB_CAP);
    assert d == Bayer.Run(ring, w, from, n, lim);
    ForcedExit.RunForced(ring, w, from, n, lim);
    ForcedExit.RunSplit(ring, w, from, n, lim);
    ForcedExit.BeforeRows(ring, w, from, lim);
    ForcedExit.RestIs(w, from, lim);
    var next, c := ForcedExit.Stop(w, from, lim), ForcedExit.Rest(w, lim);
    var head, part := ForcedExit.Before(ring, w, from, lim), Bayer.RingRow(ring, w, next, c);
    assert d.rgb == head + part;
    assert |head| == 3 * Bayer.Triples(w, k);
    assert d.rgb[|head|..] == part;
    assert next == from + Bayer.Span(w, k);
    NextBeforeLast(w, from, stop, n, k, next);
    var m := Bayer.Pairs(next, stop, w);
    FirstRowPrefix(ring, w, next, m, lim, c);
    assert Bayer.Downscale(ring, w, next, stop, RGB_CAP) == Bayer.Run(ring, w, next, m, lim);
  }

  /** The row pair after the first k of n is still before bayer_last, so a call from it has a row pair to do. */
  lemma NextBeforeLast(w: nat, from: nat, stop: int, n: nat, k: nat, next: nat)
    requires w > 0 && n == Bayer.Pairs(from, stop, w) && k < n && next == from + Bayer.Span(w, k)
    ensures next + 2 * w <= Bayer.Last(from, stop, w)
    ensures Bayer.Pairs(next, stop, w) >= 1
  {
    assert stop >= from;
    var last := Bayer.Last(from, stop, w);
    Bayer.SpanMono(w, k + 1, n);
    Bayer.SpanShift(w, k);
    assert next + 2 * w <= last <= stop;
    AtLeastOne(stop - next, 2 * w);
    assert Bayer.Pairs(next, stop, w) == (stop - next) / (2 * w);
  }

  /** A call with a row pair to do stores the first c <= Columns(w) triples of it first, when c <= k. */
  lemma FirstRowPrefix(ring: seq<byte>, w: nat, i: nat, m: nat, k: nat, c: nat)
    requires |ring| == BAYER_CIRCULAR && m >= 1 && 0 < k && c <= k && c <= Bayer.Columns(w)
    ensures Bayer.RingRow(ring, w, i, c) <= Bayer.Run(ring, w, i, m, k).rgb
  {
    var cols := Bayer.Columns(w);
    if k <= cols {
      Bayer.RowPrefix(ring, w, i, c, k);
    } else {
      Bayer.RowPrefix(ring, w, i, c, cols);
      var rest := Bayer.Run(ring, w, i + 2 * w, m - 1, k - cols).rgb;
      var row := Bayer.RingRow(ring, w, i, cols);
      assert Bayer.Run(ring, w, i, m, k).rgb == row + rest;
      assert (row + rest)[..c] == row[..c];
    }
  }

  /** A dividend at least as large as the divisor has a quotient of at least one. */
  lemma AtLeastOne(a: int, b: int)
    requires a >= b > 0
    ensures a / b >= 1
  {
    assert a == b * (a / b) + a % b;
    if a / b <= 0 {
      MulMono(b, a / b, 1);
    }
  }

  /**
   * bayer_circular_downscale into the rgb scratch array: stores the
   * demosaic of the whole row pairs between *bayer_start and bayer_stop, or
   * its first 8193 triples, and returns the new *bayer_start.
   */
  method BayerCircularDownscale(ring: array<byte>, width: int, start: int, stop: int, rgb: array<byte>)
    returns (next: int, rgbLen: int)
    requires ring.Length == BAYER_CIRCULAR && rgb.Length == RGB_SCRATCH && ring != rgb
    requires width > 0 && start >= 0
    modifies rgb
    ensures 0 <= rgbLen <= RGB_CAP + 3
    ensures var d := Bayer.Downscale(ring[..], width, start, stop, RGB_CAP);
      next == d.next && rgbLen == |d.rgb| && rgb[..rgbLen] == d.rgb
  {
    Bayer.DownscaleBounds(ring[..], width, start, stop, RGB_CAP);
    next, rgbLen := Bayer.DownscaleInto(ring, width, start, stop, RGB_CAP, rgb);
  }

  // ---------------------------------------------------------------------
  // The live window
  // ---------------------------------------------------------------------

  /** The demosaic of the first n row pairs of the stream. */
  function Produced(stream: seq<byte>, w: nat, n: nat): seq<byte>
    requires EvenWidth(w) && Bayer.Span(w, n) <= |stream|
  {
    Bayer.Rows(stream, w, 0, n)
  }

  /**
   * bayer_from is on the boundary of row pair n, less than a row pair
   * behind bytes_read, and the ring holds every stream byte in between.
   */
  ghost predicate Live(ring: seq<byte>, stream: seq<byte>, w: nat, from: int, n: nat)
  {
    && |ring| == BAYER_CIRCULAR && EvenWidth(w)
    && from == Bayer.Span(w, n) && from <= |stream| < from + 2 * w
    && Bayer.Mirrors(ring, stream[from..], from)
  }

  /**
   * rgb_done and rgb_left: they always add up to the image size; in the
   * copying pass rgbimage holds the first rgb_done bytes demosaiced so far,
   * in the warm-up pass nothing is copied.
   */
  ghost predicate Copied(img: seq<byte>, done: int, left: int, produced: seq<byte>, copy: bool)
  {
    && |img| == IMAGE_RGB
    && done + left == IMAGE_RGB && 0 <= left && 0 <= done
    && (copy ==> done == Min(|produced|, IMAGE_RGB) && img[..done] == produced[..done])
    && (!copy ==> done == 0)
  }

  /** A window stays in the ring after dropping its first d bytes. */
  lemma MirrorsDrop(ring: seq<byte>, s: seq<byte>, base: nat, d: nat)
    requires |ring| == BAYER_CIRCULAR && Bayer.Mirrors(ring, s, base) && d <= |s|
    ensures Bayer.Mirrors(ring, s[d..], base + d)
  {
    forall k | 0 <= k < |s[d..]|
      ensures ring[(base + d + k) % BAYER_CIRCULAR] == s[d..][k]
    {
      assert ring[(base + (d + k)) % BAYER_CIRCULAR] == s[d + k];
    }
  }

  /** The first n row pairs followed by the p after them, the latter read from the stream past them. */
  lemma Advance(t: seq<byte>, w: nat, n: nat, p: nat)
    requires EvenWidth(w) && Bayer.Span(w, n) + Bayer.Span(w, p) <= |t|
    ensures Bayer.Span(w, n + p) <= |t|
    ensures Produced(t, w, n + p) == Produced(t, w, n) + Bayer.Rows(t[Bayer.Span(w, n)..], w, 0, p)
  {
    var from := Bayer.Span(w, n);
    Bayer.SpanAdd(w, n, p);
    Bayer.RowsSplit(t, w, 0, n, n + p);
    Bayer.RowsDrop(t[..from], t[from..], w, 0, p);
    assert t[..from] + t[from..] == t;
  }

  /**
   * With a window shorter than a row pair plus a chunk, a call never comes
   * near the output guard: it demosaics every whole row pair.
   */
  lemma NoForcedExit(w: nat, from: nat, stop: int)
    requires EvenWidth(w) && stop < from + 2 * w + MAXBULK
    ensures Bayer.Triples(w, Bayer.Pairs(from, stop, w)) < Bayer.Limit(RGB_CAP)
  {
    var p := Bayer.Pairs(from, stop, w);
    Bayer.SpanTriples(w, p);
    if stop >= from {
      var last := Bayer.Last(from, stop, w);
    }
  }

  /**
   * Demosaicing the live window after a read that extended the stream:
   * the whole row pairs of the window come out and extend the image, and
   * the window moves to the last row-pair boundary.
   */
  lemma WindowAdvance(ring: seq<byte>, stream: seq<byte>, w: nat, from: nat, n: nat)
    requires |ring| == BAYER_CIRCULAR && EvenWidth(w) && from == Bayer.Span(w, n)
    requires from <= |stream| < from + 2 * w + MAXBULK
    requires Bayer.Mirrors(ring, stream[from..], from)
    ensures var d := Bayer.Downscale(ring, w, from, |stream|, RGB_CAP);
      var p := Bayer.Pairs(from, |stream|, w);
      Bayer.Span(w, n + p) <= |stream| &&
      Live(ring, stream, w, d.next, n + p) &&
      Produced(stream, w, n + p) == Produced(stream, w, n) + d.rgb
  {
    var stop, win := |stream|, stream[from..];
    var p := Bayer.Pairs(from, stop, w);
    var last := Bayer.Last(from, stop, w);
    WindowDownscale(ring, win, w, from, stop, p, last);
    Bayer.SpanAdd(w, n, p);
    LiveAfter(ring, stream, win, w, from, n, p, last);
    Advance(stream, w, n, p);
  }

  /** The window after the call starts at boundary n + p and is still held by the ring. */
  lemma LiveAfter(ring: seq<byte>, stream: seq<byte>, win: seq<byte>, w: nat, from: nat, n: nat, p: nat, last: int)
    requires |ring| == BAYER_CIRCULAR && EvenWidth(w) && from <= |stream| && win == stream[from..]
    requires Bayer.Mirrors(ring, win, from)
    requires last == from + Bayer.Span(w, p) == Bayer.Span(w, n + p) && last <= |stream| < last + 2 * w
    ensures Live(ring, stream, w, last, n + p)
  {
    MirrorsDrop(ring, win, from, Bayer.Span(w, p));
    assert win[Bayer.Span(w, p)..] == stream[last..];
  }

  /** The call on a live window returns the demosaic of its whole row pairs and the last boundary. */
  lemma WindowDownscale(ring: seq<byte>, win: seq<byte>, w: nat, from: nat, stop: int, p: nat, last: int)
    requires |ring| == BAYER_CIRCULAR && EvenWidth(w) && Bayer.Mirrors(ring, win, from)
    requires stop == from + |win| && |win| < 2 * w + MAXBULK
    requires p == Bayer.Pairs(from, stop, w) && last == Bayer.Last(from, stop, w)
    ensures last == from + Bayer.Span(w, p) && last <= stop < last + 2 * w
    ensures Bayer.Downscale(ring, w, from, stop, RGB_CAP) == Bayer.Downscaled(Bayer.Rows(win, w, 0, p), last)
  {
    assert stop >= from && last == from + Bayer.Span(w, p) && last <= stop;
    NoForcedExit(w, from, stop);
    Bayer.DownscaleBounds(ring, w, from, stop, RGB_CAP);
    assert Bayer.Downscale(ring, w, from, stop, RGB_CAP) == Bayer.Downscaled(Bayer.RingRows(ring, w, from, p), last);
    Bayer.RowsMirror(ring, win, from, w, 0, p);
    assert Bayer.RingRows(ring, w, from + 0, p) == Bayer.RingRows(ring, w, from, p);
  }

  /** The image of whole row pairs already received does not change when more bytes arrive. */
  lemma ProducedExtend(stream: seq<byte>, got: seq<byte>, w: nat, n: nat)
    requires EvenWidth(w) && Bayer.Span(w, n) <= |stream|
    ensures Produced(stream + got, w, n) == Produced(stream, w, n)
  {
    Bayer.RowsExtend(stream, got, w, 0, n);
  }

  /** When the window ends less than a row pair after boundary n, the image produced is the stream's Demosaic. */
  lemma ProducedIsDemosaic(stream: seq<byte>, w: nat, n: nat)
    requires EvenWidth(w) && Bayer.Span(w, n) <= |stream| < Bayer.Span(w, n) + 2 * w
    ensures Produced(stream, w, n) == Demosaic(stream, w)
  {
    PairCountIs(|stream|, w, n);
  }

  // ---------------------------------------------------------------------
  // One pass of dcm300_scan
  // ---------------------------------------------------------------------

  /** The three buffers of dcm300_scan: replybuf (the ring), rgb and rgbimage. */
  predicate Buffers(ring: array<byte>, rgb: array<byte>, image: array<byte>)
  {
    && ring.Length == BAYER_CIRCULAR && rgb.Length == RGB_SCRATCH && image.Length == IMAGE_RGB
    && ring != rgb && ring != image && rgb != image
  }

  /**
   * The copy after each downscale: in the copying pass, as many of the new
   * bytes as rgb_left still allows are appended to rgbimage at rgb_done.
   */
  method Accumulate(rgb: array<byte>, len: int, image: array<byte>, copy: bool, done: int, left: int,
                    ghost before: seq<byte>) returns (done': int, left': int)
    requires rgb != image && 0 <= len <= rgb.Length
    requires Copied(image[..], done, left, before, copy)
    modifies image
    ensures Copied(image[..], done', left', before + rgb[..len], copy)
  {
    ghost var chunk := rgb[..len];
    ghost var img0 := image[..];
    done', left' := done, left;
    if copy && left > 0 {
      var num := if left > len then len else left;
      assert done == |before| && img0[..done] == before;
      forall k | 0 <= k < num {
        image[done + k] := rgb[k];
      }
      done' := done + num;
      left' := left - num;
      assert image[..done'] == img0[..done] + chunk[..num];
      assert (before + chunk)[..done'] == before + chunk[..num];
      assert image[..done'] == (before + chunk)[..done'];
    } else if copy {
      assert (before + chunk)[..done] == before[..done];
    }
  }

  /**
   * One read at bytes_read into the ring, cut at the ring end, followed on
   * success by bayer_circular_downscale over the live window and the copy
   * into rgbimage.  The received bytes extend the stream; the window and
   * the copy invariants are kept.
   */
  method Ingest(port: Port, ring: array<byte>, rgb: array<byte>, image: array<byte>, copy: bool, w: int,
                read: int, from: int, done: int, left: int, want: int,
                ghost stream: seq<byte>, ghost n: nat)
    returns (count: int, from': int, done': int, left': int, ghost stream': seq<byte>, ghost n': nat)
    requires Buffers(ring, rgb, image) && w >= 0
    requires Live(ring[..], stream, w, from, n) && read == |stream|
    requires Copied(image[..], done, left, Produced(stream, w, n), copy)
    requires 0 < want <= MAXBULK
    modifies port, ring, rgb, image
    ensures port.pos == old(port.pos) + 1 && port.sent == old(port.sent)
    ensures count == Count(Reply(port.replies, old(port.pos)), ReadWindow(read, want))
    ensures stream' == stream + Taken(Reply(port.replies, old(port.pos)), ReadWindow(read, want))
    ensures Live(ring[..], stream', w, from', n')
    ensures Copied(image[..], done', left', Produced(stream', w, n'), copy)
  {
    ghost var ring0 := ring[..];
    ghost var t := Reply(port.replies, port.pos);
    var off := read % BAYER_CIRCULAR;
    var len := ReadWindow(read, want);
    count := port.Read(ring, off, len);
    ghost var got := Taken(t, len);
    stream' := stream + got;
    if count < 0 {
      assert got == [] && stream' == stream;
      assert ring[..] == ring0;
      from', done', left', n' := from, done, left, n;
      return;
    }
    WindowExtends(ring0, ring[..], stream, got, w, from, n, off);
    var stop := read + count;
    assert stop == |stream'|;
    var next, rgbLen := BayerCircularDownscale(ring, w, from, stop, rgb);
    ghost var ring1, out := ring[..], rgb[..rgbLen];
    Advanced(ring1, stream, got, w, from, n, next, out);
    n' := n + Bayer.Pairs(from, stop, w);
    from' := next;
    done', left' := Accumulate(rgb, rgbLen, image, copy, done, left, Produced(stream, w, n));
    assert ring[..] == ring1 && rgb[..rgbLen] == out;
  }

  /** A read of got at bytes_read into the ring extends the live window by got. */
  lemma WindowExtends(ring: seq<byte>, ring': seq<byte>, stream: seq<byte>, got: seq<byte>, w: nat, from: int, n: nat, off: nat)
    requires Live(ring, stream, w, from, n) && |ring'| == BAYER_CIRCULAR
    requires off == |stream| % BAYER_CIRCULAR && off + |got| <= BAYER_CIRCULAR && |got| <= MAXBULK
    requires ring'[off..off + |got|] == got
    requires forall q :: 0 <= q < BAYER_CIRCULAR && !(off <= q < off + |got|) ==> ring'[q] == ring[q]
    ensures 0 <= from <= |stream + got| < from + 2 * w + MAXBULK
    ensures Bayer.Mirrors(ring', (stream + got)[from..], from)
  {
    var s := stream[from..];
    assert (from + |s|) % BAYER_CIRCULAR == off;
    Bayer.MirrorsAppend(ring, ring', s, from, got, off);
    assert (stream + got)[from..] == s + got;
  }

  /**
   * The downscale over the extended window, as WindowAdvance describes it:
   * the window moves on by the whole row pairs received and the image
   * produced grows by the downscaled bytes.
   */
  lemma Advanced(ring: seq<byte>, stream: seq<byte>, got: seq<byte>, w: nat, from: int, n: nat, next: int, out: seq<byte>)
    requires |ring| == BAYER_CIRCULAR && EvenWidth(w) && from == Bayer.Span(w, n) <= |stream|
    requires |stream + got| < from + 2 * w + MAXBULK && Bayer.Mirrors(ring, (stream + got)[from..], from)
    requires var d := Bayer.Downscale(ring, w, from, |stream + got|, RGB_CAP); next == d.next && out == d.rgb
    ensures var n' := n + Bayer.Pairs(from, |stream + got|, w);
      Bayer.Span(w, n') <= |stream + got| &&
      Live(ring, stream + got, w, next, n') && Produced(stream + got, w, n') == Produced(stream, w, n) + out
  {
    WindowAdvance(ring, stream + got, w, from, n);
    ProducedExtend(stream, got, w, n);
  }

  /**
   * The content loop of one pass: from bytes_read == 0, read chunks into the
   * ring, downscale and copy, while the image is not complete and every
   * read delivered exactly what it asked for.  It receives what
   * ContentReads describes, and leaves the window and the copy invariants.
   */
  method ContentLoop(port: Port, ring: array<byte>, rgb: array<byte>, image: array<byte>, copy: bool, w: int)
    returns (read: int, from: int, done: int, left: int, ghost stream: seq<byte>, ghost n: nat)
    requires Buffers(ring, rgb, image) && w >= 0 && EvenWidth(w)
    modifies port, ring, rgb, image
    ensures var c := ContentReads(port.replies, old(port.pos), 0);
      stream == c.data && port.pos == c.pos && port.sent == old(port.sent)
    ensures Live(ring[..], stream, w, from, n) && read == |stream| <= IMAGE_LEN
    ensures Copied(image[..], done, left, Produced(stream, w, n), copy)
  {
    read, from, done, left := 0, 0, 0, IMAGE_RGB;
    stream, n := [], 0;
    ghost var whole := ContentReads(port.replies, old(port.pos), 0);
    var bulkWant, bulkLen := 0, 0;
    assert Bayer.Mirrors(ring[..], stream[from..], from);
    while read < IMAGE_LEN && bulkWant == bulkLen
      invariant Live(ring[..], stream, w, from, n) && read == |stream| <= IMAGE_LEN
      invariant Copied(image[..], done, left, Produced(stream, w, n), copy)
      invariant port.sent == old(port.sent)
      invariant bulkWant == bulkLen ==>
        whole.data == stream + ContentReads(port.replies, port.pos, read).data &&
        whole.pos == ContentReads(port.replies, port.pos, read).pos
      invariant bulkWant != bulkLen ==> whole.data == stream && whole.pos == port.pos
      decreases IMAGE_LEN - read, if bulkWant == bulkLen then 1 else 0
    {
      bulkWant := ContentWant(read);
      var count, read';
      count, read', from, done, left, stream, n := ContentTurn(port, ring, rgb, image, copy, w, read, from, done, left, stream, n, whole);
      if count < 0 {
        break;
      }
      read := read';
      bulkLen := count;
    }
  }

  /**
   * One turn of the content loop: bulk_want, the read into the ring and the
   * downscale and copy.  The turn goes on exactly when the read delivered
   * bulk_want bytes; what the rest of the loop receives is still what
   * ContentReads describes.
   */
  method ContentTurn(port: Port, ring: array<byte>, rgb: array<byte>, image: array<byte>, copy: bool, w: int,
                     read: int, from: int, done: int, left: int, ghost stream: seq<byte>, ghost n: nat, ghost whole: Received)
    returns (count: int, read': int, from': int, done': int, left': int, ghost stream': seq<byte>, ghost n': nat)
    requires Buffers(ring, rgb, image) && w >= 0 && EvenWidth(w)
    requires Live(ring[..], stream, w, from, n) && read == |stream| < IMAGE_LEN
    requires Copied(image[..], done, left, Produced(stream, w, n), copy)
    requires whole.data == stream + ContentReads(port.replies, port.pos, read).data
    requires whole.pos == ContentReads(port.replies, port.pos, read).pos
    modifies port, ring, rgb, image
    ensures port.sent == old(port.sent)
    ensures Live(ring[..], stream', w, from', n') && Copied(image[..], done', left', Produced(stream', w, n'), copy)
    ensures read' == |stream'| <= IMAGE_LEN
    ensures count < 0 ==> read' == read && stream' == stream && whole.data == stream' && whole.pos == port.pos
    ensures count >= 0 ==> read' == read + count
    ensures count == ContentWant(read) ==>
      whole.data == stream' + ContentReads(port.replies, port.pos, read').data &&
      whole.pos == ContentReads(port.replies, port.pos, read').pos
    ensures count >= 0 && count != ContentWant(read) ==> whole.data == stream' && whole.pos == port.pos
  {
    ghost var p := port.pos;
    var want := ContentWant(read);
    ghost var got := Taken(Reply(port.replies, p), ReadWindow(read, want));
    ghost var more := ContentReads(port.replies, p + 1, read + want);
    ContentStep(port.replies, p, read, got, more);
    count, from', done', left', stream', n' := Ingest(port, ring, rgb, image, copy, w, read, from, done, left, want, stream, n);
    assert stream' == stream + got && port.pos == p + 1;
    if count < 0 {
      read' := read;
    } else if count == want {
      read' := read + want;
      Regroup(stream, got, more.data);
    } else {
      read' := read + count;
    }
  }

  /** One turn of the content loop: a read of exactly the wanted bytes goes on, any other ends the loop. */
  lemma ContentStep(replies: seq<Transfer>, p: nat, read: nat, got: seq<byte>, more: Received)
    requires read < IMAGE_LEN
    requires got == Taken(Reply(replies, p), ReadWindow(read, ContentWant(read)))
    requires more == ContentReads(replies, p + 1, read + ContentWant(read))
    ensures |got| == ContentWant(read) ==> ContentReads(replies, p, read) == Received(got + more.data, more.pos)
    ensures |got| != ContentWant(read) ==> ContentReads(replies, p, read) == Received(got, p + 1)
  {
  }

  /**
   * One turn of the for loop over j, for raw rows of w bytes: the request,
   * the header read, the content loop and the footer read.  A finished
   * pass has demosaiced all the bytes it received; the copying pass
   * (j == 1) holds the first rgb_done of them in rgbimage, the warm-up pass
   * copies nothing.
   */
  method Pass(port: Port, ring: array<byte>, rgb: array<byte>, image: array<byte>, copy: bool,
              s: Request.Snapshot, w: int)
    returns (finished: bool, done: int)
    requires Buffers(ring, rgb, image) && w >= 0 && EvenWidth(w)
    modifies port, ring, rgb, image
    ensures port.sent == old(port.sent) + [Request.CreateSnapshotRequest(s)]
    ensures var r := PassSpec(port.replies, old(port.pos));
      port.pos == r.pos && finished == r.Finished? &&
      (finished && copy ==>
        done == Min(|Demosaic(r.stream, w)|, IMAGE_RGB) && image[..done] == Demosaic(r.stream, w)[..done])
    ensures !copy ==> done == 0
  {
    ghost var p := port.pos;
    var ok := port.Write(Request.CreateSnapshotRequest(s));
    if !ok {
      assert PassSpec(port.replies, p) == Aborted(p + 1);
      return false, 0;
    }
    var len := port.Read(ring, 0, HEADER_LEN);
    if len < 0 {
      assert PassSpec(port.replies, p) == Aborted(p + 2);
      return false, 0;
    }
    ghost var c := ContentReads(port.replies, p + 2, 0);
    var read, from, left;
    ghost var stream, n;
    read, from, done, left, stream, n := ContentLoop(port, ring, rgb, image, copy, w);
    ghost var foot := Reply(port.replies, c.pos);
    var footWant := FooterWant(read);
    var count;
    count, from, done, left, stream, n := Ingest(port, ring, rgb, image, copy, w, read, from, done, left, footWant, stream, n);
    if count < 0 {
      assert PassSpec(port.replies, p) == Aborted(c.pos + 1);
      return false, done;
    }
    assert PassSpec(port.replies, p) == Finished(c.pos + 1, stream);
    ProducedIsDemosaic(stream, w, n);
    finished := true;
  }

  // ---------------------------------------------------------------------
  // writefunc and the cropped rows
  // ---------------------------------------------------------------------

  /** The rows joined end to end. */
  function Concat(rows: seq<seq<byte>>): (s: seq<byte>)
  {
    if rows == [] then [] else rows[0] + Concat(rows[1..])
  }

  /** What a sequence of writefunc calls passes on: each row cut to the budget left. */
  function Delivered(rows: seq<seq<byte>>, left: nat): (s: seq<byte>)
  {
    if rows == [] then []
    else
      var take := Min(|rows[0]|, left);
      rows[0][..take] + Delivered(rows[1..], left - take)
  }

  /** The clamped writes pass on exactly the joined rows up to the budget, never more than the budget. */
  lemma {:induction false} DeliveredPrefix(rows: seq<seq<byte>>, left: nat)
    ensures Delivered(rows, left) == Concat(rows)[..Min(|Concat(rows)|, left)]
    ensures |Delivered(rows, left)| <= left
  {
    if rows != [] {
      var r := rows[0];
      var take := Min(|r|, left);
      DeliveredPrefix(rows[1..], left - take);
      var rest := Concat(rows[1..]);
      if |r| >= left {
        assert (r + rest)[..left] == r[..left];
      } else {
        assert (r + rest)[..|r| + Min(|rest|, left - |r|)] == r + rest[..Min(|rest|, left - |r|)];
      }
    }
  }

  /** One more write after a sequence of them. */
  lemma {:induction false} DeliveredSnoc(rows: seq<seq<byte>>, r: seq<byte>, left: nat)
    ensures |Delivered(rows, left)| <= left
    ensures Delivered(rows + [r], left) ==
      Delivered(rows, left) + r[..Min(|r|, left - |Delivered(rows, left)|)]
  {
    DeliveredPrefix(rows, left);
    if rows != [] {
      var take := Min(|rows[0]|, left);
      assert (rows + [r])[1..] == rows[1..] + [r];
      DeliveredSnoc(rows[1..], r, left - take);
      Regroup(rows[0][..take], Delivered(rows[1..], left - take), r[..Min(|r|, left - take - |Delivered(rows[1..], left - take)|)]);
    } else {
      assert [r][1..] == [];
    }
  }

  /** Row j through writefunc after rows 0 .. j - 1: the pipe gets it cut to what is left of the budget. */
  lemma DeliveredStep(rows: seq<seq<byte>>, j: nat, budget: nat)
    requires j < |rows|
    ensures |Delivered(rows[..j], budget)| <= budget
    ensures Delivered(rows[..j + 1], budget) ==
      Delivered(rows[..j], budget) + rows[j][..Min(|rows[j]|, budget - |Delivered(rows[..j], budget)|)]
  {
    DeliveredSnoc(rows[..j], rows[j], budget);
    assert rows[..j + 1] == rows[..j] + [rows[j]];
  }

  /** Joined rows of equal length. */
  lemma {:induction false} ConcatLength(rows: seq<seq<byte>>, len: nat)
    requires forall i :: 0 <= i < |rows| ==> |rows[i]| == len
    ensures |Concat(rows)| == |rows| * len
  {
    if rows != [] {
      ConcatLength(rows[1..], len);
    }
  }

  /** struct dcm300_write_info: the pipe to the frontend and the bytes still allowed into it. */
  class WriteInfo {
    var bytesleft: int
    /** Everything written to the pipe. */
    var pipe: seq<byte>

    predicate Valid()
      reads this
    {
      bytesleft >= 0
    }

    /** reader_process: the budget is bytes_per_scan_line * scan_height_pixels. */
    constructor(bytesPerLine: nat, lines: nat)
      ensures Valid() && bytesleft == bytesPerLine * lines && pipe == []
    {
      MulNonNeg(bytesPerLine, lines);
      bytesleft := bytesPerLine * lines;
      pipe := [];
    }

    /**
     * writefunc: a write beyond the budget is cut to it (and returns 0 when
     * nothing is left); the budget goes down by what is written.
     */
    method Write(data: seq<byte>) returns (r: int)
      requires Valid()
      modifies this
      ensures Valid()
      ensures var n := Min(|data|, old(bytesleft));
        bytesleft == old(bytesleft) - n && pipe == old(pipe) + data[..n]
      ensures r == 0 <==> |data| > 0 && old(bytesleft) == 0
      ensures r == 0 || r == 1
    {
      var bytes := |data|;
      if bytes > bytesleft {
        bytes := bytesleft;
        if bytes == 0 {
          return 0;
        }
      }
      bytesleft := bytesleft - bytes;
      pipe := pipe + data[..bytes];
      r := 1;
    }
  }

  /** Byte offset in rgbimage of output pixel (x, y). */
  function RowStart(x: nat, y: nat): nat { 3 * (OUT_W * y + x) }

  /** An output row slice of n pixels from pixel (x, y) on lies inside rgbimage. */
  lemma RowInImage(x: nat, y: nat, n: nat)
    requires x + n <= OUT_W && y < OUT_H
    ensures RowStart(x, y) + 3 * n <= IMAGE_RGB
  {
  }

  /** Cropped row i: w1 pixels of output row y1 + i from column x1 on. */
  function CropRow(img: seq<byte>, x1: nat, y1: nat, w1: nat, i: nat): (row: seq<byte>)
    requires |img| == IMAGE_RGB && x1 + w1 <= OUT_W && y1 + i < OUT_H
    ensures |row| == 3 * w1
  {
    RowInImage(x1, y1 + i, w1);
    img[RowStart(x1, y1 + i)..RowStart(x1, y1 + i) + 3 * w1]
  }

  /** The crop the callback receives: h1 rows of w1 pixels from pixel (x1, y1) on. */
  function Crop(img: seq<byte>, x1: nat, y1: nat, w1: nat, h1: nat): (rows: seq<seq<byte>>)
    requires |img| == IMAGE_RGB && x1 + w1 <= OUT_W && y1 + h1 <= OUT_H
    ensures |rows| == h1
    ensures forall i :: 0 <= i < h1 ==> rows[i] == CropRow(img, x1, y1, w1, i) && |rows[i]| == 3 * w1
  {
    seq(h1, i requires 0 <= i < h1 => CropRow(img, x1, y1, w1, i))
  }

  /** The crop has h1 rows of w1 pixels, and pixel c of row i is output pixel (x1 + c, y1 + i). */
  lemma CropPixel(img: seq<byte>, x1: nat, y1: nat, w1: nat, h1: nat, i: nat, c: nat)
    requires |img| == IMAGE_RGB && x1 + w1 <= OUT_W && y1 + h1 <= OUT_H && i < h1 && c < w1
    ensures RowStart(x1 + c, y1 + i) + 3 <= IMAGE_RGB
    ensures |Crop(img, x1, y1, w1, h1)| == h1 && |Crop(img, x1, y1, w1, h1)[i]| == 3 * w1
    ensures Crop(img, x1, y1, w1, h1)[i][3 * c..3 * c + 3] == img[RowStart(x1 + c, y1 + i)..RowStart(x1 + c, y1 + i) + 3]
  {
    var a := RowStart(x1, y1 + i);
    RowInImage(x1, y1 + i, w1);
    assert RowStart(x1 + c, y1 + i) == a + 3 * c;
    assert img[a..a + 3 * w1][3 * c..3 * c + 3] == img[a + 3 * c..a + 3 * c + 3];
  }

  /**
   * The emission loop: each cropped row of rgbimage goes to writefunc, so
   * the pipe receives the crop cut to the budget.
   */
  method EmitRows(image: array<byte>, sink: WriteInfo, x1: nat, y1: nat, w1: nat, h1: nat)
    requires image.Length == IMAGE_RGB && x1 + w1 <= OUT_W && y1 + h1 <= OUT_H && sink.Valid()
    modifies sink
    ensures sink.Valid()
    ensures var out := Delivered(Crop(image[..], x1, y1, w1, h1), old(sink.bytesleft));
      sink.pipe == old(sink.pipe) + out && sink.bytesleft == old(sink.bytesleft) - |out|
  {
    ghost var rows := Crop(image[..], x1, y1, w1, h1);
    ghost var budget: nat := sink.bytesleft;
    var i := 0;
    while i < h1
      invariant 0 <= i <= h1 && sink.Valid()
      invariant sink.pipe == old(sink.pipe) + Delivered(rows[..i], budget)
      invariant sink.bytesleft == budget - |Delivered(rows[..i], budget)|
      modifies sink
    {
      var at := 3 * (OUT_W * (i + y1) + x1);
      var data := image[at..at + 3 * w1];
      assert data == rows[i];
      ghost var before := Delivered(rows[..i], budget);
      ghost var sent := data[..Min(|data|, sink.bytesleft)];
      var _ := sink.Write(data);
      DeliveredStep(rows, i, budget);
      Regroup(old(sink.pipe), before, sent);
      i := i + 1;
    }
    assert rows[..h1] == rows;
  }

  /**
   * With the budget reader_process sets, 3 * w1 * h1, the whole crop reaches
   * the pipe and the budget ends at zero.
   */
  lemma CropFitsBudget(img: seq<byte>, x1: nat, y1: nat, w1: nat, h1: nat)
    requires |img| == IMAGE_RGB && x1 + w1 <= OUT_W && y1 + h1 <= OUT_H
    ensures |Concat(Crop(img, x1, y1, w1, h1))| == (3 * w1) * h1
    ensures Delivered(Crop(img, x1, y1, w1, h1), (3 * w1) * h1) == Concat(Crop(img, x1, y1, w1, h1))
  {
    var rows := Crop(img, x1, y1, w1, h1);
    ConcatLength(rows, 3 * w1);
    DeliveredPrefix(rows, (3 * w1) * h1);
  }

  // ---------------------------------------------------------------------
  // dcm300_scan
  // ---------------------------------------------------------------------

  /** The request the scan sends: full sensor, no offset, the caller's exposure and gains as bytes. */
  function ScanSnapshot(exposure: u32, red: u32, green: u32, blue: u32): Request.Snapshot
  {
    Request.Snapshot(DeviceResolution(OUT_W), DeviceResolution(OUT_H), 0, 0, exposure,
                     ToByte(red), ToByte(green), ToByte(blue))
  }

  /**
   * dcm300_scan: the two passes and, after a pass that demosaiced the whole
   * image into rgbimage, the cropped rows to the callback (writefunc).
   */
  method Scan(port: Port, sink: WriteInfo, x1: nat, y1: nat, w1: nat, h1: nat,
              exposure: u32, red: u32, green: u32, blue: u32) returns (status: int)
    requires x1 + w1 <= OUT_W && y1 + h1 <= OUT_H && sink.Valid()
    modifies port, sink
    ensures status == 0 && sink.Valid()
    ensures var r := ScanSpec(port.replies, old(port.pos));
      var req := Request.CreateSnapshotRequest(ScanSnapshot(exposure, red, green, blue));
      port.pos == r.pos &&
      port.sent == old(port.sent) + Repeat(req, r.passes) &&
      Emitted(r.image, x1, y1, w1, h1, old(sink.pipe), old(sink.bytesleft), sink.pipe, sink.bytesleft)
  {
    var ring := new byte[BAYER_CIRCULAR];
    var rgb := new byte[RGB_SCRATCH];
    var image := new byte[IMAGE_RGB];
    var s := ScanSnapshot(exposure, red, green, blue);
    var resX := s.resolutionX;
    ResolutionIs();
    ghost var req := Request.CreateSnapshotRequest(s);
    ghost var p, pipe0, left0 := port.pos, sink.pipe, sink.bytesleft;
    ghost var first := PassSpec(port.replies, p);
    ghost var second := PassSpec(port.replies, first.pos);
    ghost var r := ScanSpec(port.replies, p);
    ScanPasses(port.replies, p);
    var j := 0;
    while j < 2
      invariant 0 <= j <= 2 && sink.Valid()
      invariant j == 0 ==> port.pos == p
      invariant j >= 1 ==> first.Finished?
      invariant j == 1 ==> port.pos == first.pos
      invariant j == 2 ==> port.pos == r.pos && r.passes == 2
      invariant port.sent == old(port.sent) + Repeat(req, j)
      invariant j < 2 ==> sink.pipe == pipe0 && sink.bytesleft == left0
      invariant j == 2 ==> Emitted(r.image, x1, y1, w1, h1, pipe0, left0, sink.pipe, sink.bytesleft)
    {
      var finished := Turn(port, ring, rgb, image, sink, j == 1, s, resX, x1, y1, w1, h1,
                           if j == 0 then first else second, if j == 0 then None else r.image);
      Regroup(old(port.sent), Repeat(req, j), [req]);
      if !finished {
        break;
      }
      j := j + 1;
    }
    status := 0;
  }

  /**
   * One turn of the for loop over j: the pass, then, when it was not
   * aborted and filled rgbimage (rgb_done == 3*w*h, which only the copying
   * pass can reach), the cropped rows to writefunc.
   */
  method Turn(port: Port, ring: array<byte>, rgb: array<byte>, image: array<byte>, sink: WriteInfo,
              copy: bool, s: Request.Snapshot, w: int, x1: nat, y1: nat, w1: nat, h1: nat,
              ghost pass: PassResult, ghost frame: Option<seq<byte>>)
    returns (finished: bool)
    requires Buffers(ring, rgb, image) && w == RES_X
    requires x1 + w1 <= OUT_W && y1 + h1 <= OUT_H && sink.Valid()
    requires pass == PassSpec(port.replies, port.pos)
    requires frame == (if copy && pass.Finished? then Frame(pass.stream) else None)
    modifies port, ring, rgb, image, sink
    ensures sink.Valid()
    ensures port.sent == old(port.sent) + [Request.CreateSnapshotRequest(s)]
    ensures port.pos == pass.pos && finished == pass.Finished?
    ensures Emitted(frame, x1, y1, w1, h1, old(sink.pipe), old(sink.bytesleft), sink.pipe, sink.bytesleft)
  {
    var done;
    finished, done := Pass(port, ring, rgb, image, copy, s, w);
    if finished && copy {
      DoneIsFrame(pass.stream, done, image[..]);
    }
    if finished && done == IMAGE_RGB {
      EmitRows(image, sink, x1, y1, w1, h1);
    }
  }

  /** n copies of the request: what n started passes write. */
  function Repeat(req: seq<byte>, n: nat): (r: seq<seq<byte>>)
    ensures |r| == n && forall k :: 0 <= k < n ==> r[k] == req
  {
    if n == 0 then [] else Repeat(req, n - 1) + [req]
  }

  /** The pipe and budget after the scan: unchanged without an image, the cropped image cut to the budget with one. */
  ghost predicate Emitted(image: Option<seq<byte>>, x1: nat, y1: nat, w1: nat, h1: nat,
                          pipe0: seq<byte>, left0: int, pipe: seq<byte>, left: int)
  {
    && (image.None? ==> pipe == pipe0 && left == left0)
    && (image.Some? ==>
        && |image.value| == IMAGE_RGB && x1 + w1 <= OUT_W && y1 + h1 <= OUT_H && left0 >= 0
        && var out := Delivered(Crop(image.value, x1, y1, w1, h1), left0);
          pipe == pipe0 + out && left == left0 - |out|)
  }

  /** ScanSpec pass by pass: the scan stops after an aborted warm-up, otherwise the real pass decides. */
  lemma ScanPasses(replies: seq<Transfer>, p: nat)
    ensures var first, r := PassSpec(replies, p), ScanSpec(replies, p);
      var second := PassSpec(replies, first.pos);
      && (first.Aborted? ==> r == ScanResult(first.pos, 1, None))
      && (first.Finished? ==>
          r.pos == second.pos && r.passes == 2 &&
          r.image == (if second.Finished? then Frame(second.stream) else None))
  {
  }

  /**
   * After the real pass, rgb_done == 3*w*h exactly when the scan hands out an
   * image, and rgbimage then holds it.
   */
  lemma DoneIsFrame(stream: seq<byte>, done: int, image: seq<byte>)
    requires |image| == IMAGE_RGB
    requires done == Min(|Demosaic(stream, RES_X)|, IMAGE_RGB)
    requires image[..done] == Demosaic(stream, RES_X)[..done]
    ensures done == IMAGE_RGB <==> Frame(stream).Some?
    ensures done == IMAGE_RGB ==> image == Frame(stream).value
  {
    if done == IMAGE_RGB {
      assert image == image[..done];
    }
  }

  // ---------------------------------------------------------------------
  // calculateDerivedValues and dcm300_scan_test
  // ---------------------------------------------------------------------

  /** The scan area, in output pixels, corners included. */
  datatype Rect = Rect(left: int, top: int, right: int, bottom: int)

  /** The values calculateDerivedValues derives from the scan area. */
  datatype Derived = Derived(width: int, height: int, bytesPerLine: int)

  /** calculateDerivedValues: width and height count both corner pixels; three bytes per pixel. */
  function DerivedValues(r: Rect): Derived
  {
    Derived(r.right - r.left + 1, r.bottom - r.top + 1, 3 * (r.right - r.left + 1))
  }

  /**
   * Within the option ranges (0..1023, 0..767) and with ordered corners,
   * the derived crop covers exactly the columns left..right and rows
   * top..bottom, every cropped row slice lies inside rgbimage, and the
   * scan's byte budget is the crop's size.
   */
  lemma DerivedCropFits(r: Rect)
    requires 0 <= r.left <= r.right < OUT_W && 0 <= r.top <= r.bottom < OUT_H
    ensures var g := DerivedValues(r);
      && 1 <= g.width && 1 <= g.height
      && r.left + g.width == r.right + 1 && r.top + g.height == r.bottom + 1
      && r.left + g.width <= OUT_W && r.top + g.height <= OUT_H
      && (forall y :: r.top <= y < r.top + g.height ==> RowStart(r.left, y) + g.bytesPerLine <= IMAGE_RGB)
  {
    var g := DerivedValues(r);
    forall y | r.top <= y < r.top + g.height
      ensures RowStart(r.left, y) + g.bytesPerLine <= IMAGE_RGB
    {
      RowInImage(r.left, y, g.width);
    }
  }

  /** A row of w test pixels, each the three gain values stored as bytes. */
  function TestLine(w: nat, red: u32, green: u32, blue: u32): (line: seq<byte>)
    ensures |line| == 3 * w
  {
    if w == 0 then [] else TestLine(w - 1, red, green, blue) + [ToByte(red), ToByte(green), ToByte(blue)]
  }

  /** Every pixel of the test line is red, green, blue, each truncated to a byte. */
  lemma {:induction false} TestLinePixels(w: nat, red: u32, green: u32, blue: u32, c: nat)
    requires c < w
    ensures TestLine(w, red, green, blue)[3 * c..3 * c + 3] == [ToByte(red), ToByte(green), ToByte(blue)]
  {
    var rest := TestLine(w - 1, red, green, blue);
    if c < w - 1 {
      TestLinePixels(w - 1, red, green, blue, c);
      assert (rest + [ToByte(red), ToByte(green), ToByte(blue)])[3 * c..3 * c + 3] == rest[3 * c..3 * c + 3];
    }
  }

  /** The first loop of dcm300_scan_test: rgbline[i] := (gain_red, gain_green, gain_blue) for i < w. */
  method FillTestLine(line: array<byte>, w: nat, red: u32, green: u32, blue: u32)
    requires 3 * w <= line.Length
    modifies line
    ensures line[..3 * w] == TestLine(w, red, green, blue)
  {
    var i := 0;
    while i < w
      invariant 0 <= i <= w
      invariant line[..3 * i] == TestLine(i, red, green, blue)
    {
      line[3 * i], line[3 * i + 1], line[3 * i + 2] := ToByte(red), ToByte(green), ToByte(blue);
      assert line[..3 * (i + 1)] == line[..3 * i] + [ToByte(red), ToByte(green), ToByte(blue)];
      i := i + 1;
    }
  }

  /**
   * dcm300_scan_test: fills a 1024-pixel line with the gains and passes its
   * first w pixels to the callback h times.
   */
  method ScanTest(sink: WriteInfo, w: nat, h: nat, red: u32, green: u32, blue: u32) returns (status: int)
    requires w <= OUT_W && sink.Valid()
    modifies sink
    ensures status == 0 && sink.Valid()
    ensures var out := Delivered(seq(h, _ => TestLine(w, red, green, blue)), old(sink.bytesleft));
      sink.pipe == old(sink.pipe) + out && sink.bytesleft == old(sink.bytesleft) - |out|
  {
    var line := new byte[3 * OUT_W];
    FillTestLine(line, w, red, green, blue);
    ghost var rows := seq(h, _ => TestLine(w, red, green, blue));
    ghost var budget: nat := sink.bytesleft;
    var j := 0;
    while j < h
      invariant 0 <= j <= h && sink.Valid()
      invariant sink.pipe == old(sink.pipe) + Delivered(rows[..j], budget)
      invariant sink.bytesleft == budget - |Delivered(rows[..j], budget)|
      modifies sink
    {
      var data := line[..3 * w];
      assert data == rows[j];
      ghost var before := Delivered(rows[..j], budget);
      ghost var sent := data[..Min(|data|, sink.bytesleft)];
      var _ := sink.Write(data);
      DeliveredStep(rows, j, budget);
      Regroup(old(sink.pipe), before, sent);
      j := j + 1;
    }
    assert rows[..h] == rows;
    status := 0;
  }
}
