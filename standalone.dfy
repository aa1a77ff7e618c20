/**
 * The standalone capture tool (dcm300.c): the device record with its
 * cursor fields and ring, the output of raw or demosaiced data, the PPM
 * header, and dcm300_get_image's request / header / content / footer
 * sequence over the transport.
 *
 * The specification of a capture is given on the transfers' outcomes:
 * Shown and Moved say what one dcm300_output call after a read prints and
 * where it leaves the cursor, Content follows the content loop, Capture the
 * whole snapshot.  The methods of Dcm300 are proved against them.
 */
module Standalone {
  import opened Dcm300Types
  import opened Transport
  import Bayer
  import Request

  // ---------------------------------------------------------------------
  // The PPM header
  // ---------------------------------------------------------------------

  /** %d of a natural number: its decimal digits, most significant first. */
  function Decimal(n: nat): (ds: seq<byte>)
    ensures 1 <= |ds| && forall k :: 0 <= k < |ds| ==> 48 <= ds[k] <= 57
    ensures n < 10 ==> |ds| == 1
    ensures n < 100 ==> |ds| <= 2
    ensures n < 1000 ==> |ds| <= 3
    ensures n < 10000 ==> |ds| <= 4
    ensures n < 100000 ==> |ds| <= 5
    decreases n
  {
    if n < 10 then [48 + n] else Decimal(n / 10) + [48 + n % 10]
  }

  /** The number a string of decimal digits denotes. */
  function DecimalValue(ds: seq<byte>): nat
    requires forall k :: 0 <= k < |ds| ==> 48 <= ds[k] <= 57
  {
    if |ds| == 0 then 0 else 10 * DecimalValue(ds[..|ds| - 1]) + (ds[|ds| - 1] - 48)
  }

  /** Printing a number with %d and reading the digits back gives the number. */
  lemma {:induction false} DecimalRoundTrip(n: nat)
    ensures DecimalValue(Decimal(n)) == n
    decreases n
  {
    if n >= 10 {
      DecimalRoundTrip(n / 10);
      var ds := Decimal(n);
      assert ds[..|ds| - 1] == Decimal(n / 10);
    }
  }

  /** "P6\n%d %d\n255\n" for a binary PPM of the given size with 8-bit samples. */
  function PpmHeader(cols: nat, rows: nat): (r: seq<byte>)
    requires cols < 100000 && rows < 100000
    ensures 11 <= |r| <= 19 && r[..3] == [0x50, 0x36, 0x0a] && r[|r| - 5..] == [0x0a, 0x32, 0x35, 0x35, 0x0a]
    ensures forall k :: 0 <= k < |r| ==> r[k] != 0
  {
    [0x50, 0x36, 0x0a] + Decimal(cols) + [0x20] + Decimal(rows) + [0x0a, 0x32, 0x35, 0x35, 0x0a]
  }

  /** The text dcm300_output_header prints: nothing in raw mode, else the header of the half-size image. */
  function HeaderText(raw: bool, w: u16, h: u16): (r: seq<byte>)
    ensures |r| <= 19 && forall k :: 0 <= k < |r| ==> r[k] != 0
    ensures raw <==> r == []
  {
    if raw then [] else PpmHeader(w / 2, h / 2)
  }

  // ---------------------------------------------------------------------
  // What one read prints, and the content loop
  // ---------------------------------------------------------------------

  /**
   * Row pairs dcm300_output_bayer processes after n bytes were read at
   * stream offset read (== bayer_from): whole pairs before bayer_end.
   */
  function ChunkPairs(w: nat, read: nat, end: int, n: nat): (p: nat)
    requires w > 0
    ensures Bayer.Span(w, p) <= n
    ensures read + Bayer.Span(w, p) <= if read <= end then end else read
  {
    var stop := Min(read + n, end);
    var _ := Bayer.Last(read, stop, w);
    Bayer.Pairs(read, stop, w)
  }

  /**
   * Where dcm300_output leaves the cursor after a read with outcome t: in
   * raw mode it stays; otherwise it moves past the whole row pairs of the
   * bytes delivered, but not past bayer_end.
   */
  function Moved(raw: bool, w: nat, read: nat, end: int, t: Transfer, want: nat): (r: nat)
    requires w > 0
    ensures raw ==> r == read
    ensures read <= r <= read + |Taken(t, want)| && (read <= end ==> r <= end)
  {
    if raw then read else read + Bayer.Span(w, ChunkPairs(w, read, end, |Taken(t, want)|))
  }

  /**
   * What dcm300_output prints after a read with outcome t: in raw mode the
   * bytes delivered; otherwise the demosaic of their whole row pairs, three
   * RGB bytes for every four raw bytes the cursor moves past.
   */
  function Shown(raw: bool, w: nat, read: nat, end: int, t: Transfer, want: nat): (rgb: seq<byte>)
    requires w > 0 && w % 2 == 0
    ensures raw ==> rgb == Taken(t, want)
    ensures !raw ==> 4 * |rgb| == 3 * (Moved(raw, w, read, end, t, want) - read)
  {
    var got := Taken(t, want);
    var p := ChunkPairs(w, read, end, |got|);
    Bayer.SpanTriples(w, p);
    if raw then got else Bayer.Rows(got, w, 0, p)
  }

  /** Bytes printed by the content loop, the transfers it made, and the cursor it leaves. */
  datatype Progress = Progress(bytes: seq<byte>, pos: nat, read: nat)

  /**
   * The content loop from transfer p on, i bytes having been counted: while
   * i is below the image size, read up to MAXBULK bytes and print them; go
   * on only after a read that returned exactly MAXBULK.
   */
  function Content(replies: seq<Transfer>, p: nat, raw: bool, w: nat, end: int, read: nat, i: int): Progress
    requires w > 0 && w % 2 == 0
    decreases end - i
  {
    if i >= end then Progress([], p, read)
    else
      var t := Reply(replies, p);
      var here, next := Shown(raw, w, read, end, t, MAXBULK), Moved(raw, w, read, end, t, MAXBULK);
      if Count(t, MAXBULK) == MAXBULK then
        var rest := Content(replies, p + 1, raw, w, end, next, i + MAXBULK);
        Progress(here + rest.bytes, rest.pos, rest.read)
      else
        Progress(here, p + 1, next)
  }

  /**
   * The real snapshot from its header read (transfer p) on: the raw header
   * bytes in raw mode, the content loop from stream offset 0, then the
   * footer read of 256 bytes.
   */
  function Capture(replies: seq<Transfer>, p: nat, raw: bool, w: nat, end: int): Progress
    requires w > 0 && w % 2 == 0
  {
    var head := if raw then Taken(Reply(replies, p), 64) else [];
    var c := Content(replies, p + 1, raw, w, end, 0, 0);
    var foot := Reply(replies, c.pos);
    Progress(head + c.bytes + Shown(raw, w, c.read, end, foot, 256), c.pos + 1,
             Moved(raw, w, c.read, end, foot, 256))
  }

  // ---------------------------------------------------------------------
  // Properties of the capture specification
  // ---------------------------------------------------------------------

  /**
   * The cursor moves to the last whole row pair, not to the end of the
   * bytes delivered: it reaches their end exactly when they end on a row
   * pair boundary.  Otherwise the next read, which goes to the cursor,
   * overwrites the tail and its bytes are never demosaiced.
   */
  lemma TailDropped(w: nat, read: nat, end: int, t: Transfer, want: nat)
    requires w > 0 && read + |Taken(t, want)| <= end
    ensures Moved(false, w, read, end, t, want) <= read + |Taken(t, want)|
    ensures Moved(false, w, read, end, t, want) == read + |Taken(t, want)| <==> |Taken(t, want)| % (2 * w) == 0
  {
    var n := |Taken(t, want)|;
    var last := Bayer.Last(read, read + n, w);
    assert last == read + n - n % (2 * w);
  }

  /** A concrete short read: 100 bytes of a 256-byte-wide image leave the cursor where it was. */
  lemma ShortReadDropsTail()
    ensures Moved(false, 128, 0, 1000, Ok(Zeros(100)), MAXBULK) == 0
  {
    TailDropped(128, 0, 1000, Ok(Zeros(100)), MAXBULK);
    assert Bayer.Pairs(0, 100, 128) == 0;
  }

  /** The concatenation of the first k deliveries from transfer p on. */
  function Joined(replies: seq<Transfer>, p: nat, k: nat): (s: seq<byte>)
    decreases k
  {
    if k == 0 then [] else Taken(Reply(replies, p), MAXBULK) + Joined(replies, p + 1, k - 1)
  }

  lemma {:induction false} JoinedLength(replies: seq<Transfer>, p: nat, k: nat)
    requires forall j :: p <= j < p + k ==> Count(Reply(replies, j), MAXBULK) == MAXBULK
    ensures |Joined(replies, p, k)| == k * MAXBULK
    decreases k
  {
    if k > 0 {
      JoinedLength(replies, p + 1, k - 1);
    }
  }

  /** For a width that divides MAXBULK / 2, one whole chunk holds b = MAXBULK / (2w) row pairs. */
  lemma ChunkRowPairs(w: nat) returns (b: nat)
    requires w > 0 && MAXBULK % (2 * w) == 0
    ensures b == Bayer.Pairs(0, MAXBULK, w) && Bayer.Span(w, b) == MAXBULK
  {
    b := Bayer.Pairs(0, MAXBULK, w);
    Bayer.SpanIs(w, b);
    assert MAXBULK == 2 * w * (MAXBULK / (2 * w)) + MAXBULK % (2 * w);
  }

  /**
   * Chunking independence for whole chunks: when the image size is k times
   * MAXBULK and each of the k content reads delivers MAXBULK bytes, the
   * demosaic printed chunk by chunk is the demosaic of the joined stream,
   * and the cursor ends at the image end.
   */
  lemma {:induction false} ContentWhole(replies: seq<Transfer>, p: nat, w: nat, end: int, i: nat, k: nat, m: nat)
    requires w > 0 && w % 2 == 0 && MAXBULK % (2 * w) == 0
    requires end == i + k * MAXBULK && Bayer.Span(w, m) == k * MAXBULK
    requires forall j :: p <= j < p + k ==> Count(Reply(replies, j), MAXBULK) == MAXBULK
    ensures Bayer.Span(w, m) <= |Joined(replies, p, k)|
    ensures Content(replies, p, false, w, end, i, i) == Progress(Bayer.Rows(Joined(replies, p, k), w, 0, m), p + k, end)
    decreases k
  {
    JoinedLength(replies, p, k);
    if k > 0 {
      var b := ChunkRowPairs(w);
      var t := Reply(replies, p);
      var got := Taken(t, MAXBULK);
      assert ChunkPairs(w, i, end, |got|) == b by {
        DivModUnique(MAXBULK, 2 * w, b, 0);
      }
      if m < b {
        Bayer.SpanMono(w, m, b - 1);
        Bayer.SpanShift(w, b - 1);
        assert false;
      }
      Bayer.SpanAdd(w, b, m - b);
      ContentWhole(replies, p + 1, w, end, i + MAXBULK, k - 1, m - b);
      Bayer.RowsAppend(got, Joined(replies, p + 1, k - 1), w, b, m - b);
      assert b + (m - b) == m;
    }
  }

  /**
   * The cursor after a content read stays on a row-pair boundary, stays at
   * 0 in raw mode, and after a whole chunk before the image end has moved
   * exactly MAXBULK bytes on.
   */
  lemma CursorNext(raw: bool, w: nat, read: nat, end: int, t: Transfer, i: int, len: int)
    requires w > 0 && MAXBULK % (2 * w) == 0 && read % (2 * w) == 0 && (raw ==> read == 0)
    requires len == Count(t, MAXBULK) && (!raw && len == MAXBULK && i < end ==> read == i)
    ensures Moved(raw, w, read, end, t, MAXBULK) % (2 * w) == 0
    ensures raw ==> Moved(raw, w, read, end, t, MAXBULK) == 0
    ensures !raw && len == MAXBULK && i + len < end ==> Moved(raw, w, read, end, t, MAXBULK) == i + len
  {
    if !raw {
      SpanPhase(read, w, ChunkPairs(w, read, end, |Taken(t, MAXBULK)|));
      if len == MAXBULK && i + MAXBULK < end {
        TailDropped(w, read, end, t, MAXBULK);
      }
    }
  }

  /** One turn of the content loop moves Shown onto the printed part and leaves the rest of Content. */
  lemma ContentNext(replies: seq<Transfer>, p: nat, raw: bool, w: nat, end: int, read: nat, i: int,
                    done: seq<byte>, whole: Progress, len: int,
                    p': nat, read': nat, i': int, done': seq<byte>, rest': Progress)
    requires w > 0 && w % 2 == 0 && i < end
    requires whole.bytes == done + Content(replies, p, raw, w, end, read, i).bytes
    requires whole.pos == Content(replies, p, raw, w, end, read, i).pos
    requires whole.read == Content(replies, p, raw, w, end, read, i).read
    requires len == Count(Reply(replies, p), MAXBULK) && p' == p + 1 && i' == i + len
    requires read' == Moved(raw, w, read, end, Reply(replies, p), MAXBULK)
    requires done' == done + Shown(raw, w, read, end, Reply(replies, p), MAXBULK)
    requires rest' == Content(replies, p', raw, w, end, read', i')
    ensures len == MAXBULK ==> whole.bytes == done' + rest'.bytes && whole.pos == rest'.pos && whole.read == rest'.read
    ensures len != MAXBULK ==> whole == Progress(done', p', read')
  {
    var here := Shown(raw, w, read, end, Reply(replies, p), MAXBULK);
    var c := Content(replies, p, raw, w, end, read, i);
    if len == MAXBULK {
      assert c == Progress(here + rest'.bytes, rest'.pos, rest'.read);
      Bayer.Shift(done, here, rest'.bytes, whole.bytes);
    } else {
      assert c == Progress(here, p + 1, read');
    }
  }

  /**
   * Nothing past bayer_end is demosaiced: the content loop prints three
   * bytes per four raw bytes the cursor moves past, and the cursor never
   * passes the image end.  In raw mode the cursor does not move.
   */
  lemma {:induction false} ContentBound(replies: seq<Transfer>, p: nat, raw: bool, w: nat, end: int, read: nat, i: int)
    requires w > 0 && w % 2 == 0 && read <= end
    ensures var c := Content(replies, p, raw, w, end, read, i);
      read <= c.read <= end && (raw ==> c.read == read) && (!raw ==> 4 * |c.bytes| == 3 * (c.read - read))
    decreases end - i
  {
    if i < end {
      var t := Reply(replies, p);
      if Count(t, MAXBULK) == MAXBULK {
        ContentBound(replies, p + 1, raw, w, end, Moved(raw, w, read, end, t, MAXBULK), i + MAXBULK);
      }
    }
  }

  /**
   * The whole demosaiced capture is at most 3/4 of the image's raw size:
   * (w / 2) * (h / 2) RGB triples when end == w * h.
   */
  lemma CaptureBound(replies: seq<Transfer>, p: nat, w: nat, end: int)
    requires w > 0 && w % 2 == 0 && 0 <= end
    ensures var c := Capture(replies, p, false, w, end);
      c.read <= end && 4 * |c.bytes| == 3 * c.read
  {
    ContentBound(replies, p + 1, false, w, end, 0, 0);
  }

  // ---------------------------------------------------------------------
  // The cursor after the header, as written
  // ---------------------------------------------------------------------

  /**
   * bayer_read after dcm300_output on the header read that returned len:
   * dcm300_output_bayer moves it to bayer_from (0), but raw mode and a read
   * that returned nothing leave it at -64.
   */
  function CursorAfterHeader(raw: bool, len: int): int
  {
    if len > 0 && !raw then 0 else -64
  }

  /**
   * The first content read of the code as written goes to ring offset
   * 32704 exactly in raw mode or after a failed or empty header read, and
   * a MAXBULK-byte read there runs past the end of the ring.
   */
  lemma ContentReadOverrun(raw: bool, len: int)
    ensures (raw || len <= 0) <==> CursorAfterHeader(raw, len) % BAYER_CIRCULAR == 32704
    ensures (raw || len <= 0) <==> CursorAfterHeader(raw, len) % BAYER_CIRCULAR + MAXBULK > BAYER_CIRCULAR
  {
  }

  /** The header read's bytes lie before stream offset 0, so the demosaic has nothing to store. */
  lemma HeaderFits(w: nat, end: int, len: int)
    requires w > 0
    requires len <= 64
    ensures Bayer.Pairs(0, Min(-64 + len, end), w) == 0
    ensures 3 * Bayer.Stored(0, Min(-64 + len, end), w, RGB_MAX) <= RGB_MAX
  {
  }

  /** What dcm300_output did after the header read: raw bytes, or no pixels and the cursor at bayer_from. */
  lemma HeaderResult(ring: seq<byte>, t: Transfer, w: nat, end: int, raw: bool, len: int,
                     out0: seq<byte>, out1: seq<byte>, read1: int)
    requires |ring| == BAYER_CIRCULAR && w > 0 && len == Count(t, 64)
    requires ring[32704..32704 + |Taken(t, 64)|] == Taken(t, 64)
    requires len <= 0 ==> out1 == out0 && read1 == -64
    requires len > 0 && raw ==> read1 == -64 && out1 == out0 + ring[32704..32704 + len]
    requires len > 0 && !raw ==>
      var d := Bayer.Downscale(ring, w, 0, Min(-64 + len, end), RGB_MAX);
      read1 == d.next && out1 == out0 + d.rgb
    ensures out1 == out0 + (if raw then Taken(t, 64) else []) && read1 == CursorAfterHeader(raw, len)
  {
    if len > 0 && !raw {
      HeaderFits(w, end, len);
      assert Bayer.Downscale(ring, w, 0, Min(-64 + len, end), RGB_MAX) == Bayer.Downscaled([], 0);
    }
  }

  /** The pieces GetImage prints, and where its cursors end, make up the header text followed by Capture. */
  lemma CaptureParts(replies: seq<Transfer>, p: nat, raw: bool, w: nat, end: int, c: Progress,
                     out0: seq<byte>, out1: seq<byte>, out2: seq<byte>, out3: seq<byte>, text: seq<byte>,
                     pos3: nat, read3: int)
    requires w > 0 && w % 2 == 0 && c == Content(replies, p + 1, raw, w, end, 0, 0)
    requires out1 == out0 + text + (if raw then Taken(Reply(replies, p), 64) else [])
    requires out2 == out1 + c.bytes
    requires out3 == out2 + Shown(raw, w, c.read, end, Reply(replies, c.pos), 256)
    requires pos3 == c.pos + 1 && read3 == Moved(raw, w, c.read, end, Reply(replies, c.pos), 256)
    ensures out3 == out0 + text + Capture(replies, p, raw, w, end).bytes
    ensures pos3 == Capture(replies, p, raw, w, end).pos && read3 == Capture(replies, p, raw, w, end).read
  {
    var head := if raw then Taken(Reply(replies, p), 64) else [];
    var foot := Shown(raw, w, c.read, end, Reply(replies, c.pos), 256);
    assert Capture(replies, p, raw, w, end).bytes == head + c.bytes + foot;
    Regroup(out0 + text, head, c.bytes);
    Regroup(out0 + text, head + c.bytes, foot);
  }

  // ---------------------------------------------------------------------
  // Ring arithmetic
  // ---------------------------------------------------------------------

  /** Whole row pairs keep a stream offset's phase within a row pair. */
  lemma {:induction false} SpanPhase(a: nat, w: nat, n: nat)
    requires w > 0
    ensures (a + Bayer.Span(w, n)) % (2 * w) == a % (2 * w)
    decreases n
  {
    if n > 0 {
      SpanPhase(a, w, n - 1);
      var b := a + Bayer.Span(w, n - 1);
      assert b == 2 * w * (b / (2 * w)) + b % (2 * w);
      DivModUnique(b + 2 * w, 2 * w, b / (2 * w) + 1, b % (2 * w));
    }
  }

  /**
   * A cursor on a row-pair boundary of a width whose row pair divides
   * MAXBULK lies at least one row pair, and so 256 bytes, before the ring end.
   */
  lemma FooterFits(read: nat, w: nat)
    requires 128 <= w && MAXBULK % (2 * w) == 0 && read % (2 * w) == 0
    ensures read % BAYER_CIRCULAR + 256 <= BAYER_CIRCULAR
  {
    var m := 2 * w;
    var b := MAXBULK / m;
    assert MAXBULK == m * b;
    var q, off := read / BAYER_CIRCULAR, read % BAYER_CIRCULAR;
    var a := read / m;
    assert read == m * a;
    assert read == BAYER_CIRCULAR * q + off;
    assert off == m * a - m * (2 * b * q);
    assert off == m * (a - 2 * b * q);
    MulMono(m, a - 2 * b * q, 2 * b);
    MulMono(m, a - 2 * b * q, 2 * b - 1);
    assert m * (2 * b - 1) == BAYER_CIRCULAR - m;
  }

  /** The RGB of a chunk of at most MAXBULK bytes of an even-width image fits rgb_array. */
  lemma ChunkFits(w: nat, read: nat, end: int, n: nat)
    requires w > 0 && w % 2 == 0 && n <= MAXBULK
    ensures Bayer.Triples(w, ChunkPairs(w, read, end, n)) < Bayer.Limit(RGB_MAX)
    ensures 3 * Bayer.Stored(read, Min(read + n, end), w, RGB_MAX) <= RGB_MAX
  {
    Bayer.SpanTriples(w, ChunkPairs(w, read, end, n));
  }

  /**
   * After a read of got at ring offset read % BAYER_CIRCULAR that did not
   * wrap, dcm300_output_bayer on the ring computes the demosaic of got.
   */
  lemma ChunkOutput(ring: seq<byte>, got: seq<byte>, w: nat, read: nat, end: int)
    requires |ring| == BAYER_CIRCULAR && Bayer.Mirrors(ring, got, read)
    requires w > 0 && w % 2 == 0 && |got| <= MAXBULK
    ensures 3 * Bayer.Stored(read, Min(read + |got|, end), w, RGB_MAX) <= RGB_MAX
    ensures Bayer.Downscale(ring, w, read, Min(read + |got|, end), RGB_MAX) ==
      Bayer.Downscaled(Bayer.Rows(got, w, 0, ChunkPairs(w, read, end, |got|)),
                       read + Bayer.Span(w, ChunkPairs(w, read, end, |got|)))
  {
    var p := ChunkPairs(w, read, end, |got|);
    ChunkFits(w, read, end, |got|);
    Bayer.DownscaleBounds(ring, w, read, Min(read + |got|, end), RGB_MAX);
    Bayer.RowsMirror(ring, got, read, w, 0, p);
    var _ := Bayer.Last(read, Min(read + |got|, end), w);
  }

  /**
   * What dcm300_output did after the read, stated on the ring, is what
   * Shown and Moved say on the transfer's outcome.
   */
  lemma ChunkResult(ring: seq<byte>, t: Transfer, want: nat, w: nat, raw: bool, read: nat, end: int, len: int, off: nat,
                    out0: seq<byte>, out1: seq<byte>, read1: int)
    requires |ring| == BAYER_CIRCULAR && w > 0 && w % 2 == 0 && want <= MAXBULK
    requires off == read % BAYER_CIRCULAR && off + want <= BAYER_CIRCULAR && len == Count(t, want)
    requires ring[off..off + |Taken(t, want)|] == Taken(t, want)
    requires len <= 0 ==> out1 == out0 && read1 == read
    requires len > 0 && raw ==> read1 == read && out1 == out0 + ring[off..off + len]
    requires len > 0 && !raw ==>
      var d := Bayer.Downscale(ring, w, read, Min(read + len, end), RGB_MAX);
      read1 == d.next && out1 == out0 + d.rgb
    ensures out1 == out0 + Shown(raw, w, read, end, t, want) && read1 == Moved(raw, w, read, end, t, want)
  {
    var got := Taken(t, want);
    if len > 0 && !raw {
      Bayer.ReadMirrors(ring, got, read);
      ChunkOutput(ring, got, w, read, end);
    } else if !raw {
      assert ChunkPairs(w, read, end, |got|) == 0;
    }
  }

  /**
   * The guard irgb > RGB_MAX is checked after a triple is stored, so a call
   * can store RGB_MAX + 3 bytes, three past the end of a 12288-byte
   * rgb_array: with raw rows of 3 bytes, one 16384-byte chunk does.  Even
   * widths never get there (ChunkFits).
   */
  lemma OddWidthOverrun()
    ensures 3 * Bayer.Stored(0, MAXBULK, 3, RGB_MAX) == RGB_MAX + 3
  {
    Bayer.TriplesIs(3, Bayer.Pairs(0, MAXBULK, 3));
  }

  // ---------------------------------------------------------------------
  // struct dcm300 and the tool's operations
  // ---------------------------------------------------------------------

  /** sprintf into buf at off: the text followed by its terminating NUL; nothing else in buf changes. */
  method Store(buf: array<byte>, off: int, text: seq<byte>)
    requires 0 <= off && off + |text| < buf.Length
    modifies buf
    ensures buf[off..off + |text| + 1] == text + [0]
    ensures forall q :: 0 <= q < buf.Length && !(off <= q <= off + |text|) ==> buf[q] == old(buf[q])
  {
    var k := 0;
    while k < |text|
      invariant 0 <= k <= |text|
      invariant buf[off..off + k] == text[..k]
      invariant forall q :: 0 <= q < buf.Length && !(off <= q < off + k) ==> buf[q] == old(buf[q])
    {
      buf[off + k] := text[k];
      k := k + 1;
    }
    buf[off + |text|] := 0;
    assert buf[off..off + |text|] == text;
  }

  /** strlen of the NUL-terminated text at buf[off]: a NUL-free text is found whole. */
  method Strlen(buf: array<byte>, off: int, ghost text: seq<byte>) returns (n: int)
    requires 0 <= off && off + |text| < buf.Length && buf[off..off + |text| + 1] == text + [0]
    requires forall k :: 0 <= k < |text| ==> text[k] != 0
    ensures n == |text|
  {
    n := 0;
    while buf[off + n] != 0
      invariant 0 <= n <= |text|
      decreases |text| - n
    {
      assert buf[off..off + |text| + 1][n] == buf[off + n];
      n := n + 1;
    }
    assert buf[off..off + |text| + 1][n] == buf[off + n];
  }

  class Dcm300 {
    const x: u16
    const y: u16
    const w: u16
    const h: u16
    const exposure: u16
    const red: s8
    const green: s8
    const blue: s8
    /** Print the raw Bayer bytes instead of demosaicing them. */
    const raw: bool
    /** Stream offset where the next demosaic starts. */
    var bayerFrom: int
    /** Stream bytes read so far; its ring offset is where the next read goes. */
    var bayerRead: int
    /** Stream offset where the image ends. */
    var bayerEnd: int
    /** Bytes in one raw row. */
    var bayerWidth: int
    /** bayer_circular. */
    const ring: array<byte>
    /** Everything written to the output descriptor. */
    var out: seq<byte>

    predicate Valid()
      reads this
    {
      ring.Length == BAYER_CIRCULAR
    }

    /** The record is a zero-initialised global; main fills in the settings. */
    constructor(x: u16, y: u16, w: u16, h: u16, exposure: u16, red: s8, green: s8, blue: s8, raw: bool)
      ensures this.x == x && this.y == y && this.w == w && this.h == h && this.exposure == exposure
      ensures this.red == red && this.green == green && this.blue == blue && this.raw == raw
      ensures bayerFrom == 0 && bayerRead == 0 && bayerEnd == 0 && bayerWidth == 0 && out == []
      ensures Valid() && fresh(ring)
    {
      this.x, this.y, this.w, this.h, this.exposure := x, y, w, h, exposure;
      this.red, this.green, this.blue, this.raw := red, green, blue, raw;
      bayerFrom, bayerRead, bayerEnd, bayerWidth := 0, 0, 0, 0;
      ring := new byte[BAYER_CIRCULAR](_ => 0);
      out := [];
    }

    /** The members dcm300_create_request reads. */
    function Device(): Request.Device
      reads this
    {
      Request.Device(x, y, w, h, exposure, red, green, blue)
    }

    /**
     * dcm300_circular: the ring offset of the cursor.  The unsigned cast
     * adds 2^32 to a negative cursor, a multiple of the ring size, so the
     * offset is the cursor's residue modulo BAYER_CIRCULAR.
     */
    function Circular(): (off: nat)
      reads this
      requires -0x8000_0000 <= bayerRead < 0x8000_0000
      ensures off < BAYER_CIRCULAR && off == bayerRead % BAYER_CIRCULAR
    {
      var u := AsUnsigned(bayerRead);
      assert bayerRead < 0 ==> u == bayerRead + BAYER_CIRCULAR * 131072;
      u % BAYER_CIRCULAR
    }

    /**
     * dcm300_output_bayer: demosaic the whole row pairs between bayer_from
     * and bayer_read + len (clamped to bayer_end) into rgb_array, move both
     * cursors to where the demosaic stopped, and print the RGB bytes.
     * rgb_array has room for the three bytes stored before the guard
     * irgb > RGB_MAX is checked (see OddWidthOverrun for the 12288-byte array
     * as written), so the stores fit for every width.
     */
    method OutputBayer(len: int)
      requires Valid() && bayerWidth > 0 && bayerFrom >= 0
      modifies this
      ensures var d := Bayer.Downscale(ring[..], old(bayerWidth), old(bayerFrom), Min(old(bayerRead) + len, old(bayerEnd)), RGB_MAX);
        bayerFrom == d.next && bayerRead == d.next && out == old(out) + d.rgb && |d.rgb| <= RGB_MAX + 3
      ensures bayerEnd == old(bayerEnd) && bayerWidth == old(bayerWidth)
    {
      var stop := bayerRead + len;
      if stop > bayerEnd {
        stop := bayerEnd;
      }
      assert stop == Min(bayerRead + len, bayerEnd);
      ghost var d := Bayer.Downscale(ring[..], bayerWidth, bayerFrom, stop, RGB_MAX);
      Bayer.DownscaleBounds(ring[..], bayerWidth, bayerFrom, stop, RGB_MAX);
      var rgb := new byte[RGB_MAX + 3];
      var next, irgb := Bayer.DownscaleInto(ring, bayerWidth, bayerFrom, stop, RGB_MAX, rgb);
      assert next == d.next && rgb[..irgb] == d.rgb;
      bayerFrom := next;
      bayerRead := next;
      out := out + rgb[..irgb];
    }

    /** dcm300_output: after a read that returned len > 0, print it raw or demosaiced. */
    method Output(len: int)
      requires Valid() && -0x8000_0000 <= bayerRead < 0x8000_0000
      requires len > 0 && raw ==> Circular() + len <= BAYER_CIRCULAR
      requires len > 0 && !raw ==> bayerWidth > 0 && bayerFrom >= 0
      modifies this
      ensures bayerEnd == old(bayerEnd) && bayerWidth == old(bayerWidth)
      ensures len <= 0 ==> out == old(out) && bayerFrom == old(bayerFrom) && bayerRead == old(bayerRead)
      ensures len > 0 && raw ==>
        bayerFrom == old(bayerFrom) && bayerRead == old(bayerRead) &&
        out == old(out) + ring[old(Circular())..old(Circular()) + len]
      ensures len > 0 && !raw ==>
        var d := Bayer.Downscale(ring[..], old(bayerWidth), old(bayerFrom), Min(old(bayerRead) + len, old(bayerEnd)), RGB_MAX);
        bayerFrom == d.next && bayerRead == d.next && out == old(out) + d.rgb
    {
      if len > 0 {
        if raw {
          var off := Circular();
          out := out + ring[off..off + len];
        } else {
          OutputBayer(len);
        }
      }
    }

    /**
     * dcm300_output_header: format the header into the ring at the cursor
     * (NUL-terminated) and print it up to its NUL.
     */
    method OutputHeader()
      requires Valid() && -0x8000_0000 <= bayerRead < 0x8000_0000
      requires Circular() + 20 <= BAYER_CIRCULAR
      modifies this, ring
      ensures out == old(out) + HeaderText(raw, w, h)
      ensures bayerFrom == old(bayerFrom) && bayerRead == old(bayerRead)
      ensures bayerEnd == old(bayerEnd) && bayerWidth == old(bayerWidth)
      ensures ring[Circular()..Circular() + |HeaderText(raw, w, h)| + 1] == HeaderText(raw, w, h) + [0]
      ensures forall q :: 0 <= q < ring.Length && !(Circular() <= q <= Circular() + |HeaderText(raw, w, h)|) ==>
        ring[q] == old(ring[q])
    {
      var off := Circular();
      var text := HeaderText(raw, w, h);
      Store(ring, off, text);
      var n := Strlen(ring, off, text);
      assert ring[off..off + n] == ring[off..off + |text| + 1][..|text|];
      out := out + ring[off..off + n];
    }

    /**
     * The warm-up snapshot of 128 x 128 at offset 0, taken on a copy of the
     * record (dcm300small) and thrown away: one request, a 64-byte header
     * read, the content loop over 16384 bytes and a 256-byte footer read, all
     * into the copy's ring at the copied cursor, which never moves.
     */
    method WarmUp(port: Port)
      requires Valid() && -0x8000_0000 <= bayerRead < 0x8000_0000
      requires Circular() + MAXBULK <= BAYER_CIRCULAR
      modifies port
      ensures port.pos == old(port.pos) + 4
      ensures port.sent == old(port.sent) + [Request.CreateRequest(Request.Device(0, 0, 128, 128, exposure, red, green, blue))]
    {
      var small := new byte[BAYER_CIRCULAR];
      var off := Circular();
      var size := 128 * 128;
      var _ := port.Write(Request.CreateRequest(Request.Device(0, 0, 128, 128, exposure, red, green, blue)));
      var want := 64;
      var len := port.Read(small, off, want);
      len, want := MAXBULK, MAXBULK;
      var i := 0;
      ghost var count := 0;
      while i < size && len == want
        invariant want == MAXBULK && 0 <= count <= 1 && port.pos == old(port.pos) + 2 + count
        invariant port.sent == old(port.sent) + [Request.CreateRequest(Request.Device(0, 0, 128, 128, exposure, red, green, blue))]
        invariant count == 0 ==> i == 0 && len == want
        invariant count == 1 ==> !(i < size && len == want)
        decreases if len == want then size - i + 1 else 0
      {
        len := port.Read(small, off, want);
        i := i + len;
        count := count + 1;
      }
      want := 256;
      len := port.Read(small, off, want);
    }

    /**
     * One read at the cursor, followed by dcm300_output, after the header:
     * bayer_from and bayer_read are equal and on a row-pair boundary.
     */
    method Chunk(port: Port, want: int) returns (len: int)
      requires Valid() && bayerWidth == w as int && w > 0 && w % 2 == 0
      requires 0 <= bayerRead && bayerRead == bayerFrom && bayerRead <= bayerEnd < 0x8000_0000
      requires 0 <= want <= MAXBULK && Circular() + want <= BAYER_CIRCULAR
      modifies this, ring, port
      ensures port.pos == old(port.pos) + 1 && port.sent == old(port.sent)
      ensures len == Count(Reply(port.replies, old(port.pos)), want)
      ensures out == old(out) + Shown(raw, w, old(bayerRead), bayerEnd, Reply(port.replies, old(port.pos)), want)
      ensures bayerFrom == bayerRead == Moved(raw, w, old(bayerRead), bayerEnd, Reply(port.replies, old(port.pos)), want)
      ensures bayerEnd == old(bayerEnd) && bayerWidth == old(bayerWidth)
    {
      ghost var t, read, out0 := Reply(port.replies, port.pos), bayerRead, out;
      var off := Circular();
      len := port.Read(ring, off, want);
      Output(len);
      ChunkResult(ring[..], t, want, w, raw, read, bayerEnd, len, off, out0, out, bayerRead);
    }

    /**
     * dcm300_get_image with the cursor put back to stream offset 0 after the
     * header (see ContentReadOverrun for the code as written): the warm-up,
     * the request, the header, the content loop and the footer.  The widths
     * the proof covers are those whose row pair divides MAXBULK, from 128
     * bytes on (the tool uses 2048).
     */
    method GetImage(port: Port)
      requires Valid() && -0x8000_0000 <= bayerRead < 0x8000_0000
      requires Circular() + MAXBULK <= BAYER_CIRCULAR
      requires 128 <= w && w % 2 == 0 && MAXBULK % (2 * w) == 0 && w * h < 0x8000_0000
      modifies this, ring, port
      ensures var c := Capture(port.replies, old(port.pos) + 5, raw, w, bayerEnd);
        out == old(out) + HeaderText(raw, w, h) + c.bytes && port.pos == c.pos &&
        bayerFrom == c.read && bayerRead == c.read && bayerEnd == w * h && bayerWidth == w
      ensures port.sent == old(port.sent) + [Request.CreateRequest(Request.Device(0, 0, 128, 128, exposure, red, green, blue)),
                                             Request.CreateRequest(Device())]
    {
      MulNonNeg(w, h);
      ghost var sent0 := port.sent;
      ghost var warm := Request.CreateRequest(Request.Device(0, 0, 128, 128, exposure, red, green, blue));
      ghost var snap := Request.CreateRequest(Device());
      WarmUp(port);
      ghost var p, out0 := port.pos, out;
      var len := Header(port);
      bayerFrom, bayerRead := 0, 0;
      ghost var out1 := out;
      ContentLoop(port);
      ghost var c := Content(port.replies, p + 2, raw, w, bayerEnd, 0, 0);
      ghost var out2 := out;
      assert bayerRead == c.read && port.pos == c.pos;
      FooterFits(bayerRead, w);
      len := Chunk(port, 256);
      CaptureParts(port.replies, p + 1, raw, w, bayerEnd, c, out0, out1, out2, out, HeaderText(raw, w, h), port.pos, bayerRead);
      assert port.sent == sent0 + [warm] + [snap] == sent0 + [warm, snap];
    }

    /**
     * The request of the real snapshot and its 64-byte header read, with the
     * cursor at -64 so that the header lands in the last 64 bytes of the
     * ring: bayer_read ends as CursorAfterHeader says.
     */
    method Header(port: Port) returns (len: int)
      requires Valid() && 128 <= w && w * h < 0x8000_0000
      modifies this, ring, port
      ensures port.pos == old(port.pos) + 2 && port.sent == old(port.sent) + [Request.CreateRequest(Device())]
      ensures len == Count(Reply(port.replies, old(port.pos) + 1), 64)
      ensures out == old(out) + HeaderText(raw, w, h) + (if raw then Taken(Reply(port.replies, old(port.pos) + 1), 64) else [])
      ensures bayerFrom == 0 && bayerRead == CursorAfterHeader(raw, len)
      ensures bayerEnd == w * h && 0 <= bayerEnd < 0x8000_0000 && bayerWidth == w
    {
      MulNonNeg(w, h);
      var size := w * h;
      bayerFrom := 0;
      bayerRead := -64;
      bayerWidth := w;
      bayerEnd := bayerFrom + size;
      var _ := port.Write(Request.CreateRequest(Device()));
      OutputHeader();
      ghost var t, out0 := Reply(port.replies, port.pos), out;
      var off := Circular();
      assert off == 32704;
      len := port.Read(ring, off, 64);
      Output(len);
      HeaderResult(ring[..], t, w, bayerEnd, raw, len, out0, out, bayerRead);
    }

    /** The content loop of dcm300_get_image, from stream offset 0. */
    method ContentLoop(port: Port)
      requires Valid() && bayerWidth == w as int && 128 <= w && w % 2 == 0 && MAXBULK % (2 * w) == 0
      requires bayerRead == 0 && bayerFrom == 0 && 0 <= bayerEnd < 0x8000_0000
      modifies this, ring, port
      ensures var c := Content(port.replies, old(port.pos), raw, w, bayerEnd, 0, 0);
        out == old(out) + c.bytes && port.pos == c.pos && bayerFrom == c.read && bayerRead == c.read
      ensures port.sent == old(port.sent) && bayerEnd == old(bayerEnd) && bayerWidth == old(bayerWidth)
      ensures 0 <= bayerRead <= bayerEnd && (raw ==> bayerRead == 0) && bayerRead % (2 * w) == 0
    {
      ghost var whole := Content(port.replies, port.pos, raw, w, bayerEnd, 0, 0);
      ghost var rest := whole;
      ghost var done: seq<byte> := [];
      ghost var out0 := out;
      var size := bayerEnd;
      var len, want := MAXBULK, MAXBULK;
      var i := 0;
      ghost var k: nat := 0;
      while i < size && len == want
        invariant Valid() && bayerWidth == w as int && bayerEnd == size == old(bayerEnd) && want == MAXBULK
        invariant 0 <= bayerRead == bayerFrom <= bayerEnd && (raw ==> bayerRead == 0) && bayerRead % (2 * w) == 0
        invariant len == MAXBULK ==> i == k * MAXBULK
        invariant len == MAXBULK && i < size && !raw ==> bayerRead == i
        invariant port.sent == old(port.sent) && out == out0 + done
        invariant len == MAXBULK ==> rest == Content(port.replies, port.pos, raw, w, size, bayerRead, i)
        invariant len == MAXBULK ==> whole.bytes == done + rest.bytes && whole.pos == rest.pos && whole.read == rest.read
        invariant len != MAXBULK ==> whole == Progress(done, port.pos, bayerRead)
        decreases if len == want then size - i + 1 else 0
      {
        AlignedReadFits(k);
        ghost var t, read, done0, p0, i0 := Reply(port.replies, port.pos), bayerRead, done, port.pos, i;
        len := Chunk(port, want);
        Regroup(out0, done, Shown(raw, w, read, size, t, MAXBULK));
        done := done + Shown(raw, w, read, size, t, MAXBULK);
        CursorNext(raw, w, read, size, t, i, len);
        i := i + len;
        k := k + 1;
        rest := Content(port.replies, port.pos, raw, w, size, bayerRead, i);
        ContentNext(port.replies, p0, raw, w, size, read, i0, done0, whole, len, port.pos, bayerRead, i, done, rest);
      }
    }
  }
}
