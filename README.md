# DCM300 capture-and-demosaic engine in Dafny

This project models the capture engine of the DCM300 USB camera driver. The engine exists twice:

- the standalone tool, `dcm300.c` and `dcm300.h`;
- the SANE backend, `sane-dcm300.c`.

Both send a 64-byte snapshot request and read the raw RGGB Bayer frame in bulk chunks. Each chunk lands in a 32768-byte ring, addressed by ever-growing stream offsets. Every 2x2 block of the raw image becomes one R, G, B triple, so the image comes out at half resolution.

The model has seven modules, one per file:

- `Dcm300Types` (`types.dfy`):
  - the sizes and constants of `dcm300.h`;
  - the C integer conversions the code relies on: byte stores, the unsigned cast, 32-bit wrap-around and C's truncating `%`.
- `Transport` (`transport.dfy`):
  - the USB bulk endpoints as a `Port` object;
  - each transfer consumes the next of a given sequence of outcomes: the bytes delivered, or an error;
  - every write is recorded.
- `Request` (`request.dfy`):
  - `struct dcm300_request` as a byte layout with a decoder;
  - both copies of `dcm300_create_request`, proved to fill exactly that layout;
  - a proof that the two copies agree byte for byte.
- `Bayer` (`bayer.dfy`):
  - the demosaic loops shared by `dcm300_output_bayer` and `bayer_circular_downscale`, as an array method (`DownscaleInto`);
  - the method is proved against a specification function (`Downscale`), with the output guard and the forced exit included;
  - a pure demosaic of a linear stream, and the ring invariant (`Mirrors`) under which the ring loops compute it.
- `ForcedExit` (`forced.dfy`): what a call interrupted by the output guard has stored, and where it leaves the cursor.
- `Standalone` (`standalone.dfy`):
  - `struct dcm300` as the class `Dcm300`, with its cursor fields and its ring;
  - `dcm300_circular`, `dcm300_output_bayer`, `dcm300_output` and `dcm300_output_header`;
  - `dcm300_get_image`, proved against `Capture`, a specification of a capture given on the transfer outcomes.
- `Backend` (`backend.dfy`):
  - `dcm300_scan`, proved against `ScanSpec`: two passes, the read windows that never cross the ring end, the live window and the `rgb_done`/`rgb_left` accounting, and the gated, cropped emission;
  - `writefunc` as the class `WriteInfo`;
  - `calculateDerivedValues` and `dcm300_scan_test`.

The central backend result is in `Backend.Pass`:

- a finished pass holds in `rgbimage` a prefix of `Demosaic(stream)`, the demosaic of all the bytes it received;
- the prefix is as long as `rgbimage` allows;
- so the image depends on the received bytes only, not on how the camera chunked them.

`Backend.ScanEmitsIff` and `Backend.ScanComplete` then say when an image reaches the callback, and what it is.

Three behaviours of the code are worth knowing:

- **The standalone tool ignores every transport error.** A failed write never stops the capture. A failed or empty content read prints nothing; a short one prints its whole row pairs; either ends the loop, and the footer read is still made.
  - In the backend, a failed content read does not abort the pass either. The footer read still happens.
  - Only a failed request write, header read or footer read aborts (`Backend.PassSpec`).
- **The standalone tool's output is not independent of chunking.** After each read it moves `bayer_read` to the last whole row pair, so the next read overwrites the tail of the previous one (`Standalone.TailDropped`).
  - Chunking independence holds only when every chunk ends on a row-pair boundary (`Standalone.ContentWhole`).
  - The backend does keep the tail (`Backend.Pass`).
- **The two request encoders differ in form but not in bytes.** The standalone tool sets gamma (0xbf at offset 14) as a named member, and the backend's struct calls that byte `unknown3a`. Both layouts are the same 64 bytes (`Request.SameRequestBytes`).

## Model

| member | source | states |
|---|---|---|
| Dcm300Types.ToByte | dcm300.c:163-179 | storing an int into an unsigned char keeps it modulo 256, and keeps values already in 0..255 |
| Dcm300Types.SignedOf | dcm300.h:102 | a char read back as a signed value is a value whose stored byte is the one read |
| Dcm300Types.SignedRoundTrip | dcm300.c:177-179 | an s8 gain stored in a char and read back is unchanged: gains are copied bit for bit |
| Dcm300Types.AddU32 | sane-dcm300.c:1303-1304 | unsigned int addition is exact below 2^32 and wraps by 2^32 above |
| Dcm300Types.AsUnsigned | dcm300.c:234 | the (unsigned int) cast keeps a non-negative int and adds 2^32 to a negative one |
| Dcm300Types.CRem | sane-dcm300.c:1329 | C's % truncates toward zero: the remainder lies in [0, b) for a >= 0 and in (-b, 0] for a < 0, and a - r is always a multiple of b; r == a when -b < a < b |
| Dcm300Types.SplitJoin | dcm300.c:163-175 | joining the stored low byte v % 256 and high byte v / 256 gives v modulo 2^16 |
| Dcm300Types.WordSplit | dcm300.h:91-100 | splitting a stored 16-bit member gives back its two bytes |
| Dcm300Types.SplitWraps | dcm300.c:174-175 | the two bytes stored for v depend only on v modulo 2^16 |
| Dcm300Types.AlignedReadFits | dcm300.h:8-9 | a read at a multiple of MAXBULK starts at ring offset 0 or 16384, and a MAXBULK-byte read there never wraps |
| Dcm300Types.SizingRelations | dcm300.h:8-10 | BAYER_CIRCULAR is twice MAXBULK; RGB_MAX is 12288, a multiple of 3, and 3/4 of a MAXBULK chunk |
| Transport.Taken | sane-dcm300.c:1469 | a read of at most want bytes delivers a prefix of what the camera sent, min(sent, want) long, and nothing on an error |
| Transport.Count | dcm300.c:399 | the read's return value is negative exactly on an error, else the number of bytes delivered; it equals want exactly when the camera sent at least want bytes |
| Transport.Port.Write | sane-dcm300.c:1445-1451 | the write is recorded and consumes one outcome; it succeeds exactly when that outcome is not an error |
| Transport.Port.Read | sane-dcm300.c:1469-1474 | the delivered bytes are stored from buf[at] on; nothing else in buf changes; the count is returned; nothing is recorded as sent |
| Request.Layout | dcm300.h:80-106 | the struct is 64 bytes long |
| Request.Decode | dcm300.h:80-106 | a packet decodes exactly when its constant bytes (0x2c, 0x0e, 0x01, 0x20, 0x05, 0x02) and zero padding are in place |
| Request.DecodeLayout | dcm300.h:80-106 | every layout is well framed and decodes to the fields it was built from |
| Request.LayoutDecode | dcm300.h:80-106 | a well-framed packet is the layout of its decoded fields: decoding loses nothing |
| Request.CreateRequest | dcm300.c:151-184 | the tool's request is 64 bytes long |
| Request.CreateRequestLayout | dcm300.c:151-184 | the tool's memset plus member stores give exactly the layout of: gamma 191, h and w as resolution, x and y as offsets, offset_x_hlo/hhi zero, exposure + 20 modulo 2^16, and the gain bit patterns |
| Request.CreateRequestDecodes | dcm300.c:151-184 | decoding the tool's request gives back those fields |
| Request.ExposureHighByteWraps | dcm300.c:174-175 | exposure 65535 is sent as 19, 0: the high byte of exposure + 20 wraps |
| Request.CreateSnapshotRequest | sane-dcm300.c:1279-1312 | the backend's request is 64 bytes long |
| Request.CreateSnapshotRequestLayout | sane-dcm300.c:1279-1312 | the backend's fill gives exactly the layout of its snapshot, with every u32 truncated to 16 bits |
| Request.SameRequestBytes | sane-dcm300.c:1279-1312 | given the same geometry, exposure and gain bytes, the backend's request is byte for byte the tool's |
| Bayer.Pixel | dcm300.c:271-273 | a block becomes R, G, B: R and B copied, G the mean of the two greens rounded down |
| Bayer.RingRow | dcm300.c:269-273 | c passes of the inner loop store 3c bytes |
| Bayer.RingRows | dcm300.c:267-280 | n row pairs store 3 * Triples(w, n) bytes |
| Bayer.TriplesIs | dcm300.c:267-269 | n row pairs hold n * ((w + 1) / 2) inner-loop passes |
| Bayer.SpanIs | dcm300.c:267 | n row pairs span 2 * w * n raw bytes |
| Bayer.RowPrefix | dcm300.c:269-278 | stopping a row early stores a prefix of the whole row |
| Bayer.Row | sane-dcm300.c:1334-1338 | the demosaic of c blocks of a row pair in a linear stream has 3c bytes |
| Bayer.Rows | sane-dcm300.c:1332-1345 | the demosaic of n row pairs of a linear stream has 3 * Triples(w, n) bytes |
| Bayer.RowAt | sane-dcm300.c:1336-1338 | block x of a row is the pixel of raw bytes 2x and 2x + 1 of the row pair's two rows |
| Bayer.RowsAt | sane-dcm300.c:1332-1338 | image row y is the row pair Span(w, y) bytes in: raw rows 2y and 2y + 1 |
| Bayer.SpanTriples | sane-dcm300.c:1391-1411 | for even widths, 3/4 of the raw bytes come out as RGB bytes |
| Bayer.SpanMono | dcm300.c:267 | fewer row pairs span fewer bytes |
| Bayer.SpanAdd | dcm300.c:267 | the span of m + n row pairs is the sum of the spans |
| Bayer.RowsSplit | sane-dcm300.c:1332 | the image of n row pairs is that of the first m, then that of the rest |
| Bayer.RowsExtend | sane-dcm300.c:1332-1338 | the image of row pairs received does not change when more bytes arrive |
| Bayer.RowsDrop | sane-dcm300.c:1332-1338 | row pairs after a prefix read the same bytes from the rest of the stream |
| Bayer.RowsAppend | sane-dcm300.c:1465-1475 | demosaicing a stream in pieces that end on row-pair boundaries gives the image of the whole stream |
| Bayer.ReadMirrors | sane-dcm300.c:1469 | a read stored at ring offset read % 32768 puts stream byte read + k at ring offset (read + k) % 32768 |
| Bayer.MirrorsAppend | sane-dcm300.c:1468-1469 | a read stored right after the live window, without wrapping, extends the window, while it stays within one ring |
| Bayer.RowMirror | sane-dcm300.c:1336-1338 | while the ring holds the stream, the inner loop over the ring computes the stream's demosaic row |
| Bayer.RowsMirror | sane-dcm300.c:1332-1338 | while the ring holds the stream, the loops over the ring compute the demosaic of the stream |
| Bayer.Last | dcm300.c:261 | bayer_last is from plus whole row pairs: from <= last <= stop < last + 2w; it is not above from when stop < from, and equals from when stop lies less than one row pair below from |
| Bayer.GuardAt | dcm300.c:274 | the guard irgb > cap first holds after triple cap / 3 + 1 |
| Bayer.RunBounds | dcm300.c:267-285 | a call stores min(triples available, limit) triples, a prefix of the demosaic of its row pairs, and leaves the start within them |
| Bayer.RunComplete | dcm300.c:267-285 | without the guard firing, a call stores every row pair and the start moves past all of them |
| Bayer.DownscaleBounds | sane-dcm300.c:1329-1351 | one call stores at most cap + 3 bytes, a prefix of the demosaic of the row pairs in [from, stop); the start stays in [from, last]; without a forced exit it stores them all and ends at last |
| Bayer.StoreTriple | dcm300.c:271-273 | the three stores of the loop body append the block's triple |
| Bayer.StoreRowPair | dcm300.c:269-279 | the inner loop stores the whole row pair, or its first k triples when the guard fires (and then reports the forced exit) |
| Bayer.DownscaleInto | dcm300.c:261-285 | the loops of both downscalers store exactly Downscale's bytes and return its new start |
| ForcedExit.RestIs | sane-dcm300.c:1339-1349 | triple k is one of the first Columns(w) triples of row pair Done(w, k), which starts Span(w, Done(w, k)) bytes on |
| ForcedExit.BeforeRows | sane-dcm300.c:1332-1345 | the whole row pairs stored before the forced exit are the demosaic of the first Done(w, k) row pairs |
| ForcedExit.RunSplit | sane-dcm300.c:1332-1349 | a forced exit after k triples stores the whole row pairs before triple k, then a prefix of triple k's row pair |
| ForcedExit.RunForced | sane-dcm300.c:1339-1351 | a forced exit stores exactly 3k bytes and leaves *bayer_start at the row pair holding triple k, inside the call's row pairs |
| Backend.Mask | sane-dcm300.c:1413-1414 | 0xfff0 & v is a multiple of 16 below 2^16, and not above v; it is v itself for 16-bit multiples of 16 |
| Backend.DeviceResolution | sane-dcm300.c:1413-1414 | the requested resolution is a multiple of 16 below 2^16 |
| Backend.ResolutionIs | sane-dcm300.c:1388-1441 | the fixed 1024 x 768 output asks for an even-width 2048 x 1536 raw frame: 192 chunks, and 3/4 of it is rgbimage |
| Backend.ContentWant | sane-dcm300.c:1467 | a content read wants a full chunk, or exactly what is left of the image |
| Backend.FooterWant | sane-dcm300.c:1488 | the footer read wants a full chunk, or what is left of the image plus 256 bytes |
| Backend.ReadWindow | sane-dcm300.c:1468 | bulk_len never crosses the ring end; it is bulk_want exactly when that fits, else it stops at the ring end |
| Backend.AlignedWindow | sane-dcm300.c:1468 | at chunk-aligned positions the window is never cut |
| Backend.ContentReads | sane-dcm300.c:1465-1485 | the content loop never receives more than the image and makes at least one transfer when the image is incomplete |
| Backend.PassSpec | sane-dcm300.c:1437-1505 | a pass makes at least one transfer and receives at most the image plus the 256 trailing bytes |
| Backend.Demosaic | sane-dcm300.c:1391-1411 | the half-resolution image of a raw stream has at most 3/4 of its bytes |
| Backend.ScanSpec | sane-dcm300.c:1433-1520 | an image handed out has exactly 3 * 1024 * 768 bytes |
| Backend.Frame | sane-dcm300.c:1506-1516 | an image handed out has exactly 3 * 1024 * 768 bytes |
| Backend.ContentComplete | sane-dcm300.c:1465-1485 | when the remaining content reads deliver full chunks, the loop receives the rest of the image exactly, one transfer per chunk |
| Backend.FrameIff | sane-dcm300.c:1506-1516 | the image is handed out exactly when the pass received the whole raw frame, and it is then the demosaic of the frame |
| Backend.ScanEmitsIff | sane-dcm300.c:1433-1516 | the scan hands out an image exactly when both passes finished and the real pass received the whole raw frame |
| Backend.PassComplete | sane-dcm300.c:1445-1505 | a pass whose write, header and footer succeed and whose 192 content reads deliver full chunks receives the whole frame |
| Backend.ScanComplete | sane-dcm300.c:1433-1516 | then, in the real pass, the scan hands out the demosaic of the first image_len raw bytes |
| Backend.ScratchFits | sane-dcm300.c:1339-1343 | the backend's guard bounds a call's output by 3*8192 + 3 bytes, inside the 49152-byte rgb scratch array |
| Backend.ForcedExitRepeats | sane-dcm300.c:1339-1351 | after a forced exit, *bayer_start is the start of the interrupted row pair and still before bayer_last; the bytes stored for that row pair are produced again first by the next call from there |
| Backend.BayerCircularDownscale | sane-dcm300.c:1317-1352 | bayer_circular_downscale stores Downscale's bytes (at most 3*8192 + 3) into rgb and returns its new start |
| Backend.NoForcedExit | sane-dcm300.c:1465-1475 | a window shorter than a row pair plus a chunk never reaches the guard |
| Backend.WindowAdvance | sane-dcm300.c:1475 | downscaling the live window extends the image by its whole row pairs and moves bayer_from to the last row-pair boundary, keeping the window live |
| Backend.WindowExtends | sane-dcm300.c:1468-1469 | a read at bytes_read % 32768 extends the live window by the bytes received |
| Backend.Advanced | sane-dcm300.c:1469-1475 | after a read and a downscale, the window is live again and the image grows by the downscaled bytes |
| Backend.Accumulate | sane-dcm300.c:1476-1483 | the copy keeps rgb_done + rgb_left == 3*w*h, copies only in pass j == 1, and keeps rgbimage equal to the start of all bytes demosaiced |
| Backend.Ingest | sane-dcm300.c:1467-1483 | one read into the ring, downscale and copy: the stream grows by the bytes received; the window and copy invariants hold |
| Backend.ContentTurn | sane-dcm300.c:1465-1485 | one turn of the content loop goes on exactly when the read delivered bulk_want bytes; what the rest of the loop receives is still ContentReads' |
| Backend.ContentLoop | sane-dcm300.c:1461-1485 | the content loop receives exactly ContentReads' bytes and makes exactly its transfers; bytes_read ends at most image_len; window and copy invariants hold |
| Backend.ContentStep | sane-dcm300.c:1465-1485 | a content read that delivers what it wanted goes on to the next; any other outcome ends the loop with what it delivered |
| Backend.Pass | sane-dcm300.c:1437-1505 | a pass writes the request, makes exactly PassSpec's transfers, and finishes exactly as PassSpec says; when copying, rgbimage then holds min(|image|, 3*w*h) bytes of the demosaic of everything received |
| Backend.DeliveredPrefix | sane-dcm300.c:1531-1546 | clamped writes pass on exactly the joined rows up to the budget, and never more than the budget |
| Backend.WriteInfo.constructor | sane-dcm300.c:1602-1603 | the budget is bytes_per_scan_line * scan_height_pixels, and nothing has been written yet |
| Backend.WriteInfo.Write | sane-dcm300.c:1527-1547 | writefunc passes on min(bytes, bytesleft) bytes and lowers bytesleft by as much, never below 0; it returns 0 exactly when it is handed bytes while the budget is already spent, and 1 otherwise |
| Backend.RowInImage | sane-dcm300.c:1510-1511 | a row slice of n pixels from (x, y) inside 1024 x 768 lies inside rgbimage |
| Backend.CropRow | sane-dcm300.c:1511 | a cropped row holds 3 * w1 bytes |
| Backend.CropPixel | sane-dcm300.c:1510-1511 | the crop holds h1 rows of 3 * w1 bytes, and pixel c of cropped row i is image pixel (x1 + c, y1 + i) |
| Backend.EmitRows | sane-dcm300.c:1510-1511 | the callback loop passes on the crop, cut to the budget, and lowers the budget by as much |
| Backend.CropFitsBudget | sane-dcm300.c:1602-1603 | with the budget reader_process sets, the whole crop reaches the pipe |
| Backend.Repeat | sane-dcm300.c:1437-1445 | n started passes write n copies of the same request |
| Backend.ScanPasses | sane-dcm300.c:1433-1520 | an aborted warm-up ends the scan; otherwise the real pass decides what is handed out |
| Backend.DoneIsFrame | sane-dcm300.c:1506-1516 | after the real pass, rgb_done == 3*w*h exactly when the scan hands out an image, and rgbimage then holds it |
| Backend.Turn | sane-dcm300.c:1437-1516 | one turn of the j loop makes a pass, then hands out the crop exactly when the pass filled rgbimage |
| Backend.Scan | sane-dcm300.c:1356-1523 | dcm300_scan makes ScanSpec's transfers and writes one request per pass started; the pipe gets the crop of ScanSpec's image cut to the budget, or nothing; it returns 0 |
| Backend.DerivedCropFits | sane-dcm300.c:1165-1185 | with ordered corners inside 1024 x 768, width and height cover exactly the columns and rows asked for, and every cropped row slice lies inside rgbimage |
| Backend.TestLine | sane-dcm300.c:1227-1232 | the test line holds 3 * w bytes |
| Backend.TestLinePixels | sane-dcm300.c:1227-1232 | every test pixel is the three gains, truncated to bytes |
| Backend.FillTestLine | sane-dcm300.c:1227-1232 | the first loop fills the line with w test pixels |
| Backend.ScanTest | sane-dcm300.c:1213-1238 | dcm300_scan_test passes h copies of the test line, cut to the budget, and returns 0 |
| Standalone.Decimal | dcm300.c:321 | %d prints at least one ASCII digit, at most five for numbers below 100000 |
| Standalone.DecimalRoundTrip | dcm300.c:321 | reading back the digits %d prints gives the number |
| Standalone.PpmHeader | dcm300.c:321 | the header starts "P6\n", ends "\n255\n", and holds no NUL |
| Standalone.HeaderText | dcm300.c:318-321 | the header is empty exactly in raw mode, at most 19 bytes long, and NUL-free, so strlen finds all of it |
| Standalone.ChunkPairs | dcm300.c:257-261 | the row pairs processed after a read fit in the bytes delivered and do not pass bayer_end |
| Standalone.Moved | dcm300.c:284-285 | in raw mode the cursor stays; otherwise it moves, but not past the bytes delivered or bayer_end |
| Standalone.Shown | dcm300.c:297-307 | raw mode prints the bytes delivered; otherwise three RGB bytes are printed for every four raw bytes the cursor moves past |
| Standalone.TailDropped | dcm300.c:284-285 | the cursor reaches the end of the bytes delivered exactly when they end on a row-pair boundary; otherwise their tail is overwritten by the next read |
| Standalone.ShortReadDropsTail | dcm300.c:284-285 | a 100-byte read of a 256-byte-wide image leaves the cursor where it was |
| Standalone.ContentWhole | dcm300.c:396-402 | when every content read delivers a whole chunk, the bytes printed chunk by chunk are the demosaic of the joined stream, and the cursor ends at the image end |
| Standalone.CursorNext | dcm300.c:397-401 | after a content read the cursor stays on a row-pair boundary, stays at 0 in raw mode, and after a whole chunk has moved by exactly one chunk |
| Standalone.ContentBound | dcm300.c:396-402 | the content loop prints three bytes per four raw bytes the cursor passes, and the cursor never passes bayer_end |
| Standalone.CaptureBound | dcm300.c:379-406 | a whole demosaiced capture is 3/4 of the raw bytes it consumes, at most w * h of them |
| Standalone.ContentReadOverrun | dcm300.c:381-399 | as written, the first content read goes to ring offset 32704 exactly in raw mode or after an empty or failed header read, and a chunk there runs past the ring end |
| Standalone.HeaderFits | dcm300.c:388-395 | the header's bytes lie before stream offset 0, so no pixel comes out of them |
| Standalone.CaptureParts | dcm300.c:388-406 | the header read, the content loop and the footer read together print the header text followed by Capture's bytes, and leave the transfer count and cursor where Capture says |
| Standalone.HeaderResult | dcm300.c:388-395 | after the header read the output gains the raw header (raw mode) or nothing, and bayer_read is as CursorAfterHeader says |
| Standalone.FooterFits | dcm300.c:403-404 | a cursor on a row-pair boundary leaves room for the 256-byte footer read before the ring end |
| Standalone.ChunkFits | dcm300.c:242-278 | for even widths, the demosaic of one chunk never reaches the guard and fits the 12288-byte rgb_array |
| Standalone.ChunkOutput | dcm300.c:255-285 | after a read that did not wrap, dcm300_output_bayer stores the demosaic of the bytes read and moves to their last row pair |
| Standalone.ChunkResult | dcm300.c:399-401 | what dcm300_output does after a read is what Shown and Moved say |
| Standalone.OddWidthOverrun | dcm300.c:242-278 | with 3-byte raw rows, one chunk makes dcm300_output_bayer store RGB_MAX + 3 bytes |
| Standalone.Store | dcm300.c:316-321 | sprintf leaves the text followed by a NUL at the buffer, and changes nothing else in the ring |
| Standalone.Strlen | dcm300.c:323 | strlen of a NUL-terminated, NUL-free text is the text's length |
| Standalone.Dcm300.constructor | dcm300.h:60-76 | the record starts zeroed, with the given settings and a ring of BAYER_CIRCULAR bytes |
| Standalone.Dcm300.Circular | dcm300.c:232-235 | the ring offset is bayer_read modulo 32768, in [0, 32768), negative cursors included |
| Standalone.Dcm300.OutputBayer | dcm300.c:239-294 | the cursors move to Downscale's new start and the output gains Downscale's bytes, at most RGB_MAX + 3 |
| Standalone.Dcm300.Output | dcm300.c:297-307 | nothing happens for len <= 0; raw mode prints len ring bytes from the cursor and never moves it; else dcm300_output_bayer |
| Standalone.Dcm300.OutputHeader | dcm300.c:310-326 | the header is formatted into the ring at the cursor, NUL-terminated, and printed up to its NUL; nothing else in the ring changes |
| Standalone.Dcm300.WarmUp | dcm300.c:342-359 | the warm-up sends the 128 x 128 request and makes four transfers |
| Standalone.Dcm300.Chunk | dcm300.c:399-401 | one read at the cursor then dcm300_output: the output gains Shown's bytes and both cursors move to Moved |
| Standalone.Dcm300.Header | dcm300.c:379-395 | the real request is sent; the header read follows; the output gains the PPM header (and in raw mode the raw header); bayer_end is w * h |
| Standalone.Dcm300.ContentLoop | dcm300.c:396-402 | the content loop prints exactly Content's bytes, makes its transfers, and leaves the cursor on a row-pair boundary within the image |
| Standalone.Dcm300.GetImage | dcm300.c:328-409 | a capture sends the warm-up and real requests, prints the header followed by Capture's bytes, and makes exactly Capture's transfers |

## Left out

- USB discovery and I/O are not modelled: `dcm300_find_hardware`, the hardware and simulation read/write functions, `sanei_usb_*` and libusb. A transfer is an outcome taken from a sequence given to `Transport.Port`.
- Error codes other than "failed" are not distinguished; `Transport.Count` returns -1 for all of them.
- The SANE front end is not modelled. This covers `sane_*`, the option handling, `attachScanner`, `reader_process`, the pipe and thread handling, the signal handler and `do_cancel`, all of which are process management and concurrency. Only the budget `reader_process` sets (`WriteInfo.constructor`) is used.
- `main.c` (command-line parsing), logging (`DBG`, `printhex`, the `fprintf` progress marks) and the Bluetooth declarations of `dcm300.h` are not modelled.
- `write()` to stdout or the pipe is an append to a `seq` (`Dcm300.out`, `WriteInfo.pipe`). A short or failed `write()` is not modelled: `WriteInfo.Write` returns 1 whenever it passes bytes on.
- The callback of `dcm300_scan` and `dcm300_scan_test` is always `writefunc` (`WriteInfo.Write`).
- Standalone.Dcm300.WarmUp: states only the transfers and the request. The bytes it reads into its own copy of the record are thrown away, like the copy itself.
- Standalone.Dcm300.GetImage: requires raw widths of at least 128 bytes whose row pair divides MAXBULK (the width `main.c` sets, 2048, does). With other widths a read can cross the ring end, because `bayer_read` moves only to the last whole row pair. It also requires `w * h` to fit an int.
- Standalone.Dcm300.GetImage: resets the cursor to 0 after the header; see Findings.
- Backend.Pass: requires an even raw width of at most 8192 bytes, so that a row pair and a chunk fit in the ring. The backend always uses 2048.
- Backend.Scan: requires the crop inside 1024 x 768. `calculateDerivedValues` does not check that the corners are ordered, and with unordered corners the cropped rows would lie outside `rgbimage`.
- Backend.ScanTest: requires `w <= 1024`, the size of `rgbline`.
- Backend.DerivedCropFits: `DerivedValues` follows `calculateDerivedValues` on plain ints. Unsigned wrap-around of `right - left + 1` for unordered corners is not modelled.
- Bayer.DownscaleInto: its stores go to an array at least as large as the call's output. Odd widths, where the pixel formula reads one byte past its row pair, are covered by the ring functions but not by the stream demosaic (`Bayer.Rows`).

## Findings

| source | as written | input that shows it | evidently intended | confidence | as-written member | corrected member |
|---|---|---|---|---|---|---|
| dcm300.c:381-399 | `bayer_read` is set to -64 for the header and moved to 0 only by `dcm300_output_bayer`. In raw mode, or when the header read returns 0 bytes or an error, it stays -64, and every content read of MAXBULK bytes goes to ring offset 32704 | raw mode (`raw = 1`, set by `main.c` when the raw option is given), or a header read returning 0 or an error | content reads start at ring offset 0 after the header, so no read crosses the ring end | not executed | Standalone.ContentReadOverrun | Standalone.Dcm300.GetImage |
| dcm300.c:242-278 | the guard `irgb > RGB_MAX` is checked after a triple is stored, so a call can store RGB_MAX + 3 bytes into the 12288-byte `rgb_array` | a `struct dcm300` with `w = 3` and one full 16384-byte chunk; `main.c` always sets `w = 2048`, so only another caller of `dcm300_get_image` reaches it | the stores always fit `rgb_array` | not executed | Standalone.OddWidthOverrun | Standalone.Dcm300.OutputBayer |
