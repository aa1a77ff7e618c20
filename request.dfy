/**
 * The 64-byte snapshot request (struct dcm300_request, dcm300.h) and the two
 * copies of dcm300_create_request that fill it: the standalone tool's, from a
 * struct dcm300, and the SANE backend's, from a struct dcm300_snapshot.
 */
module Request {
  import opened Dcm300Types

  /** Everything that varies between requests, as it sits in the packet. */
  datatype Fields = Fields(
    gamma: byte,
    resolutionY: u16,
    resolutionX: u16,
    offsetX: u16,
    offsetXHigh: u16,
    offsetY: u16,
    exposure: u16,
    gainRed: byte,
    gainGreen: byte,
    gainBlue: byte)

  // Byte offsets of the struct members.
  const OFF_GAMMA := 14
  const OFF_RESOLUTION_Y := 16
  const OFF_RESOLUTION_X := 20
  const OFF_OFFSET_X := 24
  const OFF_OFFSET_X_HIGH := 26
  const OFF_OFFSET_Y := 28
  const OFF_EXPOSURE := 32
  const OFF_GAINS := 36

  /** Offsets that belong to a member other than padding or a protocol constant. */
  predicate IsFieldOffset(k: int) {
    || k == OFF_GAMMA
    || OFF_RESOLUTION_Y <= k < OFF_RESOLUTION_Y + 2
    || OFF_RESOLUTION_X <= k < OFF_RESOLUTION_X + 2
    || OFF_OFFSET_X <= k < OFF_OFFSET_Y + 2
    || OFF_EXPOSURE <= k < OFF_EXPOSURE + 2
    || OFF_GAINS <= k < OFF_GAINS + 3
  }

  /**
   * The protocol constants (unknown1a 0x2c at 0, unknown1b 0x0e at 2,
   * unknown1c 0x01 at 4, unknown2 0x20 at 12, unknown3 0x05 at 15, unknown9
   * 0x02 at 40) and the zero padding everywhere else outside the members.
   */
  function FixedAt(k: int): byte {
    if k == 0 then 0x2c
    else if k == 2 then 0x0e
    else if k == 4 then 0x01
    else if k == 12 then 0x20
    else if k == 15 then 0x05
    else if k == 40 then 0x02
    else 0
  }

  /** The byte a member contributes at one of its offsets: 16-bit values low byte first. */
  function FieldByte(f: Fields, k: int): byte
    requires IsFieldOffset(k)
  {
    if k == OFF_GAMMA then f.gamma
    else if k == OFF_RESOLUTION_Y then Lo(f.resolutionY)
    else if k == OFF_RESOLUTION_Y + 1 then Hi(f.resolutionY)
    else if k == OFF_RESOLUTION_X then Lo(f.resolutionX)
    else if k == OFF_RESOLUTION_X + 1 then Hi(f.resolutionX)
    else if k == OFF_OFFSET_X then Lo(f.offsetX)
    else if k == OFF_OFFSET_X + 1 then Hi(f.offsetX)
    else if k == OFF_OFFSET_X_HIGH then Lo(f.offsetXHigh)
    else if k == OFF_OFFSET_X_HIGH + 1 then Hi(f.offsetXHigh)
    else if k == OFF_OFFSET_Y then Lo(f.offsetY)
    else if k == OFF_OFFSET_Y + 1 then Hi(f.offsetY)
    else if k == OFF_EXPOSURE then Lo(f.exposure)
    else if k == OFF_EXPOSURE + 1 then Hi(f.exposure)
    else if k == OFF_GAINS then f.gainRed
    else if k == OFF_GAINS + 1 then f.gainGreen
    else f.gainBlue
  }

  /** The struct layout: each of the 64 bytes is a member's byte or a fixed one. */
  function Layout(f: Fields): (r: seq<byte>)
    ensures |r| == REQUEST_SIZE
  {
    seq(REQUEST_SIZE, k => if IsFieldOffset(k) then FieldByte(f, k) else FixedAt(k))
  }

  /** A packet whose protocol constants and zero padding are those of the layout. */
  predicate Framed(r: seq<byte>) {
    && |r| == REQUEST_SIZE
    && forall k :: 0 <= k < REQUEST_SIZE && !IsFieldOffset(k) ==> r[k] == FixedAt(k)
  }

  /** Reads the fields back out of a packet; None when framing is broken. */
  function Decode(r: seq<byte>): (f: Option<Fields>)
    ensures f.Some? <==> Framed(r)
  {
    if !Framed(r) then None
    else Some(Fields(
      r[OFF_GAMMA],
      Word(r[OFF_RESOLUTION_Y], r[OFF_RESOLUTION_Y + 1]),
      Word(r[OFF_RESOLUTION_X], r[OFF_RESOLUTION_X + 1]),
      Word(r[OFF_OFFSET_X], r[OFF_OFFSET_X + 1]),
      Word(r[OFF_OFFSET_X_HIGH], r[OFF_OFFSET_X_HIGH + 1]),
      Word(r[OFF_OFFSET_Y], r[OFF_OFFSET_Y + 1]),
      Word(r[OFF_EXPOSURE], r[OFF_EXPOSURE + 1]),
      r[OFF_GAINS], r[OFF_GAINS + 1], r[OFF_GAINS + 2]))
  }

  /** Every layout is framed and decodes to the fields it was built from. */
  lemma {:induction false} DecodeLayout(f: Fields)
    ensures Framed(Layout(f))
    ensures Decode(Layout(f)) == Some(f)
  {
    var r := Layout(f);
    SplitJoin(f.resolutionY);
    SplitJoin(f.resolutionX);
    SplitJoin(f.offsetX);
    SplitJoin(f.offsetXHigh);
    SplitJoin(f.offsetY);
    SplitJoin(f.exposure);
    assert r[OFF_GAMMA] == f.gamma;
    assert r[36] == f.gainRed && r[37] == f.gainGreen && r[38] == f.gainBlue;
  }

  /** A framed packet is exactly the layout of its decoded fields: decoding loses nothing. */
  lemma {:induction false} LayoutDecode(r: seq<byte>)
    requires Framed(r)
    ensures Layout(Decode(r).value) == r
  {
    var f := Decode(r).value;
    var l := Layout(f);
    WordSplit(r[16], r[17]);
    WordSplit(r[20], r[21]);
    WordSplit(r[24], r[25]);
    WordSplit(r[26], r[27]);
    WordSplit(r[28], r[29]);
    WordSplit(r[32], r[33]);
    forall k | 0 <= k < REQUEST_SIZE ensures l[k] == r[k] {
    }
  }

  // ---------------------------------------------------------------------
  // Standalone tool: dcm300_create_request(struct dcm300 *, ...)
  // ---------------------------------------------------------------------

  /** The request-relevant members of struct dcm300. */
  datatype Device = Device(
    x: u16, y: u16, w: u16, h: u16, exposure: u16,
    red: s8, green: s8, blue: s8)

  /** memset to zero, then the member assignments in the order the tool makes them. */
  function CreateRequest(d: Device): (r: seq<byte>)
    ensures |r| == REQUEST_SIZE
  {
    Zeros(REQUEST_SIZE)
      [0 := 0x2c][2 := 0x0e][4 := 0x01]
      [12 := 0x20][15 := 0x05][40 := 0x02]
      [OFF_RESOLUTION_X := Lo(d.w)][OFF_RESOLUTION_X + 1 := Hi(d.w)]
      [OFF_RESOLUTION_Y := Lo(d.h)][OFF_RESOLUTION_Y + 1 := Hi(d.h)]
      [OFF_OFFSET_X := Lo(d.x)][OFF_OFFSET_X + 1 := Hi(d.x)]
      [OFF_OFFSET_Y := Lo(d.y)][OFF_OFFSET_Y + 1 := Hi(d.y)]
      [OFF_EXPOSURE := Lo(d.exposure + 20)][OFF_EXPOSURE + 1 := Hi(d.exposure + 20)]
      [OFF_GAINS := ToByte(d.red)][OFF_GAINS + 1 := ToByte(d.green)][OFF_GAINS + 2 := ToByte(d.blue)]
      [OFF_GAMMA := 191]
  }

  /**
   * What the device receives from the tool: gamma 191, height and width as
   * resolution, the offsets, exposure + 20 wrapped to 16 bits, the s8 gains
   * bit for bit, and nothing in offset_x_hlo/hhi.
   */
  function DeviceFields(d: Device): Fields {
    Fields(191, d.h, d.w, d.x, 0, d.y, (d.exposure + 20) % 0x1_0000,
           ToByte(d.red), ToByte(d.green), ToByte(d.blue))
  }

  /** The tool's field-by-field fill produces exactly the struct layout of DeviceFields. */
  lemma {:induction false} CreateRequestLayout(d: Device)
    ensures CreateRequest(d) == Layout(DeviceFields(d))
  {
    var r, l := CreateRequest(d), Layout(DeviceFields(d));
    SplitWraps(d.exposure + 20);
    forall k | 0 <= k < REQUEST_SIZE ensures r[k] == l[k] {
    }
  }

  /**
   * The request is framed and decodes to DeviceFields: the u16 members
   * exactly, exposure + 20 modulo 2^16, the gain bit patterns (which read
   * back as the same s8 values, SignedRoundTrip) and offset_x_hlo/hhi zero.
   */
  lemma {:induction false} CreateRequestDecodes(d: Device)
    ensures Decode(CreateRequest(d)) == Some(DeviceFields(d))
  {
    CreateRequestLayout(d);
    DecodeLayout(DeviceFields(d));
  }

  /** exposure is a u16, so exposure + 20 can exceed 65535; its high byte then wraps to 0. */
  lemma ExposureHighByteWraps()
    ensures var r := CreateRequest(Device(0, 0, 2048, 1536, 65535, 0, 0, 0));
      r[OFF_EXPOSURE] == 19 && r[OFF_EXPOSURE + 1] == 0
  {
  }

  // ---------------------------------------------------------------------
  // SANE backend: dcm300_create_request(struct dcm300_snapshot *, ...)
  // ---------------------------------------------------------------------

  /** struct dcm300_snapshot. */
  datatype Snapshot = Snapshot(
    resolutionX: u32, resolutionY: u32,
    offsetX: u32, offsetY: u32,
    exposure: u32,
    gainRed: byte, gainGreen: byte, gainBlue: byte)

  /** memset to zero, then the backend's member assignments in its order. */
  function CreateSnapshotRequest(s: Snapshot): (r: seq<byte>)
    ensures |r| == REQUEST_SIZE
  {
    var e := AddU32(s.exposure, 20);
    Zeros(REQUEST_SIZE)
      [0 := 0x2c][2 := 0x0e][4 := 0x01]
      [12 := 0x20][OFF_GAMMA := 0xbf][15 := 0x05][40 := 0x02]
      [OFF_RESOLUTION_X := Lo(s.resolutionX)][OFF_RESOLUTION_X + 1 := Hi(s.resolutionX)]
      [OFF_RESOLUTION_Y := Lo(s.resolutionY)][OFF_RESOLUTION_Y + 1 := Hi(s.resolutionY)]
      [OFF_OFFSET_X := Lo(s.offsetX)][OFF_OFFSET_X + 1 := Hi(s.offsetX)]
      [OFF_OFFSET_Y := Lo(s.offsetY)][OFF_OFFSET_Y + 1 := Hi(s.offsetY)]
      [OFF_EXPOSURE := Lo(e)][OFF_EXPOSURE + 1 := Hi(e)]
      [OFF_GAINS := s.gainRed][OFF_GAINS + 1 := s.gainGreen][OFF_GAINS + 2 := s.gainBlue]
  }

  /** What the device receives from the backend: every value truncated to 16 bits. */
  function SnapshotFields(s: Snapshot): Fields {
    Fields(0xbf, s.resolutionY % 0x1_0000, s.resolutionX % 0x1_0000,
           s.offsetX % 0x1_0000, 0, s.offsetY % 0x1_0000,
           AddU32(s.exposure, 20) % 0x1_0000,
           s.gainRed, s.gainGreen, s.gainBlue)
  }

  /** The backend's fill produces exactly the struct layout of SnapshotFields. */
  lemma {:induction false} CreateSnapshotRequestLayout(s: Snapshot)
    ensures CreateSnapshotRequest(s) == Layout(SnapshotFields(s))
  {
    var r, l := CreateSnapshotRequest(s), Layout(SnapshotFields(s));
    SplitWraps(s.resolutionX);
    SplitWraps(s.resolutionY);
    SplitWraps(s.offsetX);
    SplitWraps(s.offsetY);
    SplitWraps(AddU32(s.exposure, 20));
    forall k | 0 <= k < REQUEST_SIZE ensures r[k] == l[k] {
    }
  }

  /**
   * The two copies agree: for the same geometry, exposure and gain bit
   * patterns, the backend's request is byte for byte the tool's.
   */
  lemma {:induction false} SameRequestBytes(d: Device, s: Snapshot)
    requires s.resolutionX == d.w && s.resolutionY == d.h
    requires s.offsetX == d.x && s.offsetY == d.y && s.exposure == d.exposure
    requires s.gainRed == ToByte(d.red) && s.gainGreen == ToByte(d.green) && s.gainBlue == ToByte(d.blue)
    ensures CreateSnapshotRequest(s) == CreateRequest(d)
  {
    assert SnapshotFields(s) == DeviceFields(d);
    calc {
      CreateSnapshotRequest(s);
      { CreateSnapshotRequestLayout(s); }
      Layout(SnapshotFields(s));
      Layout(DeviceFields(d));
      { CreateRequestLayout(d); }
      CreateRequest(d);
    }
  }
}
