/**
 * Scalar types and sizing constants of the DCM300 driver (dcm300.h), and the
 * C integer conversions the driver relies on, written out explicitly.
 */
module Dcm300Types {

  /** u8 / unsigned char, and the bit pattern of a char or s8. */
  type byte = x: int | 0 <= x < 0x100
  /** u16 fields of struct dcm300. */
  type u16 = x: int | 0 <= x < 0x1_0000
  /** s8 gains of struct dcm300. */
  type s8 = x: int | -0x80 <= x < 0x80
  /** unsigned int fields of the backend's snapshot parameters. */
  type u32 = x: int | 0 <= x < 0x1_0000_0000
  /** A signed int cursor value. */
  type i32 = x: int | -0x8000_0000 <= x < 0x8000_0000

  datatype Option<T> = None | Some(value: T)

  /** Largest bulk transfer asked for in one content read. */
  const MAXBULK: nat := 16384
  /** Capacity of the raw Bayer ring. */
  const BAYER_CIRCULAR: nat := 32768
  /** Size of the standalone tool's RGB scratch array. */
  const RGB_MAX: nat := 3 * BAYER_CIRCULAR / 8
  /** sizeof(struct dcm300_request). */
  const REQUEST_SIZE: nat := 64

  /** Storing an int into an unsigned char keeps its residue modulo 256. */
  function ToByte(n: int): (b: byte)
    ensures (n - b) % 0x100 == 0
    ensures 0 <= n < 0x100 ==> b == n
  {
    n % 0x100
  }

  /** Reading a stored char back as a signed 8-bit value. */
  function SignedOf(b: byte): (v: s8)
    ensures ToByte(v) == b
  {
    if b < 0x80 then b else b - 0x100
  }

  /** Unsigned int addition wraps modulo 2^32. */
  function AddU32(a: u32, b: u32): (r: u32)
    ensures a + b < 0x1_0000_0000 ==> r == a + b
    ensures a + b >= 0x1_0000_0000 ==> r == a + b - 0x1_0000_0000
  {
    (a + b) % 0x1_0000_0000
  }

  /** The (unsigned int) cast of a signed int. */
  function AsUnsigned(v: i32): (r: u32)
    ensures v >= 0 ==> r == v
    ensures v < 0 ==> r == v + 0x1_0000_0000
  {
    v % 0x1_0000_0000
  }

  /** C's % on int: truncates toward zero, so the remainder takes the sign of a. */
  function CRem(a: int, b: int): (r: int)
    requires b > 0
    ensures a >= 0 ==> 0 <= r < b && r <= a
    ensures a < 0 ==> -b < r <= 0 && a <= r
    ensures a >= 0 ==> a - r == b * (a / b)
    ensures a < 0 ==> a - r == -(b * ((-a) / b))
    ensures (a - r) % b == 0
    ensures -b < a < b ==> r == a
  {
    if a >= 0 then RemFacts(a, b, 1); a % b
    else RemFacts(-a, b, -1); -((-a) % b)
  }

  /** n % b, taken with sign s, leaves a multiple of b behind. */
  lemma RemFacts(n: int, b: int, s: int)
    requires n >= 0 && b > 0 && (s == 1 || s == -1)
    ensures 0 <= n % b < b && n % b <= n
    ensures s * n - s * (n % b) == s * (b * (n / b))
    ensures (s * n - s * (n % b)) % b == 0
    ensures n < b ==> n % b == n
  {
    var q, m := n / b, n % b;
    DivBounds(n, b);
    assert n == b * q + m;
    DivModUnique(s * (b * q), b, s * q, 0);
    if n < b { DivModUnique(n, b, 0, n); }
  }

  // Facts about multiplication and division by a variable, which the
  // solver does not find by itself.

  /** A product of naturals is a natural. */
  lemma {:induction false} MulNonNeg(a: nat, k: nat)
    ensures 0 <= a * k
  {
    if k > 0 {
      MulNonNeg(a, k - 1);
      assert a * k == a * (k - 1) + a;
    }
  }

  /** Multiplying by a positive factor keeps order and equality. */
  lemma MulMono(a: int, x: int, y: int)
    requires a > 0
    ensures x < y <==> a * x < a * y
    ensures x <= y <==> a * x <= a * y
  {
    if x < y {
      MulNonNeg(a, y - x - 1);
      assert a * y == a * x + a * (y - x - 1) + a;
    } else {
      MulNonNeg(a, x - y);
      assert a * x == a * y + a * (x - y);
    }
  }

  /** The quotient of naturals is a natural, and quotient times divisor does not pass the dividend. */
  lemma DivBounds(d: int, b: int)
    requires d >= 0 && b > 0
    ensures 0 <= d / b && 0 <= b * (d / b) <= d && d % b <= d
  {
    MulMono(b, d / b, 0);
    MulMono(b, d / b, -1);
    assert d == b * (d / b) + d % b;
  }

  /** q and r determine n == q * d + r uniquely when 0 <= r < d. */
  lemma DivModUnique(n: int, d: int, q: int, r: int)
    requires d > 0 && n == q * d + r && 0 <= r < d
    ensures n / d == q && n % d == r
  {
    var k := n / d - q;
    assert n == d * (n / d) + n % d;
    assert d * k == r - n % d;
    MulMono(d, k, 1);
    MulMono(d, -1, k);
  }

  /** Concatenation is associative; the solver needs the hint inside large contexts. */
  lemma Regroup<T>(a: seq<T>, b: seq<T>, c: seq<T>)
    ensures (a + b) + c == a + (b + c)
  {
  }

  /** A sequence is its prefix followed by the rest. */
  lemma Rejoin<T>(s: seq<T>, m: nat)
    requires m <= |s|
    ensures s[..m] + s[m..] == s
  {
  }

  function Min(a: int, b: int): int { if a <= b then a else b }

  function Zeros(n: nat): (z: seq<byte>)
    ensures |z| == n
    ensures forall k :: 0 <= k < n ==> z[k] == 0
  {
    seq(n, _ => 0)
  }

  /** The 16-bit value stored as a low byte followed by a high byte. */
  function Word(lo: byte, hi: byte): (v: u16) { lo + 0x100 * hi }

  /** The low byte stored for a 16-bit member: the value modulo 256. */
  function Lo(v: int): byte { ToByte(v) }

  /** The high byte stored for a 16-bit member: the value shifted right by 8, truncated to a byte. */
  function Hi(v: int): byte { ToByte(v / 0x100) }

  /** Splitting a stored 16-bit value gives back its two bytes. */
  lemma {:induction false} WordSplit(lo: byte, hi: byte)
    ensures Lo(Word(lo, hi)) == lo && Hi(Word(lo, hi)) == hi
  {
    assert Word(lo, hi) / 0x100 == hi;
  }

  /** The bytes stored for v depend only on v modulo 2^16. */
  lemma {:induction false} SplitWraps(v: nat)
    ensures Lo(v % 0x1_0000) == Lo(v) && Hi(v % 0x1_0000) == Hi(v)
  {
    var q := v / 0x1_0000;
    assert v == 0x1_0000 * q + v % 0x1_0000;
    assert v / 0x100 == 0x100 * q + (v % 0x1_0000) / 0x100;
  }

  /** A s8 gain stored into a char and read back is unchanged. */
  lemma SignedRoundTrip(g: s8)
    ensures SignedOf(ToByte(g)) == g
  {
  }

  /**
   * Splitting v into v % 256 and the byte-truncated v / 256 and joining the
   * halves again gives v modulo 2^16: exact for u16 values, wrapped above.
   */
  lemma {:induction false} SplitJoin(v: nat)
    ensures Word(Lo(v), Hi(v)) == v % 0x1_0000
  {
    var q := v / 0x100;
    assert v == 0x100 * q + v % 0x100;
    assert q == 0x100 * (q / 0x100) + q % 0x100;
    assert v == 0x1_0000 * (q / 0x100) + (0x100 * (q % 0x100) + v % 0x100);
    assert 0 <= 0x100 * (q % 0x100) + v % 0x100 < 0x1_0000;
  }

  /**
   * MAXBULK is half of BAYER_CIRCULAR, so a read that starts at a stream
   * offset that is a multiple of MAXBULK starts at ring offset 0 or 16384 and
   * a MAXBULK-byte read there never wraps.
   */
  lemma {:induction false} AlignedReadFits(k: nat)
    ensures (k * MAXBULK) % BAYER_CIRCULAR == 0 || (k * MAXBULK) % BAYER_CIRCULAR == MAXBULK
    ensures (k * MAXBULK) % BAYER_CIRCULAR + MAXBULK <= BAYER_CIRCULAR
  {
    if k >= 2 {
      AlignedReadFits(k - 2);
      assert k * MAXBULK == (k - 2) * MAXBULK + BAYER_CIRCULAR;
    }
  }

  /** RGB_MAX is the RGB output of one fully processed MAXBULK chunk: 3/4 of its bytes. */
  lemma SizingRelations()
    ensures 2 * MAXBULK == BAYER_CIRCULAR
    ensures RGB_MAX == 12288 && 4 * RGB_MAX == 3 * MAXBULK
    ensures RGB_MAX % 3 == 0
  {
  }
}
