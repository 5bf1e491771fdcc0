/**
 * The four-byte field that carries a control value on the wire.
 *
 * The client splits a Python integer `v` into the bytes
 * `(v & 0xff000000) >> 24`, `(v & 0xff0000) >> 16`, `(v & 0xff00) >> 8` and
 * `v & 0xff`.  Python's `&` treats a negative integer as an infinite
 * two's-complement string and `>>` rounds toward minus infinity, so byte k
 * (counting from the least significant) is `floor(v / 256^k) mod 256`.  Dafny's
 * `/` and `%` agree with that for the positive divisors used here.
 */
module ValueCodec {
  /** One element of a Python `bytearray`. */
  type byte = x: int | IsByte(x)

  predicate IsByte(x: int) {
    0 <= x < 0x100
  }

  const TWO_31: int := 0x8000_0000
  const TWO_32: int := 0x1_0000_0000

  /**
   * The four value bytes, most significant first.  Written with Euclidean `/` and `%`,
   * which agree with the source's masks and shifts on Python integers (see above).
   */
  function ValueBytes(v: int): (b: seq<byte>)
    ensures |b| == 4
  {
    [(v / 0x100_0000) % 0x100, (v / 0x1_0000) % 0x100, (v / 0x100) % 0x100, v % 0x100]
  }

  /** Reads four bytes as an unsigned big-endian (network order) integer. */
  function BigEndian32(b: seq<byte>): (u: int)
    requires |b| == 4
    ensures 0 <= u < TWO_32
  {
    ((b[0] as int * 0x100 + b[1]) * 0x100 + b[2]) * 0x100 + b[3]
  }

  /** Reads a 32-bit pattern as a two's-complement signed integer. */
  function ToSigned32(u: int): (s: int)
    requires 0 <= u < TWO_32
    ensures -TWO_31 <= s < TWO_31
    ensures (s - u) % TWO_32 == 0
  {
    if u < TWO_31 then u else u - TWO_32
  }

  predicate IsInt32(v: int) {
    -TWO_31 <= v < TWO_31
  }

  /** The signed 32-bit value a receiver obtains for the client's integer `v`. */
  function Wrap32(v: int): (s: int)
    ensures IsInt32(s)
    ensures (s - v) % TWO_32 == 0
  {
    ToSigned32(v % TWO_32)
  }

  /** Euclidean division by a positive constant is determined by any quotient/remainder pair. */
  lemma DivModUnique(v: int, d: int, q: int, r: int)
    requires 0 < d && v == d * q + r && 0 <= r < d
    ensures v / d == q && v % d == r
  {
    var k := v / d - q;
    assert d * k == r - v % d by {
      assert v == d * (v / d) + v % d;
      assert d * (v / d) - d * q == d * k;
    }
    MulOutsideUnit(d, k);
  }

  lemma MulOutsideUnit(d: int, k: int)
    requires d > 0
    ensures k >= 1 ==> d * k >= d
    ensures k <= -1 ==> d * k <= -d
  {
    if k >= 1 {
      assert d * k == d * (k - 1) + d;
      assert d * (k - 1) >= 0;
    } else if k <= -1 {
      assert d * k == d * (k + 1) - d;
      assert d * (k + 1) <= 0;
    }
  }

  /**
   * The four bytes are the base-256 digits of the value reduced modulo 2^32:
   * reassembling them big-endian gives `v mod 2^32`, whatever the sign or size of `v`.
   */
  lemma {:induction false} ValueBytesRoundTrip(v: int)
    ensures BigEndian32(ValueBytes(v)) == v % TWO_32
  {
    var x1 := v / 0x100;
    var x2 := x1 / 0x100;
    var x3 := x2 / 0x100;
    var x4 := x3 / 0x100;
    var r := ((x3 % 0x100 * 0x100 + x2 % 0x100) * 0x100 + x1 % 0x100) * 0x100 + v % 0x100;
    assert v == x4 * TWO_32 + r;
    DivModUnique(v, TWO_32, x4, r);
    DivModUnique(v, 0x1_0000, x2, (x1 % 0x100) * 0x100 + v % 0x100);
    DivModUnique(v, 0x100_0000, x3, ((x2 % 0x100) * 0x100 + x1 % 0x100) * 0x100 + v % 0x100);
  }

  /** Every four-byte field is the encoding of the integer it reads as: the encoding is onto. */
  lemma {:induction false} BigEndian32RoundTrip(b: seq<byte>)
    requires |b| == 4
    ensures ValueBytes(BigEndian32(b)) == b
  {
    var u := BigEndian32(b);
    var b0, b1, b2, b3: int := b[0], b[1], b[2], b[3];
    DivModUnique(u, 0x100, (b0 * 0x100 + b1) * 0x100 + b2, b3);
    DivModUnique(u, 0x1_0000, b0 * 0x100 + b1, b2 * 0x100 + b3);
    DivModUnique(u, 0x100_0000, b0, (b1 * 0x100 + b2) * 0x100 + b3);
    DivModUnique(b0 * 0x100 + b1, 0x100, b0, b1);
    DivModUnique((b0 * 0x100 + b1) * 0x100 + b2, 0x100, b0 * 0x100 + b1, b2);
  }

  /** Two integers get the same four bytes exactly when they agree modulo 2^32. */
  lemma {:induction false} ValueBytesModulo(v: int, w: int)
    ensures ValueBytes(v) == ValueBytes(w) <==> v % TWO_32 == w % TWO_32
  {
    ValueBytesRoundTrip(v);
    ValueBytesRoundTrip(w);
    if v % TWO_32 == w % TWO_32 {
      BigEndian32RoundTrip(ValueBytes(v));
      BigEndian32RoundTrip(ValueBytes(w));
    }
  }

  /** Reading a four-byte field as signed and encoding the result reproduces the field. */
  lemma {:induction false} SignedReencodes(b: seq<byte>)
    requires |b| == 4
    ensures ValueBytes(ToSigned32(BigEndian32(b))) == b
  {
    var u := BigEndian32(b);
    ValueBytesModulo(ToSigned32(u), u);
    BigEndian32RoundTrip(b);
  }

  /** Reading the four bytes as signed gives back every value in the signed 32-bit range. */
  lemma {:induction false} SignedRoundTrip(v: int)
    requires IsInt32(v)
    ensures ToSigned32(BigEndian32(ValueBytes(v))) == v
    ensures Wrap32(v) == v
  {
    ValueBytesRoundTrip(v);
    if v < 0 {
      DivModUnique(v, TWO_32, -1, v + TWO_32);
    } else {
      DivModUnique(v, TWO_32, 0, v);
    }
  }

  /** Negative values travel in two's complement; the values the demonstration sends. */
  lemma TwosComplementExamples()
    ensures ValueBytes(-1) == [0xFF, 0xFF, 0xFF, 0xFF]
    ensures ValueBytes(-32767) == [0xFF, 0xFF, 0x80, 0x01]
    ensures ValueBytes(-127) == [0xFF, 0xFF, 0xFF, 0x81]
    ensures ValueBytes(32767) == [0x00, 0x00, 0x7F, 0xFF]
    ensures ValueBytes(255) == [0x00, 0x00, 0x00, 0xFF]
    ensures ValueBytes(0) == [0x00, 0x00, 0x00, 0x00]
  {
  }
}
