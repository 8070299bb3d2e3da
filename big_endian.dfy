/** Big-endian signed 32-bit integers over bytes, as `ReadBytesExt::read_i32::<BigEndian>` reads them. */
module BigEndian {

  /** One unsigned 8-bit value. */
  type Byte = b: int | 0 <= b < 0x100

  const I32_MIN: int := -0x8000_0000
  const I32_MAX: int := 0x7FFF_FFFF

  predicate InI32(v: int) { I32_MIN <= v <= I32_MAX }

  /** The two's-complement value of four bytes, most significant first. */
  function DecodeI32(b: seq<Byte>): (v: int)
    requires |b| == 4
    ensures InI32(v)
    ensures v < 0 <==> b[0] >= 0x80
  {
    var u: int := (b[0] as int) * 0x100_0000 + (b[1] as int) * 0x1_0000 + (b[2] as int) * 0x100 + b[3] as int;
    if u < 0x8000_0000 then u else u - 0x1_0000_0000
  }

  /** The four bytes, most significant first, of the two's-complement form of `v`. */
  function EncodeI32(v: int): (b: seq<Byte>)
    requires InI32(v)
    ensures |b| == 4
    ensures v < 0 <==> b[0] >= 0x80
  {
    var u := if v < 0 then v + 0x1_0000_0000 else v;
    [u / 0x100_0000, u / 0x1_0000 % 0x100, u / 0x100 % 0x100, u % 0x100]
  }

  /** The i32 stored big-endian at offset `off` of `s`. */
  function I32At(s: seq<Byte>, off: nat): (v: int)
    requires off + 4 <= |s|
    ensures InI32(v)
  {
    DecodeI32(s[off..off + 4])
  }

  /** Encoding then decoding gives the value back. */
  lemma DecodeEncodeI32(v: int)
    requires InI32(v)
    ensures DecodeI32(EncodeI32(v)) == v
  {
    var u := if v < 0 then v + 0x1_0000_0000 else v;
    var b0, r0 := u / 0x100_0000, u % 0x100_0000;
    var b1, r1 := r0 / 0x1_0000, r0 % 0x1_0000;
    var b2, b3 := r1 / 0x100, r1 % 0x100;
    assert u == b0 * 0x100_0000 + b1 * 0x1_0000 + b2 * 0x100 + b3;
    DivModOf(b0 * 0x100 + b1, r1, 0x1_0000);
    DivModOf(b0, b1, 0x100);
    DivModOf(b0 * 0x1_0000 + b1 * 0x100 + b2, b3, 0x100);
    DivModOf(b0 * 0x100 + b1, b2, 0x100);
    assert EncodeI32(v) == [b0, b1, b2, b3];
  }

  /** Decoding then encoding gives the four bytes back. */
  lemma EncodeDecodeI32(b: seq<Byte>)
    requires |b| == 4
    ensures EncodeI32(DecodeI32(b)) == b
  {
    var lo: int := (b[2] as int) * 0x100 + b[3] as int;
    var mid: int := (b[0] as int) * 0x100 + b[1] as int;
    var u: int := mid * 0x1_0000 + lo;
    DivModOf(b[0], (b[1] as int) * 0x1_0000 + lo, 0x100_0000);
    DivModOf(mid, lo, 0x1_0000);
    DivModOf(b[0], b[1], 0x100);
    DivModOf(u / 0x100, b[3], 0x100);
    DivModOf(mid * 0x100 + b[2] as int, b[3], 0x100);
    DivModOf(mid, b[2], 0x100);
  }

  /** Division and remainder of `q * k + r` by `k` when `r` is a remainder. */
  lemma DivModOf(q: int, r: int, k: int)
    requires 0 < k && 0 <= r < k
    ensures (q * k + r) / k == q && (q * k + r) % k == r
  {
    var n := q * k + r;
    var d, m := n / k, n % k;
    assert (q - d) * k == m - r;
    if q - d >= 1 {
      MulAtLeast(q - d, k);
    } else if q - d <= -1 {
      MulAtLeast(d - q, k);
    }
  }

  lemma MulAtLeast(a: int, k: int)
    requires a >= 1 && k > 0
    ensures a * k >= k
  {
  }

  /** Four bytes that encode `v` read back as `v` wherever they sit. */
  lemma I32AtEncoded(s: seq<Byte>, off: nat, v: int)
    requires InI32(v) && off + 4 <= |s| && s[off..off + 4] == EncodeI32(v)
    ensures I32At(s, off) == v
  {
    DecodeEncodeI32(v);
  }

  /** The i32 read at any offset depends only on the four bytes there, not on what follows. */
  lemma I32AtPrefix(s: seq<Byte>, t: seq<Byte>, off: nat)
    requires off + 4 <= |s|
    ensures I32At(s + t, off) == I32At(s, off)
  {
    assert (s + t)[off..off + 4] == s[off..off + 4];
  }
}
