/** Big-endian numbers as byte strings, and their two's complement readings. */
module Binary {
  import opened Common

  type Byte = b: nat | b < 256
  type Bytes = seq<Byte>

  /** A successful read: the value and the bytes that are left. */
  datatype Parsed<+T> = Parsed(value: T, rest: Bytes)

  function Pow2(k: nat): nat {
    if k == 0 then 1 else 2 * Pow2(k - 1)
  }

  lemma Pow2Zero()
    ensures Pow2(0) == 1
  {
  }

  lemma Pow2Values()
    ensures Pow2(7) == 128 && Pow2(8) == 256 && Pow2(16) == 0x1_0000 && Pow2(32) == 0x1_0000_0000
    ensures Pow2(14) == 16384 && Pow2(21) == 2097152 && Pow2(28) == 0x1000_0000 && Pow2(35) == 0x8_0000_0000
    ensures Pow2(64) == 0x1_0000_0000_0000_0000
  {
    assert Pow2(8) == 256;
    assert Pow2(16) == 0x1_0000;
    assert Pow2(24) == 0x100_0000;
    assert Pow2(32) == 0x1_0000_0000;
    assert Pow2(40) == 0x100_0000_0000;
    assert Pow2(48) == 0x1_0000_0000_0000;
    assert Pow2(56) == 0x100_0000_0000_0000;
  }

  lemma Pow2Sum(j: nat, k: nat)
    ensures Pow2(j + k) == Pow2(j) * Pow2(k)
  {
    if j > 0 {
      Pow2Sum(j - 1, k);
    }
  }

  /** The width low bytes of n, most significant first; a cast to an unsigned type keeps exactly these. */
  function BigEndian(n: int, width: nat): (s: Bytes)
    ensures |s| == width
    decreases width
  {
    if width == 0 then [] else BigEndian(n / 256, width - 1) + [n % 256]
  }

  function FromBigEndian(s: Bytes): nat {
    if s == [] then 0 else 256 * FromBigEndian(s[..|s| - 1]) + s[|s| - 1]
  }

  function Range(width: nat): nat {
    Pow2(8 * width)
  }

  lemma RangeStep(width: nat)
    requires width > 0
    ensures Range(width) == 256 * Range(width - 1) && Range(width - 1) > 0
  {
    Pow2Sum(8, 8 * (width - 1));
    Pow2Positive(8 * (width - 1));
    assert Pow2(8) == 256;
  }

  lemma Pow2Positive(k: nat)
    ensures Pow2(k) > 0
  {
  }

  lemma ModSplit(n: int, m: nat)
    requires m > 0
    ensures n % (256 * m) == 256 * (n / 256 % m) + n % 256
  {
    var q := n / 256;
    var r := 256 * (q % m) + n % 256;
    assert n == 256 * m * (q / m) + r;
    ModUnique(n, 256 * m, q / m, r);
  }

  lemma ModUnique(n: int, m: nat, q: int, r: int)
    requires m > 0 && n == m * q + r && 0 <= r < m
    ensures n % m == r && n / m == q
  {
    var d := n / m - q;
    assert n == m * (n / m) + n % m;
    assert m * d == m * (n / m) - m * q;
    MultipleBound(m, d);
  }

  lemma MultipleBound(m: int, d: int)
    requires m > 0
    ensures d >= 1 ==> m * d >= m
    ensures d <= -1 ==> m * d <= -m
  {
  }

  /** Writing width bytes and reading them back leaves the value modulo 256^width. */
  lemma {:induction false} BigEndianRoundTrip(n: int, width: nat)
    ensures Range(width) > 0 && FromBigEndian(BigEndian(n, width)) == n % Range(width)
    decreases width
  {
    if width > 0 {
      BigEndianRoundTrip(n / 256, width - 1);
      RangeStep(width);
      ModSplit(n, Range(width - 1));
      assert BigEndian(n, width)[..width - 1] == BigEndian(n / 256, width - 1);
    }
  }

  /** The bytes from an absolute position on; nothing can be read before the start or behind the end. */
  function At(data: Bytes, pos: int): Bytes {
    if 0 <= pos <= |data| then data[pos..] else []
  }

  function ReadUnsigned(s: Bytes, width: nat): Result<Parsed<nat>> {
    if |s| < width then Err else Ok(Parsed(FromBigEndian(s[..width]), s[width..]))
  }

  /** Two's complement reading of an unsigned value below 2^bits. */
  function ToSigned(u: nat, bits: nat): int {
    if 2 * u >= Pow2(bits) then u - Pow2(bits) else u
  }

  predicate IsSigned(n: int, bits: nat) {
    -(Pow2(bits) as int) <= 2 * n < Pow2(bits)
  }

  function ReadSigned(s: Bytes, width: nat): Result<Parsed<int>> {
    var p :- ReadUnsigned(s, width);
    Ok(Parsed(ToSigned(p.value, 8 * width), p.rest))
  }

  lemma SignedOfMod(n: int, bits: nat)
    requires IsSigned(n, bits)
    ensures Pow2(bits) > 0 && ToSigned(n % Pow2(bits), bits) == n
  {
    Pow2Positive(bits);
    var m := Pow2(bits);
    if n < 0 {
      ModUnique(n, m, -1, n + m);
    } else {
      ModUnique(n, m, 0, n);
    }
  }

  lemma ReadUnsignedBack(n: int, width: nat, rest: Bytes)
    requires 0 <= n < Range(width)
    ensures ReadUnsigned(BigEndian(n, width) + rest, width) == Ok(Parsed(n, rest))
  {
    BigEndianRoundTrip(n, width);
    ModUnique(n, Range(width), 0, n);
    var s := BigEndian(n, width) + rest;
    assert s[..width] == BigEndian(n, width) && s[width..] == rest;
  }

  lemma OneByteBack(b: Byte, rest: Bytes)
    ensures ReadUnsigned([b] + rest, 1) == Ok(Parsed(b, rest))
  {
    assert ([b] + rest)[..1] == [b] && ([b] + rest)[1..] == rest && [b][..0] == [];
    assert FromBigEndian([b]) == 256 * FromBigEndian([b][..0]) + b;
  }

  /** A signed value in range survives the round trip. */
  lemma ReadSignedBack(n: int, width: nat, rest: Bytes)
    requires IsSigned(n, 8 * width)
    ensures ReadSigned(BigEndian(n, width) + rest, width) == Ok(Parsed(n, rest))
  {
    BigEndianRoundTrip(n, width);
    SignedOfMod(n, 8 * width);
    var s := BigEndian(n, width) + rest;
    assert s[..width] == BigEndian(n, width) && s[width..] == rest;
  }

  function Concat2(a: Bytes, r: Result<Bytes>): Result<Bytes> {
    match r
    case Err => Err
    case Ok(b) => Ok(a + b)
  }

  /** A length-prefixed string of at most 65535 bytes. */
  function Utf(s: Bytes): Bytes {
    BigEndian(|s|, 2) + s
  }

  function ReadBytes(s: Bytes, n: nat): Result<Parsed<Bytes>> {
    if |s| < n then Err else Ok(Parsed(s[..n], s[n..]))
  }

  function ReadUtf(s: Bytes): Result<Parsed<Bytes>> {
    var len :- ReadUnsigned(s, 2);
    ReadBytes(len.rest, len.value)
  }

  lemma ReadBytesBack(b: Bytes, rest: Bytes)
    ensures ReadBytes(b + rest, |b|) == Ok(Parsed(b, rest))
  {
    assert (b + rest)[..|b|] == b && (b + rest)[|b|..] == rest;
  }

  lemma ReadUtfBack(b: Bytes, rest: Bytes)
    requires |b| < 0x1_0000
    ensures ReadUtf(Utf(b) + rest) == Ok(Parsed(b, rest))
  {
    Pow2Values();
    assert Utf(b) + rest == BigEndian(|b|, 2) + (b + rest);
    ReadUnsignedBack(|b|, 2, b + rest);
    ReadBytesBack(b, rest);
  }

  /** Nothing longer than a 16-bit length prefix can hold is ever read. */
  lemma ReadUtfShort(s: Bytes)
    requires ReadUtf(s).Ok?
    ensures |ReadUtf(s).value.value| < 0x1_0000
  {
    var t := s[..2];
    assert t[..1][..0] == [] && t[..1] == [t[0]];
    assert FromBigEndian(t[..1]) == t[0];
    var high: nat, low: nat := t[0], t[1];
    assert FromBigEndian(t) == 256 * high + low;
  }
}
