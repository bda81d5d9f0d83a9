/** Variable-length integers: the split-halves code against plain unsigned LEB128 (section 7.6 of DWARF version 5). */
module VarInt {
  import opened Common
  import opened Binary

  /** Unsigned LEB128: seven bits per byte, least significant first, high bit set on all but the last. */
  function Leb128(n: nat): (s: Bytes)
    ensures s != []
  {
    if n < 128 then [n] else [n % 128 + 128] + Leb128(n / 128)
  }

  // ---- What the readers compute. The bits or-ed in are always above the ones already there, so "+" is the or. ----

  /** The loop shared by the 16 and 32 bit readers: value holds the bits below size, the type has bits bits. */
  function ReadGroups(s: Bytes, value: nat, size: nat, bits: nat, wrap: nat): Result<Parsed<nat>>
    requires wrap > 0
    decreases |s|
  {
    if size >= bits || s == [] then Err
    else
      var v := (value + s[0] % 128 * Pow2(size)) % wrap;
      if s[0] < 128 then Ok(Parsed(v, s[1..])) else ReadGroups(s[1..], v, size + 7, bits, wrap)
  }

  function ReadVarInt(s: Bytes): Result<Parsed<int>> {
    var p :- ReadGroups(s, 0, 0, 32, 0x1_0000_0000);
    Ok(Parsed(ToSigned(p.value, 32), p.rest))
  }

  function ReadVarUInt(s: Bytes): Result<Parsed<int>> {
    var p :- ReadVarInt(s);
    Ok(Parsed(p.value % 0x1_0000_0000, p.rest))
  }

  /** The accumulator is an i32; only a value above 0x7fff is shifted down before the cast to i16. */
  function ReadVarShort(s: Bytes): Result<Parsed<int>> {
    var p :- ReadGroups(s, 0, 0, 16, 0x1_0000_0000);
    var v := if p.value > 0x7fff then p.value - 0x1_0000 else p.value;
    Ok(Parsed(ToSigned(v % 0x1_0000, 16), p.rest))
  }

  function ReadVarUShort(s: Bytes): Result<Parsed<int>> {
    var p :- ReadVarShort(s);
    Ok(Parsed(p.value % 0x1_0000, p.rest))
  }

  /** The 64-bit value put together from its two halves. */
  function Join(low: nat, high: nat): int {
    ToSigned((low % 0x1_0000_0000 + high * 0x1_0000_0000) % 0x1_0000_0000_0000_0000, 64)
  }

  function ReadLongHigh(s: Bytes, low: nat, high: nat, size: nat, last: Byte): Result<Parsed<int>>
    decreases |s|
  {
    if size >= 32 then Ok(Parsed(Join(low, high + last * Pow2(size)), s))
    else if s == [] then Err
    else if s[0] < 128 then Ok(Parsed(Join(low, high + s[0] * Pow2(size)), s[1..]))
    else ReadLongHigh(s[1..], low, high + s[0] % 128 * Pow2(size), size + 7, s[0])
  }

  function ReadLongMiddle(s: Bytes, low: nat): Result<Parsed<int>> {
    if s == [] then Err
    else if s[0] < 128 then Ok(Parsed(Join(low + s[0] * Pow2(28), s[0] / 16), s[1..]))
    else ReadLongHigh(s[1..], low + s[0] % 128 * Pow2(28), s[0] % 128 / 16, 3, s[0])
  }

  function ReadLongLow(s: Bytes, low: nat, size: nat): Result<Parsed<int>>
    decreases |s|
  {
    if size >= 28 then ReadLongMiddle(s, low)
    else if s == [] then Err
    else if s[0] < 128 then Ok(Parsed(ToSigned((low + s[0] * Pow2(size)) % 0x1_0000_0000_0000_0000, 64), s[1..]))
    else ReadLongLow(s[1..], low + s[0] % 128 * Pow2(size), size + 7)
  }

  function ReadVarLong(s: Bytes): Result<Parsed<int>> {
    ReadLongLow(s, 0, 0)
  }

  function ReadVarULong(s: Bytes): Result<Parsed<int>> {
    var p :- ReadVarLong(s);
    Ok(Parsed(p.value % 0x1_0000_0000_0000_0000, p.rest))
  }

  // ---- Round trips ----

  lemma LebTail(n: nat, rest: Bytes)
    ensures (Leb128(n) + rest)[0] == if n < 128 then n else n % 128 + 128
    ensures n < 128 ==> (Leb128(n) + rest)[1..] == rest
    ensures n >= 128 ==> (Leb128(n) + rest)[1..] == Leb128(n / 128) + rest
  {
    if n < 128 {
      assert Leb128(n) + rest == [n] + rest;
    } else {
      assert Leb128(n) + rest == [n % 128 + 128] + (Leb128(n / 128) + rest);
    }
  }

  lemma Grow(n: nat, size: nat, value: nat)
    requires n >= 128
    ensures Pow2(size + 7) == 128 * Pow2(size) && Pow2(size) > 0
    ensures value + n % 128 * Pow2(size) + n / 128 * Pow2(size + 7) == value + n * Pow2(size)
    ensures n % 128 * Pow2(size) <= n * Pow2(size) && Pow2(size + 7) <= n * Pow2(size)
  {
    hide Pow2;
    Pow2Sum(7, size);
    Pow2Values();
    Pow2Positive(size);
    var p := Pow2(size);
    SplitScaled(n, p);
    MulMono(n % 128, n, p);
    MulMono(128, n, p);
  }

  lemma SplitScaled(n: nat, p: nat)
    ensures n % 128 * p + n / 128 * (128 * p) == n * p
  {
    assert n == 128 * (n / 128) + n % 128;
  }

  lemma Pow2Monotone(j: nat, k: nat)
    requires Pow2(j) < Pow2(k)
    ensures j < k
  {
    if j > 0 && k > 0 {
      Pow2Monotone(j - 1, k - 1);
    } else if k == 0 {
      Pow2Positive(j);
    }
  }

  /** The group loop adds up exactly the encoded number, as long as the sum fits the type. */
  lemma {:induction false} ReadGroupsBack(n: nat, rest: Bytes, value: nat, size: nat, bits: nat, wrap: nat)
    requires size < bits && value + n * Pow2(size) < Pow2(bits) <= wrap
    ensures ReadGroups(Leb128(n) + rest, value, size, bits, wrap) == Ok(Parsed(value + n * Pow2(size), rest))
    decreases n
  {
    hide Leb128, Pow2, ReadGroups;
    GroupsUnfold(n, rest, value, size, bits, wrap);
    if n < 128 {
      SmallMod(value + n * Pow2(size), wrap);
    } else {
      Grow(n, size, value);
      Pow2Monotone(size + 7, bits);
      SmallMod(value + n % 128 * Pow2(size), wrap);
      ReadGroupsBack(n / 128, rest, value + n % 128 * Pow2(size), size + 7, bits, wrap);
    }
  }

  lemma GroupsUnfold(n: nat, rest: Bytes, value: nat, size: nat, bits: nat, wrap: nat)
    requires wrap > 0 && size < bits
    ensures ReadGroups(Leb128(n) + rest, value, size, bits, wrap) ==
            if n < 128 then Ok(Parsed((value + n * Pow2(size)) % wrap, rest))
            else ReadGroups(Leb128(n / 128) + rest, (value + n % 128 * Pow2(size)) % wrap, size + 7, bits, wrap)
  {
    hide Leb128, Pow2;
    LebTail(n, rest);
  }

  lemma SmallMod(n: nat, m: nat)
    requires n < m
    ensures n % m == n
  {
  }

  lemma VarIntRoundTrip(data: int, rest: Bytes)
    requires IsSigned(data, 32)
    ensures ReadVarInt(Leb128(data % 0x1_0000_0000) + rest) == Ok(Parsed(data, rest))
  {
    Pow2Values();
    ReadGroupsBack(data % 0x1_0000_0000, rest, 0, 0, 32, 0x1_0000_0000);
    SignedOfMod(data, 32);
  }

  lemma VarUIntRoundTrip(data: nat, rest: Bytes)
    requires data < 0x1_0000_0000
    ensures ReadVarUInt(Leb128(data) + rest) == Ok(Parsed(data, rest))
  {
    hide ReadGroups, Leb128, Pow2;
    Pow2Values();
    Pow2Zero();
    ReadGroupsBack(data, rest, 0, 0, 32, 0x1_0000_0000);
    assert ToSigned(data, 32) % 0x1_0000_0000 == data;
  }

  lemma VarShortRoundTrip(data: int, rest: Bytes)
    requires IsSigned(data, 16)
    ensures ReadVarShort(Leb128(data % 0x1_0000) + rest) == Ok(Parsed(data, rest))
  {
    hide ReadGroups, Leb128;
    Pow2Values();
    ReadGroupsBack(data % 0x1_0000, rest, 0, 0, 16, 0x1_0000_0000);
    SignedOfMod(data, 16);
  }

  lemma VarUShortRoundTrip(data: nat, rest: Bytes)
    requires data < 0x1_0000
    ensures ReadVarUShort(Leb128(data) + rest) == Ok(Parsed(data, rest))
  {
    hide ReadGroups, Leb128, Pow2;
    Pow2Values();
    Pow2Zero();
    ReadGroupsBack(data, rest, 0, 0, 16, 0x1_0000_0000);
    assert ToSigned(data, 16) % 0x1_0000 == data;
  }

  // ---- 64 bits ----

  lemma SplitSeven(u: nat, p: nat)
    requires p > 0
    ensures u / (128 * p) == u / p / 128
    ensures u % (128 * p) == u % p + u / p % 128 * p
  {
    var q := u / p;
    assert u == p * q + u % p && q == 128 * (q / 128) + q % 128;
    MulMono(q % 128, 127, p);
    assert p * q == 128 * p * (q / 128) + q % 128 * p;
    ModUnique(u, 128 * p, q / 128, u % p + q % 128 * p);
  }

  lemma LowUnfold(n: nat, low: nat, size: nat, rest: Bytes)
    requires size < 28
    ensures ReadLongLow(Leb128(n) + rest, low, size) ==
            if n < 128 then Ok(Parsed(ToSigned((low + n * Pow2(size)) % 0x1_0000_0000_0000_0000, 64), rest))
            else ReadLongLow(Leb128(n / 128) + rest, low + n % 128 * Pow2(size), size + 7)
  {
    hide ToSigned, Leb128, Pow2, ReadLongMiddle;
    LebTail(n, rest);
  }

  lemma Quotient(u: nat, p: nat)
    requires p > 0
    ensures u / p >= 0
  {
  }

  /** The bits of u from position size on, and those below it. */
  ghost function Above(u: nat, size: nat): nat {
    Pow2Positive(size);
    Quotient(u, Pow2(size));
    u / Pow2(size)
  }

  ghost function Below(u: nat, size: nat): nat {
    Pow2Positive(size);
    u % Pow2(size)
  }

  lemma NextGroup(u: nat, size: nat)
    ensures Above(u, size + 7) == Above(u, size) / 128
    ensures Below(u, size + 7) == Below(u, size) + Above(u, size) % 128 * Pow2(size)
    ensures Below(u, size) + Above(u, size) * Pow2(size) == u
  {
    hide Pow2;
    Pow2Positive(size);
    Pow2Sum(7, size);
    Pow2Values();
    SplitSeven(u, Pow2(size));
  }

  /** One of the first four groups. */
  lemma LowStep(u: nat, size: nat, rest: Bytes)
    requires size < 28 && u < 0x1_0000_0000_0000_0000
    ensures ReadLongLow(Leb128(Above(u, size)) + rest, Below(u, size), size) ==
            if Above(u, size) < 128 then Ok(Parsed(ToSigned(u, 64), rest))
            else ReadLongLow(Leb128(Above(u, size + 7)) + rest, Below(u, size + 7), size + 7)
  {
    hide ToSigned, Leb128, ReadLongLow, Pow2, Above, Below;
    NextGroup(u, size);
    LowUnfold(Above(u, size), Below(u, size), size, rest);
    SmallMod(u, 0x1_0000_0000_0000_0000);
  }

  lemma AboveEnds(u: nat)
    ensures Above(u, 0) == u && Below(u, 0) == 0
    ensures Above(u, 28) == u / 0x1000_0000 && Below(u, 28) == u % 0x1000_0000
  {
    Pow2Values();
    assert Pow2(0) == 1;
  }

  lemma HighUnfold(n: nat, rest: Bytes, low: nat, high: nat, size: nat, last: Byte)
    requires size < 32
    ensures ReadLongHigh(Leb128(n) + rest, low, high, size, last) ==
            if n < 128 then Ok(Parsed(Join(low, high + n * Pow2(size)), rest))
            else ReadLongHigh(Leb128(n / 128) + rest, low, high + n % 128 * Pow2(size), size + 7, n % 128 + 128)
  {
    hide Join, Leb128, Pow2;
    LebTail(n, rest);
  }

  lemma {:induction false} HighBack(n: nat, rest: Bytes, low: nat, high: nat, size: nat, last: Byte)
    requires size < 32 && high + n * Pow2(size) < 0x1_0000_0000
    ensures ReadLongHigh(Leb128(n) + rest, low, high, size, last) == Ok(Parsed(Join(low, high + n * Pow2(size)), rest))
    decreases n
  {
    hide Join, Leb128, Pow2, ReadLongHigh;
    HighUnfold(n, rest, low, high, size, last);
    if n >= 128 {
      Grow(n, size, high);
      Pow2Values();
      Pow2Monotone(size + 7, 32);
      HighBack(n / 128, rest, low, high + n % 128 * Pow2(size), size + 7, n % 128 + 128);
    }
  }

  lemma JoinHalves(u: nat, low: nat)
    requires u < 0x1_0000_0000_0000_0000 && low % 0x1_0000_0000 == u % 0x1_0000_0000
    ensures Join(low, u / 0x1_0000_0000) == ToSigned(u, 64)
  {
    hide ToSigned;
  }

  /** How the fifth group is shared out between the halves. */
  lemma MiddleSplit(u: nat)
    requires u < 0x1_0000_0000_0000_0000
    ensures var n := u / 0x1000_0000;
            && u % 0x1000_0000 + n * 0x1000_0000 == u && n / 16 == u / 0x1_0000_0000
            && (u % 0x1000_0000 + n % 128 * 0x1000_0000) % 0x1_0000_0000 == u % 0x1_0000_0000
            && n % 128 / 16 + n / 128 * 8 == u / 0x1_0000_0000
  {
    var a, n := u % 0x1000_0000, u / 0x1000_0000;
    var b, c := n % 128, n / 128;
    assert u == a + 0x1000_0000 * b + 0x8_0000_0000 * c;
    var below := a + 0x1000_0000 * (b % 16);
    ModUnique(u, 0x1_0000_0000, b / 16 + 8 * c, below);
    ModUnique(a + b * 0x1000_0000, 0x1_0000_0000, b / 16, below);
    ModUnique(n, 16, b / 16 + 8 * c, b % 16);
  }

  lemma MiddleUnfold(n: nat, low: nat, rest: Bytes)
    ensures ReadLongMiddle(Leb128(n) + rest, low) ==
            if n < 128 then Ok(Parsed(Join(low + n * 0x1000_0000, n / 16), rest))
            else ReadLongHigh(Leb128(n / 128) + rest, low + n % 128 * 0x1000_0000, n % 128 / 16, 3, n % 128 + 128)
  {
    hide Join, Leb128, ReadLongHigh, Pow2;
    Pow2Values();
    LebTail(n, rest);
  }

  /** From the fifth group on the bits go to the high half. */
  lemma MiddleBack(u: nat, rest: Bytes)
    requires u < 0x1_0000_0000_0000_0000
    ensures ReadLongMiddle(Leb128(u / 0x1000_0000) + rest, u % 0x1000_0000) == Ok(Parsed(ToSigned(u, 64), rest))
  {
    hide Join, ToSigned, Leb128, ReadLongMiddle, ReadLongHigh;
    var n := u / 0x1000_0000;
    MiddleUnfold(n, u % 0x1000_0000, rest);
    MiddleSplit(u);
    if n < 128 {
      JoinHalves(u, u);
    } else {
      var low, high := u % 0x1000_0000 + n % 128 * 0x1000_0000, n % 128 / 16;
      assert Pow2(3) == 8;
      HighBack(n / 128, rest, low, high, 3, n % 128 + 128);
      JoinHalves(u, low);
    }
  }

  lemma LongPatternRoundTrip(u: nat, rest: Bytes)
    requires u < 0x1_0000_0000_0000_0000
    ensures ReadVarLong(Leb128(u) + rest) == Ok(Parsed(ToSigned(u, 64), rest))
  {
    hide ReadLongLow, Leb128, ToSigned, ReadLongMiddle, Above, Below;
    AboveEnds(u);
    LowStep(u, 0, rest);
    LowStep(u, 7, rest);
    LowStep(u, 14, rest);
    LowStep(u, 21, rest);
    MiddleEntry(Leb128(u / 0x1000_0000) + rest, u % 0x1000_0000);
    MiddleBack(u, rest);
  }

  lemma MiddleEntry(s: Bytes, low: nat)
    ensures ReadLongLow(s, low, 28) == ReadLongMiddle(s, low)
  {
  }

  /** Every i64, written as LEB128 of its 64-bit pattern, is read back, and nothing after it is touched. */
  lemma VarLongRoundTrip(data: int, rest: Bytes)
    requires IsSigned(data, 64)
    ensures ReadVarLong(Leb128(data % 0x1_0000_0000_0000_0000) + rest) == Ok(Parsed(data, rest))
  {
    hide ReadVarLong, Leb128;
    Pow2Values();
    LongPatternRoundTrip(data % 0x1_0000_0000_0000_0000, rest);
    SignedOfMod(data, 64);
  }

  lemma VarULongRoundTrip(data: nat, rest: Bytes)
    requires data < 0x1_0000_0000_0000_0000
    ensures ReadVarULong(Leb128(data) + rest) == Ok(Parsed(data, rest))
  {
    hide ReadVarLong, Leb128;
    Pow2Values();
    LongPatternRoundTrip(data, rest);
  }
}
