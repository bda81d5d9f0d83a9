/** The protocol's byte writer and reader: the loops of the crate, tied to the encodings they produce and consume. */
module ByteIO {
  import opened Common
  import opened Binary
  import opened VarInt

  class BigEndianWriter {
    var buffer: Bytes

    constructor ()
      ensures buffer == []
    {
      buffer := [];
    }

    method WriteByte(data: Byte)
      modifies this
      ensures buffer == old(buffer) + [data]
    {
      buffer := buffer + [data];
    }

    method WriteBytes(data: Bytes)
      modifies this
      ensures buffer == old(buffer) + data
    {
      buffer := buffer + data;
    }

    /** Any value: the cast to an unsigned 16-bit pattern is part of the write. */
    method WriteUShort(data: int)
      modifies this
      ensures buffer == old(buffer) + BigEndian(data, 2)
    {
      buffer := buffer + BigEndian(data, 2);
    }

    method WriteUInt(data: int)
      modifies this
      ensures buffer == old(buffer) + BigEndian(data, 4)
    {
      buffer := buffer + BigEndian(data, 4);
    }

    /** The groups of an unsigned value, continuation bit set while something is left. */
    method WriteGroups(data: nat)
      modifies this
      ensures buffer == old(buffer) + Leb128(data)
    {
      var value := data;
      var more := true;
      while more
        invariant more ==> buffer + Leb128(value) == old(buffer) + Leb128(data)
        invariant !more ==> buffer == old(buffer) + Leb128(data)
        decreases more, value
      {
        var group: Byte := value % 128;
        var next := value / 128;
        if next != 0 {
          assert buffer + Leb128(value) == (buffer + [group + 128]) + Leb128(next);
          group := group + 128;
        }
        WriteByte(group);
        value := next;
        more := value != 0;
      }
    }

    method WriteVarInt(data: int)
      requires IsSigned(data, 32)
      modifies this
      ensures buffer == old(buffer) + Leb128(data % 0x1_0000_0000)
    {
      WriteGroups(data % 0x1_0000_0000);
    }

    method WriteVarShort(data: int)
      requires IsSigned(data, 16)
      modifies this
      ensures buffer == old(buffer) + Leb128(data % 0x1_0000)
    {
      WriteGroups(data % 0x1_0000);
    }

    /** The straddling byte and the groups of the high half. */
    method WriteHighHalf(high0: nat, low: nat)
      requires low < 16 && high0 > 0
      modifies this
      ensures buffer == old(buffer) + Leb128(high0 * 16 + low)
    {
      hide Leb128;
      var left, high := high0 * 16 + low, high0;
      LebSplit(buffer, left);
      if high < 8 {
        WriteByte(left);
      } else {
        WriteByte(left % 128 + 128);
        high := high / 8;
        assert high == left / 128;
        while high >= 128
          invariant high > 0 && buffer + Leb128(high) == old(buffer) + Leb128(left)
        {
          LebSplit(buffer, high);
          WriteByte(high % 128 + 128);
          high := high / 128;
        }
        LebSplit(buffer, high);
        WriteByte(high);
      }
    }

    /** Four groups from the low half, one straddling byte, the rest from the high half. */
    method WriteVarLong(data: int)
      requires IsSigned(data, 64)
      modifies this
      ensures buffer == old(buffer) + Leb128(data % 0x1_0000_0000_0000_0000)
    {
      hide Leb128, IsSigned, ToSigned;
      var value: nat := data % 0x1_0000_0000_0000_0000;
      var low, high := value % 0x1_0000_0000, value / 0x1_0000_0000;
      if high == 0 {
        LowHalfPattern(low);
        WriteVarInt(ToSigned(low, 32));
        return;
      }
      ghost var before := buffer;
      ghost var left: nat := value;
      Pow2Values();
      for i := 0 to 4
        invariant buffer + Leb128(left) == before + Leb128(value)
        invariant Pow2(32 - 7 * i) > 0 && left % Pow2(32 - 7 * i) == low && left / Pow2(32 - 7 * i) == high
      {
        LowGroup(left, i, low, high);
        LebSplit(buffer, left);
        WriteByte(low % 128 + 128);
        low := low / 128;
        left := left / 128;
      }
      assert left % 16 == low && left / 16 == high;
      WriteHighHalf(high, low);
    }
  }

  lemma LebSplit(before: Bytes, n: nat)
    ensures n < 128 ==> before + [n] == before + Leb128(n)
    ensures n >= 128 ==> before + [n % 128 + 128] + Leb128(n / 128) == before + Leb128(n)
  {
    if n >= 128 {
      assert Leb128(n) == [n % 128 + 128] + Leb128(n / 128);
    }
  }

  lemma LowHalfPattern(low: nat)
    requires low < 0x1_0000_0000
    ensures IsSigned(ToSigned(low, 32), 32) && ToSigned(low, 32) % 0x1_0000_0000 == low
  {
    Pow2Values();
  }

  /** Taking one group off a value takes it off the low half; the high half is untouched. */
  lemma LowGroup(left: nat, i: nat, low: nat, high: nat)
    requires i < 4 && Pow2(32 - 7 * i) > 0
    requires left % Pow2(32 - 7 * i) == low && left / Pow2(32 - 7 * i) == high && high > 0
    ensures left >= 128 && left % 128 == low % 128
    ensures Pow2(25 - 7 * i) > 0 && left / 128 % Pow2(25 - 7 * i) == low / 128 && left / 128 / Pow2(25 - 7 * i) == high
  {
    hide Pow2;
    var p := Pow2(25 - 7 * i);
    Pow2Positive(25 - 7 * i);
    Pow2Sum(7, 25 - 7 * i);
    Pow2Values();
    assert Pow2(32 - 7 * i) == 128 * p;
    assert left == 128 * p * high + low;
    assert left == 128 * (p * high) + low;
    ModUnique(left, 128, p * high + low / 128, low % 128);
    ModUnique(left / 128, p, high, low / 128);
  }

  /** A cursor over a growing buffer: writing behind the end appends, writing elsewhere overwrites. */
  class OutCursor {
    var buf: Bytes
    var pos: nat

    constructor ()
      ensures buf == [] && pos == 0
    {
      buf := [];
      pos := 0;
    }

    ghost predicate AtEnd()
      reads this
    {
      pos == |buf|
    }

    method WriteAll(b: Bytes)
      requires pos <= |buf|
      modifies this
      ensures pos == old(pos) + |b|
      ensures buf == old(buf[..pos]) + b + (if pos < |old(buf)| then old(buf)[pos..] else [])
      ensures old(AtEnd()) ==> buf == old(buf) + b && AtEnd()
    {
      var rest := if pos + |b| < |buf| then buf[pos + |b|..] else [];
      assert old(AtEnd()) ==> buf[..pos] + b + rest == buf + b;
      buf := buf[..pos] + b + rest;
      pos := pos + |b|;
    }

    method Seek(p: nat)
      modifies this
      ensures pos == p && buf == old(buf)
    {
      pos := p;
    }

    /** The length prefix keeps only the low 16 bits. */
    method WriteUtf(s: Bytes)
      requires AtEnd()
      modifies this
      ensures AtEnd() && buf == old(buf) + Utf(s)
    {
      WriteAll(BigEndian(|s|, 2));
      WriteAll(s);
    }

    /** Outcome of a write that appends what spec says, or fails when spec does. */
    ghost predicate Wrote(before: Bytes, spec: Result<Bytes>, ok: bool)
      reads this
    {
      && (ok <==> spec.Ok?)
      && (ok ==> AtEnd() && buf == before + spec.value)
    }
  }

  /** A placeholder behind the head is overwritten in place. */
  lemma Patched(head: Bytes, zero: Bytes, pointer: Bytes, tail: Bytes, before: Bytes, after: Bytes)
    requires before == head + zero + tail && |zero| == |pointer|
    requires after == before[..|head|] + pointer + before[|head| + |zero|..]
    ensures after == head + pointer + tail
  {
    assert before[..|head|] == head && before[|head| + |zero|..] == tail;
  }

  /** A reader over fixed data. Its abstract value is what is left to read. */
  class BigEndianReader {
    const data: Bytes
    var pos: nat

    constructor (data: Bytes)
      ensures Valid() && Remaining() == data && pos == 0 && this.data == data
    {
      this.data := data;
      pos := 0;
    }

    ghost predicate Valid()
      reads this
    {
      pos <= |data|
    }

    function Remaining(): Bytes
      requires Valid()
      reads this
    {
      data[pos..]
    }

    /** The outcome r of a read agrees with what the specification parsed; after an error the position is open. */
    ghost predicate Agrees<T(!new)>(spec: Result<Parsed<T>>, r: Result<T>)
      reads this
    {
      && Valid()
      && match spec
         case Err => r.Err?
         case Ok(p) => r == Ok(p.value) && Remaining() == p.rest
    }

    method ReadByte() returns (r: Result<Byte>)
      requires Valid()
      modifies this
      ensures Agrees(if old(Remaining()) == [] then Err
                     else Ok(Parsed(old(Remaining())[0], old(Remaining())[1..])), r)
      ensures r.Ok? ==> old(Remaining()) != [] && r.value == old(Remaining())[0] && pos == old(pos) + 1
    {
      if pos == |data| {
        return Err;
      }
      pos := pos + 1;
      return Ok(data[pos - 1]);
    }

    method ReadUnsigned(width: nat) returns (r: Result<nat>)
      requires Valid()
      modifies this
      ensures Agrees(Binary.ReadUnsigned(old(Remaining()), width), r)
      ensures r.Ok? ==> pos == old(pos) + width
    {
      if pos + width > |data| {
        return Err;
      }
      assert data[pos..][..width] == data[pos..pos + width];
      pos := pos + width;
      return Ok(FromBigEndian(data[pos - width..pos]));
    }

    method ReadBytes(size: nat) returns (r: Result<Bytes>)
      requires Valid()
      modifies this
      ensures Agrees(Binary.ReadBytes(old(Remaining()), size), r)
      ensures r.Ok? ==> pos == old(pos) + size
    {
      if pos + size > |data| {
        return Err;
      }
      assert data[pos..][..size] == data[pos..pos + size];
      pos := pos + size;
      return Ok(data[pos - size..pos]);
    }

    /** Bytes of a number one at a time, most significant first. */
    method ReadUIntN(byteLength: nat) returns (r: Result<nat>)
      requires Valid() && byteLength <= 4
      modifies this
      ensures Agrees(Binary.ReadUnsigned(old(Remaining()), byteLength), r)
      ensures r.Ok? ==> pos == old(pos) + byteLength
    {
      hide Pow2;
      var value: nat := 0;
      ghost var s := Remaining();
      for i := 0 to byteLength
        invariant Valid() && i <= |s| && Remaining() == s[i..] && pos == old(pos) + i
        invariant value == FromBigEndian(s[..i]) * Pow2(8 * (byteLength - i))
      {
        var b := ReadByte();
        if b.Err? {
          return Err;
        }
        assert s[..i + 1][..i] == s[..i];
        Pow2Sum(8, 8 * (byteLength - 1 - i));
        Pow2Values();
        ShiftIn(FromBigEndian(s[..i]), b.value, Pow2(8 * (byteLength - 1 - i)));
        value := value + b.value * Pow2(8 * (byteLength - 1 - i));
      }
      assert Pow2(0) == 1 by { Pow2Zero(); }
      return Ok(value);
    }

    /** The 32-bit loop: size counts the bits already read. */
    method ReadVarInt() returns (r: Result<int>)
      requires Valid()
      modifies this
      ensures Agrees(VarInt.ReadVarInt(old(Remaining())), r)
    {
      var groups := ReadGroups(32, 0x1_0000_0000);
      match groups
      case Err => return Err;
      case Ok(value) => return Ok(ToSigned(value, 32));
    }

    method ReadGroups(bits: nat, wrap: nat) returns (r: Result<nat>)
      requires Valid() && wrap > 0
      modifies this
      ensures Agrees(VarInt.ReadGroups(old(Remaining()), 0, 0, bits, wrap), r)
    {
      hide Pow2;
      var value: nat := 0;
      var size: nat := 0;
      while size < bits
        invariant Valid()
        invariant VarInt.ReadGroups(old(Remaining()), 0, 0, bits, wrap) ==
                  VarInt.ReadGroups(Remaining(), value, size, bits, wrap)
      {
        var b := ReadByte();
        if b.Err? {
          return Err;
        }
        value := (value + b.value % 128 * Pow2(size)) % wrap;
        if b.value < 128 {
          return Ok(value);
        }
        size := size + 7;
      }
      return Err;
    }

    method ReadVarShort() returns (r: Result<int>)
      requires Valid()
      modifies this
      ensures Agrees(VarInt.ReadVarShort(old(Remaining())), r)
    {
      var groups := ReadGroups(16, 0x1_0000_0000);
      match groups
      case Err => return Err;
      case Ok(value) =>
        var v: int := value;
        if v > 0x7fff {
          v := v - 0x1_0000;
        }
        return Ok(ToSigned(v % 0x1_0000, 16));
    }

    method ReadVarLong() returns (r: Result<int>)
      requires Valid()
      modifies this
      ensures Agrees(VarInt.ReadVarLong(old(Remaining())), r)
    {
      hide Pow2, ToSigned, Join, ReadLongHigh, ReadLongMiddle;
      var low: nat := 0;
      var size: nat := 0;
      while size < 28
        invariant Valid()
        invariant VarInt.ReadVarLong(old(Remaining())) == ReadLongLow(Remaining(), low, size)
      {
        var b := ReadByte();
        if b.Err? {
          return Err;
        }
        if b.value >= 128 {
          low := low + b.value % 128 * Pow2(size);
          size := size + 7;
        } else {
          return Ok(ToSigned((low + b.value * Pow2(size)) % 0x1_0000_0000_0000_0000, 64));
        }
      }
      r := ReadLongTail(low);
    }

    /** The straddling byte and the loop over the high half. */
    method ReadLongTail(low0: nat) returns (r: Result<int>)
      requires Valid()
      modifies this
      ensures Agrees(ReadLongMiddle(old(Remaining()), low0), r)
    {
      hide Pow2, Join, ToSigned, ReadLongHigh;
      var b := ReadByte();
      if b.Err? {
        return Err;
      }
      if b.value < 128 {
        return Ok(Join(low0 + b.value * Pow2(28), b.value / 16));
      }
      r := ReadHighHalf(low0 + b.value % 128 * Pow2(28), b.value % 128 / 16, b.value);
    }

    method ReadHighHalf(low: nat, high0: nat, last0: Byte) returns (r: Result<int>)
      requires Valid()
      modifies this
      ensures Agrees(ReadLongHigh(old(Remaining()), low, high0, 3, last0), r)
    {
      hide Pow2, Join, ReadLongHigh;
      var high: nat, last: Byte, size: nat := high0, last0, 3;
      while size < 32
        invariant Valid()
        invariant ReadLongHigh(old(Remaining()), low, high0, 3, last0) ==
                  ReadLongHigh(Remaining(), low, high, size, last)
      {
        HighCases(Remaining(), low, high, size, last);
        var b := ReadByte();
        if b.Err? {
          return Err;
        }
        last := b.value;
        if last < 128 {
          break;
        }
        high := high + last % 128 * Pow2(size);
        size := size + 7;
      }
      HighCases(Remaining(), low, high, size, last);
      high := high + last * Pow2(size);
      return Ok(Join(low, high));
    }

    method ReadSigned(width: nat) returns (r: Result<int>)
      requires Valid()
      modifies this
      ensures Agrees(Binary.ReadSigned(old(Remaining()), width), r)
      ensures r.Ok? ==> pos == old(pos) + width
    {
      var u := ReadUnsigned(width);
      match u
      case Err => return Err;
      case Ok(n) => return Ok(ToSigned(n, 8 * width));
    }

    /** Behind the end nothing can be read. */
    method Seek(p: nat)
      requires Valid()
      modifies this
      ensures Valid() && Remaining() == if p <= |data| then data[p..] else []
    {
      pos := if p <= |data| then p else |data|;
    }

    method ReadUtf() returns (r: Result<Bytes>)
      requires Valid()
      modifies this
      ensures Agrees(Binary.ReadUtf(old(Remaining())), r)
      ensures r.Ok? ==> pos > old(pos)
    {
      var length := ReadUnsigned(2);
      match length
      case Err => return Err;
      case Ok(n) => r := ReadBytes(n);
    }
  }

  lemma HighCases(s: Bytes, low: nat, high: nat, size: nat, last: Byte)
    ensures size >= 32 ==> ReadLongHigh(s, low, high, size, last) == Ok(Parsed(Join(low, high + last * Pow2(size)), s))
    ensures size < 32 && s == [] ==> ReadLongHigh(s, low, high, size, last).Err?
    ensures size < 32 && s != [] && s[0] < 128 ==>
              ReadLongHigh(s, low, high, size, last) == Ok(Parsed(Join(low, high + s[0] * Pow2(size)), s[1..]))
    ensures size < 32 && s != [] && s[0] >= 128 ==>
              ReadLongHigh(s, low, high, size, last) ==
                    ReadLongHigh(s[1..], low, high + s[0] % 128 * Pow2(size), size + 7, s[0])
  {
    hide Pow2, Join;
  }

  lemma ShiftIn(acc: nat, b: nat, p: nat)
    ensures acc * (256 * p) + b * p == (256 * acc + b) * p
  {
  }
}
