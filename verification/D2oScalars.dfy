/** What single object fields hold: each kind of value as stored and as read, in numbers and bytes. */
module D2oScalars {
  import opened Common
  import opened Binary
  import opened D2o
  import opened D2oValues
  import opened D2oFile

  // ---- Floating point numbers ----

  /** The bit pattern of a 64-bit float. */
  function FloatBits(sign: nat, exponent: nat, mantissa: nat): Bits64
    requires sign < 2 && exponent < 2048 && mantissa < 0x10_0000_0000_0000
  {
    sign * 0x8000_0000_0000_0000 + exponent * 0x10_0000_0000_0000 + mantissa
  }

  lemma ExponentOf(sign: nat, exponent: nat, mantissa: nat)
    requires sign < 2 && exponent < 2048 && mantissa < 0x10_0000_0000_0000
    ensures JsonNumber(FloatBits(sign, exponent, mantissa)) ==
            if exponent == 2047 then Null else Num(FloatBits(sign, exponent, mantissa))
  {
    var bits := FloatBits(sign, exponent, mantissa);
    assert bits == (sign * 2048 + exponent) * 0x10_0000_0000_0000 + mantissa;
    assert bits / 0x10_0000_0000_0000 == sign * 2048 + exponent;
  }

  /** A float field is read as its number; infinities and NaNs, whose exponent bits are all set, are read as null. */
  lemma NumberRead(sign: nat, exponent: nat, mantissa: nat, rest: Bytes)
    requires sign < 2 && exponent < 2048 && mantissa < 0x10_0000_0000_0000
    ensures var bits := FloatBits(sign, exponent, mantissa);
            DecodeScalar(TNumber, BigEndian(bits, 8) + rest) ==
            Ok(Parsed(if exponent == 2047 then Null else Num(bits), rest))
  {
    hide BigEndian, DecodeScalar, FloatBits;
    BitsRead(FloatBits(sign, exponent, mantissa), rest);
    ExponentOf(sign, exponent, mantissa);
  }

  lemma BitsRead(bits: Bits64, rest: Bytes)
    ensures DecodeScalar(TNumber, BigEndian(bits, 8) + rest) == Ok(Parsed(JsonNumber(bits), rest))
  {
    hide BigEndian, ReadUnsigned, JsonNumber, Pow2;
    Pow2Values();
    ReadUnsignedAny(bits, 8, rest);
  }

  /** A number written to a float field comes back, and null when it is none that JSON can hold. */
  lemma NumberStored(t: Table, sign: nat, exponent: nat, mantissa: nat, rest: Bytes)
    requires sign < 2 && exponent < 2048 && mantissa < 0x10_0000_0000_0000
    ensures var bits := FloatBits(sign, exponent, mantissa);
            && EncodeValue(t, TNumber, Num(bits)) == Ok(BigEndian(bits, 8))
            && DecodeValue(t.classes, TNumber, EncodeValue(t, TNumber, Num(bits)).value + rest) ==
               Ok(Parsed(if exponent == 2047 then Null else Num(bits), rest))
  {
    hide BigEndian, DecodeScalar;
    NumberRead(sign, exponent, mantissa, rest);
  }

  /** Integers are converted by the given conversion, anything else becomes zero. */
  lemma OtherStoredAsNumber(t: Table, v: Value)
    requires !v.Num?
    ensures EncodeValue(t, TNumber, v) == Ok(BigEndian(if v.Int? then t.f64Of(v.i) else 0, 8))
  {
    hide BigEndian;
  }

  // ---- Integers, booleans, strings, null objects ----

  /** Int and I18n fields keep the low 32 bits of a 64-bit integer as a signed number; all other values become 0. */
  lemma IntStored(t: Table, ft: FieldType, v: Value, rest: Bytes)
    requires ft.TInt? || ft.TI18n?
    ensures EncodeValue(t, ft, v).Ok?
    ensures var r := DecodeValue(t.classes, ft, EncodeValue(t, ft, v).value + rest);
            && r.Ok? && r.value.value.Int? && r.value.rest == rest && -0x8000_0000 <= r.value.value.i < 0x8000_0000
            && (v.Int? && -0x8000_0000_0000_0000 <= v.i < 0x8000_0000_0000_0000 ==>
                  (r.value.value.i - v.i) % 0x1_0000_0000 == 0)
            && (!v.Int? || !(-0x8000_0000_0000_0000 <= v.i < 0x8000_0000_0000_0000) ==> r.value.value.i == 0)
  {
    hide BigEndian, ReadSigned, Pow2;
    Pow2Values();
    ReadI32(AsI64(v), rest);
    LowBits(AsI64(v));
  }

  lemma LowBits(n: int)
    ensures -0x8000_0000 <= ToSigned(n % 0x1_0000_0000, 32) < 0x8000_0000
    ensures (ToSigned(n % 0x1_0000_0000, 32) - n) % 0x1_0000_0000 == 0
  {
    Pow2Values();
    var u := n % 0x1_0000_0000;
    assert n == n / 0x1_0000_0000 * 0x1_0000_0000 + u;
    assert (u - n) % 0x1_0000_0000 == 0;
    assert (u - 0x1_0000_0000 - n) % 0x1_0000_0000 == 0;
  }

  /** UInt fields keep the low 32 bits of an unsigned 64-bit integer; all other values become 0. */
  lemma UIntStored(t: Table, v: Value, rest: Bytes)
    ensures EncodeValue(t, TUInt, v).Ok?
    ensures DecodeValue(t.classes, TUInt, EncodeValue(t, TUInt, v).value + rest) ==
            Ok(Parsed(Int(if v.Int? && 0 <= v.i < 0x1_0000_0000_0000_0000 then v.i % 0x1_0000_0000 else 0), rest))
  {
    hide BigEndian, ReadUnsigned, Pow2;
    Pow2Values();
    ReadUnsignedAny(AsU64(v), 4, rest);
  }

  /** Only the value true is stored as 1; any byte but 0 is read as true. */
  lemma BoolStored(t: Table, v: Value, b: Byte, rest: Bytes)
    ensures EncodeValue(t, TBool, v) == Ok(if v.Bool? && v.b then [1] else [0])
    ensures DecodeValue(t.classes, TBool, [b] + rest) == Ok(Parsed(Bool(b != 0), rest))
  {
    hide ReadUnsigned;
    OneByteBack(b, rest);
  }

  /** The bytes of a text of ASCII characters. */
  ghost predicate IsText(s: Bytes, text: string) {
    |s| == |text| && forall i :: 0 <= i < |s| ==> s[i] == text[i] as int
  }

  /** Null is stored as the text "null", and that text is read as null; what is no text becomes the empty one. */
  lemma StringStored(t: Table, v: Value, s: Bytes, rest: Bytes)
    requires |s| < 0x1_0000
    ensures IsText(NULL_TEXT, "null")
    ensures EncodeValue(t, TString, Null) == Ok([0, 4] + NULL_TEXT)
    ensures EncodeValue(t, TString, Str(s)) == Ok([|s| / 256, |s| % 256] + s)
    ensures !v.Null? && !v.Str? ==> EncodeValue(t, TString, v) == Ok([0, 0])
    ensures DecodeValue(t.classes, TString, [|s| / 256, |s| % 256] + s + rest) ==
            Ok(Parsed(if IsText(s, "null") then Null else Str(s), rest))
  {
    hide BigEndian, ReadUnsigned, FromBigEndian;
    LengthBytes(4);
    LengthBytes(0);
    LengthBytes(|s|);
    ReadUtfBack(s, rest);
    assert Utf([]) == [0, 0];
    assert IsText(s, "null") <==> s == NULL_TEXT;
  }

  lemma LengthBytes(n: nat)
    requires n < 0x1_0000
    ensures BigEndian(n, 2) == [n / 256, n % 256]
  {
    assert BigEndian(n, 2) == BigEndian(n / 256, 1) + [n % 256];
    assert BigEndian(n / 256, 1) == [] + [n / 256 % 256];
  }

  /** A null object is the marker 0xAAAAAAAA. */
  lemma NullObjectStored(t: Table, id: int, rest: Bytes)
    ensures EncodeValue(t, TObject(id), Null) == Ok([170, 170, 170, 170])
    ensures DecodeValue(t.classes, TObject(id), [170, 170, 170, 170] + rest) == Ok(Parsed(Null, rest))
  {
    hide ReadSigned;
    MarkerBytes();
    Int32Back(NULL_OBJECT_MARKER, rest);
  }

  lemma MarkerBytes()
    ensures BigEndian(NULL_OBJECT_MARKER, 4) == [170, 170, 170, 170]
  {
    var a, b, c := NULL_OBJECT_MARKER / 256, NULL_OBJECT_MARKER / 256 / 256, NULL_OBJECT_MARKER / 256 / 256 / 256;
    assert BigEndian(c, 1) == BigEndian(c / 256, 0) + [c % 256] == [170];
    assert BigEndian(b, 2) == BigEndian(c, 1) + [b % 256] == [170, 170];
    assert BigEndian(a, 3) == BigEndian(b, 2) + [a % 256] == [170, 170, 170];
    assert BigEndian(NULL_OBJECT_MARKER, 4) == BigEndian(a, 3) + [NULL_OBJECT_MARKER % 256];
  }

  /** Only arrays have items; any other value is stored as an empty vector. */
  lemma NoArrayStored(t: Table, name: Bytes, inner: FieldType, v: Value)
    requires !v.Array?
    ensures EncodeValue(t, TVector(name, inner), v) == Ok([0, 0, 0, 0])
  {
    hide EncodeItems;
    ZeroBytes();
  }

  lemma ZeroBytes()
    ensures BigEndian(0, 4) == [0, 0, 0, 0]
  {
    LengthBytes(0);
    var zero := 0;
    assert BigEndian(zero / 256, 3) == BigEndian(zero / 256 / 256, 2) + [0];
    assert BigEndian(zero, 4) == BigEndian(zero / 256, 3) + [0];
  }

  /** Objects are found by the class that the entry "_class" names. */
  lemma ClassEntry(t: Table, v: Value)
    requires v.Object?
    ensures IsText(CLASS_KEY, "_class")
    ensures CLASS_KEY !in v.fields || !v.fields[CLASS_KEY].Str? ==>
              forall id :: EncodeValue(t, TObject(id), v) == Err
    ensures CLASS_KEY in v.fields && v.fields[CLASS_KEY].Str? &&
            (forall k :: k in t.classes ==> t.classes[k].name != v.fields[CLASS_KEY].s) ==>
              forall id :: EncodeValue(t, TObject(id), v) == Err
  {
    hide EncodeFields;
    if CLASS_KEY in v.fields && v.fields[CLASS_KEY].Str? {
      FoundClass(t, v.fields[CLASS_KEY].s, 0);
    }
  }

  /** The first class of that name in iteration order is taken: its id, then its fields. */
  lemma ClassTaken(t: Table, v: Value, id: int, k: nat)
    requires v.Object? && CLASS_KEY in v.fields && v.fields[CLASS_KEY].Str?
    requires k < |t.order| && t.order[k] in t.classes && t.classes[t.order[k]].name == v.fields[CLASS_KEY].s
    requires forall j :: 0 <= j < k && t.order[j] in t.classes ==>
               t.classes[t.order[j]].name != v.fields[CLASS_KEY].s
    ensures EncodeValue(t, TObject(id), v) ==
            Concat2(BigEndian(t.order[k], 4), EncodeFields(t, t.classes[t.order[k]].fields, v, 0))
  {
    hide EncodeFields, FindClass, BigEndian;
    FirstClass(t, v.fields[CLASS_KEY].s, 0, k);
  }

  lemma {:induction false} FirstClass(t: Table, name: Bytes, i: nat, k: nat)
    requires i <= k < |t.order| && t.order[k] in t.classes && t.classes[t.order[k]].name == name
    requires forall j :: i <= j < k && t.order[j] in t.classes ==> t.classes[t.order[j]].name != name
    ensures FindClass(t, name, i) == Some(t.order[k])
    decreases k - i
  {
    if i < k {
      FirstClass(t, name, i + 1, k);
    }
  }

  lemma {:induction false} FoundClass(t: Table, name: Bytes, i: nat)
    requires i <= |t.order|
    ensures match FindClass(t, name, i)
            case None =>
              forall k :: i <= k < |t.order| && t.order[k] in t.classes ==> t.classes[t.order[k]].name != name
            case Some(id) => id in t.classes && t.classes[id].name == name
    decreases |t.order| - i
  {
    if i < |t.order| {
      FoundClass(t, name, i + 1);
    }
  }

  // ---- Codes in the class table ----

  /** The type a code stands for; zero and the unused negative codes are errors. */
  lemma TypeCodes(id: int, rest: Bytes)
    requires -0x8000_0000 <= id < 0x8000_0000
    ensures var r := DecodeType(BigEndian(id, 4) + rest);
            && (id == -1 ==> r == Ok(Parsed(TInt, rest)))
            && (id == -2 ==> r == Ok(Parsed(TBool, rest)))
            && (id == -3 ==> r == Ok(Parsed(TString, rest)))
            && (id == -4 ==> r == Ok(Parsed(TNumber, rest)))
            && (id == -5 ==> r == Ok(Parsed(TI18n, rest)))
            && (id == -6 ==> r == Ok(Parsed(TUInt, rest)))
            && (id > 0 ==> r == Ok(Parsed(TObject(id), rest)))
            && (id <= 0 && id !in {-1, -2, -3, -4, -5, -6, -99} ==> r == Err)
  {
    hide BigEndian, ReadSigned;
    Int32Back(id, rest);
  }

  /** A vector type is code -99, its name, and the type of its items. */
  lemma VectorCode(name: Bytes, code: Bytes)
    requires |name| < 0x1_0000
    ensures DecodeType(BigEndian(-99, 4) + (Utf(name) + code)) ==
            match DecodeType(code)
            case Err => Err
            case Ok(inner) => Ok(Parsed(TVector(name, inner.value), inner.rest))
  {
    hide BigEndian, ReadSigned, Utf, ReadUtf;
    Int32Back(-99, Utf(name) + code);
    ReadUtfBack(name, code);
  }

  lemma MagicTexts()
    ensures IsText(D2O_MAGIC, "D2O") && IsText(AKS_MAGIC, "AKS")
  {
  }

  // ---- Files that are refused ----

  /** Every file begins with "D2O" or, if it is signed, with "AKS". */
  lemma BadMagicRefused(data: Bytes)
    requires |data| < 3 || (!IsText(data[..3], "D2O") && !IsText(data[..3], "AKS"))
    ensures FromBytes(data) == Err
  {
    hide SignatureEnd, ReadTables;
    MagicTexts();
    if |data| >= 3 {
      assert data[..3] != D2O_MAGIC && data[..3] != AKS_MAGIC;
    }
  }

  /** The index lies at the stored position, counted from the start of the content; a negative one is refused. */
  lemma IndexPlace(data: Bytes, offset: nat, pointer: int, rest: Bytes)
    requires ContentOffset(data) == Ok(offset) && At(data, offset + 3) == BigEndian(pointer, 4) + rest
    requires -0x8000_0000 <= pointer < 0x8000_0000
    ensures pointer < 0 ==> FromBytes(data) == Err
    ensures pointer >= 0 ==> (FromBytes(data).Ok? <==> ReadTables(At(data, offset + pointer)).Ok?)
    ensures FromBytes(data).Ok? ==>
              var r := FromBytes(data).value;
              && r.data == data && r.contentOffset == offset
              && ReadTables(At(data, offset + pointer)) == Ok((r.indexes, r.classes))
  {
    hide BigEndian, ReadSigned, ContentOffset, ReadTables;
    Int32Back(pointer, rest);
  }

  /** The signature's length counts from behind it, and must not lead in front of the file. */
  lemma SignatureSkipped(f: Byte, version: int, length: int, rest: Bytes)
    requires -0x8000 <= version < 0x8000 && -0x8000_0000 <= length < 0x8000_0000
    ensures SignatureEnd([f] + BigEndian(version, 2) + BigEndian(length, 4) + rest) ==
            if length < -10 then Err else Ok(10 + length)
  {
    hide BigEndian, ReadSigned, Pow2;
    Pow2Values();
    var tail := BigEndian(length, 4) + rest;
    var s := [f] + BigEndian(version, 2) + BigEndian(length, 4) + rest;
    assert s == [f] + (BigEndian(version, 2) + tail);
    assert s[1..] == BigEndian(version, 2) + tail;
    ReadSignedBack(version, 2, tail);
    Int32Back(length, rest);
  }

  /** The length of the index counts whole entries of eight bytes; -7 to -1 stand for none, less is refused. */
  lemma OddIndexLength(length: int, rest: Bytes)
    requires -0x8000_0000 <= length < 0x8000_0000
    ensures ReadTables(BigEndian(length, 4) + rest) ==
            if length <= -8 then Err
            else ReadTables(BigEndian(if length < 0 then 0 else length - length % 8, 4) + rest)
  {
    hide BigEndian, ReadSigned, DecodeIndex, DecodeClasses;
    Int32Back(length, rest);
    if length > -8 {
      Int32Back(if length < 0 then 0 else length - length % 8, rest);
    }
  }

  /** Eight bytes of index length are one entry. */
  lemma OneEntry(id: int, offset: int, rest: Bytes)
    requires -0x8000_0000 <= id < 0x8000_0000 && -0x8000_0000 <= offset < 0x8000_0000
    ensures ReadTables(BigEndian(0, 4) + rest).Ok? ==>
              ReadTables(BigEndian(8, 4) + (BigEndian(id, 4) + (BigEndian(offset, 4) + rest))) ==
              Ok(([(id, offset)], ReadTables(BigEndian(0, 4) + rest).value.1))
  {
    hide BigEndian, ReadSigned, DecodeClasses;
    Int32Back(8, BigEndian(id, 4) + (BigEndian(offset, 4) + rest));
    Int32Back(0, rest);
    Int32Back(id, BigEndian(offset, 4) + rest);
    Int32Back(offset, rest);
    assert DecodeIndex(0, rest) == Ok(Parsed([], rest));
    assert [(id, offset)] + [] == [(id, offset)];
  }

  /** So is a negative offset of an object. */
  lemma NegativeOffsetRefused(r: Reader, id: int, i: nat)
    requires i < |r.indexes| && r.indexes[i].0 == id && r.indexes[i].1 < 0
    requires forall j :: 0 <= j < i ==> r.indexes[j].0 != id
    ensures ReadObject(r, id) == Err
  {
    FirstEntry(r.indexes, id, i);
  }

  lemma {:induction false} FirstEntry(indexes: seq<(int, int)>, id: int, i: nat)
    requires i < |indexes| && indexes[i].0 == id && forall j :: 0 <= j < i ==> indexes[j].0 != id
    ensures FindObject(indexes, id) == Some(indexes[i].1)
    decreases i
  {
    if i > 0 {
      assert indexes[1..][i - 1] == indexes[i];
      assert forall j :: 0 <= j < i - 1 ==> indexes[1..][j] == indexes[j + 1];
      FirstEntry(indexes[1..], id, i - 1);
    }
  }

  /** Behind a signature the content must begin with "D2O". */
  lemma SignedContentChecked(data: Bytes, start: nat)
    requires |data| >= 3 && IsText(data[..3], "AKS") && SignatureEnd(data[3..]) == Ok(start)
    ensures ContentOffset(data) ==
            if start + 3 <= |data| && IsText(data[start..start + 3], "D2O") then Ok(start) else Err
  {
    hide SignatureEnd;
    MagicTexts();
    assert data[..3] == AKS_MAGIC;
    if start + 3 <= |data| {
      assert At(data, start)[..3] == data[start..start + 3];
      assert IsText(data[start..start + 3], "D2O") <==> data[start..start + 3] == D2O_MAGIC;
    }
  }

  /** A negative number of fields is refused. */
  lemma NegativeFieldCountRefused(id: int, name: Bytes, package: Bytes, count: int, rest: Bytes)
    requires -0x8000_0000 <= id < 0x8000_0000 && |name| < 0x1_0000 && |package| < 0x1_0000
    requires -0x8000_0000 <= count < 0
    ensures DecodeClass(BigEndian(id, 4) + (Utf(name) + (Utf(package) + (BigEndian(count, 4) + rest)))) == Err
  {
    hide BigEndian, ReadSigned, Utf, ReadUtf, DecodeFieldDefs;
    Int32Back(id, Utf(name) + (Utf(package) + (BigEndian(count, 4) + rest)));
    ReadUtfBack(name, Utf(package) + (BigEndian(count, 4) + rest));
    ReadUtfBack(package, BigEndian(count, 4) + rest);
    Int32Back(count, rest);
  }
}
