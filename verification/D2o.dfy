/** D2O object files: JSON-like values, the class tables that drive their layout, and the two codecs. */
module D2o {
  import opened Common
  import opened Binary

  type Bits64 = n: nat | n < 0x1_0000_0000_0000_0000

  /** A JSON value. Strings are bytes; a floating point number is its 64-bit pattern. */
  datatype Value =
    | Null
    | Bool(b: bool)
    | Int(i: int)
    | Num(bits: Bits64)
    | Str(s: Bytes)
    | Array(items: seq<Value>)
    | Object(fields: map<Bytes, Value>)

  datatype FieldType =
    | TInt | TBool | TString | TNumber | TI18n | TUInt
    | TVector(name: Bytes, inner: FieldType)
    | TObject(classId: int)

  datatype FieldDef = FieldDef(name: Bytes, fieldType: FieldType)

  datatype ClassDef = ClassDef(classId: int, name: Bytes, package: Bytes, fields: seq<FieldDef>)

  /** The class table with the order in which its hash map iterates, and the conversion of integers to floats. */
  datatype Table = Table(classes: map<int, ClassDef>, order: seq<int>, f64Of: int -> Bits64)

  const NULL_OBJECT_MARKER: int := -1431655766

  /** "_class" and "null" as bytes. */
  const CLASS_KEY: Bytes := [95, 99, 108, 97, 115, 115]
  const NULL_TEXT: Bytes := [110, 117, 108, 108]

  // ---- Conversions of a JSON value to what a field stores ----

  function AsI64(v: Value): int {
    if v.Int? && -0x8000_0000_0000_0000 <= v.i < 0x8000_0000_0000_0000 then v.i else 0
  }

  function AsU64(v: Value): nat {
    if v.Int? && 0 <= v.i < 0x1_0000_0000_0000_0000 then v.i else 0
  }

  function AsF64(t: Table, v: Value): Bits64 {
    match v
    case Num(bits) => bits
    case Int(i) => t.f64Of(i)
    case _ => 0
  }

  /** All exponent bits set: an infinity or a NaN, which JSON cannot hold. */
  predicate IsFinite(bits: Bits64) {
    bits / 0x10_0000_0000_0000 % 0x800 != 0x7ff
  }

  function JsonNumber(bits: Bits64): Value {
    if IsFinite(bits) then Num(bits) else Null
  }

  function JsonString(s: Bytes): Value {
    if s == NULL_TEXT then Null else Str(s)
  }

  function Get(v: Value, name: Bytes): Value {
    if v.Object? && name in v.fields then v.fields[name] else Null
  }

  // ---- Writer ----

  function WriteUtf(s: Bytes): Result<Bytes> {
    if |s| > 65535 then Err else Ok(Utf(s))
  }

  /** The first class with the given name in iteration order. */
  function FindClass(t: Table, name: Bytes, i: nat): Option<int>
    requires i <= |t.order|
    decreases |t.order| - i
  {
    if i == |t.order| then None
    else if t.order[i] in t.classes && t.classes[t.order[i]].name == name then Some(t.order[i])
    else FindClass(t, name, i + 1)
  }

  /** The class an object value names in its "_class" entry. */
  function ClassOf(t: Table, v: Value): Option<int> {
    match Get(v, CLASS_KEY)
    case Str(name) => FindClass(t, name, 0)
    case _ => None
  }

  function EncodeScalar(t: Table, ft: FieldType, v: Value): Result<Bytes>
    requires !ft.TVector? && !ft.TObject?
  {
    match ft
    case TInt => Ok(BigEndian(AsI64(v), 4))
    case TBool => Ok([if v == Bool(true) then 1 else 0])
    case TString => if v.Null? then WriteUtf(NULL_TEXT) else if v.Str? then WriteUtf(v.s) else WriteUtf([])
    case TNumber => Ok(BigEndian(AsF64(t, v), 8))
    case TI18n => Ok(BigEndian(AsI64(v), 4))
    case TUInt => Ok(BigEndian(AsU64(v), 4))
  }

  function Depth(v: Value): nat {
    if v.Null? then 0 else 1
  }

  function EncodeValue(t: Table, ft: FieldType, v: Value): Result<Bytes>
    decreases Depth(v), v, 3, 0
  {
    match ft
    case TVector(_, inner) =>
      if v.Array? then Concat2(BigEndian(|v.items|, 4), EncodeItems(t, inner, v, 0)) else Ok(BigEndian(0, 4))
    case TObject(_) =>
      if v.Null? then Ok(BigEndian(NULL_OBJECT_MARKER, 4)) else EncodeObject(t, v)
    case _ => EncodeScalar(t, ft, v)
  }

  function EncodeItems(t: Table, inner: FieldType, v: Value, i: nat): Result<Bytes>
    requires v.Array? && i <= |v.items|
    decreases 1, v, 1, |v.items| - i
  {
    if i == |v.items| then Ok([])
    else
      var first :- EncodeValue(t, inner, v.items[i]);
      Concat2(first, EncodeItems(t, inner, v, i + 1))
  }

  /** Class id, then the fields of the class in declaration order. */
  function EncodeObject(t: Table, v: Value): Result<Bytes>
    decreases 1, v, 2, 0
  {
    match ClassOf(t, v)
    case None => Err
    case Some(id) =>
      if id in t.classes then Concat2(BigEndian(id, 4), EncodeFields(t, t.classes[id].fields, v, 0)) else Err
  }

  function EncodeFields(t: Table, fields: seq<FieldDef>, v: Value, i: nat): Result<Bytes>
    requires v.Object? && i <= |fields|
    decreases 1, v, 1, |fields| - i
  {
    if i == |fields| then Ok([])
    else
      var first :- EncodeValue(t, fields[i].fieldType, Get(v, fields[i].name));
      Concat2(first, EncodeFields(t, fields, v, i + 1))
  }

  // ---- Reader ----

  function DecodeScalar(ft: FieldType, s: Bytes): (r: Result<Parsed<Value>>)
    requires !ft.TVector? && !ft.TObject?
    ensures r.Ok? ==> |r.value.rest| < |s|
  {
    match ft
    case TInt =>
      var p :- ReadSigned(s, 4);
      Ok(Parsed(Int(p.value), p.rest))
    case TBool =>
      var p :- ReadUnsigned(s, 1);
      Ok(Parsed(Bool(p.value != 0), p.rest))
    case TString =>
      var p :- ReadUtf(s);
      Ok(Parsed(JsonString(p.value), p.rest))
    case TNumber =>
      var p :- ReadUnsigned(s, 8);
      Ok(Parsed(JsonNumber(p.value % 0x1_0000_0000_0000_0000), p.rest))
    case TI18n =>
      var p :- ReadSigned(s, 4);
      Ok(Parsed(Int(p.value), p.rest))
    case TUInt =>
      var p :- ReadUnsigned(s, 4);
      Ok(Parsed(Int(p.value), p.rest))
  }

  /** Whatever the bytes and the class table, a successful read consumes at least one byte, so reading terminates. */
  function DecodeValue(classes: map<int, ClassDef>, ft: FieldType, s: Bytes): (r: Result<Parsed<Value>>)
    ensures r.Ok? ==> |r.value.rest| < |s|
    decreases |s|, 0, 0
  {
    match ft
    case TVector(_, inner) =>
      var count :- ReadSigned(s, 4);
      var items :- DecodeItems(classes, inner, count.value, count.rest);
      Ok(Parsed(Array(items.value), items.rest))
    case TObject(_) =>
      var id :- ReadSigned(s, 4);
      if id.value == NULL_OBJECT_MARKER then Ok(Parsed(Null, id.rest))
      else DecodeObject(classes, id.value, id.rest)
    case _ => DecodeScalar(ft, s)
  }

  /** A count of zero or less reads nothing. */
  function DecodeItems(classes: map<int, ClassDef>, inner: FieldType, count: int,
                       s: Bytes): (r: Result<Parsed<seq<Value>>>)
    ensures r.Ok? ==> |r.value.rest| <= |s|
    decreases |s|, 1, 0
  {
    if count <= 0 then Ok(Parsed([], s))
    else
      var first :- DecodeValue(classes, inner, s);
      var others :- DecodeItems(classes, inner, count - 1, first.rest);
      Ok(Parsed([first.value] + others.value, others.rest))
  }

  /** The fields of the class as they stand in the table; the class id has been read. */
  function DecodeObject(classes: map<int, ClassDef>, id: int, s: Bytes): (r: Result<Parsed<Value>>)
    ensures r.Ok? ==> |r.value.rest| <= |s|
    decreases |s|, 2, 0
  {
    if id !in classes then Err
    else
      var c := classes[id];
      var p :- DecodeFields(classes, c.fields, 0, s, map[CLASS_KEY := Str(c.name)]);
      Ok(Parsed(Object(p.value), p.rest))
  }

  function DecodeFields(classes: map<int, ClassDef>, fields: seq<FieldDef>, i: nat, s: Bytes, acc: map<Bytes, Value>)
    : (r: Result<Parsed<map<Bytes, Value>>>)
    requires i <= |fields|
    ensures r.Ok? ==> |r.value.rest| <= |s|
    decreases |s|, 1, |fields| - i
  {
    if i == |fields| then Ok(Parsed(acc, s))
    else
      var p :- DecodeValue(classes, fields[i].fieldType, s);
      DecodeFields(classes, fields, i + 1, p.rest, acc[fields[i].name := p.value])
  }

  // ---- What a value becomes ----

  function NormScalar(t: Table, ft: FieldType, v: Value): Value
    requires !ft.TVector? && !ft.TObject?
  {
    match ft
    case TInt => Int(ToSigned(AsI64(v) % 0x1_0000_0000, 32))
    case TBool => Bool(v == Bool(true))
    case TString => if v.Null? then Null else if v.Str? then JsonString(v.s) else Str([])
    case TNumber => JsonNumber(AsF64(t, v))
    case TI18n => Int(ToSigned(AsI64(v) % 0x1_0000_0000, 32))
    case TUInt => Int(AsU64(v) % 0x1_0000_0000)
  }

  /** The value stored by a field of type ft: conversions, defaults and dropped entries included. */
  function Norm(t: Table, ft: FieldType, v: Value): Value
    decreases Depth(v), v, 3, 0
  {
    match ft
    case TVector(_, inner) =>
      if v.Array? then Array(NormItems(t, inner, v, 0)) else Array([])
    case TObject(_) =>
      if v.Null? then Null else NormObject(t, v)
    case _ => NormScalar(t, ft, v)
  }

  function NormItems(t: Table, inner: FieldType, v: Value, i: nat): (r: seq<Value>)
    requires v.Array? && i <= |v.items|
    ensures |r| == |v.items| - i
    decreases 1, v, 1, |v.items| - i
  {
    if i == |v.items| then [] else [Norm(t, inner, v.items[i])] + NormItems(t, inner, v, i + 1)
  }

  function NormObject(t: Table, v: Value): Value
    decreases 1, v, 2, 0
  {
    match ClassOf(t, v)
    case None => Null
    case Some(id) =>
      if id in t.classes then
        Object(NormFields(t, t.classes[id].fields, v, 0, map[CLASS_KEY := Str(t.classes[id].name)]))
      else Null
  }

  function NormFields(t: Table, fields: seq<FieldDef>, v: Value, i: nat, acc: map<Bytes, Value>): map<Bytes, Value>
    requires v.Object? && i <= |fields|
    decreases 1, v, 1, |fields| - i
  {
    if i == |fields| then acc
    else
      NormFields(t, fields, v, i + 1, acc[fields[i].name := Norm(t, fields[i].fieldType, Get(v, fields[i].name))])
  }
}
