/** The D2O container: objects, an index of absolute offsets, the class table, and the pointer patched in at the end. */
module D2oFile {
  import opened Common
  import opened Binary
  import opened D2o
  import opened D2oValues

  // ---- Class definitions ----

  function EncodeType(ft: FieldType): Result<Bytes> {
    match ft
    case TInt => Ok(BigEndian(-1, 4))
    case TBool => Ok(BigEndian(-2, 4))
    case TString => Ok(BigEndian(-3, 4))
    case TNumber => Ok(BigEndian(-4, 4))
    case TI18n => Ok(BigEndian(-5, 4))
    case TUInt => Ok(BigEndian(-6, 4))
    case TVector(name, inner) =>
      var n :- WriteUtf(name);
      Concat2(BigEndian(-99, 4) + n, EncodeType(inner))
    case TObject(id) => Ok(BigEndian(id, 4))
  }

  function DecodeType(s: Bytes): (r: Result<Parsed<FieldType>>)
    ensures r.Ok? ==> |r.value.rest| < |s|
    decreases |s|
  {
    var id :- ReadSigned(s, 4);
    if id.value == -1 then Ok(Parsed(TInt, id.rest))
    else if id.value == -2 then Ok(Parsed(TBool, id.rest))
    else if id.value == -3 then Ok(Parsed(TString, id.rest))
    else if id.value == -4 then Ok(Parsed(TNumber, id.rest))
    else if id.value == -5 then Ok(Parsed(TI18n, id.rest))
    else if id.value == -6 then Ok(Parsed(TUInt, id.rest))
    else if id.value == -99 then
      var name :- ReadUtf(id.rest);
      var inner :- DecodeType(name.rest);
      Ok(Parsed(TVector(name.value, inner.value), inner.rest))
    else if id.value > 0 then Ok(Parsed(TObject(id.value), id.rest))
    else Err
  }

  function EncodeFieldDefs(fields: seq<FieldDef>): Result<Bytes> {
    if fields == [] then Ok([])
    else
      var name :- WriteUtf(fields[0].name);
      var ft :- EncodeType(fields[0].fieldType);
      Concat2(name + ft, EncodeFieldDefs(fields[1..]))
  }

  function DecodeFieldDefs(count: int, s: Bytes): Result<Parsed<seq<FieldDef>>>
    decreases if count < 0 then 0 else count
  {
    if count <= 0 then Ok(Parsed([], s))
    else
      var name :- ReadUtf(s);
      var ft :- DecodeType(name.rest);
      var others :- DecodeFieldDefs(count - 1, ft.rest);
      Ok(Parsed([FieldDef(name.value, ft.value)] + others.value, others.rest))
  }

  function EncodeClass(id: int, c: ClassDef): Result<Bytes> {
    var name :- WriteUtf(c.name);
    var package :- WriteUtf(c.package);
    Concat2(BigEndian(id, 4) + name + package + BigEndian(|c.fields|, 4), EncodeFieldDefs(c.fields))
  }

  /** A negative count would abort on the vector's capacity. */
  function DecodeClass(s: Bytes): Result<Parsed<ClassDef>> {
    var id :- ReadSigned(s, 4);
    var name :- ReadUtf(id.rest);
    var package :- ReadUtf(name.rest);
    var count :- ReadSigned(package.rest, 4);
    if count.value < 0 then Err
    else
      var fields :- DecodeFieldDefs(count.value, count.rest);
      Ok(Parsed(ClassDef(id.value, name.value, package.value, fields.value), fields.rest))
  }

  function EncodeClasses(t: Table, i: nat): Result<Bytes>
    requires i <= |t.order| && forall id :: id in t.order ==> id in t.classes
    decreases |t.order| - i
  {
    if i == |t.order| then Ok([])
    else
      var first :- EncodeClass(t.order[i], t.classes[t.order[i]]);
      Concat2(first, EncodeClasses(t, i + 1))
  }

  function DecodeClasses(count: int, s: Bytes, acc: map<int, ClassDef>): Result<Parsed<map<int, ClassDef>>>
    decreases if count < 0 then 0 else count
  {
    if count <= 0 then Ok(Parsed(acc, s))
    else
      var c :- DecodeClass(s);
      DecodeClasses(count - 1, c.rest, acc[c.value.classId := c.value])
  }

  // ---- The file ----

  /** "D2O" and "AKS". */
  const D2O_MAGIC: Bytes := [68, 50, 79]
  const AKS_MAGIC: Bytes := [65, 75, 83]

  /** The object data, and an index entry (object id, offset) for each object; at is the offset of the first. */
  function EncodeObjects(t: Table, objects: seq<(int, Value)>, at: nat): Result<(Bytes, seq<(int, int)>)> {
    if objects == [] then Ok(([], []))
    else
      var first :- EncodeObject(t, objects[0].1);
      var others :- EncodeObjects(t, objects[1..], at + |first|);
      Ok((first + others.0, [(objects[0].0, at)] + others.1))
  }

  function EncodeIndex(index: seq<(int, int)>): Bytes {
    if index == [] then [] else BigEndian(index[0].0, 4) + BigEndian(index[0].1, 4) + EncodeIndex(index[1..])
  }

  /** The order lists every class of the table once. */
  ghost predicate OrderOk(t: Table) {
    && (forall i, j :: 0 <= i < j < |t.order| ==> t.order[i] != t.order[j])
    && (forall id :: id in t.order <==> id in t.classes)
  }

  function EncodeFile(t: Table, objects: seq<(int, Value)>): Result<Bytes>
    requires OrderOk(t)
  {
    var body :- EncodeObjects(t, objects, 7);
    var classes :- EncodeClasses(t, 0);
    Ok(D2O_MAGIC + BigEndian(7 + |body.0|, 4) + body.0
       + (BigEndian(8 * |body.1|, 4) + EncodeIndex(body.1) + BigEndian(|t.order|, 4) + classes))
  }

  datatype Reader = Reader(classes: map<int, ClassDef>, indexes: seq<(int, int)>, contentOffset: nat, data: Bytes)

  function DecodeIndex(count: int, s: Bytes): Result<Parsed<seq<(int, int)>>>
    decreases if count < 0 then 0 else count
  {
    if count <= 0 then Ok(Parsed([], s))
    else
      var key :- ReadSigned(s, 4);
      var pointer :- ReadSigned(key.rest, 4);
      var others :- DecodeIndex(count - 1, pointer.rest);
      Ok(Parsed([(key.value, pointer.value)] + others.value, others.rest))
  }

  /** Integer division by eight toward zero, as the entry count is computed. */
  function EntryCount(length: int): int {
    if length >= 0 then length / 8 else -(-length / 8)
  }

  /** Where the D2O content starts: at zero, or behind the signature of an AKSF container. */
  function ContentOffset(data: Bytes): Result<nat> {
    var magic :- ReadBytes(data, 3);
    if magic.value == AKS_MAGIC then
      var start :- SignatureEnd(magic.rest);
      var again :- ReadBytes(At(data, start), 3);
      if again.value == D2O_MAGIC then Ok(start) else Err
    else if magic.value == D2O_MAGIC then Ok(0)
    else Err
  }

  /** Where the signature ends whose first three bytes have been read. */
  function SignatureEnd(s: Bytes): Result<nat> {
    var f :- ReadBytes(s, 1);
    var version :- ReadSigned(f.rest, 2);
    var length :- ReadSigned(version.rest, 4);
    if 10 + length.value < 0 then Err else Ok(10 + length.value)
  }

  function FromBytes(data: Bytes): Result<Reader> {
    var offset :- ContentOffset(data);
    var pointer :- ReadSigned(At(data, offset + 3), 4);
    if pointer.value < 0 then Err
    else
      var tables :- ReadTables(At(data, offset + pointer.value));
      Ok(Reader(tables.1, tables.0, offset, data))
  }

  /** The index and, behind it, the class table. */
  function ReadTables(s: Bytes): Result<(seq<(int, int)>, map<int, ClassDef>)> {
    var length :- ReadSigned(s, 4);
    if EntryCount(length.value) < 0 then Err
    else
      var index :- DecodeIndex(EntryCount(length.value), length.rest);
      var count :- ReadSigned(index.rest, 4);
      var classes :- DecodeClasses(count.value, count.rest, map[]);
      Ok((index.value, classes.value))
  }

  /** The offset of the first index entry with the given id. */
  function FindObject(indexes: seq<(int, int)>, id: int): Option<int> {
    if indexes == [] then None
    else if indexes[0].0 == id then Some(indexes[0].1)
    else FindObject(indexes[1..], id)
  }

  function ReadObject(r: Reader, id: int): Result<Value> {
    match FindObject(r.indexes, id)
    case None => Err
    case Some(offset) =>
      if offset < 0 then Err
      else
        var classId :- ReadSigned(At(r.data, r.contentOffset + offset), 4);
        var v :- DecodeObject(r.classes, classId.value, classId.rest);
        Ok(v.value)
  }
}
