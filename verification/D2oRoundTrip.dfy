/** A D2O file gives back its class table and its objects. */
module D2oRoundTrip {
  import opened Common
  import opened Binary
  import opened D2o
  import opened D2oValues
  import opened D2oFile

  /** Object field types carry positive class ids: the other ids stand for the built-in types. */
  predicate TypeOk(ft: FieldType) {
    match ft
    case TVector(_, inner) => TypeOk(inner)
    case TObject(id) => 0 < id && IsSigned(id, 32)
    case _ => true
  }

  /** Every class is stored under its own id and has storable field types. */
  ghost predicate ClassesOk(t: Table) {
    forall id :: id in t.classes ==> ClassOk(id, t.classes[id])
  }

  ghost predicate ClassOk(id: int, c: ClassDef) {
    && c.classId == id
    && IsSigned(id, 32)
    && forall i :: 0 <= i < |c.fields| ==> TypeOk(c.fields[i].fieldType)
  }

  lemma {:induction false} TypeBack(ft: FieldType, rest: Bytes)
    requires TypeOk(ft) && EncodeType(ft).Ok?
    ensures DecodeType(EncodeType(ft).value + rest) == Ok(Parsed(ft, rest))
  {
    match ft
    case TVector(name, inner) =>
      TypeBack(inner, rest);
      VectorTypeBack(name, inner, rest);
    case _ => PlainTypeBack(ft, rest);
  }

  lemma PlainTypeBack(ft: FieldType, rest: Bytes)
    requires TypeOk(ft) && !ft.TVector?
    ensures DecodeType(EncodeType(ft).value + rest) == Ok(Parsed(ft, rest))
  {
    hide BigEndian, ReadSigned, ReadUtf, IsSigned;
    match ft
    case TInt => Int32Back(-1, rest);
    case TBool => Int32Back(-2, rest);
    case TString => Int32Back(-3, rest);
    case TNumber => Int32Back(-4, rest);
    case TI18n => Int32Back(-5, rest);
    case TUInt => Int32Back(-6, rest);
    case TObject(id) =>
      SignedBounds(id);
      Int32Back(id, rest);
  }

  lemma VectorTypeBack(name: Bytes, inner: FieldType, rest: Bytes)
    requires EncodeType(TVector(name, inner)).Ok?
    requires DecodeType(EncodeType(inner).value + rest) == Ok(Parsed(inner, rest))
    ensures DecodeType(EncodeType(TVector(name, inner)).value + rest) == Ok(Parsed(TVector(name, inner), rest))
  {
    hide BigEndian, ReadSigned, Utf, ReadUtf;
    var tail := EncodeType(inner).value + rest;
    ReadUtfBack(name, tail);
    Int32Back(-99, Utf(name) + tail);
    assert EncodeType(TVector(name, inner)).value + rest == BigEndian(-99, 4) + (Utf(name) + tail);
  }

  lemma {:induction false} FieldDefsTakeSpace(fields: seq<FieldDef>)
    requires EncodeFieldDefs(fields).Ok?
    ensures |EncodeFieldDefs(fields).value| >= |fields|
  {
    hide EncodeType;
    if fields != [] {
      FieldDefsTakeSpace(fields[1..]);
    }
  }

  lemma {:induction false} FieldDefsBack(fields: seq<FieldDef>, rest: Bytes)
    requires forall i :: 0 <= i < |fields| ==> TypeOk(fields[i].fieldType)
    requires EncodeFieldDefs(fields).Ok?
    ensures DecodeFieldDefs(|fields|, EncodeFieldDefs(fields).value + rest) == Ok(Parsed(fields, rest))
  {
    hide EncodeType, DecodeType, Utf, ReadUtf;
    if fields == [] {
      assert [] + rest == rest;
    } else {
      var others := EncodeFieldDefs(fields[1..]).value;
      var ft := EncodeType(fields[0].fieldType).value;
      FieldDefsBack(fields[1..], rest);
      TypeBack(fields[0].fieldType, others + rest);
      ReadUtfBack(fields[0].name, ft + (others + rest));
      assert [fields[0]] + fields[1..] == fields;
      assert EncodeFieldDefs(fields).value + rest == Utf(fields[0].name) + (ft + (others + rest));
    }
  }

  lemma ClassBack(id: int, c: ClassDef, rest: Bytes)
    requires ClassOk(id, c) && EncodeClass(id, c).Ok? && |EncodeClass(id, c).value| < 0x8000_0000
    ensures DecodeClass(EncodeClass(id, c).value + rest) == Ok(Parsed(c, rest))
  {
    hide BigEndian, ReadSigned, Utf, ReadUtf, EncodeFieldDefs, DecodeFieldDefs;
    Pow2Values();
    var fields := EncodeFieldDefs(c.fields).value;
    FieldDefsTakeSpace(c.fields);
    FieldDefsBack(c.fields, rest);
    var s1 := BigEndian(|c.fields|, 4) + (fields + rest);
    var s2 := Utf(c.package) + s1;
    var s3 := Utf(c.name) + s2;
    ReadI32(|c.fields|, fields + rest);
    ReadUtfBack(c.package, s1);
    ReadUtfBack(c.name, s2);
    ReadI32(id, s3);
    assert EncodeClass(id, c).value + rest == BigEndian(id, 4) + s3;
  }

  /** The table after the classes from position i on have been inserted. */
  ghost function Inserted(t: Table, i: nat, acc: map<int, ClassDef>): map<int, ClassDef>
    requires OrderOk(t) && i <= |t.order|
    decreases |t.order| - i
  {
    if i == |t.order| then acc
    else
      assert t.order[i] in t.order;
      Inserted(t, i + 1, acc[t.order[i] := t.classes[t.order[i]]])
  }

  lemma {:induction false} ClassesBack(t: Table, i: nat, rest: Bytes, acc: map<int, ClassDef>)
    requires OrderOk(t) && ClassesOk(t) && i <= |t.order|
    requires EncodeClasses(t, i).Ok? && |EncodeClasses(t, i).value| < 0x8000_0000
    ensures DecodeClasses(|t.order| - i, EncodeClasses(t, i).value + rest, acc) == Ok(Parsed(Inserted(t, i, acc), rest))
    decreases |t.order| - i
  {
    hide EncodeClass, DecodeClass;
    if i == |t.order| {
      assert [] + rest == rest;
    } else {
      var id := t.order[i];
      assert id in t.order;
      var first := EncodeClass(id, t.classes[id]).value;
      var others := EncodeClasses(t, i + 1).value;
      assert id in t.classes && ClassOk(id, t.classes[id]);
      ClassBack(id, t.classes[id], others + rest);
      ClassesBack(t, i + 1, rest, acc[id := t.classes[id]]);
      assert EncodeClasses(t, i).value + rest == first + (others + rest);
    }
  }

  lemma {:induction false} InsertedIsTable(t: Table, i: nat, acc: map<int, ClassDef>)
    requires OrderOk(t) && i <= |t.order|
    requires acc.Keys == set k | 0 <= k < i :: t.order[k]
    requires forall id :: id in acc ==> id in t.classes && acc[id] == t.classes[id]
    ensures Inserted(t, i, acc) == t.classes
    decreases |t.order| - i
  {
    if i == |t.order| {
      forall id | id in t.classes ensures id in acc {
        assert id in t.order;
      }
    } else {
      assert t.order[i] in t.order;
      InsertedIsTable(t, i + 1, acc[t.order[i] := t.classes[t.order[i]]]);
    }
  }

  lemma {:induction false} IndexBack(index: seq<(int, int)>, rest: Bytes)
    requires forall i :: 0 <= i < |index| ==> IsSigned(index[i].0, 32) && IsSigned(index[i].1, 32)
    ensures DecodeIndex(|index|, EncodeIndex(index) + rest) == Ok(Parsed(index, rest))
    ensures |EncodeIndex(index)| == 8 * |index|
  {
    hide BigEndian, DecodeIndex, IsSigned;
    if index == [] {
      assert [] + rest == rest;
      NoIndex(rest);
    } else {
      var others := EncodeIndex(index[1..]) + rest;
      IndexBack(index[1..], rest);
      assert IsSigned(index[0].0, 32) && IsSigned(index[0].1, 32);
      IndexEntryBack(|index|, index[0], others);
      assert [index[0]] + index[1..] == index;
      assert EncodeIndex(index) + rest == BigEndian(index[0].0, 4) + (BigEndian(index[0].1, 4) + others);
    }
  }

  lemma NoIndex(rest: Bytes)
    ensures DecodeIndex(0, rest) == Ok(Parsed([], rest))
  {
  }

  lemma IndexEntryBack(count: nat, entry: (int, int), rest: Bytes)
    requires count > 0 && IsSigned(entry.0, 32) && IsSigned(entry.1, 32) && DecodeIndex(count - 1, rest).Ok?
    ensures var others := DecodeIndex(count - 1, rest).value;
            DecodeIndex(count, BigEndian(entry.0, 4) + (BigEndian(entry.1, 4) + rest))
            == Ok(Parsed([entry] + others.value, others.rest))
  {
    hide BigEndian, ReadSigned, IsSigned;
    ReadI32(entry.1, rest);
    ReadI32(entry.0, BigEndian(entry.1, 4) + rest);
  }

  /** Entry k of the index points at the bytes of object k. */
  lemma {:induction false} ObjectPlaced(t: Table, objects: seq<(int, Value)>, at: nat, k: nat)
    requires EncodeObjects(t, objects, at).Ok? && k < |objects|
    ensures var (body, index) := EncodeObjects(t, objects, at).value;
            && |index| == |objects| && index[k].0 == objects[k].0
            && EncodeObject(t, objects[k].1).Ok?
            && var enc := EncodeObject(t, objects[k].1).value;
               && at <= index[k].1 && index[k].1 - at + |enc| <= |body|
               && body[index[k].1 - at..][..|enc|] == enc
  {
    hide EncodeObject;
    var (body, index) := EncodeObjects(t, objects, at).value;
    var first := EncodeObject(t, objects[0].1).value;
    IndexLength(t, objects[1..], at + |first|);
    if k == 0 {
      assert body[0..][..|first|] == first;
    } else {
      ObjectPlaced(t, objects[1..], at + |first|, k - 1);
      var others := EncodeObjects(t, objects[1..], at + |first|).value.0;
      assert body[index[k].1 - at..] == others[index[k].1 - at - |first|..];
    }
  }

  lemma {:induction false} IndexLength(t: Table, objects: seq<(int, Value)>, at: nat)
    requires EncodeObjects(t, objects, at).Ok?
    ensures |EncodeObjects(t, objects, at).value.1| == |objects|
  {
    hide EncodeObject;
    if objects != [] {
      var first := EncodeObject(t, objects[0].1).value;
      IndexLength(t, objects[1..], at + |first|);
    }
  }

  // ---- Reading a written file ----

  ghost predicate FileOk(t: Table, objects: seq<(int, Value)>) {
    && OrderOk(t) && ClassesOk(t) && IdsOk(t)
    && (forall i :: 0 <= i < |objects| ==> IsSigned(objects[i].0, 32))
    && EncodeFile(t, objects).Ok?
    && |EncodeFile(t, objects).value| < 0x8000_0000
  }

  ghost function Index(t: Table, objects: seq<(int, Value)>): seq<(int, int)>
    requires FileOk(t, objects)
  {
    EncodeObjects(t, objects, 7).value.1
  }

  lemma IndexEntriesFit(t: Table, objects: seq<(int, Value)>)
    requires FileOk(t, objects)
    ensures |Index(t, objects)| == |objects|
    ensures forall i :: 0 <= i < |objects| ==>
              IsSigned(Index(t, objects)[i].0, 32) && IsSigned(Index(t, objects)[i].1, 32)
  {
    hide EncodeObjects, EncodeObject, EncodeClasses, EncodeIndex, ClassesOk, IdsOk;
    Pow2Values();
    IndexLength(t, objects, 7);
    forall i | 0 <= i < |objects|
      ensures IsSigned(Index(t, objects)[i].0, 32) && IsSigned(Index(t, objects)[i].1, 32)
    {
      ObjectPlaced(t, objects, 7, i);
    }
  }

  /** The parts of a written file. */
  lemma FileParts(t: Table, objects: seq<(int, Value)>)
    requires FileOk(t, objects)
    ensures EncodeObjects(t, objects, 7).Ok? && EncodeClasses(t, 0).Ok?
    ensures var file := EncodeFile(t, objects).value;
            var body := EncodeObjects(t, objects, 7).value.0;
            var tail := BigEndian(8 * |objects|, 4) +
                        (EncodeIndex(Index(t, objects)) + (BigEndian(|t.order|, 4) + (EncodeClasses(t, 0).value + [])));
            && file == D2O_MAGIC + (BigEndian(7 + |body|, 4) + (body + tail))
            && At(file, 7) == body + tail
            && At(file, 3) == BigEndian(7 + |body|, 4) + (body + tail)
            && At(file, 7 + |body|) == tail
  {
    hide EncodeObjects, EncodeObject, EncodeClasses, EncodeIndex, BigEndian, ClassesOk, IdsOk, IsSigned;
    IndexLength(t, objects, 7);
    var file := EncodeFile(t, objects).value;
    var body := EncodeObjects(t, objects, 7).value.0;
    var tail := BigEndian(8 * |objects|, 4) +
                (EncodeIndex(Index(t, objects)) + (BigEndian(|t.order|, 4) + (EncodeClasses(t, 0).value + [])));
    assert file == D2O_MAGIC + (BigEndian(7 + |body|, 4) + (body + tail));
    assert file[3..] == BigEndian(7 + |body|, 4) + (body + tail);
    assert file[7..] == body + tail;
    assert file[7 + |body|..] == tail;
  }

  lemma OrderTakesSpace(t: Table, i: nat)
    requires OrderOk(t) && i <= |t.order| && EncodeClasses(t, i).Ok?
    ensures |EncodeClasses(t, i).value| >= |t.order| - i
    decreases |t.order| - i
  {
    hide EncodeFieldDefs, Utf;
    if i < |t.order| {
      OrderTakesSpace(t, i + 1);
    }
  }

  /** The reader accepts the file and recovers the class table and the index. */
  lemma FileIsRead(t: Table, objects: seq<(int, Value)>)
    requires FileOk(t, objects)
    ensures FromBytes(EncodeFile(t, objects).value) ==
            Ok(Reader(t.classes, Index(t, objects), 0, EncodeFile(t, objects).value))
  {
    hide EncodeObjects, EncodeObject, EncodeClasses, EncodeIndex, EncodeFile, BigEndian, ReadSigned, At,
      DecodeIndex, DecodeClasses, ClassesOk, IdsOk, Index, Inserted;
    var file := EncodeFile(t, objects).value;
    FileParts(t, objects);
    var body := EncodeObjects(t, objects, 7).value.0;
    var index := Index(t, objects);
    IndexEntriesFit(t, objects);
    Pow2Values();
    MagicRead(file);
    var s3 := EncodeClasses(t, 0).value + [];
    var s2 := BigEndian(|t.order|, 4) + s3;
    var s1 := EncodeIndex(index) + s2;
    FileSizes(t, objects);
    ReadI32(7 + |body|, body + (BigEndian(8 * |objects|, 4) + s1));
    ReadI32(8 * |objects|, s1);
    IndexBack(index, s2);
    ReadI32(|t.order|, s3);
    ClassesBack(t, 0, [], map[]);
    InsertedIsTable(t, 0, map[]);
  }

  lemma MagicRead(file: Bytes)
    requires |file| >= 3 && file[..3] == D2O_MAGIC
    ensures ContentOffset(file) == Ok(0)
  {
    assert D2O_MAGIC[0] != AKS_MAGIC[0];
  }

  lemma FileSizes(t: Table, objects: seq<(int, Value)>)
    requires FileOk(t, objects)
    ensures |EncodeFile(t, objects).value| >= 3 && EncodeFile(t, objects).value[..3] == D2O_MAGIC
    ensures 7 + |EncodeObjects(t, objects, 7).value.0| < 0x8000_0000
    ensures 8 * |objects| < 0x8000_0000 && |t.order| < 0x8000_0000
    ensures |EncodeClasses(t, 0).value| < 0x8000_0000
  {
    hide EncodeObjects, EncodeObject, EncodeClasses, EncodeIndex, EncodeFile, ClassesOk, IdsOk;
    FileParts(t, objects);
    IndexEntriesFit(t, objects);
    IndexBack(Index(t, objects), []);
    OrderTakesSpace(t, 0);
  }

  /** The bytes of object k stand at its offset. */
  lemma BytesAtOffset(t: Table, objects: seq<(int, Value)>, k: nat) returns (rest: Bytes)
    requires FileOk(t, objects) && k < |objects|
    ensures |Index(t, objects)| == |objects| && Index(t, objects)[k].1 >= 0
    ensures EncodeObject(t, objects[k].1).Ok? && |EncodeObject(t, objects[k].1).value| < 0x8000_0000
    ensures At(EncodeFile(t, objects).value, Index(t, objects)[k].1) == EncodeObject(t, objects[k].1).value + rest
  {
    hide EncodeObjects, EncodeObject, EncodeClasses, EncodeIndex, EncodeFile, BigEndian, ClassesOk, IdsOk, IsSigned;
    FileParts(t, objects);
    IndexEntriesFit(t, objects);
    ObjectPlaced(t, objects, 7, k);
    var file := EncodeFile(t, objects).value;
    var body := EncodeObjects(t, objects, 7).value.0;
    var offset := Index(t, objects)[k].1;
    var enc := EncodeObject(t, objects[k].1).value;
    assert file[offset..] == file[7..][offset - 7..];
    assert file[offset..][..|enc|] == body[offset - 7..][..|enc|];
    rest := file[offset..][|enc|..];
    assert file[offset..] == enc + rest;
  }

  /** Object k is read from its offset, in its stored form. */
  lemma ObjectAtOffset(t: Table, objects: seq<(int, Value)>, k: nat)
    requires FileOk(t, objects) && k < |objects|
    ensures |Index(t, objects)| == |objects|
    ensures var offset := Index(t, objects)[k].1;
            && offset >= 0
            && ClassOf(t, objects[k].1).Some?
            && exists rest :: && ReadSigned(At(EncodeFile(t, objects).value, offset), 4)
                                 == Ok(Parsed(ClassOf(t, objects[k].1).value, rest))
                              && DecodeObject(t.classes, ClassOf(t, objects[k].1).value, rest).Ok?
                              && DecodeObject(t.classes, ClassOf(t, objects[k].1).value, rest).value.value
                                 == NormObject(t, objects[k].1)
  {
    hide EncodeObject, EncodeFile, BigEndian, ReadSigned, Index, At,
      ClassesOk, IdsOk, DecodeObject, NormObject, ClassOf, EncodeFields;
    var rest := BytesAtOffset(t, objects, k);
    var v := objects[k].1;
    var enc := EncodeObject(t, v).value;
    ObjectBack(t, v, rest);
    var id := ClassOf(t, v).value;
    var fields := EncodeFields(t, t.classes[id].fields, v, 0).value;
    ClassIdBack(t, id, fields + rest);
    assert enc + rest == BigEndian(id, 4) + (fields + rest);
  }

  lemma {:induction false} FindFirst(index: seq<(int, int)>, k: nat)
    requires k < |index| && forall j :: 0 <= j < k ==> index[j].0 != index[k].0
    ensures FindObject(index, index[k].0) == Some(index[k].1)
  {
    if k > 0 {
      FindFirst(index[1..], k - 1);
    }
  }

  /** Main result: the first object with an id is read back in its stored form. */
  lemma ObjectRoundTrip(t: Table, objects: seq<(int, Value)>, k: nat)
    requires FileOk(t, objects) && k < |objects|
    requires forall j :: 0 <= j < k ==> objects[j].0 != objects[k].0
    ensures var r := FromBytes(EncodeFile(t, objects).value);
            && r.Ok? && r.value.classes == t.classes
            && ReadObject(r.value, objects[k].0) == Ok(NormObject(t, objects[k].1))
  {
    hide EncodeFile, FromBytes, IdsOk, ClassesOk, OrderOk, DecodeObject, NormObject, At, ReadSigned, EncodeObjects,
            ClassOf;
    FileIsRead(t, objects);
    IndexEntriesFit(t, objects);
    IdsInIndex(t, objects);
    FindFirst(Index(t, objects), k);
    ObjectAtOffset(t, objects, k);
  }

  lemma IdsInIndex(t: Table, objects: seq<(int, Value)>)
    requires FileOk(t, objects)
    ensures |Index(t, objects)| == |objects|
    ensures forall i :: 0 <= i < |objects| ==> Index(t, objects)[i].0 == objects[i].0
  {
    hide EncodeObjects, EncodeObject, EncodeClasses, EncodeIndex, ClassesOk, IdsOk;
    IndexLength(t, objects, 7);
    forall i | 0 <= i < |objects| ensures Index(t, objects)[i].0 == objects[i].0 {
      ObjectPlaced(t, objects, 7, i);
    }
  }

  ghost predicate HasObject(objects: seq<(int, Value)>, id: int) {
    exists i :: 0 <= i < |objects| && objects[i].0 == id
  }

  lemma {:induction false} FindNone(index: seq<(int, int)>, id: int)
    requires forall i :: 0 <= i < |index| ==> index[i].0 != id
    ensures FindObject(index, id).None?
  {
    if index != [] {
      FindNone(index[1..], id);
    }
  }

  lemma NotFound(r: Reader, id: int)
    requires FindObject(r.indexes, id).None?
    ensures ReadObject(r, id).Err?
  {
  }

  /** An id that was not written is an error. */
  lemma UnknownObject(t: Table, objects: seq<(int, Value)>, id: int)
    requires FileOk(t, objects) && !HasObject(objects, id)
    ensures var r := FromBytes(EncodeFile(t, objects).value);
            r.Ok? && ReadObject(r.value, id).Err?
  {
    hide EncodeFile, FromBytes, IdsOk, ClassesOk, OrderOk, Index, FindObject, ReadObject;
    FileIsRead(t, objects);
    IdsInIndex(t, objects);
    FindNone(Index(t, objects), id);
    NotFound(FromBytes(EncodeFile(t, objects).value).value, id);
  }

  /** Unique object ids: the file gives back exactly the objects that fit their class, unchanged, and no others. */
  lemma FileRoundTrip(t: Table, objects: seq<(int, Value)>, k: nat)
    requires FileOk(t, objects) && NamesOk(t) && k < |objects|
    requires forall i, j :: 0 <= i < j < |objects| ==> objects[i].0 != objects[j].0
    ensures var r := FromBytes(EncodeFile(t, objects).value);
            && r.Ok? && r.value.classes == t.classes
            && (ReadObject(r.value, objects[k].0) == Ok(objects[k].1) <==> FitsObject(t, objects[k].1))
            && forall id :: !HasObject(objects, id) ==> ReadObject(r.value, id).Err?
  {
    hide EncodeFile, FromBytes, IdsOk, ClassesOk, OrderOk, ReadObject, NormObject, NamesOk, FitsObject, HasObject;
    ObjectRoundTrip(t, objects, k);
    var r := FromBytes(EncodeFile(t, objects).value).value;
    forall id | !HasObject(objects, id) ensures ReadObject(r, id).Err? {
      UnknownObject(t, objects, id);
    }
    ObjectNotNull(t, objects, k);
    ObjectKeptIffFits(t, objects[k].1);
  }

  lemma ObjectNotNull(t: Table, objects: seq<(int, Value)>, k: nat)
    requires FileOk(t, objects) && k < |objects|
    ensures !objects[k].1.Null?
  {
    hide EncodeObjects, EncodeObject, EncodeClasses, EncodeIndex, EncodeFile, ClassesOk, IdsOk, OrderOk;
    FileParts(t, objects);
    ObjectPlaced(t, objects, 7, k);
    NullHasNoClass(t);
  }

  lemma NullHasNoClass(t: Table)
    ensures EncodeObject(t, Null).Err?
  {
  }

  // ---- When writing succeeds ----

  predicate ShortTypeNames(ft: FieldType) {
    ft.TVector? ==> |ft.name| <= 65535 && ShortTypeNames(ft.inner)
  }

  ghost predicate ShortNames(t: Table) {
    forall id :: id in t.classes ==> ShortClassNames(t.classes[id])
  }

  ghost predicate ShortClassNames(c: ClassDef) {
    && |c.name| <= 65535 && |c.package| <= 65535
    && forall i :: 0 <= i < |c.fields| ==> |c.fields[i].name| <= 65535 && ShortTypeNames(c.fields[i].fieldType)
  }

  lemma {:induction false} TypeIsWritten(ft: FieldType)
    requires ShortTypeNames(ft)
    ensures EncodeType(ft).Ok?
  {
    hide BigEndian, Utf;
    if ft.TVector? {
      TypeIsWritten(ft.inner);
    }
  }

  lemma {:induction false} FieldDefsAreWritten(fields: seq<FieldDef>)
    requires forall i :: 0 <= i < |fields| ==> |fields[i].name| <= 65535 && ShortTypeNames(fields[i].fieldType)
    ensures EncodeFieldDefs(fields).Ok?
  {
    hide EncodeType, Utf;
    if fields != [] {
      TypeIsWritten(fields[0].fieldType);
      FieldDefsAreWritten(fields[1..]);
    }
  }

  lemma {:induction false} ClassesAreWritten(t: Table, i: nat)
    requires OrderOk(t) && ShortNames(t) && i <= |t.order|
    ensures EncodeClasses(t, i).Ok?
    decreases |t.order| - i
  {
    hide EncodeFieldDefs, Utf, BigEndian;
    if i < |t.order| {
      assert t.order[i] in t.order;
      var c := t.classes[t.order[i]];
      assert ShortClassNames(c);
      FieldDefsAreWritten(c.fields);
      ClassesAreWritten(t, i + 1);
    }
  }

  lemma {:induction false} ObjectsAreWritten(t: Table, objects: seq<(int, Value)>, at: nat)
    requires forall i :: 0 <= i < |objects| ==> FitsObject(t, objects[i].1) && ShortStrings(objects[i].1)
    ensures EncodeObjects(t, objects, at).Ok?
  {
    hide EncodeObject, FitsObject, ShortStrings;
    if objects != [] {
      FittingObjectIsWritten(t, objects[0].1);
      var first := EncodeObject(t, objects[0].1).value;
      ObjectsAreWritten(t, objects[1..], at + |first|);
    }
  }

  /** Fitting objects and short names are always written. */
  lemma FileIsWritten(t: Table, objects: seq<(int, Value)>)
    requires OrderOk(t) && ShortNames(t)
    requires forall i :: 0 <= i < |objects| ==> FitsObject(t, objects[i].1) && ShortStrings(objects[i].1)
    ensures EncodeFile(t, objects).Ok?
  {
    hide EncodeObjects, EncodeClasses, FitsObject, ShortStrings, BigEndian, EncodeIndex;
    ObjectsAreWritten(t, objects, 7);
    ClassesAreWritten(t, 0);
  }

  // ---- Signed containers ----

  function SignedHeader(f: Byte, version: int, signature: Bytes): Bytes {
    AKS_MAGIC + [f] + BigEndian(version, 2) + BigEndian(|signature|, 4) + signature
  }

  lemma AtBehind(header: Bytes, file: Bytes, pos: nat)
    ensures At(header + file, |header| + pos) == At(file, pos)
  {
    if pos <= |file| {
      assert (header + file)[|header| + pos..] == file[pos..];
    }
  }

  lemma SignedOffset(header: Bytes, f: Byte, version: int, signature: Bytes, file: Bytes)
    requires header == SignedHeader(f, version, signature) && |signature| < 0x8000_0000
    requires ContentOffset(file) == Ok(0)
    ensures ContentOffset(header + file) == Ok(|header|)
  {
    hide BigEndian, ReadSigned, ReadBytes, At;
    Pow2Values();
    var data := header + file;
    var s3 := signature + file;
    var s2 := BigEndian(|signature|, 4) + s3;
    var s1 := BigEndian(version, 2) + s2;
    var s0 := [f] + s1;
    assert data == AKS_MAGIC + s0;
    ReadBytesBack(AKS_MAGIC, s0);
    ReadBytesBack([f], s1);
    VersionRead(version, s2);
    ReadI32(|signature|, s3);
    AtBehind(header, file, 0);
    assert |header| == 10 + |signature|;
    assert D2O_MAGIC[0] != AKS_MAGIC[0];
    AtStart(file);
  }

  lemma AtStart(file: Bytes)
    ensures At(file, 0) == file
  {
  }

  lemma VersionRead(version: int, rest: Bytes)
    ensures ReadSigned(BigEndian(version, 2) + rest, 2).Ok?
    ensures ReadSigned(BigEndian(version, 2) + rest, 2).value.rest == rest
  {
    hide BigEndian, FromBigEndian, ReadUnsigned;
    ReadUnsignedAny(version, 2, rest);
  }

  /** A signature in front of a file changes no object that is read from it. */
  lemma SignedFileReadsTheSame(f: Byte, version: int, signature: Bytes, file: Bytes, id: int)
    requires |signature| < 0x8000_0000 && ContentOffset(file) == Ok(0)
    ensures var signed := FromBytes(SignedHeader(f, version, signature) + file);
            var plain := FromBytes(file);
            && (signed.Ok? <==> plain.Ok?)
            && (plain.Ok? ==> signed.value.classes == plain.value.classes && signed.value.indexes == plain.value.indexes
                              && ReadObject(signed.value, id) == ReadObject(plain.value, id))
  {
    hide ContentOffset, SignedHeader, ReadSigned, At, DecodeIndex, DecodeClasses, DecodeObject;
    var header := SignedHeader(f, version, signature);
    SignedOffset(header, f, version, signature, file);
    AtBehind(header, file, 3);
    var pointer := ReadSigned(At(file, 3), 4);
    if pointer.Ok? && pointer.value.value >= 0 {
      AtBehind(header, file, pointer.value.value);
      if FromBytes(file).Ok? {
        var offset := FindObject(FromBytes(file).value.indexes, id);
        if offset.Some? && offset.value >= 0 {
          AtBehind(header, file, offset.value);
        }
      }
    }
  }
}
