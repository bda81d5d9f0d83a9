/** The D2O writer and reader as they run: cursors, loops, recursion, and the pointer written last. */
module D2oIO {
  import opened Common
  import opened Binary
  import opened ByteIO
  import opened D2o
  import opened D2oFile

  method WriteString(w: OutCursor, s: Bytes) returns (ok: bool)
    requires w.AtEnd()
    modifies w
    ensures w.Wrote(old(w.buf), WriteUtf(s), ok)
  {
    if |s| > 65535 {
      return false;
    }
    w.WriteAll(BigEndian(|s|, 2));
    w.WriteAll(s);
    assert w.buf == old(w.buf) + Utf(s);
    return true;
  }

  method WriteScalar(w: OutCursor, t: Table, ft: FieldType, v: Value) returns (ok: bool)
    requires w.AtEnd() && !ft.TVector? && !ft.TObject?
    modifies w
    ensures w.Wrote(old(w.buf), EncodeScalar(t, ft, v), ok)
  {
    hide BigEndian, Utf, AsI64, AsU64, AsF64;
    ok := true;
    match ft
    case TInt => w.WriteAll(BigEndian(AsI64(v), 4));
    case TBool => w.WriteAll([if v == Bool(true) then 1 else 0]);
    case TString =>
      if v.Null? {
        ok := WriteString(w, NULL_TEXT);
      } else {
        ok := WriteString(w, if v.Str? then v.s else []);
      }
    case TNumber => w.WriteAll(BigEndian(AsF64(t, v), 8));
    case TI18n => w.WriteAll(BigEndian(AsI64(v), 4));
    case TUInt => w.WriteAll(BigEndian(AsU64(v), 4));
  }

  /** Dispatch on the field type; vectors and objects recurse. */
  method WriteFieldValue(w: OutCursor, t: Table, ft: FieldType, v: Value) returns (ok: bool)
    requires w.AtEnd()
    modifies w
    ensures w.Wrote(old(w.buf), EncodeValue(t, ft, v), ok)
    decreases Depth(v), v, 3
  {
    hide BigEndian, EncodeItems, EncodeObject, EncodeScalar;
    match ft
    case TVector(_, inner) =>
      if v.Array? {
        w.WriteAll(BigEndian(|v.items|, 4));
        ok := WriteItems(w, t, inner, v);
      } else {
        w.WriteAll(BigEndian(0, 4));
        ok := true;
      }
    case TObject(_) =>
      if v.Null? {
        w.WriteAll(BigEndian(NULL_OBJECT_MARKER, 4));
        ok := true;
      } else {
        ok := WriteObject(w, t, v);
      }
    case _ => ok := WriteScalar(w, t, ft, v);
  }

  /** What remains to be written after the first part of a loop has been. */
  ghost predicate Pending(before: Bytes, whole: Result<Bytes>, buf: Bytes, later: Result<Bytes>) {
    && (later.Ok? <==> whole.Ok?)
    && (later.Ok? ==> before + whole.value == buf + later.value)
  }

  lemma PendingStep(before: Bytes, whole: Result<Bytes>, buf: Bytes, first: Bytes, later: Result<Bytes>)
    requires Pending(before, whole, buf, Concat2(first, later))
    ensures Pending(before, whole, buf + first, later)
  {
    if later.Ok? {
      assert buf + (first + later.value) == buf + first + later.value;
    }
  }

  method WriteItems(w: OutCursor, t: Table, inner: FieldType, v: Value) returns (ok: bool)
    requires w.AtEnd() && v.Array?
    modifies w
    ensures w.Wrote(old(w.buf), EncodeItems(t, inner, v, 0), ok)
    decreases 1, v, 1
  {
    hide EncodeValue;
    for i := 0 to |v.items|
      invariant w.AtEnd() && Pending(old(w.buf), EncodeItems(t, inner, v, 0), w.buf, EncodeItems(t, inner, v, i))
    {
      ghost var buf := w.buf;
      ok := WriteFieldValue(w, t, inner, v.items[i]);
      if !ok {
        return;
      }
      PendingStep(old(w.buf), EncodeItems(t, inner, v, 0), buf, EncodeValue(t, inner, v.items[i]).value,
                  EncodeItems(t, inner, v, i + 1));
    }
    ok := true;
  }

  method FindClassByName(t: Table, name: Bytes) returns (r: Option<int>)
    ensures r == FindClass(t, name, 0)
  {
    for i := 0 to |t.order|
      invariant FindClass(t, name, 0) == FindClass(t, name, i)
    {
      if t.order[i] in t.classes && t.classes[t.order[i]].name == name {
        return Some(t.order[i]);
      }
    }
    return None;
  }

  method WriteObject(w: OutCursor, t: Table, v: Value) returns (ok: bool)
    requires w.AtEnd()
    modifies w
    ensures w.Wrote(old(w.buf), EncodeObject(t, v), ok)
    decreases 1, v, 2
  {
    hide BigEndian, EncodeFields, FindClass;
    var className := Get(v, CLASS_KEY);
    if !className.Str? {
      return false;
    }
    var classId := FindClassByName(t, className.s);
    if classId.None? {
      return false;
    }
    if classId.value !in t.classes {
      return false;
    }
    w.WriteAll(BigEndian(classId.value, 4));
    ok := WriteObjectFields(w, t, t.classes[classId.value].fields, v);
  }

  method WriteObjectFields(w: OutCursor, t: Table, fields: seq<FieldDef>, v: Value) returns (ok: bool)
    requires w.AtEnd() && v.Object?
    modifies w
    ensures w.Wrote(old(w.buf), EncodeFields(t, fields, v, 0), ok)
    decreases 1, v, 1
  {
    hide EncodeValue;
    for i := 0 to |fields|
      invariant w.AtEnd() && Pending(old(w.buf), EncodeFields(t, fields, v, 0), w.buf, EncodeFields(t, fields, v, i))
    {
      ghost var buf := w.buf;
      var fieldValue := Get(v, fields[i].name);
      ok := WriteFieldValue(w, t, fields[i].fieldType, fieldValue);
      if !ok {
        return;
      }
      PendingStep(old(w.buf), EncodeFields(t, fields, v, 0), buf, EncodeValue(t, fields[i].fieldType, fieldValue).value,
                  EncodeFields(t, fields, v, i + 1));
    }
    ok := true;
  }

  method WriteFieldType(w: OutCursor, ft: FieldType) returns (ok: bool)
    requires w.AtEnd()
    modifies w
    ensures w.Wrote(old(w.buf), EncodeType(ft), ok)
    decreases ft
  {
    hide BigEndian, Utf;
    ok := true;
    match ft
    case TInt => w.WriteAll(BigEndian(-1, 4));
    case TBool => w.WriteAll(BigEndian(-2, 4));
    case TString => w.WriteAll(BigEndian(-3, 4));
    case TNumber => w.WriteAll(BigEndian(-4, 4));
    case TI18n => w.WriteAll(BigEndian(-5, 4));
    case TUInt => w.WriteAll(BigEndian(-6, 4));
    case TVector(name, inner) =>
      w.WriteAll(BigEndian(-99, 4));
      ok := WriteString(w, name);
      if ok {
        ok := WriteFieldType(w, inner);
      }
    case TObject(id) => w.WriteAll(BigEndian(id, 4));
  }

  method WriteClass(w: OutCursor, id: int, c: ClassDef) returns (ok: bool)
    requires w.AtEnd()
    modifies w
    ensures w.Wrote(old(w.buf), EncodeClass(id, c), ok)
  {
    hide BigEndian, Utf, EncodeFieldDefs;
    w.WriteAll(BigEndian(id, 4));
    ok := WriteString(w, c.name);
    if !ok {
      return;
    }
    ok := WriteString(w, c.package);
    if !ok {
      return;
    }
    w.WriteAll(BigEndian(|c.fields|, 4));
    ok := WriteFieldDefs(w, c.fields);
  }

  method WriteFieldDefs(w: OutCursor, fields: seq<FieldDef>) returns (ok: bool)
    requires w.AtEnd()
    modifies w
    ensures w.Wrote(old(w.buf), EncodeFieldDefs(fields), ok)
  {
    hide EncodeType, Utf;
    for i := 0 to |fields|
      invariant w.AtEnd() && Pending(old(w.buf), EncodeFieldDefs(fields), w.buf, EncodeFieldDefs(fields[i..]))
    {
      ghost var buf := w.buf;
      assert fields[i..][1..] == fields[i + 1..];
      ok := WriteString(w, fields[i].name);
      if !ok {
        return;
      }
      ok := WriteFieldType(w, fields[i].fieldType);
      if !ok {
        return;
      }
      PendingStep(old(w.buf), EncodeFieldDefs(fields), buf, Utf(fields[i].name) + EncodeType(fields[i].fieldType).value,
                  EncodeFieldDefs(fields[i + 1..]));
    }
    ok := true;
  }

  method WriteClasses(w: OutCursor, t: Table) returns (ok: bool)
    requires w.AtEnd() && OrderOk(t)
    modifies w
    ensures w.Wrote(old(w.buf), EncodeClasses(t, 0), ok)
  {
    hide EncodeClass;
    for i := 0 to |t.order|
      invariant w.AtEnd() && Pending(old(w.buf), EncodeClasses(t, 0), w.buf, EncodeClasses(t, i))
    {
      ghost var buf := w.buf;
      var id := t.order[i];
      assert id in t.order;
      ok := WriteClass(w, id, t.classes[id]);
      if !ok {
        return;
      }
      PendingStep(old(w.buf), EncodeClasses(t, 0), buf, EncodeClass(id, t.classes[id]).value, EncodeClasses(t, i + 1));
    }
    ok := true;
  }

  method WriteIndex(w: OutCursor, index: seq<(int, int)>)
    requires w.AtEnd()
    modifies w
    ensures w.AtEnd() && w.buf == old(w.buf) + EncodeIndex(index)
  {
    hide BigEndian;
    for i := 0 to |index|
      invariant w.AtEnd() && w.buf + EncodeIndex(index[i..]) == old(w.buf) + EncodeIndex(index)
    {
      assert index[i..][1..] == index[i + 1..];
      ghost var buf := w.buf;
      w.WriteAll(BigEndian(index[i].0, 4));
      w.WriteAll(BigEndian(index[i].1, 4));
      assert buf + EncodeIndex(index[i..]) == w.buf + EncodeIndex(index[i + 1..]);
    }
  }

  /** The objects written so far and those to come make up the body and its index. */
  ghost predicate ObjectsPending(whole: Result<(Bytes, seq<(int, int)>)>, before: Bytes, buf: Bytes, index: seq<(int,
                                 int)>,
                                 later: Result<(Bytes, seq<(int, int)>)>) {
    && (later.Ok? <==> whole.Ok?)
    && (later.Ok? ==> before + whole.value.0 == buf + later.value.0 && whole.value.1 == index + later.value.1)
  }

  method WriteObjects(w: OutCursor, t: Table, objects: seq<(int, Value)>) returns (ok: bool, index: seq<(int, int)>)
    requires w.AtEnd()
    modifies w
    ensures ok <==> EncodeObjects(t, objects, old(w.pos)).Ok?
    ensures ok ==> w.AtEnd() && w.buf == old(w.buf) + EncodeObjects(t, objects, old(w.pos)).value.0
                   && index == EncodeObjects(t, objects, old(w.pos)).value.1
  {
    hide EncodeObject;
    index := [];
    ghost var whole := EncodeObjects(t, objects, w.pos);
    for i := 0 to |objects|
      invariant w.AtEnd() && ObjectsPending(whole, old(w.buf), w.buf, index, EncodeObjects(t, objects[i..], w.pos))
    {
      ghost var buf, done := w.buf, index;
      assert objects[i..][1..] == objects[i + 1..];
      var offset := w.pos;
      ok := WriteObject(w, t, objects[i].1);
      if !ok {
        return;
      }
      index := index + [(objects[i].0, offset)];
      ObjectsStep(whole, old(w.buf), buf, done, EncodeObject(t, objects[i].1).value, (objects[i].0, offset),
                  EncodeObjects(t, objects[i + 1..], w.pos), EncodeObjects(t, objects[i..], offset));
    }
    ok := true;
  }

  lemma ObjectsStep(whole: Result<(Bytes, seq<(int, int)>)>, before: Bytes, buf: Bytes, index: seq<(int, int)>,
                    first: Bytes, entry: (int, int), others: Result<(Bytes, seq<(int, int)>)>,
                    later: Result<(Bytes, seq<(int, int)>)>)
    requires ObjectsPending(whole, before, buf, index, later)
    requires later.Ok? <==> others.Ok?
    requires later.Ok? ==> later.value == (first + others.value.0, [entry] + others.value.1)
    ensures ObjectsPending(whole, before, buf + first, index + [entry], others)
  {
    if later.Ok? {
      assert buf + (first + others.value.0) == buf + first + others.value.0;
      assert index + ([entry] + others.value.1) == index + [entry] + others.value.1;
    }
  }

  /** The whole file. The index pointer is written as zero first and patched at the end. */
  method WriteD2o(t: Table, objects: seq<(int, Value)>) returns (r: Result<Bytes>)
    requires OrderOk(t)
    ensures r == EncodeFile(t, objects)
  {
    hide BigEndian, EncodeObjects, EncodeIndex, EncodeClasses;
    var w := new OutCursor();
    w.WriteAll(D2O_MAGIC);
    w.WriteAll(BigEndian(0, 4));
    var ok, index := WriteObjects(w, t, objects);
    if !ok {
      return Err;
    }
    ghost var body := EncodeObjects(t, objects, 7).value.0;
    var indexesPointer := w.pos;
    w.WriteAll(BigEndian(8 * |index|, 4));
    WriteIndex(w, index);
    w.WriteAll(BigEndian(|t.order|, 4));
    ok := WriteClasses(w, t);
    if !ok {
      return Err;
    }
    ghost var tail := BigEndian(8 * |index|, 4) + EncodeIndex(index) + BigEndian(|t.order|, 4) + EncodeClasses(t,
            0).value;
    assert w.buf == D2O_MAGIC + BigEndian(0, 4) + body + tail;
    PatchPointer(w, indexesPointer, body, tail);
    return Ok(w.buf);
  }

  method PatchPointer(w: OutCursor, pointer: int, ghost body: Bytes, ghost tail: Bytes)
    requires w.buf == D2O_MAGIC + BigEndian(0, 4) + body + tail
    modifies w
    ensures w.buf == D2O_MAGIC + BigEndian(pointer, 4) + body + tail
  {
    hide BigEndian;
    ghost var before := w.buf;
    assert before == D2O_MAGIC + BigEndian(0, 4) + (body + tail);
    w.Seek(3);
    w.WriteAll(BigEndian(pointer, 4));
    Patched(D2O_MAGIC, BigEndian(0, 4), BigEndian(pointer, 4), body + tail, before, w.buf);
    assert w.buf == D2O_MAGIC + BigEndian(pointer, 4) + body + tail;
  }

  // ---- Reader ----

  method ReadScalar(cursor: BigEndianReader, ft: FieldType) returns (r: Result<Value>)
    requires cursor.Valid() && !ft.TVector? && !ft.TObject?
    modifies cursor
    ensures cursor.Agrees(DecodeScalar(ft, old(cursor.Remaining())), r)
  {
    hide FromBigEndian, ToSigned, Binary.ReadUnsigned, Binary.ReadUtf, IsFinite;
    match ft {
      case TBool =>
        var b := cursor.ReadUnsigned(1);
        return if b.Err? then Err else Ok(Bool(b.value != 0));
      case TString =>
        var s := cursor.ReadUtf();
        return if s.Err? then Err else Ok(JsonString(s.value));
      case TNumber =>
        var bits := cursor.ReadUnsigned(8);
        return if bits.Err? then Err else Ok(JsonNumber(bits.value % 0x1_0000_0000_0000_0000));
      case TUInt =>
        var n := cursor.ReadUnsigned(4);
        return if n.Err? then Err else Ok(Int(n.value));
      case TInt | TI18n =>
        var n := cursor.ReadSigned(4);
        return if n.Err? then Err else Ok(Int(n.value));
    }
  }

  /** Dispatch on the field type. Every recursive call has fewer bytes left. */
  method ReadFieldValue(cursor: BigEndianReader, classes: map<int, ClassDef>, ft: FieldType) returns (r: Result<Value>)
    requires cursor.Valid()
    modifies cursor
    ensures cursor.Agrees(DecodeValue(classes, ft, old(cursor.Remaining())), r)
    decreases |cursor.Remaining()|, 0
  {
    hide Binary.ReadSigned, DecodeItems, DecodeObject, DecodeScalar;
    match ft {
      case TVector(_, inner) =>
        ghost var s := cursor.Remaining();
        var count := cursor.ReadSigned(4);
        if count.Err? {
          return Err;
        }
        SignedShrinks(s, 4);
        var items := ReadItems(cursor, classes, inner, count.value);
        return if items.Err? then Err else Ok(Array(items.value));
      case TObject(_) =>
        ghost var s := cursor.Remaining();
        var id := cursor.ReadSigned(4);
        if id.Err? {
          return Err;
        }
        SignedShrinks(s, 4);
        if id.value == NULL_OBJECT_MARKER {
          return Ok(Null);
        }
        r := ReadObjectFields(cursor, classes, id.value);
      case _ =>
        r := ReadScalar(cursor, ft);
    }
  }

  lemma SignedShrinks(s: Bytes, width: nat)
    requires width > 0 && Binary.ReadSigned(s, width).Ok?
    ensures |Binary.ReadSigned(s, width).value.rest| < |s|
  {
  }

  ghost predicate ItemsPending(whole: Result<Parsed<seq<Value>>>, items: seq<Value>,
                               later: Result<Parsed<seq<Value>>>) {
    && (later.Ok? <==> whole.Ok?)
    && (later.Ok? ==> whole.value == Parsed(items + later.value.value, later.value.rest))
  }

  method ReadItems(cursor: BigEndianReader, classes: map<int, ClassDef>, inner: FieldType, count: int)
    returns (r: Result<seq<Value>>)
    requires cursor.Valid()
    modifies cursor
    ensures cursor.Agrees(DecodeItems(classes, inner, count, old(cursor.Remaining())), r)
    decreases |cursor.Remaining()|, 1
  {
    hide DecodeValue;
    var items: seq<Value> := [];
    ghost var whole := DecodeItems(classes, inner, count, cursor.Remaining());
    assert whole.Ok? ==> [] + whole.value.value == whole.value.value;
    var left := count;
    while left > 0
      invariant cursor.Valid() && |cursor.Remaining()| <= |old(cursor.Remaining())|
      invariant ItemsPending(whole, items, DecodeItems(classes, inner, left, cursor.Remaining()))
    {
      ghost var s := cursor.Remaining();
      var item := ReadFieldValue(cursor, classes, inner);
      if item.Err? {
        return Err;
      }
      ItemsStep(classes, inner, left, s, whole, items);
      items := items + [item.value];
      left := left - 1;
    }
    assert items + [] == items;
    return Ok(items);
  }

  lemma ItemsStep(classes: map<int, ClassDef>, inner: FieldType, left: int, s: Bytes,
                  whole: Result<Parsed<seq<Value>>>, items: seq<Value>)
    requires left > 0 && DecodeValue(classes, inner, s).Ok?
    requires ItemsPending(whole, items, DecodeItems(classes, inner, left, s))
    ensures var first := DecodeValue(classes, inner, s).value;
            ItemsPending(whole, items + [first.value], DecodeItems(classes, inner, left - 1, first.rest))
  {
    hide DecodeValue;
    var first := DecodeValue(classes, inner, s).value;
    var others := DecodeItems(classes, inner, left - 1, first.rest);
    if others.Ok? {
      assert items + ([first.value] + others.value.value) == items + [first.value] + others.value.value;
    }
  }

  method ReadObjectFields(cursor: BigEndianReader, classes: map<int, ClassDef>, id: int) returns (r: Result<Value>)
    requires cursor.Valid()
    modifies cursor
    ensures cursor.Agrees(DecodeObject(classes, id, old(cursor.Remaining())), r)
    decreases |cursor.Remaining()|, 2
  {
    hide DecodeValue;
    if id !in classes {
      return Err;
    }
    var fields := classes[id].fields;
    var acc := map[CLASS_KEY := Str(classes[id].name)];
    ghost var whole := DecodeFields(classes, fields, 0, cursor.Remaining(), acc);
    for i := 0 to |fields|
      invariant cursor.Valid() && |cursor.Remaining()| <= |old(cursor.Remaining())|
      invariant whole == DecodeFields(classes, fields, i, cursor.Remaining(), acc)
    {
      var value := ReadFieldValue(cursor, classes, fields[i].fieldType);
      if value.Err? {
        return Err;
      }
      acc := acc[fields[i].name := value.value];
    }
    return Ok(Object(acc));
  }

  method ReadFieldType(cursor: BigEndianReader) returns (r: Result<FieldType>)
    requires cursor.Valid()
    modifies cursor
    ensures cursor.Agrees(DecodeType(old(cursor.Remaining())), r)
    decreases |cursor.Remaining()|
  {
    hide Binary.ReadSigned, Binary.ReadUtf;
    ghost var s := cursor.Remaining();
    var id := cursor.ReadSigned(4);
    if id.Err? {
      return Err;
    }
    SignedShrinks(s, 4);
    if id.value == -99 {
      ghost var s1 := cursor.Remaining();
      var name := cursor.ReadUtf();
      if name.Err? {
        return Err;
      }
      UtfShrinks(s1);
      var inner := ReadFieldType(cursor);
      return if inner.Err? then Err else Ok(TVector(name.value, inner.value));
    }
    return
      if id.value == -1 then Ok(TInt)
      else if id.value == -2 then Ok(TBool)
      else if id.value == -3 then Ok(TString)
      else if id.value == -4 then Ok(TNumber)
      else if id.value == -5 then Ok(TI18n)
      else if id.value == -6 then Ok(TUInt)
      else if id.value > 0 then Ok(TObject(id.value))
      else Err;
  }

  lemma UtfShrinks(s: Bytes)
    requires Binary.ReadUtf(s).Ok?
    ensures |Binary.ReadUtf(s).value.rest| <= |s|
  {
  }

  ghost predicate FieldDefsPending(whole: Result<Parsed<seq<FieldDef>>>, fields: seq<FieldDef>,
                                   later: Result<Parsed<seq<FieldDef>>>) {
    && (later.Ok? <==> whole.Ok?)
    && (later.Ok? ==> whole.value == Parsed(fields + later.value.value, later.value.rest))
  }

  method ReadFieldDefs(cursor: BigEndianReader, count: nat) returns (r: Result<seq<FieldDef>>)
    requires cursor.Valid()
    modifies cursor
    ensures cursor.Agrees(DecodeFieldDefs(count, old(cursor.Remaining())), r)
  {
    hide DecodeType, Binary.ReadUtf;
    var fields: seq<FieldDef> := [];
    ghost var whole := DecodeFieldDefs(count, cursor.Remaining());
    assert whole.Ok? ==> [] + whole.value.value == whole.value.value;
    for i := 0 to count
      invariant cursor.Valid()
      invariant FieldDefsPending(whole, fields, DecodeFieldDefs(count - i, cursor.Remaining()))
    {
      ghost var s := cursor.Remaining();
      var name := cursor.ReadUtf();
      if name.Err? {
        return Err;
      }
      var ft := ReadFieldType(cursor);
      if ft.Err? {
        return Err;
      }
      ghost var later := DecodeFieldDefs(count - i - 1, cursor.Remaining());
      assert later.Ok? ==> fields + ([FieldDef(name.value, ft.value)] + later.value.value)
                           == fields + [FieldDef(name.value, ft.value)] + later.value.value;
      fields := fields + [FieldDef(name.value, ft.value)];
    }
    assert fields + [] == fields;
    return Ok(fields);
  }

  method ReadClass(cursor: BigEndianReader) returns (r: Result<ClassDef>)
    requires cursor.Valid()
    modifies cursor
    ensures cursor.Agrees(DecodeClass(old(cursor.Remaining())), r)
  {
    hide Binary.ReadSigned, Binary.ReadUtf, DecodeFieldDefs;
    var classId := cursor.ReadSigned(4);
    if classId.Err? {
      return Err;
    }
    var name := cursor.ReadUtf();
    if name.Err? {
      return Err;
    }
    var package := cursor.ReadUtf();
    if package.Err? {
      return Err;
    }
    var fieldCount := cursor.ReadSigned(4);
    if fieldCount.Err? || fieldCount.value < 0 {
      return Err;
    }
    var fields := ReadFieldDefs(cursor, fieldCount.value);
    return if fields.Err? then Err else Ok(ClassDef(classId.value, name.value, package.value, fields.value));
  }

  method ReadClasses(cursor: BigEndianReader, count: int) returns (r: Result<map<int, ClassDef>>)
    requires cursor.Valid()
    modifies cursor
    ensures cursor.Agrees(DecodeClasses(count, old(cursor.Remaining()), map[]), r)
  {
    hide DecodeClass;
    var classes: map<int, ClassDef> := map[];
    ghost var whole := DecodeClasses(count, cursor.Remaining(), map[]);
    var left := count;
    while left > 0
      invariant cursor.Valid() && whole == DecodeClasses(left, cursor.Remaining(), classes)
    {
      var c := ReadClass(cursor);
      if c.Err? {
        return Err;
      }
      classes := classes[c.value.classId := c.value];
      left := left - 1;
    }
    return Ok(classes);
  }

  ghost predicate IndexPending(whole: Result<Parsed<seq<(int, int)>>>, index: seq<(int, int)>,
                               later: Result<Parsed<seq<(int, int)>>>) {
    && (later.Ok? <==> whole.Ok?)
    && (later.Ok? ==> whole.value == Parsed(index + later.value.value, later.value.rest))
  }

  method ReadIndex(cursor: BigEndianReader, count: nat) returns (r: Result<seq<(int, int)>>)
    requires cursor.Valid()
    modifies cursor
    ensures cursor.Agrees(DecodeIndex(count, old(cursor.Remaining())), r)
  {
    hide Binary.ReadSigned;
    var index: seq<(int, int)> := [];
    ghost var whole := DecodeIndex(count, cursor.Remaining());
    assert whole.Ok? ==> [] + whole.value.value == whole.value.value;
    for i := 0 to count
      invariant cursor.Valid() && IndexPending(whole, index, DecodeIndex(count - i, cursor.Remaining()))
    {
      var key := cursor.ReadSigned(4);
      if key.Err? {
        return Err;
      }
      var pointer := cursor.ReadSigned(4);
      if pointer.Err? {
        return Err;
      }
      ghost var later := DecodeIndex(count - i - 1, cursor.Remaining());
      assert later.Ok? ==> index + ([(key.value, pointer.value)] + later.value.value)
                           == index + [(key.value, pointer.value)] + later.value.value;
      index := index + [(key.value, pointer.value)];
    }
    assert index + [] == index;
    return Ok(index);
  }

  method SkipSignature(cursor: BigEndianReader) returns (r: Result<nat>)
    requires cursor.Valid()
    modifies cursor
    ensures cursor.Valid() && r == SignatureEnd(old(cursor.Remaining()))
  {
    hide Binary.ReadSigned;
    var f := cursor.ReadBytes(1);
    if f.Err? {
      return Err;
    }
    var version := cursor.ReadSigned(2);
    if version.Err? {
      return Err;
    }
    var length := cursor.ReadSigned(4);
    return if length.Err? || 10 + length.value < 0 then Err else Ok(10 + length.value);
  }

  method SeekTo(cursor: BigEndianReader, pos: nat)
    requires cursor.Valid()
    modifies cursor
    ensures cursor.Valid() && cursor.Remaining() == At(cursor.data, pos)
  {
    cursor.Seek(pos);
  }

  lemma BehindMagic(data: Bytes, pos: nat)
    ensures match Binary.ReadBytes(At(data, pos), 3)
            case Err => true
            case Ok(magic) => magic.rest == At(data, pos + 3)
    ensures At(data, 0) == data
  {
  }

  /** Finds the start of the D2O content, skipping a signature. */
  method FindContent(cursor: BigEndianReader) returns (r: Result<nat>)
    requires cursor.Valid() && cursor.Remaining() == cursor.data
    modifies cursor
    ensures r == ContentOffset(cursor.data)
    ensures r.Ok? ==> cursor.Valid() && cursor.Remaining() == At(cursor.data, r.value + 3)
  {
    hide SignatureEnd, At, Binary.ReadBytes, BigEndianReader.Remaining;
    ghost var data := cursor.data;
    var magic := cursor.ReadBytes(3);
    if magic.Err? {
      return Err;
    }
    if magic.value == AKS_MAGIC {
      var start := SkipSignature(cursor);
      if start.Err? {
        return Err;
      }
      SeekTo(cursor, start.value);
      var again := cursor.ReadBytes(3);
      if again.Err? || again.value != D2O_MAGIC {
        return Err;
      }
      BehindMagic(data, start.value);
      return Ok(start.value);
    } else if magic.value == D2O_MAGIC {
      BehindMagic(data, 0);
      return Ok(0);
    }
    return Err;
  }

  method ReadTablesFrom(cursor: BigEndianReader) returns (r: Result<(seq<(int, int)>, map<int, ClassDef>)>)
    requires cursor.Valid()
    modifies cursor
    ensures r == ReadTables(old(cursor.Remaining()))
  {
    hide Binary.ReadSigned, DecodeIndex, DecodeClasses, EntryCount;
    var length := cursor.ReadSigned(4);
    if length.Err? || EntryCount(length.value) < 0 {
      return Err;
    }
    var index := ReadIndex(cursor, EntryCount(length.value));
    if index.Err? {
      return Err;
    }
    var count := cursor.ReadSigned(4);
    if count.Err? {
      return Err;
    }
    var classes := ReadClasses(cursor, count.value);
    return if classes.Err? then Err else Ok((index.value, classes.value));
  }

  method ReadD2o(data: Bytes) returns (r: Result<Reader>)
    ensures r == FromBytes(data)
  {
    hide Binary.ReadSigned, ContentOffset, ReadTables;
    var cursor := new BigEndianReader(data);
    var offset := FindContent(cursor);
    if offset.Err? {
      return Err;
    }
    var pointer := cursor.ReadSigned(4);
    if pointer.Err? || pointer.value < 0 {
      return Err;
    }
    SeekTo(cursor, offset.value + pointer.value);
    var tables := ReadTablesFrom(cursor);
    return if tables.Err? then Err else Ok(Reader(tables.value.1, tables.value.0, offset.value, data));
  }

  method FindOffset(indexes: seq<(int, int)>, id: int) returns (r: Option<int>)
    ensures r == FindObject(indexes, id)
  {
    for i := 0 to |indexes|
      invariant FindObject(indexes, id) == FindObject(indexes[i..], id)
    {
      assert indexes[i..][1..] == indexes[i + 1..];
      if indexes[i].0 == id {
        return Some(indexes[i].1);
      }
    }
    return None;
  }

  method ReadOneObject(reader: Reader, id: int) returns (r: Result<Value>)
    ensures r == ReadObject(reader, id)
  {
    hide Binary.ReadSigned, DecodeObject, FindObject;
    var offset := FindOffset(reader.indexes, id);
    if offset.None? || offset.value < 0 {
      return Err;
    }
    var cursor := new BigEndianReader(reader.data);
    cursor.Seek(reader.contentOffset + offset.value);
    assert cursor.Remaining() == At(reader.data, reader.contentOffset + offset.value);
    var classId := cursor.ReadSigned(4);
    if classId.Err? {
      return Err;
    }
    r := ReadObjectFields(cursor, reader.classes, classId.value);
  }
}
