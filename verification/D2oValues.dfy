/** Object values: what is read back after writing, and exactly which values survive unchanged. */
module D2oValues {
  import opened Common
  import opened Binary
  import opened D2o

  /** Class ids are 32-bit and none is the null marker. */
  ghost predicate IdsOk(t: Table) {
    forall id :: id in t.classes ==> IsSigned(id, 32) && id != NULL_OBJECT_MARKER
  }

  lemma ReadUnsignedAny(n: int, width: nat, rest: Bytes)
    ensures Range(width) > 0
    ensures ReadUnsigned(BigEndian(n, width) + rest, width) == Ok(Parsed(n % Range(width), rest))
  {
    BigEndianRoundTrip(n, width);
    var s := BigEndian(n, width) + rest;
    assert s[..width] == BigEndian(n, width) && s[width..] == rest;
  }

  lemma ReadI32(n: int, rest: Bytes)
    ensures ReadSigned(BigEndian(n, 4) + rest, 4) == Ok(Parsed(ToSigned(n % 0x1_0000_0000, 32), rest))
    ensures IsSigned(n, 32) ==> ToSigned(n % 0x1_0000_0000, 32) == n
  {
    hide FromBigEndian, BigEndian, ReadUnsigned;
    Pow2Values();
    ReadUnsignedAny(n, 4, rest);
    if IsSigned(n, 32) {
      SignedOfMod(n, 32);
    }
  }

  /** The same for a value within 32 bits. */
  lemma Int32Back(n: int, rest: Bytes)
    requires -0x8000_0000 <= n < 0x8000_0000
    ensures ReadSigned(BigEndian(n, 4) + rest, 4) == Ok(Parsed(n, rest))
  {
    hide BigEndian, ReadSigned, ToSigned;
    ReadI32(n, rest);
    SignedBounds(n);
  }

  lemma SignedBounds(n: int)
    ensures IsSigned(n, 32) <==> -0x8000_0000 <= n < 0x8000_0000
  {
    Pow2Values();
  }

  lemma ScalarBack(t: Table, ft: FieldType, v: Value, rest: Bytes)
    requires !ft.TVector? && !ft.TObject? && EncodeScalar(t, ft, v).Ok?
    ensures DecodeScalar(ft, EncodeScalar(t, ft, v).value + rest) == Ok(Parsed(NormScalar(t, ft, v), rest))
  {
    hide FromBigEndian, BigEndian, ReadUnsigned, ToSigned, IsFinite, Utf, ReadUtf, ReadSigned, AsI64, AsU64, AsF64;
    Pow2Values();
    match ft
    case TInt => ReadI32(AsI64(v), rest);
    case TBool => OneByteBack(if v == Bool(true) then 1 else 0, rest);
    case TString => ReadUtfBack(if v.Null? then NULL_TEXT else if v.Str? then v.s else [], rest);
    case TNumber => ReadUnsignedAny(AsF64(t, v), 8, rest);
    case TI18n => ReadI32(AsI64(v), rest);
    case TUInt => ReadUnsignedAny(AsU64(v), 4, rest);
  }

  lemma EncodingNotEmpty(t: Table, ft: FieldType, v: Value)
    requires EncodeValue(t, ft, v).Ok?
    ensures |EncodeValue(t, ft, v).value| >= 1
  {
  }

  lemma {:induction false} ItemsTakeSpace(t: Table, inner: FieldType, v: Value, i: nat)
    requires v.Array? && i <= |v.items| && EncodeItems(t, inner, v, i).Ok?
    ensures |EncodeItems(t, inner, v, i).value| >= |v.items| - i
    decreases |v.items| - i
  {
    if i < |v.items| {
      EncodingNotEmpty(t, inner, v.items[i]);
      ItemsTakeSpace(t, inner, v, i + 1);
    }
  }

  /** Reading after writing gives the stored form of the value and stops exactly behind it. */
  lemma {:induction false} ValueBack(t: Table, ft: FieldType, v: Value, rest: Bytes)
    requires IdsOk(t) && EncodeValue(t, ft, v).Ok? && |EncodeValue(t, ft, v).value| < 0x8000_0000
    ensures DecodeValue(t.classes, ft, EncodeValue(t, ft, v).value + rest) == Ok(Parsed(Norm(t, ft, v), rest))
    decreases Depth(v), v, 3, 0
  {
    hide BigEndian, ReadSigned, IdsOk, ClassOf, EncodeItems, NormItems, DecodeItems, NormFields, EncodeFields,
      DecodeObject, EncodeScalar, DecodeScalar, NormScalar;
    match ft
    case TVector(_, inner) =>
      if v.Array? {
        ItemsBack(t, inner, v, 0, rest);
        VectorBack(t, ft, v, rest);
      } else {
        Int32Back(0, rest);
        NoItems(t.classes, inner, rest);
      }
    case TObject(_) =>
      if v.Null? {
        Int32Back(NULL_OBJECT_MARKER, rest);
      } else {
        ObjectBack(t, v, rest);
        var id := ClassOf(t, v).value;
        var fields := EncodeFields(t, t.classes[id].fields, v, 0).value;
        ClassIdBack(t, id, fields + rest);
        assert BigEndian(id, 4) + fields + rest == BigEndian(id, 4) + (fields + rest);
      }
    case _ => ScalarBack(t, ft, v, rest);
  }

  /** A vector is its length and its items. */
  lemma VectorBack(t: Table, ft: FieldType, v: Value, rest: Bytes)
    requires ft.TVector? && v.Array? && EncodeItems(t, ft.inner, v, 0).Ok?
    requires |EncodeItems(t, ft.inner, v, 0).value| < 0x8000_0000
    requires DecodeItems(t.classes, ft.inner, |v.items|, EncodeItems(t, ft.inner, v, 0).value + rest) ==
             Ok(Parsed(NormItems(t, ft.inner, v, 0), rest))
    ensures EncodeValue(t, ft, v).Ok?
    ensures DecodeValue(t.classes, ft, EncodeValue(t, ft, v).value + rest) == Ok(Parsed(Norm(t, ft, v), rest))
  {
    hide BigEndian, ReadSigned, EncodeItems, NormItems, DecodeItems;
    var items := EncodeItems(t, ft.inner, v, 0).value;
    ItemsTakeSpace(t, ft.inner, v, 0);
    Int32Back(|v.items|, items + rest);
    assert BigEndian(|v.items|, 4) + items + rest == BigEndian(|v.items|, 4) + (items + rest);
  }

  lemma ClassIdBack(t: Table, id: int, rest: Bytes)
    requires IdsOk(t) && id in t.classes
    ensures ReadSigned(BigEndian(id, 4) + rest, 4) == Ok(Parsed(id, rest)) && id != NULL_OBJECT_MARKER
  {
    ReadI32(id, rest);
  }

  lemma {:induction false} ItemsBack(t: Table, inner: FieldType, v: Value, i: nat, rest: Bytes)
    requires IdsOk(t) && v.Array? && i <= |v.items|
    requires EncodeItems(t, inner, v, i).Ok? && |EncodeItems(t, inner, v, i).value| < 0x8000_0000
    ensures DecodeItems(t.classes, inner, |v.items| - i, EncodeItems(t, inner, v, i).value + rest) ==
            Ok(Parsed(NormItems(t, inner, v, i), rest))
    decreases 1, v, 1, |v.items| - i
  {
    hide EncodeValue, DecodeValue, Norm, IdsOk, DecodeItems;
    if i == |v.items| {
      assert [] + rest == rest;
      NoItems(t.classes, inner, rest);
    } else {
      var first := EncodeValue(t, inner, v.items[i]).value;
      var others := EncodeItems(t, inner, v, i + 1).value;
      ValueBack(t, inner, v.items[i], others + rest);
      ItemsBack(t, inner, v, i + 1, rest);
      assert first + others + rest == first + (others + rest);
      OneMoreItem(t.classes, inner, |v.items| - i, first + (others + rest));
    }
  }

  lemma NoItems(classes: map<int, ClassDef>, inner: FieldType, s: Bytes)
    ensures DecodeItems(classes, inner, 0, s) == Ok(Parsed([], s))
  {
  }

  lemma OneMoreItem(classes: map<int, ClassDef>, inner: FieldType, count: nat, s: Bytes)
    requires count > 0 && DecodeValue(classes, inner, s).Ok?
    requires DecodeItems(classes, inner, count - 1, DecodeValue(classes, inner, s).value.rest).Ok?
    ensures var first := DecodeValue(classes, inner, s).value;
            var others := DecodeItems(classes, inner, count - 1, first.rest).value;
            DecodeItems(classes, inner, count, s) == Ok(Parsed([first.value] + others.value, others.rest))
  {
    hide DecodeValue;
  }

  lemma {:induction false} ObjectBack(t: Table, v: Value, rest: Bytes)
    requires IdsOk(t) && EncodeObject(t, v).Ok? && |EncodeObject(t, v).value| < 0x8000_0000
    ensures ClassOf(t, v).Some? && ClassOf(t, v).value in t.classes && v.Object?
    ensures var id := ClassOf(t, v).value;
            var fields := EncodeFields(t, t.classes[id].fields, v, 0);
            && fields.Ok? && EncodeObject(t, v) == Ok(BigEndian(id, 4) + fields.value)
            && DecodeObject(t.classes, id, fields.value + rest) == Ok(Parsed(NormObject(t, v), rest))
    decreases 1, v, 2, 0
  {
    hide BigEndian, IdsOk, FindClass;
    var id := ClassOf(t, v).value;
    FieldsBack(t, t.classes[id].fields, v, 0, rest, map[CLASS_KEY := Str(t.classes[id].name)]);
  }

  lemma {:induction false} FieldsBack(t: Table, fields: seq<FieldDef>, v: Value, i: nat, rest: Bytes, acc: map<Bytes,
                                      Value>)
    requires IdsOk(t) && v.Object? && i <= |fields|
    requires EncodeFields(t, fields, v, i).Ok? && |EncodeFields(t, fields, v, i).value| < 0x8000_0000
    ensures DecodeFields(t.classes, fields, i, EncodeFields(t, fields, v, i).value + rest, acc) ==
            Ok(Parsed(NormFields(t, fields, v, i, acc), rest))
    decreases 1, v, 1, |fields| - i
  {
    hide EncodeValue, DecodeValue, Norm, IdsOk;
    if i == |fields| {
      assert [] + rest == rest;
    } else {
      var ft, x := fields[i].fieldType, Get(v, fields[i].name);
      var first := EncodeValue(t, ft, x).value;
      var others := EncodeFields(t, fields, v, i + 1).value;
      ValueBack(t, ft, x, others + rest);
      FieldsBack(t, fields, v, i + 1, rest, acc[fields[i].name := Norm(t, ft, x)]);
      assert first + others + rest == first + (others + rest);
    }
  }

  // ---- Which values come back unchanged ----

  /** Field names of a class are distinct and none is "_class". */
  ghost predicate FieldNamesOk(fields: seq<FieldDef>) {
    && (forall i, j :: 0 <= i < j < |fields| ==> fields[i].name != fields[j].name)
    && (forall i :: 0 <= i < |fields| ==> fields[i].name != CLASS_KEY)
  }

  ghost predicate NamesOk(t: Table) {
    forall id :: id in t.classes ==> FieldNamesOk(t.classes[id].fields)
  }

  predicate ScalarFits(ft: FieldType, v: Value)
    requires !ft.TVector? && !ft.TObject?
  {
    match ft
    case TInt => v.Int? && IsSigned(v.i, 32)
    case TBool => v.Bool?
    case TString => v.Null? || (v.Str? && v.s != NULL_TEXT)
    case TNumber => v.Num? && IsFinite(v.bits)
    case TI18n => v.Int? && IsSigned(v.i, 32)
    case TUInt => v.Int? && 0 <= v.i < 0x1_0000_0000
  }

  ghost function FieldNames(fields: seq<FieldDef>): set<Bytes> {
    set i | 0 <= i < |fields| :: fields[i].name
  }

  /** v has the shape its field type asks for: nothing is converted, defaulted, dropped or added. */
  ghost predicate Fits(t: Table, ft: FieldType, v: Value)
    decreases Depth(v), v, 3
  {
    match ft
    case TVector(_, inner) => v.Array? && forall i :: 0 <= i < |v.items| ==> Fits(t, inner, v.items[i])
    case TObject(_) => v.Null? || FitsObject(t, v)
    case _ => ScalarFits(ft, v)
  }

  /** An object names a known class and carries exactly that class's fields. */
  ghost predicate FitsObject(t: Table, v: Value)
    decreases 1, v, 2
  {
    && v.Object?
    && ClassOf(t, v).Some?
    && ClassOf(t, v).value in t.classes
    && var fields := t.classes[ClassOf(t, v).value].fields;
       && v.fields.Keys == {CLASS_KEY} + FieldNames(fields)
       && forall i :: 0 <= i < |fields| ==>
           fields[i].name in v.fields && Fits(t, fields[i].fieldType, v.fields[fields[i].name])
  }

  lemma ScalarKept(t: Table, ft: FieldType, v: Value)
    requires !ft.TVector? && !ft.TObject?
    ensures NormScalar(t, ft, v) == v <==> ScalarFits(ft, v)
  {
    hide IsFinite;
    if ft.TInt? || ft.TI18n? {
      SignedKept(v);
    }
    assert IsFinite(0) by { ZeroIsFinite(); }
  }

  lemma ZeroIsFinite()
    ensures IsFinite(0)
  {
  }

  lemma SignedKept(v: Value)
    ensures Int(ToSigned(AsI64(v) % 0x1_0000_0000, 32)) == v <==> v.Int? && IsSigned(v.i, 32)
  {
    Pow2Values();
    if v.Int? && IsSigned(v.i, 32) {
      SignedOfMod(v.i, 32);
    }
  }

  lemma {:induction false} FindClassName(t: Table, name: Bytes, i: nat)
    requires i <= |t.order|
    ensures FindClass(t, name, i).Some? ==>
              FindClass(t, name, i).value in t.classes && t.classes[FindClass(t, name, i).value].name == name
    decreases |t.order| - i
  {
    if i < |t.order| {
      FindClassName(t, name, i + 1);
    }
  }

  lemma ClassOfName(t: Table, v: Value)
    requires ClassOf(t, v).Some?
    ensures ClassOf(t, v).value in t.classes && v.Object? && CLASS_KEY in v.fields
    ensures v.fields[CLASS_KEY] == Str(t.classes[ClassOf(t, v).value].name)
  {
    hide FindClass;
    FindClassName(t, Get(v, CLASS_KEY).s, 0);
  }

  /** Inserting the remaining fields sets each of them and touches nothing else. */
  lemma {:induction false} NormFieldsSets(t: Table, fields: seq<FieldDef>, v: Value, i: nat, acc: map<Bytes, Value>)
    requires v.Object? && i <= |fields| && FieldNamesOk(fields)
    ensures var r := NormFields(t, fields, v, i, acc);
            && r.Keys == acc.Keys + FieldNames(fields[i..])
            && (forall j :: i <= j < |fields| ==>
                  fields[j].name in r && r[fields[j].name] == Norm(t, fields[j].fieldType, Get(v, fields[j].name)))
            && (forall key :: key in acc && key !in FieldNames(fields[i..]) ==> key in r && r[key] == acc[key])
    decreases |fields| - i
  {
    hide Norm;
    if i < |fields| {
      var acc' := acc[fields[i].name := Norm(t, fields[i].fieldType, Get(v, fields[i].name))];
      NormFieldsSets(t, fields, v, i + 1, acc');
      NamesFrom(fields, i);
    } else {
      assert FieldNames(fields[i..]) == {};
    }
  }

  lemma NamesFrom(fields: seq<FieldDef>, i: nat)
    requires i < |fields|
    ensures FieldNames(fields[i..]) == {fields[i].name} + FieldNames(fields[i + 1..])
    ensures FieldNamesOk(fields) ==> fields[i].name !in FieldNames(fields[i + 1..])
  {
    var a, b := fields[i..], fields[i + 1..];
    forall k | 0 <= k < |a| ensures a[k].name in {fields[i].name} + FieldNames(b) {
      if k > 0 { assert a[k] == b[k - 1]; }
    }
    forall k | 0 <= k < |b| ensures b[k].name in FieldNames(a) {
      assert b[k] == a[k + 1];
    }
    assert fields[i] == a[0];
    if FieldNamesOk(fields) {
      forall k | 0 <= k < |b| ensures b[k].name != fields[i].name {
        assert b[k] == fields[i + 1 + k];
      }
    }
  }

  lemma {:induction false} NormItemAt(t: Table, inner: FieldType, v: Value, i: nat, k: nat)
    requires v.Array? && i <= k < |v.items|
    ensures NormItems(t, inner, v, i)[k - i] == Norm(t, inner, v.items[k])
    decreases |v.items| - i
  {
    hide Norm;
    if i < k {
      NormItemAt(t, inner, v, i + 1, k);
    }
  }

  /** The stored form equals the value exactly when the value fits. */
  lemma {:induction false} KeptIffFits(t: Table, ft: FieldType, v: Value)
    requires NamesOk(t)
    ensures Norm(t, ft, v) == v <==> Fits(t, ft, v)
    decreases Depth(v), v, 3
  {
    hide ClassOf, NamesOk;
    match ft
    case TVector(_, inner) =>
      if v.Array? {
        forall k | 0 <= k < |v.items| ensures NormItems(t, inner, v, 0)[k] == v.items[k] <==>
                Fits(t, inner, v.items[k]) {
          NormItemAt(t, inner, v, 0, k);
          KeptIffFits(t, inner, v.items[k]);
        }
        assert NormItems(t, inner, v, 0) == v.items <==>
               forall k :: 0 <= k < |v.items| ==> NormItems(t, inner, v, 0)[k] == v.items[k];
      }
    case TObject(_) =>
      if !v.Null? {
        ObjectKeptIffFits(t, v);
      }
    case _ => ScalarKept(t, ft, v);
  }

  lemma {:induction false} ObjectKeptIffFits(t: Table, v: Value)
    requires NamesOk(t) && !v.Null?
    ensures NormObject(t, v) == v <==> FitsObject(t, v)
    decreases 1, v, 2
  {
    hide ClassOf, Norm, Fits;
    if ClassOf(t, v).Some? {
      ClassOfName(t, v);
      var id := ClassOf(t, v).value;
      var c := t.classes[id];
      assert id in t.classes && FieldNamesOk(c.fields);
      var acc := map[CLASS_KEY := Str(c.name)];
      NormFieldsSets(t, c.fields, v, 0, acc);
      assert c.fields[0..] == c.fields;
      var r := NormFields(t, c.fields, v, 0, acc);
      ClassKeyNotField(c.fields);
      forall i | 0 <= i < |c.fields| && c.fields[i].name in v.fields
        ensures r[c.fields[i].name] == v.fields[c.fields[i].name] <==>
                Fits(t, c.fields[i].fieldType, v.fields[c.fields[i].name])
      {
        KeptIffFits(t, c.fields[i].fieldType, v.fields[c.fields[i].name]);
      }
      MapsEqual(c.fields, r, v.fields);
    }
  }

  lemma ClassKeyNotField(fields: seq<FieldDef>)
    requires FieldNamesOk(fields)
    ensures CLASS_KEY !in FieldNames(fields)
    ensures forall i :: 0 <= i < |fields| ==> fields[i].name in FieldNames(fields)
  {
  }

  lemma MapsEqual(fields: seq<FieldDef>, r: map<Bytes, Value>, m: map<Bytes, Value>)
    requires CLASS_KEY in m && CLASS_KEY in r && r[CLASS_KEY] == m[CLASS_KEY]
    requires r.Keys == {CLASS_KEY} + FieldNames(fields)
    requires forall i :: 0 <= i < |fields| ==> fields[i].name in r
    ensures r == m <==> m.Keys == {CLASS_KEY} + FieldNames(fields) &&
                        forall i :: 0 <= i < |fields| ==> fields[i].name in m && r[fields[i].name] == m[fields[i].name]
  {
    if m.Keys == r.Keys &&
           forall i :: 0 <= i < |fields| ==> fields[i].name in m && r[fields[i].name] == m[fields[i].name] {
      forall key | key in r ensures r[key] == m[key] {
        if key != CLASS_KEY {
          var i :| 0 <= i < |fields| && fields[i].name == key;
        }
      }
      assert r == m;
    }
  }

  /** Main result for one value: it is read back unchanged exactly when it fits its field type. */
  lemma ValueRoundTrip(t: Table, ft: FieldType, v: Value, rest: Bytes)
    requires IdsOk(t) && NamesOk(t)
    requires EncodeValue(t, ft, v).Ok? && |EncodeValue(t, ft, v).value| < 0x8000_0000
    ensures DecodeValue(t.classes, ft, EncodeValue(t, ft, v).value + rest) == Ok(Parsed(v, rest)) <==> Fits(t, ft, v)
  {
    hide EncodeValue, DecodeValue, Fits, Norm, IdsOk, NamesOk;
    ValueBack(t, ft, v, rest);
    KeptIffFits(t, ft, v);
  }

  ghost predicate ShortStrings(v: Value)
    decreases v
  {
    match v
    case Str(s) => |s| <= 65535
    case Array(items) => forall i :: 0 <= i < |items| ==> ShortStrings(items[i])
    case Object(fields) => forall key :: key in fields ==> ShortStrings(fields[key])
    case _ => true
  }

  /** Writing a fitting value fails only on a string of more than 65535 bytes. */
  lemma {:induction false} FittingValueIsWritten(t: Table, ft: FieldType, v: Value)
    requires Fits(t, ft, v) && ShortStrings(v)
    ensures EncodeValue(t, ft, v).Ok?
    decreases Depth(v), v, 3, 0
  {
    hide ClassOf, BigEndian;
    match ft
    case TVector(_, inner) =>
      FittingItemsAreWritten(t, inner, v, 0);
    case TObject(_) =>
      if !v.Null? {
        FittingObjectIsWritten(t, v);
      }
    case _ =>
  }

  lemma {:induction false} FittingItemsAreWritten(t: Table, inner: FieldType, v: Value, i: nat)
    requires v.Array? && i <= |v.items| && ShortStrings(v)
    requires forall k :: 0 <= k < |v.items| ==> Fits(t, inner, v.items[k])
    ensures EncodeItems(t, inner, v, i).Ok?
    decreases 1, v, 1, |v.items| - i
  {
    hide EncodeValue, Fits;
    if i < |v.items| {
      FittingValueIsWritten(t, inner, v.items[i]);
      FittingItemsAreWritten(t, inner, v, i + 1);
    }
  }

  lemma {:induction false} FittingObjectIsWritten(t: Table, v: Value)
    requires FitsObject(t, v) && ShortStrings(v)
    ensures EncodeObject(t, v).Ok?
    decreases 1, v, 2, 0
  {
    hide ClassOf, BigEndian, Fits;
    FittingFieldsAreWritten(t, t.classes[ClassOf(t, v).value].fields, v, 0);
  }

  lemma {:induction false} FittingFieldsAreWritten(t: Table, fields: seq<FieldDef>, v: Value, i: nat)
    requires v.Object? && i <= |fields| && ShortStrings(v)
    requires forall k :: 0 <= k < |fields| ==>
              fields[k].name in v.fields && Fits(t, fields[k].fieldType, v.fields[fields[k].name])
    ensures EncodeFields(t, fields, v, i).Ok?
    decreases 1, v, 1, |fields| - i
  {
    hide EncodeValue, Fits;
    if i < |fields| {
      FittingValueIsWritten(t, fields[i].fieldType, v.fields[fields[i].name]);
      FittingFieldsAreWritten(t, fields, v, i + 1);
    }
  }
}
