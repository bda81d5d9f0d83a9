/** The bytes that a generated serialize method writes for each kind of field. */
module WireFormat {
  import opened Common
  import opened Binary
  import opened VarInt
  import opened Schema
  import opened Generated

  /** The i-th field of a struct, of the given type, written on its own. */
  function Written(p: Protocol, fields: seq<Field>, ft: FieldType, i: nat, v: Value): Result<Bytes>
    requires v.Struct? && i < |v.fields| == |fields|
  {
    RunStmt(p, fields, WriteStmtOf(ft, i), v)
  }

  /** Numbers of fixed size: one byte, or two, four or eight of them big-endian. */
  lemma NumberBytes(p: Protocol, fields: seq<Field>, ft: FieldType, i: nat, v: Value, n: int)
    requires v.Struct? && i < |v.fields| == |fields| && v.fields[i] == Number(n)
    ensures ft.Byte? || ft.UByte? ==> Written(p, fields, ft, i, v) == Ok([n % 256])
    ensures ft.Short? || ft.UShort? ==> Written(p, fields, ft, i, v) == Ok(BigEndian(n, 2))
    ensures ft.Int? || ft.UInt? || ft.Float? ==> Written(p, fields, ft, i, v) == Ok(BigEndian(n, 4))
    ensures ft.Double? ==> Written(p, fields, ft, i, v) == Ok(BigEndian(n, 8))
  {
    hide BigEndian, Leb128;
  }

  /** Numbers of variable size: the groups of seven bits of the 16, 32 or 64-bit pattern. */
  lemma VarNumberBytes(p: Protocol, fields: seq<Field>, ft: FieldType, i: nat, v: Value, n: int)
    requires v.Struct? && i < |v.fields| == |fields| && v.fields[i] == Number(n)
    ensures ft.VarShort? || ft.VarUShort? ==> Written(p, fields, ft, i, v) == Ok(Leb128(n % 0x1_0000))
    ensures ft.VarInt? || ft.VarUInt? ==> Written(p, fields, ft, i, v) == Ok(Leb128(n % 0x1_0000_0000))
    ensures ft.VarLong? || ft.VarULong? || ft.Long? || ft.ULong? ==>
              Written(p, fields, ft, i, v) == Ok(Leb128(n % 0x1_0000_0000_0000_0000))
  {
    hide BigEndian, Leb128;
  }

  /** Booleans that are not packed, texts and byte arrays behind their lengths. */
  lemma OtherBytes(p: Protocol, fields: seq<Field>, ft: FieldType, i: nat, v: Value)
    requires v.Struct? && i < |v.fields| == |fields|
    ensures ft.Bool? && v.fields[i].Flag? ==> Written(p, fields, ft, i, v) == Ok([if v.fields[i].b then 1 else 0])
    ensures ft.String? && v.fields[i].Text? ==>
              Written(p, fields, ft, i, v) == Ok(BigEndian(|v.fields[i].s|, 2) + v.fields[i].s)
    ensures ft.ByteArray? && v.fields[i].Blob? ==>
              Written(p, fields, ft, i, v) == Ok(Leb128(|v.fields[i].s| % 0x1_0000_0000) + v.fields[i].s)
  {
    hide BigEndian, Leb128;
  }

  /** A nested struct is its own bytes. */
  lemma NestedBytes(p: Protocol, fields: seq<Field>, i: nat, v: Value)
    requires v.Struct? && i < |v.fields| == |fields| && fields[i].fieldType.Type?
    ensures Written(p, fields, fields[i].fieldType, i, v) == Serialize(p, fields[i].fieldType.name, v.fields[i])
  {
    hide Serialize;
  }

  /** A polymorphic field is the two bytes of the type id that its hierarchy first lists for the variant, then the
      variant's bytes. */
  lemma VariantBytes(p: Protocol, fields: seq<Field>, i: nat, v: Value, base: string, k: nat)
    requires v.Struct? && i < |v.fields| == |fields| && v.fields[i].Variant?
    requires fields[i].fieldType == TypeManager(base) && base != "" && base in p.hierarchies
    requires k < |p.hierarchies[base]| && p.hierarchies[base][k].0 == v.fields[i].name
    requires forall j :: 0 <= j < k ==> p.hierarchies[base][j].0 != v.fields[i].name
    ensures Written(p, fields, fields[i].fieldType, i, v) ==
            Concat2(BigEndian(p.hierarchies[base][k].1, 2), Serialize(p, v.fields[i].name, v.fields[i].body))
  {
    hide BigEndian, Serialize, VariantId;
    FirstVariant(p.hierarchies[base], v.fields[i].name, k);
    assert WriteStmtOf(fields[i].fieldType, i) == WriteVariant(i);
    assert Written(p, fields, fields[i].fieldType, i, v) == SerializeVariant(p, base, v.fields[i]);
  }

  lemma {:induction false} FirstVariant(variants: seq<(string, nat)>, name: string, k: nat)
    requires k < |variants| && variants[k].0 == name && forall j :: 0 <= j < k ==> variants[j].0 != name
    ensures VariantId(variants, name) == Some(variants[k].1)
    decreases k
  {
    if k > 0 {
      assert variants[1..][k - 1] == variants[k];
      assert forall j :: 0 <= j < k - 1 ==> variants[1..][j] == variants[j + 1];
      FirstVariant(variants[1..], name, k - 1);
    }
  }

  /** The count in front of a vector, as its schema asks for it. */
  lemma CountBytes(lengthType: string, n: nat)
    ensures Put(LengthWrite("writeVarInt"), Number(n)) == Ok(Leb128(n % 0x1_0000_0000))
    ensures Put(LengthWrite("writeByte"), Number(n)) == Ok([n % 256])
    ensures lengthType != "writeVarInt" && lengthType != "writeByte" ==>
              Put(LengthWrite(lengthType), Number(n)) == Ok(BigEndian(n, 2))
  {
    hide BigEndian, Leb128;
  }

  /** A vector is its count, then its items, each written like a field of the inner type. */
  lemma VectorBytes(p: Protocol, fields: seq<Field>, i: nat, v: Value, inner: FieldType, lengthType: string)
    requires v.Struct? && i < |v.fields| == |fields| && fields[i].fieldType == Vector(inner, lengthType)
    requires v.fields[i].List?
    ensures var items := v.fields[i].items;
            var count := Put(LengthWrite(lengthType), Number(|items|));
            count.Ok? ==>
              Written(p, fields, fields[i].fieldType, i, v) ==
              Concat2(count.value, WriteItems(p, inner, WriteElemOf(inner), v.fields[i], 0))
  {
    hide Put, WriteElemOf, LengthWrite;
  }

  /** Items of primitive types are written as fields of those types are. */
  lemma ItemBytes(p: Protocol, fields: seq<Field>, inner: FieldType, i: nat, v: Value)
    requires v.Struct? && i < |v.fields| == |fields| && fields[i].fieldType == inner
    requires !inner.Vector? && !inner.ByteArray? && !inner.Long? && !inner.ULong?
    requires inner.TypeManager? ==> inner.name != ""
    ensures WriteItem(p, inner, WriteElemOf(inner), v.fields[i]) == Written(p, fields, inner, i, v)
  {
    hide Put, Serialize, SerializeVariant;
  }

  /** A polymorphic field whose base is unknown is written as raw bytes, and read as the default without any. */
  lemma UnresolvedBytes(p: Protocol, fields: seq<Field>, i: nat, v: Value, name: string, flags: seq<bv8>, s: Bytes)
    requires Resolved(p) && name in p.classes
    requires v.Struct? && i < |v.fields| == |fields| && v.fields[i].Blob?
    ensures Written(p, fields, TypeManager(""), i, v) == Ok(v.fields[i].s)
    ensures InitFollows(p, p.rank[name], ReadInitOf(TypeManager("")))
    ensures RunInit(p, name, ReadInitOf(TypeManager("")), flags, s) == Ok(Parsed(Blob([]), s))
  {
  }

  /** Items of a vector of unknown base are not written at all, and read as defaults. */
  lemma {:induction false} UnresolvedItems(p: Protocol, v: Value, i: nat)
    requires v.List? && i <= |v.items|
    ensures WriteItems(p, TypeManager(""), WriteElemOf(TypeManager("")), v, i) == Ok([])
    decreases |v.items| - i
  {
    if i < |v.items| {
      UnresolvedItems(p, v, i + 1);
      var none: Bytes := [];
      assert none + none == none;
    }
  }

  lemma {:induction false} UnresolvedItemsRead(p: Protocol, count: nat, s: Bytes)
    requires Resolved(p)
    ensures ReadItems(p, ReadElemOf(TypeManager("")), count, s) == Ok(Parsed(seq(count, _ => Blob([])), s))
  {
    hide Resolved;
    var all: seq<Value> := seq(count, _ => Blob([]));
    if count == 0 {
      assert all == [];
    } else {
      UnresolvedItemsRead(p, count - 1, s);
      var later: seq<Value> := seq(count - 1, _ => Blob([]));
      assert [Blob([])] + later == all;
      assert ReadItem(p, ReadElemOf(TypeManager("")), s) == Ok(Parsed(Blob([]), s));
    }
  }

  /** Names resolve when they are declared; struct types nested without a box or a vector need a smaller rank, all other
      types nothing. */
  lemma ResolvedTypes(p: Protocol, ft: FieldType, rank: nat)
    ensures ft.Type? ==>
              (TypeResolved(p, ft, rank) <==> ft.name in p.classes && ft.name in p.rank && p.rank[ft.name] < rank)
    ensures ft.TypeManager? ==> (TypeResolved(p, ft, rank) <==> ft.name in p.hierarchies || ft.name == "")
    ensures !ft.Type? && !ft.TypeManager? && !ft.Vector? ==> TypeResolved(p, ft, rank)
  {
  }
}
