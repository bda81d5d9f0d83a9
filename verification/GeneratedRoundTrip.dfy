/** For which classes the emitted deserialize method undoes the emitted serialize method. */
module GeneratedRoundTrip {
  import opened Common
  import opened Binary
  import opened VarInt
  import opened FlagByte
  import opened Schema
  import opened Generated

  // ---- Values that a Rust field of the given type can hold ----

  predicate InRange(wire: Wire, v: Value) {
    match wire
    case WBoolean => v.Flag?
    case WUtf => v.Text? && |v.s| < 0x1_0000
    case WByte => v.Number? && 0 <= v.n < 256
    case WShort => v.Number? && IsSigned(v.n, 16)
    case WUShort => v.Number? && 0 <= v.n < 0x1_0000
    case WInt => v.Number? && IsSigned(v.n, 32)
    case WUInt => v.Number? && 0 <= v.n < 0x1_0000_0000
    case WFloat => v.Number? && 0 <= v.n < 0x1_0000_0000
    case WDouble => v.Number? && 0 <= v.n < 0x1_0000_0000_0000_0000
    case WVarInt => v.Number? && IsSigned(v.n, 32)
    case WVarUInt => v.Number? && 0 <= v.n < 0x1_0000_0000
    case WVarShort => v.Number? && IsSigned(v.n, 16)
    case WVarUShort => v.Number? && 0 <= v.n < 0x1_0000
    case WVarLong => v.Number? && IsSigned(v.n, 64)
    case WVarULong => v.Number? && 0 <= v.n < 0x1_0000_0000_0000_0000
  }

  lemma SmallBack(n: nat, width: nat, rest: Bytes)
    requires n < Range(width)
    ensures ReadNat(BigEndian(n, width) + rest, width) == Ok(Parsed(n, rest))
  {
    hide BigEndian, ReadUnsigned, Range;
    ReadUnsignedBack(n, width, rest);
  }

  /** Every value in range survives its wire format. */
  lemma WireBack(wire: Wire, v: Value, rest: Bytes)
    requires InRange(wire, v)
    ensures Put(wire, v).Ok? && Put(wire, v).value != []
    ensures Take(wire, Put(wire, v).value + rest) == Ok(Parsed(v, rest))
  {
    if wire.WVarInt? || wire.WVarUInt? || wire.WVarShort? || wire.WVarUShort? || wire.WVarLong? || wire.WVarULong? {
      VarWireBack(wire, v, rest);
    } else {
      FixedWireBack(wire, v, rest);
    }
  }

  lemma FixedWireBack(wire: Wire, v: Value, rest: Bytes)
    requires InRange(wire, v)
    requires wire.WBoolean? || wire.WByte? || wire.WShort? || wire.WUShort? || wire.WInt? || wire.WUInt? ||
             wire.WFloat? || wire.WDouble? || wire.WUtf?
    ensures Put(wire, v).Ok? && Put(wire, v).value != []
    ensures Take(wire, Put(wire, v).value + rest) == Ok(Parsed(v, rest))
  {
    hide BigEndian, ReadUnsigned, ReadSigned, ReadNat, Leb128, Utf, ReadUtf, Range, IsSigned;
    RangeValues();
    match wire
    case WBoolean => OneByteBack(if v.b then 1 else 0, rest);
    case WByte =>
      OneByteBack(v.n, rest);
      NatOfUnsigned([v.n] + rest, 1);
    case WShort => ReadSignedBack(v.n, 2, rest);
    case WUShort => SmallBack(v.n, 2, rest);
    case WInt => ReadSignedBack(v.n, 4, rest);
    case WUInt => SmallBack(v.n, 4, rest);
    case WFloat => SmallBack(v.n, 4, rest);
    case WDouble => SmallBack(v.n, 8, rest);
    case WUtf =>
      ReadUtfBack(v.s, rest);
      UtfNotEmpty(v.s);
  }

  lemma RangeValues()
    ensures Range(2) == 0x1_0000 && Range(4) == 0x1_0000_0000 && Range(8) == 0x1_0000_0000_0000_0000
  {
    Pow2Values();
  }

  lemma UtfNotEmpty(s: Bytes)
    ensures Utf(s) != []
  {
  }

  lemma NatOfUnsigned(s: Bytes, width: nat)
    ensures ReadNat(s, width) == match ReadUnsigned(s, width)
                                 case Err => Err
                                 case Ok(p) => Ok(Parsed(p.value, p.rest))
  {
  }

  lemma VarWireBack(wire: Wire, v: Value, rest: Bytes)
    requires InRange(wire, v)
    requires wire.WVarInt? || wire.WVarUInt? || wire.WVarShort? || wire.WVarUShort? || wire.WVarLong? || wire.WVarULong?
    ensures Put(wire, v).Ok? && Put(wire, v).value != []
    ensures Take(wire, Put(wire, v).value + rest) == Ok(Parsed(v, rest))
  {
    hide Leb128, ReadVarInt, ReadVarUInt, ReadVarShort, ReadVarUShort, ReadVarLong, ReadVarULong, IsSigned;
    match wire
    case WVarInt => VarIntRoundTrip(v.n, rest);
    case WVarUInt => VarUIntRoundTrip(v.n, rest);
    case WVarShort => VarShortRoundTrip(v.n, rest);
    case WVarUShort => VarUShortRoundTrip(v.n, rest);
    case WVarLong => VarLongRoundTrip(v.n, rest);
    case WVarULong => VarULongRoundTrip(v.n, rest);
  }

  /** The number of elements that a length prefix of the given kind can announce. */
  function MaxLength(lengthType: string): nat {
    match LengthWrite(lengthType)
    case WVarInt => 0x8000_0000
    case WByte => 0x100
    case _ => 0x1_0000
  }

  lemma CountBack(lengthType: string, n: nat, rest: Bytes)
    requires n < MaxLength(lengthType)
    ensures Put(LengthWrite(lengthType), Number(n)).Ok? && Put(LengthWrite(lengthType), Number(n)).value != []
    ensures ReadCount(LengthRead(lengthType), Put(LengthWrite(lengthType), Number(n)).value + rest) ==
            Ok(Parsed(n, rest))
  {
    hide BigEndian, Leb128;
    Pow2Values();
    var write, read := LengthWrite(lengthType), LengthRead(lengthType);
    assert write == read || (write == WShort && read == WUShort);
    assert InRange(read, Number(n));
    WireBack(read, Number(n), rest);
    ShortsAgree(n);
  }

  lemma ShortsAgree(n: nat)
    ensures Put(WShort, Number(n)) == Put(WUShort, Number(n))
  {
  }

  // ---- Supported schemas and conforming values ----

  predicate SupportedElem(inner: FieldType) {
    match inner
    case TypeManager(name) => name != ""
    case Long => false
    case ULong => false
    case ByteArray => false
    case Vector(_, _) => false
    case _ => true
  }

  predicate Supported(ft: FieldType) {
    match ft
    case TypeManager(name) => name != ""
    case Vector(inner, _) => SupportedElem(inner)
    case _ => true
  }

  ghost predicate FieldsSupported(fields: seq<Field>) {
    forall i :: 0 <= i < |fields| && !IsPacked(fields[i]) ==> Supported(fields[i].fieldType)
  }

  /** Values of a silent class take no bytes: all its fields are themselves structs of silent classes. */
  ghost predicate SilentClass(p: Protocol, m: string)
    requires m in p.classes && m in p.rank
    decreases p.rank[m], 1
  {
    forall i :: 0 <= i < |p.classes[m]| ==>
      !IsPacked(p.classes[m][i]) && SilentType(p, p.classes[m][i].fieldType, p.rank[m])
  }

  ghost predicate SilentType(p: Protocol, ft: FieldType, rank: nat)
    decreases rank, 0
  {
    ft.Type? && ft.name in p.classes && ft.name in p.rank && p.rank[ft.name] < rank && SilentClass(p, ft.name)
  }

  /** Every run of packed booleans fits a flag byte. */
  ghost predicate RunsFit(fields: seq<Field>) {
    forall i :: StartsRun(fields, i) ==> RunEnd(fields, i) - i <= 8
  }

  /** Field i writes nothing: it stands in front of packed booleans without harm. */
  ghost predicate SilentField(p: Protocol, name: string, i: nat)
    requires name in p.classes && name in p.rank && i < |p.classes[name]|
  {
    !IsPacked(p.classes[name][i]) && SilentType(p, p.classes[name][i].fieldType, p.rank[name])
  }

  /** Every run fits its byte, and only silent fields stand in front of packed ones. */
  ghost predicate GoodLayout(p: Protocol, name: string)
    requires name in p.classes && name in p.rank
  {
    && RunsFit(p.classes[name])
    && var fields := p.classes[name];
       forall i, j :: 0 <= i < j < |fields| && !IsPacked(fields[i]) && IsPacked(fields[j]) ==> SilentField(p, name, i)
  }

  /** Ids fit sixteen bits, and name and id determine each other. */
  ghost predicate VariantsOk(variants: seq<(string, nat)>) {
    && (forall i :: 0 <= i < |variants| ==> variants[i].1 < 0x1_0000)
    && (forall i, j :: 0 <= i < j < |variants| ==> variants[i].0 != variants[j].0 && variants[i].1 != variants[j].1)
  }

  ghost predicate AllVariantsOk(p: Protocol) {
    forall base :: base in p.hierarchies ==> VariantsOk(p.hierarchies[base])
  }

  /** The classes that values of a field type may contain are all in the set. */
  ghost predicate TypeInside(p: Protocol, scope: set<string>, ft: FieldType) {
    match ft
    case Type(m) => m in scope
    case TypeManager(base) => VariantsInside(p, scope, base)
    case Vector(inner, _) =>
      && (inner.Type? ==> inner.name in scope)
      && (inner.TypeManager? ==> VariantsInside(p, scope, inner.name))
    case _ => true
  }

  ghost predicate VariantsInside(p: Protocol, scope: set<string>, base: string) {
    base in p.hierarchies ==>
      forall k :: 0 <= k < |p.hierarchies[base]| ==> p.hierarchies[base][k].0 in scope
  }

  /** A set of classes that refer to each other only. */
  ghost predicate Closed(p: Protocol, scope: set<string>) {
    && scope <= p.classes.Keys
    && forall m, i :: m in scope && 0 <= i < |p.classes[m]| ==> TypeInside(p, scope, p.classes[m][i].fieldType)
  }

  ghost predicate AllFieldsSupported(p: Protocol, scope: set<string>) {
    forall m :: m in scope && m in p.classes ==> FieldsSupported(p.classes[m])
  }

  /** The given classes are closed under reference, their field types supported, the variants told apart by ids. */
  ghost predicate SchemaOk(p: Protocol, scope: set<string>) {
    Resolved(p) && AllVariantsOk(p) && Closed(p, scope) && AllFieldsSupported(p, scope)
  }

  ghost predicate AllGood(p: Protocol, scope: set<string>)
    requires Resolved(p) && Closed(p, scope)
  {
    forall m :: m in scope ==> GoodLayout(p, m)
  }

  ghost predicate ProtocolOk(p: Protocol, scope: set<string>) {
    SchemaOk(p, scope) && AllGood(p, scope)
  }

  ghost predicate Conforms(p: Protocol, ft: FieldType, v: Value)
    decreases v, 1
  {
    match ft
    case ByteArray => v.Blob? && |v.s| < 0x8000_0000
    case Type(m) => StructConforms(p, m, v)
    case TypeManager(base) => VariantConforms(p, base, v)
    case Vector(inner, lengthType) =>
      && v.List? && |v.items| < MaxLength(lengthType)
      && forall i :: 0 <= i < |v.items| ==> ItemConforms(p, inner, v.items[i])
    case Long => InRange(WVarLong, v)
    case ULong => InRange(WVarULong, v)
    case _ => InRange(PrimitiveWrite(ft), v)
  }

  ghost predicate ItemConforms(p: Protocol, inner: FieldType, v: Value)
    decreases v, 1
  {
    match inner
    case Type(m) => StructConforms(p, m, v)
    case TypeManager(base) => VariantConforms(p, base, v)
    case _ => InRange(PrimitiveWrite(inner), v)
  }

  ghost predicate VariantConforms(p: Protocol, base: string, v: Value)
    decreases v, 0
  {
    && v.Variant? && base in p.hierarchies && VariantId(p.hierarchies[base], v.name).Some?
    && StructConforms(p, v.name, v.body)
  }

  ghost predicate StructConforms(p: Protocol, name: string, v: Value)
    decreases v, 0
  {
    && name in p.classes && v.Struct? && |v.fields| == |p.classes[name]|
    && forall i :: 0 <= i < |v.fields| ==> FieldConforms(p, p.classes[name][i], v.fields[i])
  }

  ghost predicate FieldConforms(p: Protocol, f: Field, v: Value)
    decreases v, 2
  {
    if IsPacked(f) then v.Flag? else Conforms(p, f.fieldType, v)
  }

  /** Serializing v succeeds, and deserializing gives v back and stops exactly behind it. */
  ghost predicate RoundTrips(p: Protocol, name: string, v: Value, rest: Bytes)
    requires Resolved(p) && name in p.classes
  {
    Serialize(p, name, v).Ok? && Deserialize(p, name, Serialize(p, name, v).value + rest) == Ok(Parsed(v, rest))
  }

  // ---- Variants ----

  lemma {:induction false} VariantBack(variants: seq<(string, nat)>, name: string)
    requires VariantsOk(variants) && VariantId(variants, name).Some?
    ensures VariantId(variants, name).value < 0x1_0000
    ensures VariantOf(variants, VariantId(variants, name).value) == Some(name)
    ensures exists i :: 0 <= i < |variants| && variants[i] == (name, VariantId(variants, name).value)
  {
    if variants[0].0 != name {
      VariantBack(variants[1..], name);
      var i :| 0 <= i < |variants[1..]| && variants[1..][i] == (name, VariantId(variants[1..], name).value);
      assert variants[i + 1] == variants[1..][i];
    } else {
      assert variants[0] == (name, variants[0].1);
    }
  }

  // ---- Flags ----

  /** Packing a run of at most eight flags stores its flag k in bit k. */
  lemma {:induction false} PackBits(v: Value, from: nat, n: nat, bit: nat, flag: bv8)
    requires v.Struct? && bit <= n <= 8 && from + n <= |v.fields|
    requires forall k :: from <= k < from + n ==> v.fields[k].Flag?
    ensures PackFrom(v, Indices(from, from + n), bit, flag).Ok?
    ensures forall o: Offset :: o < n ==>
              Bit(PackFrom(v, Indices(from, from + n), bit, flag).value, o) ==
              if o < bit then Bit(flag, o) else v.fields[from + o].b
    decreases n - bit
  {
    hide Bit, SetFlag;
    if bit < n {
      var b := v.fields[from + bit].b;
      SetThenGet(flag, bit, bit, b);
      var next := SetFlag(flag, bit, b).value;
      PackBits(v, from, n, bit + 1, next);
      var packed := PackFrom(v, Indices(from, from + n), bit + 1, next);
      assert Indices(from, from + n)[bit] == from + bit;
      assert PackFrom(v, Indices(from, from + n), bit, flag) == packed;
      forall o: Offset | o < n ensures Bit(packed.value, o) == if o < bit then Bit(flag, o) else v.fields[from + o].b {
        SetThenGet(flag, bit, o, b);
      }
    }
  }

  lemma FlagByteBack(flag: bv8)
    ensures (flag as int) as bv8 == flag
  {
  }

  // ---- The bytes of a struct: first those of its flags, then the others ----

  /** The flag bytes of the runs from field i on. */
  ghost function FlagBytes(fields: seq<Field>, v: Value, i: nat): seq<bv8>
    requires v.Struct? && |v.fields| == |fields| && i <= |fields|
    decreases |fields| - i
  {
    if i == |fields| then []
    else if IsPacked(fields[i]) then
      match PackFrom(v, Indices(i, RunEnd(fields, i)), 0, 0)
      case Ok(flag) => [flag] + FlagBytes(fields, v, RunEnd(fields, i))
      case Err => []
    else FlagBytes(fields, v, i + 1)
  }

  ghost function AsBytes(flags: seq<bv8>): Bytes {
    if flags == [] then [] else [flags[0] as int] + AsBytes(flags[1..])
  }

  /** The bytes of the unpacked fields from field i on. */
  ghost function BodyBytes(p: Protocol, fields: seq<Field>, v: Value, i: nat): Bytes
    requires v.Struct? && |v.fields| == |fields| && i <= |fields|
    decreases |fields| - i
  {
    if i == |fields| then []
    else if IsPacked(fields[i]) then BodyBytes(p, fields, v, i + 1)
    else
      match RunStmt(p, fields, WriteStmtOf(fields[i].fieldType, i), v)
      case Ok(b) => b + BodyBytes(p, fields, v, i + 1)
      case Err => []
  }

  lemma {:induction false} BodyBehindRun(p: Protocol, fields: seq<Field>, v: Value, i: nat, end: nat)
    requires v.Struct? && |v.fields| == |fields| && i <= end <= |fields|
    requires forall k :: i <= k < end ==> IsPacked(fields[k])
    ensures BodyBytes(p, fields, v, i) == BodyBytes(p, fields, v, end)
    decreases end - i
  {
    hide IsPacked, RunStmt, WriteStmtOf;
    if i < end {
      BodyBehindRun(p, fields, v, i + 1, end);
    }
  }

  lemma {:induction false} FlagBytesOfRun(fields: seq<Field>, v: Value, i: nat)
    requires v.Struct? && |v.fields| == |fields| && i <= |fields|
    requires FlagBytes(fields, v, i) != []
    ensures exists j :: i <= j < |fields| && IsPacked(fields[j])
    decreases |fields| - i
  {
    hide IsPacked, PackFrom;
    if i < |fields| && !IsPacked(fields[i]) {
      FlagBytesOfRun(fields, v, i + 1);
    }
  }

  lemma {:induction false} ReadFlagsBack(flags: seq<bv8>, s: Bytes)
    ensures ReadFlags(|flags|, AsBytes(flags) + s) == Ok(Parsed(flags, s))
  {
    if flags == [] {
      assert [] + s == s;
    } else {
      ReadFlagsBack(flags[1..], s);
      FlagByteBack(flags[0]);
      assert AsBytes(flags) + s == [flags[0] as int] + (AsBytes(flags[1..]) + s);
      assert [flags[0]] + flags[1..] == flags;
    }
  }

  /** A run that fits is packed into one byte holding its bits. */
  lemma RunPacked(p: Protocol, name: string, v: Value, i: nat)
    requires StructConforms(p, name, v) && RunsFit(p.classes[name]) && StartsRun(p.classes[name], i)
    ensures var end := RunEnd(p.classes[name], i);
            var packed := PackFrom(v, Indices(i, end), 0, 0);
            && i < end <= i + 8 && packed.Ok?
            && (forall k :: i <= k < end ==> v.fields[k].Flag?)
            && forall o: Offset :: o < end - i ==> Bit(packed.value, o) == v.fields[i + o].b
  {
    hide IsPacked, PackFrom, Bit;
    var fields := p.classes[name];
    var end := RunEnd(fields, i);
    forall k | i <= k < end ensures v.fields[k].Flag? {
      PackedIsFlag(p, fields[k], v.fields[k]);
    }
    RunStartsHere(fields, i);
    PackBits(v, i, end - i, 0, 0);
    assert i + (end - i) == end;
  }

  lemma RunStartsHere(fields: seq<Field>, i: nat)
    requires i < |fields| && IsPacked(fields[i])
    ensures i < RunEnd(fields, i)
  {
  }

  lemma PackedIsFlag(p: Protocol, f: Field, v: Value)
    requires FieldConforms(p, f, v) && IsPacked(f)
    ensures v.Flag?
  {
  }

  /** The entry of a packed field from a run boundary on, and the bit it will read. */
  lemma {:induction false} FlagEntryAt(p: Protocol, name: string, v: Value, from: nat, flag: nat, k: nat)
    requires StructConforms(p, name, v) && RunsFit(p.classes[name])
    requires v.Struct? && from <= k < |v.fields| == |p.classes[name]| && IsPacked(p.classes[name][k])
    requires AtBoundary(p.classes[name], from)
    ensures |ReadEntries(p.classes[name], from, flag)| == |v.fields| - from
    ensures var e := ReadEntries(p.classes[name], from, flag)[k - from];
            && e.init.InitFlag? && e.init.bit < 8 && v.fields[k].Flag?
            && flag <= e.init.flag < flag + |FlagBytes(p.classes[name], v, from)|
            && Bit(FlagBytes(p.classes[name], v, from)[e.init.flag - flag], e.init.bit) == v.fields[k].b
    decreases |v.fields| - from
  {
    hide IsPacked, PackFrom, Bit, ReadInitOf, FieldConforms;
    var fields := p.classes[name];
    EntriesInOrder(fields, from, flag);
    if IsPacked(fields[from]) {
      RunPacked(p, name, v, from);
      var end := RunEnd(fields, from);
      if k >= end {
        FlagEntryAt(p, name, v, end, flag + 1, k);
      }
    } else {
      FlagEntryAt(p, name, v, from + 1, flag, k);
    }
  }

  /** The entry of an unpacked field. */
  lemma {:induction false} PlainEntryAt(fields: seq<Field>, from: nat, flag: nat, k: nat)
    requires from <= k < |fields| && !IsPacked(fields[k])
    ensures |ReadEntries(fields, from, flag)| == |fields| - from
    ensures ReadEntries(fields, from, flag)[k - from] == Entry(k, ReadInitOf(fields[k].fieldType))
    decreases |fields| - from
  {
    hide ReadInitOf, IsPacked;
    EntriesInOrder(fields, from, flag);
    if IsPacked(fields[from]) {
      RunStartsHere(fields, from);
      PlainEntryAt(fields, RunEnd(fields, from), flag + 1, k);
    } else if from < k {
      PlainEntryAt(fields, from + 1, flag, k);
    }
  }

  /** As many flag bytes are written as are read. */
  lemma {:induction false} FlagsCounted(p: Protocol, name: string, v: Value, i: nat)
    requires StructConforms(p, name, v) && RunsFit(p.classes[name]) && AtBoundary(p.classes[name], i)
    ensures |FlagBytes(p.classes[name], v, i)| == RunCount(p.classes[name], i)
    decreases |v.fields| - i
  {
    hide IsPacked, PackFrom, Bit, FieldConforms;
    var fields := p.classes[name];
    if i < |fields| {
      if IsPacked(fields[i]) {
        RunPacked(p, name, v, i);
        FlagsCounted(p, name, v, RunEnd(fields, i));
      } else {
        FlagsCounted(p, name, v, i + 1);
      }
    }
  }

  // ---- Silent fields write nothing ----

  lemma {:induction false} SilentWritesNothing(p: Protocol, m: string, v: Value)
    requires m in p.classes && m in p.rank && SilentClass(p, m) && Serialize(p, m, v).Ok?
    ensures Serialize(p, m, v).value == []
    decreases p.rank[m], 1, 0
  {
    hide SilentClass, IsPacked, RunWrite;
    SilentProgram(p, m, v, 0);
  }

  lemma {:induction false} SilentProgram(p: Protocol, m: string, v: Value, i: nat)
    requires m in p.classes && m in p.rank && SilentClass(p, m)
    requires v.Struct? && |v.fields| == |p.classes[m]| && i <= |v.fields|
    requires RunWrite(p, p.classes[m], WriteProgram(p.classes[m], i), v).Ok?
    ensures RunWrite(p, p.classes[m], WriteProgram(p.classes[m], i), v).value == []
    decreases p.rank[m], 0, |p.classes[m]| - i
  {
    hide IsPacked, RunStmt, WriteStmtOf, SilentType;
    var fields := p.classes[m];
    if i < |fields| {
      assert SilentType(p, fields[i].fieldType, p.rank[m]);
      assert WriteProgram(fields, i)[1..] == WriteProgram(fields, i + 1);
      SilentStmt(p, fields, i, v, p.rank[m]);
      SilentProgram(p, m, v, i + 1);
    }
  }

  lemma {:induction false} SilentStmt(p: Protocol, fields: seq<Field>, i: nat, v: Value, rank: nat)
    requires v.Struct? && |v.fields| == |fields| && i < |fields| && SilentType(p, fields[i].fieldType, rank)
    requires RunStmt(p, fields, WriteStmtOf(fields[i].fieldType, i), v).Ok?
    ensures RunStmt(p, fields, WriteStmtOf(fields[i].fieldType, i), v).value == []
    decreases rank, 0, 0
  {
    hide SilentClass, Serialize;
    SilentWritesNothing(p, fields[i].fieldType.name, v.fields[i]);
  }

  // ---- The round trip ----

  /** A field that is not packed is read back by its entry. */
  lemma {:induction false} FieldBack(p: Protocol, scope: set<string>, name: string, v: Value, i: nat, flags: seq<bv8>,
                                     rest: Bytes)
    requires ProtocolOk(p, scope) && name in scope && StructConforms(p, name, v) && i < |v.fields|
    requires !IsPacked(p.classes[name][i])
    ensures InitFollows(p, p.rank[name], ReadInitOf(p.classes[name][i].fieldType))
    ensures var ft := p.classes[name][i].fieldType;
            var enc := RunStmt(p, p.classes[name], WriteStmtOf(ft, i), v);
            enc.Ok? && RunInit(p, name, ReadInitOf(ft), flags, enc.value + rest) == Ok(Parsed(v.fields[i], rest))
    decreases v, 2, 0
  {
    hide Serialize, Deserialize, Take, Put, InRange, ReadItems, WriteItems, SerializeVariant, DeserializeVariant,
      ReadCount, MaxLength, IsPacked, ProtocolOk, LengthRead, LengthWrite, ItemConforms, FieldConforms;
    var x := v.fields[i];
    FieldFacts(p, scope, name, v, i);
    match p.classes[name][i].fieldType
    case Type(m) => StructBack(p, scope, m, x, rest);
    case TypeManager(base) => VariantRoundTrip(p, scope, base, x, rest);
    case Vector(inner, lengthType) =>
      ItemsBack(p, scope, inner, x, 0, rest);
      var items := WriteItems(p, inner, WriteElemOf(inner), x, 0).value;
      CountBack(lengthType, |x.items|, items + rest);
      var count := Put(LengthWrite(lengthType), Number(|x.items|)).value;
      assert count + items + rest == count + (items + rest);
    case ByteArray => ByteArrayBack(x.s, rest);
    case Long => WireBack(WVarLong, x, rest);
    case ULong => WireBack(WVarULong, x, rest);
    case _ => WireBack(PrimitiveWrite(p.classes[name][i].fieldType), x, rest);
  }

  /** What the assumptions say about one unpacked field. */
  lemma FieldFacts(p: Protocol, scope: set<string>, name: string, v: Value, i: nat)
    requires ProtocolOk(p, scope) && name in scope && StructConforms(p, name, v) && i < |v.fields|
    requires !IsPacked(p.classes[name][i])
    ensures Resolved(p) && name in p.classes && name in p.rank && v.Struct? && |v.fields| == |p.classes[name]|
    ensures Conforms(p, p.classes[name][i].fieldType, v.fields[i])
    ensures Supported(p.classes[name][i].fieldType)
    ensures TypeResolved(p, p.classes[name][i].fieldType, p.rank[name])
    ensures TypeInside(p, scope, p.classes[name][i].fieldType)
  {
    hide Conforms, IsPacked, Supported, TypeResolved, TypeInside, GoodLayout;
    assert FieldConforms(p, p.classes[name][i], v.fields[i]);
    assert FieldsSupported(p.classes[name]);
    assert ClassResolved(p, name);
  }

  lemma ByteArrayBack(b: Bytes, rest: Bytes)
    requires |b| < 0x8000_0000
    ensures ReadCount(WVarInt, Leb128(|b| % 0x1_0000_0000) + b + rest) == Ok(Parsed(|b|, b + rest))
    ensures ReadBytes(b + rest, |b|) == Ok(Parsed(b, rest))
  {
    hide Leb128, ReadVarInt, Pow2, FromBigEndian;
    Pow2Values();
    VarIntRoundTrip(|b|, b + rest);
    assert Leb128(|b| % 0x1_0000_0000) + b + rest == Leb128(|b| % 0x1_0000_0000) + (b + rest);
    ReadBytesBack(b, rest);
  }

  lemma {:induction false} VariantRoundTrip(p: Protocol, scope: set<string>, base: string, v: Value, rest: Bytes)
    requires ProtocolOk(p, scope) && VariantsInside(p, scope, base) && VariantConforms(p, base, v)
    ensures SerializeVariant(p, base, v).Ok?
    ensures DeserializeVariant(p, base, SerializeVariant(p, base, v).value + rest) == Ok(Parsed(v, rest))
    decreases v, 5, 0
  {
    hide Serialize, Deserialize, StructConforms, AllFieldsSupported, AllGood, Closed, BigEndian, ReadUnsigned;
    assert VariantsOk(p.hierarchies[base]);
    VariantBack(p.hierarchies[base], v.name);
    StructBack(p, scope, v.name, v.body, rest);
    var id := VariantId(p.hierarchies[base], v.name).value;
    var body := Serialize(p, v.name, v.body).value;
    RangeValues();
    ReadUnsignedBack(id, 2, body + rest);
    assert BigEndian(id, 2) + body + rest == BigEndian(id, 2) + (body + rest);
  }

  lemma {:induction false} ItemBack(p: Protocol, scope: set<string>, inner: FieldType, item: Value, rest: Bytes)
    requires ProtocolOk(p, scope) && SupportedElem(inner) && ItemConforms(p, inner, item)
    requires inner.Type? ==> inner.name in p.classes && inner.name in scope
    requires inner.TypeManager? ==> inner.name in p.hierarchies && VariantsInside(p, scope, inner.name)
    ensures var enc := WriteItem(p, inner, WriteElemOf(inner), item);
            enc.Ok? && ReadItem(p, ReadElemOf(inner), enc.value + rest) == Ok(Parsed(item, rest))
    decreases item, 6, 0
  {
    hide Serialize, Deserialize, SerializeVariant, DeserializeVariant, Put, Take, InRange, StructConforms,
      AllFieldsSupported, AllGood, Closed, AllVariantsOk, VariantsInside;
    match inner
    case Type(m) => StructBack(p, scope, m, item, rest);
    case TypeManager(base) => VariantRoundTrip(p, scope, base, item, rest);
    case _ => WireItemBack(p, inner, item, rest);
  }

  lemma WireItemBack(p: Protocol, inner: FieldType, item: Value, rest: Bytes)
    requires Resolved(p) && SupportedElem(inner) && !inner.Type? && !inner.TypeManager?
    requires InRange(PrimitiveWrite(inner), item)
    ensures var enc := WriteItem(p, inner, WriteElemOf(inner), item);
            enc.Ok? && ReadItem(p, ReadElemOf(inner), enc.value + rest) == Ok(Parsed(item, rest))
  {
    hide Put, Take, InRange, Resolved;
    WireBack(PrimitiveWrite(inner), item, rest);
  }

  lemma {:induction false} ItemsBack(p: Protocol, scope: set<string>, inner: FieldType, v: Value, i: nat, rest: Bytes)
    requires ProtocolOk(p, scope) && SupportedElem(inner) && v.List? && i <= |v.items|
    requires forall k :: 0 <= k < |v.items| ==> ItemConforms(p, inner, v.items[k])
    requires inner.Type? ==> inner.name in p.classes && inner.name in scope
    requires inner.TypeManager? ==> inner.name in p.hierarchies && VariantsInside(p, scope, inner.name)
    ensures var enc := WriteItems(p, inner, WriteElemOf(inner), v, i);
            && enc.Ok?
            && ReadItems(p, ReadElemOf(inner), |v.items| - i, enc.value + rest) == Ok(Parsed(v.items[i..], rest))
    decreases v, 3, |v.items| - i
  {
    hide WriteItem, ReadItem, WriteElemOf, ReadElemOf, ItemConforms, AllFieldsSupported, AllGood, Closed, AllVariantsOk,
      VariantsInside;
    ReadElemNames(inner);
    if i == |v.items| {
      assert [] + rest == rest;
      assert v.items[i..] == [];
    } else {
      ItemsBack(p, scope, inner, v, i + 1, rest);
      var others := WriteItems(p, inner, WriteElemOf(inner), v, i + 1).value;
      ItemBack(p, scope, inner, v.items[i], others + rest);
      var first := WriteItem(p, inner, WriteElemOf(inner), v.items[i]).value;
      assert first + others + rest == first + (others + rest);
      assert [v.items[i]] + v.items[i + 1..] == v.items[i..];
    }
  }

  lemma ReadElemNames(inner: FieldType)
    ensures ReadElemOf(inner).ReadNestedElem? ==> inner.Type? && ReadElemOf(inner).name == inner.name
    ensures ReadElemOf(inner).ReadVariantElem? ==> inner.TypeManager? && ReadElemOf(inner).name == inner.name
  {
  }

  /** A well laid out struct is written as its flag bytes followed by the bytes of its unpacked fields. */
  lemma {:induction false} FlagsThenBody(p: Protocol, scope: set<string>, name: string, v: Value, i: nat)
    requires ProtocolOk(p, scope) && name in scope && StructConforms(p, name, v) && AtBoundary(p.classes[name], i)
    ensures FlagsFirst(p, p.classes[name], v, i)
    decreases v, 3, |v.fields| - i
  {
    hide RunWrite, WriteProgram, FlagBytes, BodyBytes, IsPacked, FieldConforms, ProtocolOk, GoodLayout, RunStmt,
      WriteStmtOf;
    var fields := p.classes[name];
    LayoutOf(p, scope, name);
    if i == |fields| {
      NothingBehind(p, fields, v);
    } else if IsPacked(fields[i]) {
      RunFits(p, name, i);
      RunPacked(p, name, v, i);
      FlagsThenBody(p, scope, name, v, RunEnd(fields, i));
      RunInFront(p, fields, v, i);
    } else {
      FlagsThenBody(p, scope, name, v, i + 1);
      FieldBack(p, scope, name, v, i, [], []);
      FieldInFront(p, name, v, i);
    }
  }

  lemma RunFits(p: Protocol, name: string, i: nat)
    requires name in p.classes && name in p.rank && GoodLayout(p, name)
    requires AtBoundary(p.classes[name], i) && i < |p.classes[name]| && IsPacked(p.classes[name][i])
    ensures RunsFit(p.classes[name]) && StartsRun(p.classes[name], i)
    ensures AtBoundary(p.classes[name], RunEnd(p.classes[name], i))
  {
    hide IsPacked, SilentField;
    RunStartsHere(p.classes[name], i);
  }

  /** What is written from field i on are the flag bytes, then the body. */
  ghost predicate FlagsFirst(p: Protocol, fields: seq<Field>, v: Value, i: nat) {
    && v.Struct? && |v.fields| == |fields| && i <= |fields|
    && RunWrite(p, fields, WriteProgram(fields, i), v) ==
       Ok(AsBytes(FlagBytes(fields, v, i)) + BodyBytes(p, fields, v, i))
  }

  lemma NothingBehind(p: Protocol, fields: seq<Field>, v: Value)
    requires v.Struct? && |v.fields| == |fields|
    ensures FlagsFirst(p, fields, v, |fields|)
  {
    assert [] + [] == AsBytes([]);
  }

  lemma RunInFront(p: Protocol, fields: seq<Field>, v: Value, i: nat)
    requires v.Struct? && |v.fields| == |fields| && i < |fields| && IsPacked(fields[i])
    requires PackFrom(v, Indices(i, RunEnd(fields, i)), 0, 0).Ok? && FlagsFirst(p, fields, v, RunEnd(fields, i))
    ensures FlagsFirst(p, fields, v, i)
  {
    hide RunStmt, WriteStmtOf, IsPacked, PackFrom, FlagBytes, BodyBytes, AsBytes;
    var end := RunEnd(fields, i);
    BodyBehindRun(p, fields, v, i, end);
    var flag := PackFrom(v, Indices(i, end), 0, 0).value;
    FlagFirst(p, fields, v, i, flag);
    assert WriteProgram(fields, i)[1..] == WriteProgram(fields, end);
    var flags, body := AsBytes(FlagBytes(fields, v, end)), BodyBytes(p, fields, v, end);
    assert [flag as int] + (flags + body) == [flag as int] + flags + body;
  }

  lemma FieldInFront(p: Protocol, name: string, v: Value, i: nat)
    requires name in p.classes && name in p.rank && GoodLayout(p, name)
    requires v.Struct? && i < |v.fields| == |p.classes[name]| && !IsPacked(p.classes[name][i])
    requires RunStmt(p, p.classes[name], WriteStmtOf(p.classes[name][i].fieldType, i), v).Ok?
    requires FlagsFirst(p, p.classes[name], v, i + 1)
    ensures FlagsFirst(p, p.classes[name], v, i)
  {
    hide RunStmt, WriteStmtOf, IsPacked, GoodLayout, AsBytes;
    var fields := p.classes[name];
    assert WriteProgram(fields, i)[1..] == WriteProgram(fields, i + 1);
    FieldBehindFlags(p, name, v, i);
    var first := RunStmt(p, fields, WriteStmtOf(fields[i].fieldType, i), v).value;
    assert BodyBytes(p, fields, v, i) == first + BodyBytes(p, fields, v, i + 1);
  }

  lemma LayoutOf(p: Protocol, scope: set<string>, name: string)
    requires ProtocolOk(p, scope) && name in scope
    ensures Resolved(p) && name in p.classes && name in p.rank && GoodLayout(p, name)
  {
    hide GoodLayout, ClassResolved;
  }

  lemma FlagFirst(p: Protocol, fields: seq<Field>, v: Value, i: nat, flag: bv8)
    requires v.Struct? && |v.fields| == |fields| && i < |fields| && IsPacked(fields[i])
    requires PackFrom(v, Indices(i, RunEnd(fields, i)), 0, 0) == Ok(flag)
    ensures RunStmt(p, fields, PackFlags(Indices(i, RunEnd(fields, i))), v) == Ok([flag as int])
    ensures AsBytes(FlagBytes(fields, v, i)) == [flag as int] + AsBytes(FlagBytes(fields, v, RunEnd(fields, i)))
  {
    hide IsPacked, PackFrom;
    var later := FlagBytes(fields, v, RunEnd(fields, i));
    assert ([flag] + later)[1..] == later;
  }

  /** An unpacked field writes nothing, or no flags come behind it. */
  lemma FieldBehindFlags(p: Protocol, name: string, v: Value, i: nat)
    requires name in p.classes && name in p.rank && GoodLayout(p, name)
    requires v.Struct? && |v.fields| == |p.classes[name]| && i < |v.fields| && !IsPacked(p.classes[name][i])
    requires RunStmt(p, p.classes[name], WriteStmtOf(p.classes[name][i].fieldType, i), v).Ok?
    ensures var first := RunStmt(p, p.classes[name], WriteStmtOf(p.classes[name][i].fieldType, i), v).value;
            var flags := AsBytes(FlagBytes(p.classes[name], v, i + 1));
            var body := BodyBytes(p, p.classes[name], v, i + 1);
            first + (flags + body) == flags + (first + body)
  {
    hide RunStmt, WriteStmtOf, IsPacked, SilentType, RunsFit, BodyBytes;
    var fields := p.classes[name];
    var first := RunStmt(p, fields, WriteStmtOf(fields[i].fieldType, i), v).value;
    var body := BodyBytes(p, fields, v, i + 1);
    if FlagBytes(fields, v, i + 1) != [] {
      FlagBytesOfRun(fields, v, i + 1);
      var j :| i + 1 <= j < |fields| && IsPacked(fields[j]);
      assert SilentField(p, name, i);
      SilentStmt(p, fields, i, v, p.rank[name]);
      assert [] + body == body;
    } else {
      assert [] + (first + body) == first + body && [] + body == body;
    }
  }

  /** The entries of the literal give the fields back, packed ones from the flags, the others from the body. */
  lemma {:induction false} EntriesBack(p: Protocol, scope: set<string>, name: string, v: Value, i: nat, rest: Bytes)
    requires ProtocolOk(p, scope) && name in scope && StructConforms(p, name, v) && i <= |v.fields|
    requires EntriesFollow(p, name, ReadEntries(p.classes[name], 0, 0))
    ensures |ReadEntries(p.classes[name], 0, 0)| == |v.fields|
    ensures ReadEntriesFrom(p, name, ReadEntries(p.classes[name], 0, 0), i, FlagBytes(p.classes[name], v, 0),
                            BodyBytes(p, p.classes[name], v, i) + rest) == Ok(Parsed(v.fields[i..], rest))
    decreases v, 3, |v.fields| - i
  {
    hide RunStmt, RunInit, WriteStmtOf, ReadInitOf, IsPacked, ReadEntries, FlagBytes, FieldConforms, SchemaOk,
      GoodLayout;
    var fields := p.classes[name];
    var flags := FlagBytes(fields, v, 0);
    EntriesInOrder(fields, 0, 0);
    if i == |fields| {
      assert [] + rest == rest && v.fields[i..] == [];
    } else {
      EntriesBack(p, scope, name, v, i + 1, rest);
      assert [v.fields[i]] + v.fields[i + 1..] == v.fields[i..];
      if IsPacked(fields[i]) {
        LayoutOf(p, scope, name);
        PackedBack(p, name, v, i, BodyBytes(p, fields, v, i) + rest);
      } else {
        var others := BodyBytes(p, fields, v, i + 1);
        FieldBack(p, scope, name, v, i, flags, others + rest);
        PlainEntryAt(fields, 0, 0, i);
        var first := RunStmt(p, fields, WriteStmtOf(fields[i].fieldType, i), v).value;
        assert first + others + rest == first + (others + rest);
      }
    }
  }

  lemma PackedBack(p: Protocol, name: string, v: Value, i: nat, s: Bytes)
    requires Resolved(p) && name in p.classes && StructConforms(p, name, v) && GoodLayout(p, name)
    requires v.Struct? && i < |v.fields| == |p.classes[name]| && IsPacked(p.classes[name][i])
    ensures |ReadEntries(p.classes[name], 0, 0)| == |v.fields|
    ensures var init := ReadEntries(p.classes[name], 0, 0)[i].init;
            && InitFollows(p, p.rank[name], init)
            && RunInit(p, name, init, FlagBytes(p.classes[name], v, 0), s) == Ok(Parsed(v.fields[i], s))
  {
    hide Resolved, IsPacked, ReadEntries, FlagBytes, Bit, StructConforms, RunsFit;
    FlagEntryAt(p, name, v, 0, 0, i);
    var init := ReadEntries(p.classes[name], 0, 0)[i].init;
    BitIsGet(FlagBytes(p.classes[name], v, 0)[init.flag], init.bit);
  }

  lemma BitIsGet(flag: bv8, o: Offset)
    ensures GetFlag(flag, o) == Ok(Bit(flag, o))
  {
  }

  /** Main result: on supported and well laid out classes deserialize undoes serialize for every value. */
  lemma {:induction false} StructBack(p: Protocol, scope: set<string>, name: string, v: Value, rest: Bytes)
    requires ProtocolOk(p, scope) && name in scope && StructConforms(p, name, v)
    ensures Resolved(p) && name in p.classes && RoundTrips(p, name, v, rest)
    decreases v, 4, 0
  {
    hide RunWrite, ReadEntriesFrom, ReadEntries, FieldConforms, IsPacked, FlagBytes, BodyBytes, RunsFit;
    LayoutOf(p, scope, name);
    var fields := p.classes[name];
    LiteralFollows(p, name, 0, 0);
    FlagsThenBody(p, scope, name, v, 0);
    FlagsCounted(p, name, v, 0);
    var flags, body := FlagBytes(fields, v, 0), BodyBytes(p, fields, v, 0);
    ReadFlagsBack(flags, body + rest);
    EntriesBack(p, scope, name, v, 0, rest);
    assert AsBytes(flags) + body + rest == AsBytes(flags) + (body + rest);
    assert v.fields[0..] == v.fields;
  }

  // ---- The layout most classes have ----

  /** All packed fields form one leading run, and it fits a flag byte. */
  ghost predicate Leading(fields: seq<Field>) {
    && RunEnd(fields, 0) <= 8
    && forall i :: RunEnd(fields, 0) <= i < |fields| ==> !IsPacked(fields[i])
  }

  /** One leading run of at most eight is a good layout, and the only one where every unpacked field writes. */
  lemma LeadingIsGood(p: Protocol, name: string)
    requires name in p.classes && name in p.rank
    ensures Leading(p.classes[name]) ==> GoodLayout(p, name)
    ensures GoodLayout(p, name) && (forall i :: 0 <= i < |p.classes[name]| ==> !SilentField(p, name, i)) ==>
              Leading(p.classes[name])
  {
    hide IsPacked, SilentType;
    var fields := p.classes[name];
    if Leading(fields) {
      forall i | StartsRun(fields, i) ensures RunEnd(fields, i) - i <= 8 {
      }
    }
    if GoodLayout(p, name) && (forall i :: 0 <= i < |fields| ==> !SilentField(p, name, i)) {
      LoudIsLeading(p, name);
    }
  }

  lemma LoudIsLeading(p: Protocol, name: string)
    requires name in p.classes && name in p.rank && GoodLayout(p, name)
    requires forall i :: 0 <= i < |p.classes[name]| ==> !SilentField(p, name, i)
    ensures Leading(p.classes[name])
  {
    hide IsPacked, SilentType;
    var end := RunEnd(p.classes[name], 0);
    assert end > 0 ==> StartsRun(p.classes[name], 0);
  }
}
