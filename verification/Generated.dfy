/** What the emitted programs do when they run: serialize a struct, and read one back. */
module Generated {
  import opened Common
  import opened Binary
  import opened VarInt
  import opened FlagByte
  import opened Schema

  /** Field values; a struct holds one per field, in order. Floats are bit patterns. */
  datatype Value =
    | Flag(b: bool)
    | Number(n: int)
    | Text(s: Bytes)
    | Blob(s: Bytes)
    | Struct(fields: seq<Value>)
    | List(items: seq<Value>)
    | Variant(name: string, body: Value)

  /** All generated classes and polymorphic hierarchies; depth bounds how deep structs nest without a box or vector. */
  datatype Protocol = Protocol(classes: map<string, seq<Field>>, hierarchies: map<string, seq<(string, nat)>>,
                               rank: map<string, nat>, depth: nat)

  // ---- Single values on the wire ----

  function Put(wire: Wire, v: Value): Result<Bytes> {
    match (wire, v)
    case (WBoolean, Flag(b)) => Ok([if b then 1 else 0])
    case (WByte, Number(n)) => Ok([n % 256])
    case (WShort, Number(n)) => Ok(BigEndian(n, 2))
    case (WUShort, Number(n)) => Ok(BigEndian(n, 2))
    case (WInt, Number(n)) => Ok(BigEndian(n, 4))
    case (WUInt, Number(n)) => Ok(BigEndian(n, 4))
    case (WFloat, Number(n)) => Ok(BigEndian(n, 4))
    case (WDouble, Number(n)) => Ok(BigEndian(n, 8))
    case (WUtf, Text(s)) => Ok(Utf(s))
    case (WVarInt, Number(n)) => Ok(Leb128(n % 0x1_0000_0000))
    case (WVarUInt, Number(n)) => Ok(Leb128(n % 0x1_0000_0000))
    case (WVarShort, Number(n)) => Ok(Leb128(n % 0x1_0000))
    case (WVarUShort, Number(n)) => Ok(Leb128(n % 0x1_0000))
    case (WVarLong, Number(n)) => Ok(Leb128(n % 0x1_0000_0000_0000_0000))
    case (WVarULong, Number(n)) => Ok(Leb128(n % 0x1_0000_0000_0000_0000))
    case _ => Err
  }

  function AsNumber(r: Result<Parsed<int>>): Result<Parsed<Value>> {
    var p :- r;
    Ok(Parsed(Number(p.value), p.rest))
  }

  function ReadNat(s: Bytes, width: nat): Result<Parsed<int>> {
    var p :- ReadUnsigned(s, width);
    Ok(Parsed(p.value, p.rest))
  }

  function Take(wire: Wire, s: Bytes): Result<Parsed<Value>> {
    match wire
    case WBoolean =>
      var p :- ReadUnsigned(s, 1);
      Ok(Parsed(Flag(p.value != 0), p.rest))
    case WByte => AsNumber(ReadNat(s, 1))
    case WShort => AsNumber(ReadSigned(s, 2))
    case WUShort => AsNumber(ReadNat(s, 2))
    case WInt => AsNumber(ReadSigned(s, 4))
    case WUInt => AsNumber(ReadNat(s, 4))
    case WFloat => AsNumber(ReadNat(s, 4))
    case WDouble => AsNumber(ReadNat(s, 8))
    case WUtf =>
      var p :- ReadUtf(s);
      Ok(Parsed(Text(p.value), p.rest))
    case WVarInt => AsNumber(ReadVarInt(s))
    case WVarUInt => AsNumber(ReadVarUInt(s))
    case WVarShort => AsNumber(ReadVarShort(s))
    case WVarUShort => AsNumber(ReadVarUShort(s))
    case WVarLong => AsNumber(ReadVarLong(s))
    case WVarULong => AsNumber(ReadVarULong(s))
  }

  lemma {:induction false} GroupsShrink(s: Bytes, value: nat, size: nat, bits: nat, wrap: nat)
    requires wrap > 0 && ReadGroups(s, value, size, bits, wrap).Ok?
    ensures |ReadGroups(s, value, size, bits, wrap).value.rest| < |s|
    decreases |s|
  {
    hide Pow2;
    if s[0] >= 128 {
      GroupsShrink(s[1..], (value + s[0] % 128 * Pow2(size)) % wrap, size + 7, bits, wrap);
    }
  }

  lemma {:induction false} HighShrinks(s: Bytes, low: nat, high: nat, size: nat, last: Byte)
    requires ReadLongHigh(s, low, high, size, last).Ok?
    ensures |ReadLongHigh(s, low, high, size, last).value.rest| <= |s|
    decreases |s|
  {
    hide Pow2, Join;
    if size < 32 && s != [] && s[0] >= 128 {
      HighShrinks(s[1..], low, high + s[0] % 128 * Pow2(size), size + 7, s[0]);
    }
  }

  lemma {:induction false} LowShrinks(s: Bytes, low: nat, size: nat)
    requires ReadLongLow(s, low, size).Ok?
    ensures |ReadLongLow(s, low, size).value.rest| < |s|
    decreases |s|
  {
    hide Pow2, Join, ToSigned, ReadLongHigh;
    if size >= 28 {
      if s[0] >= 128 {
        HighShrinks(s[1..], low + s[0] % 128 * Pow2(28), s[0] % 128 / 16, 3, s[0]);
      }
    } else if s[0] >= 128 {
      LowShrinks(s[1..], low + s[0] % 128 * Pow2(size), size + 7);
    }
  }

  /** Every successful read of a single value takes at least one byte. */
  lemma TakeShrinks(wire: Wire, s: Bytes)
    requires Take(wire, s).Ok?
    ensures |Take(wire, s).value.rest| < |s|
  {
    hide Pow2, ToSigned, ReadGroups, ReadLongLow, FromBigEndian;
    match wire
    case WVarInt => GroupsShrink(s, 0, 0, 32, 0x1_0000_0000);
    case WVarUInt => GroupsShrink(s, 0, 0, 32, 0x1_0000_0000);
    case WVarShort => GroupsShrink(s, 0, 0, 16, 0x1_0000_0000);
    case WVarUShort => GroupsShrink(s, 0, 0, 16, 0x1_0000_0000);
    case WVarLong => LowShrinks(s, 0, 0);
    case WVarULong => LowShrinks(s, 0, 0);
    case _ =>
  }

  // ---- Running a serialize program ----

  /** The bits of a group are set one after another; an offset of eight or more aborts. */
  function PackFrom(v: Value, group: seq<nat>, bit: nat, flag: bv8): Result<bv8>
    requires v.Struct? && bit <= |group|
    decreases |group| - bit
  {
    if bit == |group| then Ok(flag)
    else if group[bit] >= |v.fields| || !v.fields[group[bit]].Flag? then Err
    else
      var next :- SetFlag(flag, bit, v.fields[group[bit]].b);
      PackFrom(v, group, bit + 1, next)
  }

  /** The id that a variant of some hierarchy is written with. */
  function VariantId(variants: seq<(string, nat)>, name: string): Option<nat> {
    if variants == [] then None
    else if variants[0].0 == name then Some(variants[0].1)
    else VariantId(variants[1..], name)
  }

  /** The first variant with a given id, as a match tries them. */
  function VariantOf(variants: seq<(string, nat)>, id: nat): Option<string> {
    if variants == [] then None
    else if variants[0].1 == id then Some(variants[0].0)
    else VariantOf(variants[1..], id)
  }

  /** Runs a class's serialize method on a value of that class. */
  function Serialize(p: Protocol, name: string, v: Value): Result<Bytes>
    decreases v, 4, 0
  {
    if name in p.classes && v.Struct? && |v.fields| == |p.classes[name]| then
      RunWrite(p, p.classes[name], WriteProgram(p.classes[name], 0), v)
    else Err
  }

  /** Types of the fields tell which class or hierarchy the called method belongs to. */
  function RunWrite(p: Protocol, fields: seq<Field>, stmts: seq<WriteStmt>, v: Value): Result<Bytes>
    requires v.Struct? && |v.fields| == |fields|
    decreases v, 3, |stmts|
  {
    if stmts == [] then Ok([])
    else
      var first :- RunStmt(p, fields, stmts[0], v);
      Concat2(first, RunWrite(p, fields, stmts[1..], v))
  }

  function RunStmt(p: Protocol, fields: seq<Field>, stmt: WriteStmt, v: Value): Result<Bytes>
    requires v.Struct? && |v.fields| == |fields|
    decreases v, 2, 0
  {
    match stmt
    case PackFlags(group) =>
      var flag :- PackFrom(v, group, 0, 0);
      Ok([flag as int])
    case WriteWire(wire, i) =>
      if i < |fields| then Put(wire, v.fields[i]) else Err
    case WriteByteArray(i) =>
      if i < |fields| && v.fields[i].Blob? then
        Ok(Leb128(|v.fields[i].s| % 0x1_0000_0000) + v.fields[i].s)
      else Err
    case WriteNested(i) =>
      if i < |fields| && fields[i].fieldType.Type? then Serialize(p, fields[i].fieldType.name, v.fields[i]) else Err
    case WriteVector(length, elem, i) =>
      if i < |fields| && fields[i].fieldType.Vector? && v.fields[i].List? then
        var count :- Put(length, Number(|v.fields[i].items|));
        Concat2(count, WriteItems(p, fields[i].fieldType.inner, elem, v.fields[i], 0))
      else Err
    case WriteVariant(i) =>
      if i < |fields| && fields[i].fieldType.TypeManager? then
        SerializeVariant(p, fields[i].fieldType.name, v.fields[i])
      else Err
    case WriteRaw(i) =>
      if i < |fields| && v.fields[i].Blob? then Ok(v.fields[i].s) else Err
  }

  function WriteItems(p: Protocol, inner: FieldType, elem: WriteElem, v: Value, i: nat): Result<Bytes>
    requires v.List? && i <= |v.items|
    decreases v, 3, |v.items| - i
  {
    if i == |v.items| then Ok([])
    else
      var first :- WriteItem(p, inner, elem, v.items[i]);
      Concat2(first, WriteItems(p, inner, elem, v, i + 1))
  }

  function WriteItem(p: Protocol, inner: FieldType, elem: WriteElem, item: Value): Result<Bytes>
    decreases item, 6, 0
  {
    match elem
    case NoElem => Ok([])
    case VariantElem => if inner.TypeManager? then SerializeVariant(p, inner.name, item) else Err
    case NestedElem => if inner.Type? then Serialize(p, inner.name, item) else Err
    case WireElem(wire) => Put(wire, item)
  }

  /** The type id, then the variant's own serialize method. */
  function SerializeVariant(p: Protocol, base: string, v: Value): Result<Bytes>
    decreases v, 5, 0
  {
    if base in p.hierarchies && v.Variant? then
      match VariantId(p.hierarchies[base], v.name)
      case None => Err
      case Some(id) => Concat2(BigEndian(id, 2), Serialize(p, v.name, v.body))
    else Err
  }

  // ---- Running a deserialize program ----

  /** Names resolve, and a struct nested directly (not boxed, not in a vector) has a smaller rank, as Rust demands. */
  ghost predicate Resolved(p: Protocol) {
    && (forall name :: name in p.classes ==> name in p.rank && p.rank[name] < p.depth)
    && (forall name :: name in p.classes ==> ClassResolved(p, name))
    && (forall base :: base in p.hierarchies ==> VariantsResolved(p, p.hierarchies[base]))
  }

  ghost predicate ClassResolved(p: Protocol, name: string)
    requires name in p.classes && name in p.rank
  {
    forall i :: 0 <= i < |p.classes[name]| ==> TypeResolved(p, p.classes[name][i].fieldType, p.rank[name])
  }

  predicate TypeResolved(p: Protocol, ft: FieldType, rank: nat) {
    match ft
    case Type(m) => m in p.classes && m in p.rank && p.rank[m] < rank
    case TypeManager(m) => m == "" || m in p.hierarchies
    case Vector(inner, _) =>
      && (inner.Type? ==> inner.name in p.classes)
      && (inner.TypeManager? ==> inner.name == "" || inner.name in p.hierarchies)
    case _ => true
  }

  ghost predicate VariantsResolved(p: Protocol, variants: seq<(string, nat)>) {
    forall i :: 0 <= i < |variants| ==> variants[i].0 in p.classes
  }

  lemma {:induction false} VariantOfResolved(p: Protocol, variants: seq<(string, nat)>, id: nat)
    requires VariantsResolved(p, variants)
    ensures VariantOf(variants, id).Some? ==> VariantOf(variants, id).value in p.classes
  {
    if variants != [] {
      VariantOfResolved(p, variants[1..], id);
    }
  }

  /** The flag bytes read before the struct literal. */
  function ReadFlags(count: nat, s: Bytes): (r: Result<Parsed<seq<bv8>>>)
    ensures r.Ok? ==> |r.value.rest| <= |s| && |r.value.value| == count
    decreases count
  {
    if count == 0 then Ok(Parsed([], s))
    else if s == [] then Err
    else
      var others :- ReadFlags(count - 1, s[1..]);
      Ok(Parsed([s[0] as bv8] + others.value, others.rest))
  }

  function ReadEntriesFrom(p: Protocol, name: string, entries: seq<Entry>, i: nat, flags: seq<bv8>, s: Bytes)
    : (r: Result<Parsed<seq<Value>>>)
    requires Resolved(p) && name in p.classes && i <= |entries|
    requires EntriesFollow(p, name, entries)
    ensures r.Ok? ==> |r.value.rest| <= |s|
    decreases |s|, p.rank[name], 2, |entries| - i
  {
    if i == |entries| then Ok(Parsed([], s))
    else
      var first :- RunInit(p, name, entries[i].init, flags, s);
      var others :- ReadEntriesFrom(p, name, entries, i + 1, flags, first.rest);
      Ok(Parsed([first.value] + others.value, others.rest))
  }

  /** The literal only refers to types of the class's own fields. */
  ghost predicate EntriesFollow(p: Protocol, name: string, entries: seq<Entry>)
    requires Resolved(p) && name in p.classes
  {
    forall k :: 0 <= k < |entries| ==> InitFollows(p, p.rank[name], entries[k].init)
  }

  predicate InitFollows(p: Protocol, rank: nat, init: ReadInit) {
    match init
    case InitNested(m) => m in p.classes && m in p.rank && p.rank[m] < rank
    case InitVariant(m) => m in p.hierarchies
    case InitVector(_, ReadNestedElem(m)) => m in p.classes
    case InitVector(_, ReadVariantElem(m)) => m in p.hierarchies
    case _ => true
  }

  lemma {:induction false} LiteralFollows(p: Protocol, name: string, i: nat, flag: nat)
    requires Resolved(p) && name in p.classes && i <= |p.classes[name]|
    ensures EntriesFollow(p, name, ReadEntries(p.classes[name], i, flag))
    decreases |p.classes[name]| - i
  {
    hide IsPacked;
    var fields := p.classes[name];
    if i < |fields| {
      if IsPacked(fields[i]) {
        LiteralFollows(p, name, RunEnd(fields, i), flag + 1);
      } else {
        LiteralFollows(p, name, i + 1, flag);
        assert ClassResolved(p, name);
        assert TypeResolved(p, fields[i].fieldType, p.rank[name]);
      }
    }
  }

  /** A count that is negative as a signed number would abort on the vector's capacity. */
  function ReadCount(wire: Wire, s: Bytes): Result<Parsed<nat>> {
    var n :- Take(wire, s);
    if n.value.Number? && n.value.n >= 0 then Ok(Parsed(n.value.n, n.rest)) else Err
  }

  function RunInit(p: Protocol, name: string, init: ReadInit, flags: seq<bv8>, s: Bytes): (r: Result<Parsed<Value>>)
    requires Resolved(p) && name in p.classes && InitFollows(p, p.rank[name], init)
    ensures r.Ok? ==> |r.value.rest| <= |s|
    decreases |s|, p.rank[name], 1, 0
  {
    match init
    case InitFlag(flag, bit) =>
      if flag >= |flags| then Err
      else
        var b :- GetFlag(flags[flag], bit);
        Ok(Parsed(Flag(b), s))
    case InitWire(wire) =>
      var v :- Take(wire, s);
      TakeShrinks(wire, s);
      Ok(v)
    case InitByteArray =>
      var count :- ReadCount(WVarInt, s);
      TakeShrinks(WVarInt, s);
      var bytes :- ReadBytes(count.rest, count.value);
      Ok(Parsed(Blob(bytes.value), bytes.rest))
    case InitNested(m) => Deserialize(p, m, s)
    case InitVector(length, elem) =>
      var count :- ReadCount(length, s);
      TakeShrinks(length, s);
      var items :- ReadItems(p, elem, count.value, count.rest);
      Ok(Parsed(List(items.value), items.rest))
    case InitVariant(m) => DeserializeVariant(p, m, s)
    case InitDefault => Ok(Parsed(Blob([]), s))
  }

  function ReadItems(p: Protocol, elem: ReadElem, count: nat, s: Bytes): (r: Result<Parsed<seq<Value>>>)
    requires Resolved(p)
    requires elem.ReadNestedElem? ==> elem.name in p.classes
    requires elem.ReadVariantElem? ==> elem.name in p.hierarchies
    ensures r.Ok? ==> |r.value.rest| <= |s|
    decreases |s|, p.depth, 2, count
  {
    if count == 0 then Ok(Parsed([], s))
    else
      var first :- ReadItem(p, elem, s);
      var others :- ReadItems(p, elem, count - 1, first.rest);
      Ok(Parsed([first.value] + others.value, others.rest))
  }

  function ReadItem(p: Protocol, elem: ReadElem, s: Bytes): (r: Result<Parsed<Value>>)
    requires Resolved(p)
    requires elem.ReadNestedElem? ==> elem.name in p.classes
    requires elem.ReadVariantElem? ==> elem.name in p.hierarchies
    ensures r.Ok? ==> |r.value.rest| <= |s|
    decreases |s|, p.depth, 1, 0
  {
    match elem
    case DefaultElem => Ok(Parsed(Blob([]), s))
    case ReadNestedElem(m) => Deserialize(p, m, s)
    case ReadVariantElem(m) => DeserializeVariant(p, m, s)
    case ReadWireElem(wire) =>
      var v :- Take(wire, s);
      TakeShrinks(wire, s);
      Ok(v)
  }

  /** The type id selects the variant's deserialize method. */
  function DeserializeVariant(p: Protocol, base: string, s: Bytes): (r: Result<Parsed<Value>>)
    requires Resolved(p) && base in p.hierarchies
    ensures r.Ok? ==> |r.value.rest| < |s|
    decreases |s|, 0, 0, 0
  {
    var id :- ReadUnsigned(s, 2);
    match VariantOf(p.hierarchies[base], id.value)
    case None => Err
    case Some(m) =>
      VariantOfResolved(p, p.hierarchies[base], id.value);
      var v :- Deserialize(p, m, id.rest);
      Ok(Parsed(Variant(m, v.value), v.rest))
  }

  /** Runs a class's deserialize method. It terminates on every byte string. */
  function Deserialize(p: Protocol, name: string, s: Bytes): (r: Result<Parsed<Value>>)
    requires Resolved(p) && name in p.classes
    ensures r.Ok? ==> |r.value.rest| <= |s|
    decreases |s|, p.rank[name], 3, 0
  {
    var program := DeserializeProgram(p.classes[name]);
    var flags :- ReadFlags(program.flagReads, s);
    LiteralFollows(p, name, 0, 0);
    var fields :- ReadEntriesFrom(p, name, program.entries, 0, flags.value, flags.rest);
    Ok(Parsed(Struct(fields.value), fields.rest))
  }
}
