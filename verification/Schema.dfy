/** The schema language of the protocol generator and the code it emits, statement by statement. */
module Schema {
  import opened Common

  datatype FieldType =
    | Bool | Byte | UByte | Short | UShort | Int | UInt | Long | ULong | Float | Double | String
    | VarInt | VarUInt | VarShort | VarUShort | VarLong | VarULong | ByteArray
    | Type(name: string)
    | Vector(inner: FieldType, lengthType: string)
    | TypeManager(name: string)

  datatype Field = Field(name: string, fieldType: FieldType, writeMethod: string)

  predicate IsPacked(f: Field) {
    f.writeMethod == "BooleanByteWrapper"
  }

  /** The X of a writer's write_X and of a reader's read_X. */
  datatype Wire =
    | WBoolean | WByte | WShort | WUShort | WInt | WUInt | WFloat | WDouble | WUtf
    | WVarInt | WVarUInt | WVarShort | WVarUShort | WVarLong | WVarULong

  datatype WriteElem = NoElem | VariantElem | NestedElem | WireElem(wire: Wire)

  datatype WriteStmt =
    | PackFlags(group: seq<nat>)
    | WriteWire(wire: Wire, field: nat)
    | WriteByteArray(field: nat)
    | WriteNested(field: nat)
    | WriteVector(length: Wire, elem: WriteElem, field: nat)
    | WriteVariant(field: nat)
    | WriteRaw(field: nat)

  datatype ReadElem =
    | DefaultElem
    | ReadNestedElem(name: string)
    | ReadVariantElem(name: string)
    | ReadWireElem(wire: Wire)

  datatype ReadInit =
    | InitFlag(flag: nat, bit: nat)
    | InitWire(wire: Wire)
    | InitByteArray
    | InitNested(name: string)
    | InitVector(length: Wire, elem: ReadElem)
    | InitVariant(name: string)
    | InitDefault

  /** The struct literal initialises field with the value that init reads. */
  datatype Entry = Entry(field: nat, init: ReadInit)

  datatype ReadProgram = ReadProgram(flagReads: nat, entries: seq<Entry>)

  // ---- Method tables ----

  function LengthWrite(lengthType: string): Wire {
    if lengthType == "writeVarInt" then WVarInt
    else if lengthType == "writeUnsignedShort" || lengthType == "writeUShort" then WUShort
    else if lengthType == "writeByte" then WByte
    else WShort
  }

  function LengthRead(lengthType: string): Wire {
    if lengthType == "writeVarInt" then WVarInt
    else if lengthType == "writeUnsignedShort" || lengthType == "writeUShort" then WUShort
    else if lengthType == "writeByte" then WByte
    else WUShort
  }

  function PrimitiveWrite(ft: FieldType): Wire {
    match ft
    case Byte => WByte
    case UByte => WByte
    case Short => WShort
    case UShort => WUShort
    case Int => WInt
    case UInt => WUInt
    case Float => WFloat
    case Double => WDouble
    case VarInt => WVarInt
    case VarUInt => WVarUInt
    case VarShort => WVarShort
    case VarUShort => WVarUShort
    case VarLong => WVarLong
    case VarULong => WVarULong
    case Bool => WBoolean
    case String => WUtf
    case _ => WByte
  }

  function PrimitiveRead(ft: FieldType): Wire {
    match ft
    case Byte => WByte
    case UByte => WByte
    case Short => WShort
    case UShort => WUShort
    case Int => WInt
    case UInt => WUInt
    case Float => WFloat
    case Double => WDouble
    case VarInt => WVarInt
    case VarUInt => WVarUInt
    case VarShort => WVarShort
    case VarUShort => WVarUShort
    case VarLong => WVarLong
    case VarULong => WVarULong
    case Bool => WBoolean
    case String => WUtf
    case _ => WByte
  }

  // ---- Statements for one field that is not packed ----

  function WriteElemOf(inner: FieldType): WriteElem {
    match inner
    case TypeManager(name) => if name == "" then NoElem else VariantElem
    case Type(_) => NestedElem
    case String => WireElem(WUtf)
    case _ => WireElem(PrimitiveWrite(inner))
  }

  function WriteStmtOf(ft: FieldType, i: nat): WriteStmt {
    match ft
    case Bool => WriteWire(WBoolean, i)
    case Byte => WriteWire(WByte, i)
    case UByte => WriteWire(WByte, i)
    case Short => WriteWire(WShort, i)
    case UShort => WriteWire(WUShort, i)
    case Int => WriteWire(WInt, i)
    case UInt => WriteWire(WUInt, i)
    case Float => WriteWire(WFloat, i)
    case Double => WriteWire(WDouble, i)
    case String => WriteWire(WUtf, i)
    case VarInt => WriteWire(WVarInt, i)
    case VarUInt => WriteWire(WVarUInt, i)
    case VarShort => WriteWire(WVarShort, i)
    case VarUShort => WriteWire(WVarUShort, i)
    case VarLong => WriteWire(WVarLong, i)
    case VarULong => WriteWire(WVarULong, i)
    case ByteArray => WriteByteArray(i)
    case Type(_) => WriteNested(i)
    case Vector(inner, lengthType) => WriteVector(LengthWrite(lengthType), WriteElemOf(inner), i)
    case TypeManager(name) => if name == "" then WriteRaw(i) else WriteVariant(i)
    case Long => WriteWire(WVarLong, i)
    case ULong => WriteWire(WVarULong, i)
  }

  function ReadElemOf(inner: FieldType): ReadElem {
    match inner
    case Type(name) => ReadNestedElem(name)
    case TypeManager(name) => if name == "" then DefaultElem else ReadVariantElem(name)
    case _ => ReadWireElem(PrimitiveRead(inner))
  }

  function ReadInitOf(ft: FieldType): ReadInit {
    match ft
    case Bool => InitWire(WBoolean)
    case Byte => InitWire(WByte)
    case UByte => InitWire(WByte)
    case Short => InitWire(WShort)
    case UShort => InitWire(WUShort)
    case Int => InitWire(WInt)
    case UInt => InitWire(WUInt)
    case Float => InitWire(WFloat)
    case Double => InitWire(WDouble)
    case String => InitWire(WUtf)
    case VarInt => InitWire(WVarInt)
    case VarUInt => InitWire(WVarUInt)
    case VarShort => InitWire(WVarShort)
    case VarUShort => InitWire(WVarUShort)
    case VarLong => InitWire(WVarLong)
    case VarULong => InitWire(WVarULong)
    case ByteArray => InitByteArray
    case Type(name) => InitNested(name)
    case Vector(inner, lengthType) => InitVector(LengthRead(lengthType), ReadElemOf(inner))
    case TypeManager(name) => if name == "" then InitDefault else InitVariant(name)
    case Long => InitWire(WVarLong)
    case ULong => InitWire(WVarULong)
  }

  // ---- Groups of packed booleans ----

  /** One past the last field of the run of packed fields that contains i. */
  function RunEnd(fields: seq<Field>, i: nat): (end: nat)
    requires i <= |fields|
    ensures i <= end <= |fields|
    ensures forall k :: i <= k < end ==> IsPacked(fields[k])
    ensures end < |fields| ==> !IsPacked(fields[end])
    decreases |fields| - i
  {
    if i < |fields| && IsPacked(fields[i]) then RunEnd(fields, i + 1) else i
  }

  function Indices(from: nat, to: nat): (s: seq<nat>)
    requires from <= to
    ensures |s| == to - from && forall k :: 0 <= k < |s| ==> s[k] == from + k
  {
    seq(to - from, k => from + k)
  }

  predicate StartsRun(fields: seq<Field>, i: nat) {
    i < |fields| && IsPacked(fields[i]) && (i == 0 || !IsPacked(fields[i - 1]))
  }

  /** The map holds exactly the maximal runs, keyed by their first field. */
  ghost predicate AreRuns(fields: seq<Field>, groups: map<nat, seq<nat>>) {
    forall i: nat :: (i in groups <==> StartsRun(fields, i)) &&
                     (i in groups ==> groups[i] == Indices(i, RunEnd(fields, i)))
  }

  /** In terms of the write methods alone: the keys are the fields where a run of BooleanByteWrapper begins, each group
      counts on from its key, and its run ends behind it. */
  lemma GroupsByMethod(fields: seq<Field>, groups: map<nat, seq<nat>>, i: nat)
    requires AreRuns(fields, groups)
    ensures i in groups <==>
            && i < |fields| && fields[i].writeMethod == "BooleanByteWrapper"
            && (i > 0 ==> fields[i - 1].writeMethod != "BooleanByteWrapper")
    ensures i in groups ==>
              && i + |groups[i]| <= |fields|
              && (forall k :: 0 <= k < |groups[i]| ==>
                    groups[i][k] == i + k && fields[i + k].writeMethod == "BooleanByteWrapper")
              && (i + |groups[i]| < |fields| ==> fields[i + |groups[i]|].writeMethod != "BooleanByteWrapper")
  {
  }

  method CollectBooleanGroups(fields: seq<Field>) returns (groups: map<nat, seq<nat>>)
    ensures AreRuns(fields, groups)
  {
    hide IsPacked;
    groups := map[];
    var i := 0;
    while i < |fields|
      invariant 0 <= i <= |fields|
      invariant forall k: nat :: k in groups <==> StartsRun(fields, k) && k < i
      invariant forall k: nat :: k in groups ==> groups[k] == Indices(k, RunEnd(fields, k))
      invariant i > 0 && i < |fields| && IsPacked(fields[i]) ==> !IsPacked(fields[i - 1])
    {
      if IsPacked(fields[i]) {
        var start := i;
        var group: seq<nat> := [i];
        i := i + 1;
        while i < |fields| && IsPacked(fields[i])
          invariant start < i <= |fields| && RunEnd(fields, start) == RunEnd(fields, i)
          invariant group == Indices(start, i)
        {
          group := group + [i];
          i := i + 1;
        }
        groups := groups[start := group];
      } else {
        i := i + 1;
      }
    }
  }

  // ---- The two programs ----

  /** The statements emitted from field i on, which begins a run if it is packed. */
  function WriteProgram(fields: seq<Field>, i: nat): seq<WriteStmt>
    requires i <= |fields|
    decreases |fields| - i
  {
    if i == |fields| then []
    else if IsPacked(fields[i]) then
      [PackFlags(Indices(i, RunEnd(fields, i)))] + WriteProgram(fields, RunEnd(fields, i))
    else [WriteStmtOf(fields[i].fieldType, i)] + WriteProgram(fields, i + 1)
  }

  function FlagEntries(from: nat, to: nat, flag: nat): (s: seq<Entry>)
    requires from <= to
    ensures |s| == to - from && forall k :: 0 <= k < |s| ==> s[k] == Entry(from + k, InitFlag(flag, k))
  {
    seq(to - from, k requires 0 <= k < to - from => Entry(from + k, InitFlag(flag, k)))
  }

  /** The struct literal's entries from field i on; flag counts the runs already used. */
  function ReadEntries(fields: seq<Field>, i: nat, flag: nat): seq<Entry>
    requires i <= |fields|
    decreases |fields| - i
  {
    if i == |fields| then []
    else if IsPacked(fields[i]) then
      FlagEntries(i, RunEnd(fields, i), flag) + ReadEntries(fields, RunEnd(fields, i), flag + 1)
    else [Entry(i, ReadInitOf(fields[i].fieldType))] + ReadEntries(fields, i + 1, flag)
  }

  function RunCount(fields: seq<Field>, i: nat): nat
    requires i <= |fields|
    decreases |fields| - i
  {
    if i == |fields| then 0
    else if IsPacked(fields[i]) then 1 + RunCount(fields, RunEnd(fields, i))
    else RunCount(fields, i + 1)
  }

  function DeserializeProgram(fields: seq<Field>): ReadProgram {
    ReadProgram(RunCount(fields, 0), ReadEntries(fields, 0, 0))
  }

  /** Never looks inside a run: the loops step over whole runs. */
  predicate AtBoundary(fields: seq<Field>, i: nat) {
    i <= |fields| && (0 < i < |fields| && IsPacked(fields[i]) ==> !IsPacked(fields[i - 1]))
  }

  /** At a boundary the map tells a run from a single field. */
  lemma GroupAt(fields: seq<Field>, groups: map<nat, seq<nat>>, i: nat)
    requires AreRuns(fields, groups) && AtBoundary(fields, i) && i < |fields|
    ensures i in groups <==> IsPacked(fields[i])
    ensures i in groups ==> groups[i] == Indices(i, RunEnd(fields, i)) && |groups[i]| == RunEnd(fields, i) - i > 0
    ensures AtBoundary(fields, if i in groups then RunEnd(fields, i) else i + 1)
  {
    hide IsPacked;
    if IsPacked(fields[i]) {
      RunStartsOnce(fields, groups, i);
    }
  }

  method WriteSerializeBody(fields: seq<Field>, groups: map<nat, seq<nat>>) returns (out: seq<WriteStmt>)
    requires AreRuns(fields, groups)
    ensures out == WriteProgram(fields, 0)
  {
    hide IsPacked, RunEnd, WriteStmtOf, AreRuns, AtBoundary, Indices;
    out := [];
    var i := 0;
    assert AtBoundary(fields, 0) by { StartIsBoundary(fields); }
    while i < |fields|
      invariant i <= |fields| && AtBoundary(fields, i) && out + WriteProgram(fields, i) == WriteProgram(fields, 0)
      decreases |fields| - i
    {
      GroupAt(fields, groups, i);
      if i in groups {
        out := out + [PackFlags(groups[i])];
        i := i + |groups[i]|;
      } else {
        out := out + [WriteStmtOf(fields[i].fieldType, i)];
        i := i + 1;
      }
    }
  }

  ghost function StartsFrom(groups: map<nat, seq<nat>>, i: nat): set<nat> {
    set k | k in groups && k >= i
  }

  lemma RunStartsOnce(fields: seq<Field>, groups: map<nat, seq<nat>>, i: nat)
    requires AreRuns(fields, groups) && AtBoundary(fields, i) && i < |fields| && IsPacked(fields[i])
    ensures StartsFrom(groups, i) == {i} + StartsFrom(groups, RunEnd(fields, i))
    ensures i < RunEnd(fields, i) && AtBoundary(fields, RunEnd(fields, i))
  {
    hide IsPacked;
    var end := RunEnd(fields, i);
    assert StartsRun(fields, i);
    forall k | k in StartsFrom(groups, i) ensures k == i || k >= end {
      assert StartsRun(fields, k);
    }
  }

  lemma StartIsBoundary(fields: seq<Field>)
    ensures AtBoundary(fields, 0)
  {
  }

  lemma {:induction false} RunsCounted(fields: seq<Field>, groups: map<nat, seq<nat>>, i: nat)
    requires AreRuns(fields, groups) && AtBoundary(fields, i)
    ensures |StartsFrom(groups, i)| == RunCount(fields, i)
    decreases |fields| - i
  {
    hide IsPacked, RunEnd, AreRuns, StartsFrom;
    if i == |fields| {
      NoStartsAtEnd(fields, groups);
    } else if IsPacked(fields[i]) {
      RunStartsOnce(fields, groups, i);
      RunsCounted(fields, groups, RunEnd(fields, i));
      NotLater(groups, i, RunEnd(fields, i));
    } else {
      RunsCounted(fields, groups, i + 1);
      NoStartHere(fields, groups, i);
    }
  }

  lemma NoStartsAtEnd(fields: seq<Field>, groups: map<nat, seq<nat>>)
    requires AreRuns(fields, groups)
    ensures StartsFrom(groups, |fields|) == {}
  {
    hide IsPacked, RunEnd;
  }

  lemma NoStartHere(fields: seq<Field>, groups: map<nat, seq<nat>>, i: nat)
    requires AreRuns(fields, groups) && i < |fields| && !IsPacked(fields[i])
    ensures StartsFrom(groups, i) == StartsFrom(groups, i + 1)
  {
    hide IsPacked, RunEnd;
    assert !StartsRun(fields, i);
  }

  lemma NotLater(groups: map<nat, seq<nat>>, i: nat, end: nat)
    requires i < end
    ensures i !in StartsFrom(groups, end)
  {
  }

  method WriteDeserializeBody(fields: seq<Field>, groups: map<nat, seq<nat>>) returns (out: ReadProgram)
    requires AreRuns(fields, groups)
    ensures out == DeserializeProgram(fields)
  {
    hide IsPacked, RunEnd, ReadInitOf, RunCount, AreRuns, AtBoundary, ReadEntries;
    var boolVarCount := |groups|;
    assert AtBoundary(fields, 0) by { StartIsBoundary(fields); }
    RunsCounted(fields, groups, 0);
    assert groups.Keys == StartsFrom(groups, 0);
    var entries: seq<Entry> := [];
    var i, flagIdx := 0, 0;
    while i < |fields|
      invariant i <= |fields| && AtBoundary(fields, i)
      invariant entries + ReadEntries(fields, i, flagIdx) == ReadEntries(fields, 0, 0)
      decreases |fields| - i
    {
      GroupAt(fields, groups, i);
      NextEntries(fields, i, flagIdx);
      if i in groups {
        entries := entries + FlagEntries(i, i + |groups[i]|, flagIdx);
        flagIdx := flagIdx + 1;
        i := i + |groups[i]|;
      } else {
        entries := entries + [Entry(i, ReadInitOf(fields[i].fieldType))];
        i := i + 1;
      }
    }
    NoEntries(fields, flagIdx);
    assert entries + [] == entries;
    return ReadProgram(boolVarCount, entries);
  }

  lemma NextEntries(fields: seq<Field>, i: nat, flag: nat)
    requires i < |fields|
    ensures ReadEntries(fields, i, flag) ==
            if IsPacked(fields[i]) then
              FlagEntries(i, RunEnd(fields, i), flag) + ReadEntries(fields, RunEnd(fields, i), flag + 1)
            else [Entry(i, ReadInitOf(fields[i].fieldType))] + ReadEntries(fields, i + 1, flag)
  {
    hide IsPacked, ReadInitOf;
  }

  lemma NoEntries(fields: seq<Field>, flag: nat)
    ensures ReadEntries(fields, |fields|, flag) == []
  {
  }

  /** The struct literal names every field once, in declaration order. */
  lemma {:induction false} EntriesInOrder(fields: seq<Field>, i: nat, flag: nat)
    requires i <= |fields|
    ensures |ReadEntries(fields, i, flag)| == |fields| - i
    ensures forall k :: 0 <= k < |fields| - i ==> ReadEntries(fields, i, flag)[k].field == i + k
    decreases |fields| - i
  {
    if i < |fields| {
      if IsPacked(fields[i]) {
        EntriesInOrder(fields, RunEnd(fields, i), flag + 1);
      } else {
        EntriesInOrder(fields, i + 1, flag);
      }
    }
  }
}
