/** Packed booleans behind other fields are lost: the exact class layouts for which the emitted code round-trips. */
module LateFlags {
  import opened Common
  import opened Binary
  import opened VarInt
  import opened FlagByte
  import opened Schema
  import opened Generated
  import opened GeneratedRoundTrip

  // ---- The statements and entries in front of a run ----

  function StmtsBetween(fields: seq<Field>, k: nat, i: nat): seq<WriteStmt>
    requires i <= |fields|
    decreases |fields| - k
  {
    if k >= i then []
    else if IsPacked(fields[k]) then
      [PackFlags(Indices(k, RunEnd(fields, k)))] + StmtsBetween(fields, RunEnd(fields, k), i)
    else [WriteStmtOf(fields[k].fieldType, k)] + StmtsBetween(fields, k + 1, i)
  }

  function RunsBetween(fields: seq<Field>, k: nat, i: nat): nat
    requires i <= |fields|
    decreases |fields| - k
  {
    if k >= i then 0
    else if IsPacked(fields[k]) then 1 + RunsBetween(fields, RunEnd(fields, k), i)
    else RunsBetween(fields, k + 1, i)
  }

  lemma RunStaysBefore(fields: seq<Field>, k: nat, i: nat)
    requires k < i && StartsRun(fields, i) && IsPacked(fields[k])
    ensures k < RunEnd(fields, k) <= i - 1
  {
    hide IsPacked;
    RunStartsHere(fields, k);
  }

  /** The emitted programs split at the start of a run. */
  lemma {:induction false} ProgramSplits(fields: seq<Field>, k: nat, i: nat)
    requires k <= i && StartsRun(fields, i)
    ensures WriteProgram(fields, k) == StmtsBetween(fields, k, i) + WriteProgram(fields, i)
    decreases |fields| - k
  {
    hide IsPacked, WriteStmtOf, WriteProgram, StmtsBetween;
    if k == i {
      NothingBetween(fields, k);
    } else {
      var (stmt, next) := FirstStmt(fields, k);
      if IsPacked(fields[k]) {
        RunStaysBefore(fields, k, i);
      }
      FirstStmtFirst(fields, k, i);
      ProgramSplits(fields, next, i);
      assert [stmt] + (StmtsBetween(fields, next, i) + WriteProgram(fields, i))
             == [stmt] + StmtsBetween(fields, next, i) + WriteProgram(fields, i);
    }
  }

  /** The statement emitted at k, and where the next one starts. */
  function FirstStmt(fields: seq<Field>, k: nat): (WriteStmt, nat)
    requires k < |fields|
  {
    if IsPacked(fields[k]) then (PackFlags(Indices(k, RunEnd(fields, k))), RunEnd(fields, k))
    else (WriteStmtOf(fields[k].fieldType, k), k + 1)
  }

  lemma FirstStmtFirst(fields: seq<Field>, k: nat, i: nat)
    requires k < i <= |fields|
    ensures var (stmt, next) := FirstStmt(fields, k);
            && next <= |fields|
            && WriteProgram(fields, k) == [stmt] + WriteProgram(fields, next)
            && StmtsBetween(fields, k, i) == [stmt] + StmtsBetween(fields, next, i)
  {
    hide IsPacked, WriteStmtOf, Indices;
  }

  lemma NothingBetween(fields: seq<Field>, i: nat)
    requires i <= |fields|
    ensures StmtsBetween(fields, i, i) + WriteProgram(fields, i) == WriteProgram(fields, i)
  {
    hide IsPacked, WriteProgram;
  }

  lemma {:induction false} RunEntry(fields: seq<Field>, k: nat, i: nat, flag: nat)
    requires k <= i && StartsRun(fields, i)
    ensures |ReadEntries(fields, k, flag)| == |fields| - k
    ensures ReadEntries(fields, k, flag)[i - k] == Entry(i, InitFlag(flag + RunsBetween(fields, k, i), 0))
    decreases |fields| - k
  {
    hide IsPacked, ReadInitOf;
    EntriesInOrder(fields, k, flag);
    if k == i {
      RunStartsHere(fields, i);
    } else if IsPacked(fields[k]) {
      RunStaysBefore(fields, k, i);
      RunEntry(fields, RunEnd(fields, k), i, flag + 1);
    } else {
      RunEntry(fields, k + 1, i, flag);
    }
  }

  lemma {:induction false} RunsBeforeCounted(fields: seq<Field>, k: nat, i: nat)
    requires k <= i && StartsRun(fields, i)
    ensures RunsBetween(fields, k, i) < RunCount(fields, k)
    decreases |fields| - k
  {
    hide IsPacked;
    if k < i && IsPacked(fields[k]) {
      RunStaysBefore(fields, k, i);
      RunsBeforeCounted(fields, RunEnd(fields, k), i);
    } else if k < i {
      RunsBeforeCounted(fields, k + 1, i);
    }
  }

  lemma {:induction false} RunWriteSplits(p: Protocol, fields: seq<Field>, a: seq<WriteStmt>, b: seq<WriteStmt>,
                                        v: Value)
    requires v.Struct? && |v.fields| == |fields| && RunWrite(p, fields, a + b, v).Ok?
    ensures RunWrite(p, fields, a, v).Ok? && RunWrite(p, fields, b, v).Ok?
    ensures RunWrite(p, fields, a + b, v).value == RunWrite(p, fields, a, v).value + RunWrite(p, fields, b, v).value
    decreases |a|
  {
    hide RunStmt;
    if a == [] {
      assert a + b == b;
    } else {
      assert (a + b)[1..] == a[1..] + b;
      RunWriteSplits(p, fields, a[1..], b, v);
    }
  }

  // ---- The bytes in front of a run do not depend on it ----

  lemma {:induction false} PackSame(v: Value, w: Value, group: seq<nat>, bit: nat, flag: bv8)
    requires v.Struct? && w.Struct? && |v.fields| == |w.fields| && bit <= |group|
    requires forall k :: 0 <= k < |group| ==> group[k] < |v.fields| && v.fields[group[k]] == w.fields[group[k]]
    ensures PackFrom(v, group, bit, flag) == PackFrom(w, group, bit, flag)
    decreases |group| - bit
  {
    if bit < |group| && v.fields[group[bit]].Flag? {
      var next := SetFlag(flag, bit, v.fields[group[bit]].b);
      if next.Ok? {
        PackSame(v, w, group, bit + 1, next.value);
      }
    }
  }

  lemma StmtSame(p: Protocol, fields: seq<Field>, k: nat, v: Value, w: Value)
    requires v.Struct? && w.Struct? && |v.fields| == |w.fields| == |fields| && k < |fields|
    requires v.fields[k] == w.fields[k]
    ensures RunStmt(p, fields, WriteStmtOf(fields[k].fieldType, k), v) ==
            RunStmt(p, fields, WriteStmtOf(fields[k].fieldType, k), w)
  {
    hide Put, Serialize, WriteItems, SerializeVariant, Leb128, LengthWrite, WriteElemOf;
  }

  lemma PackStmtSame(p: Protocol, fields: seq<Field>, group: seq<nat>, v: Value, w: Value)
    requires v.Struct? && w.Struct? && |v.fields| == |w.fields| == |fields|
    requires forall k :: 0 <= k < |group| ==> group[k] < |v.fields| && v.fields[group[k]] == w.fields[group[k]]
    ensures RunStmt(p, fields, PackFlags(group), v) == RunStmt(p, fields, PackFlags(group), w)
  {
    hide PackFrom;
    PackSame(v, w, group, 0, 0);
  }

  lemma {:induction false} PrefixSame(p: Protocol, fields: seq<Field>, k: nat, i: nat, v: Value, w: Value)
    requires v.Struct? && w.Struct? && |v.fields| == |w.fields| == |fields|
    requires k <= i && StartsRun(fields, i)
    requires forall m :: 0 <= m < i ==> v.fields[m] == w.fields[m]
    ensures RunWrite(p, fields, StmtsBetween(fields, k, i), v) == RunWrite(p, fields, StmtsBetween(fields, k, i), w)
    decreases |fields| - k
  {
    hide WriteStmtOf, IsPacked, RunStmt;
    if k < i {
      if IsPacked(fields[k]) {
        var end := RunEnd(fields, k);
        RunStaysBefore(fields, k, i);
        PackStmtSame(p, fields, Indices(k, end), v, w);
        PrefixSame(p, fields, end, i, v, w);
        assert StmtsBetween(fields, k, i)[1..] == StmtsBetween(fields, end, i);
      } else {
        StmtSame(p, fields, k, v, w);
        PrefixSame(p, fields, k + 1, i, v, w);
        assert StmtsBetween(fields, k, i)[1..] == StmtsBetween(fields, k + 1, i);
      }
    }
  }

  // ---- What is read for a flag is a byte near the start ----

  lemma {:induction false} FlagsAreFirstBytes(count: nat, s: Bytes, j: nat)
    requires j < count && ReadFlags(count, s).Ok?
    ensures j < |s| && ReadFlags(count, s).value.value[j] == s[j] as bv8
    decreases count
  {
    if j > 0 {
      FlagsAreFirstBytes(count - 1, s[1..], j - 1);
    }
  }

  lemma {:induction false} EntryRead(p: Protocol, name: string, entries: seq<Entry>, k: nat, i: nat, flags: seq<bv8>,
                                     s: Bytes)
    requires Resolved(p) && name in p.classes && k <= i < |entries| && EntriesFollow(p, name, entries)
    requires entries[i].init.InitFlag?
    requires ReadEntriesFrom(p, name, entries, k, flags, s).Ok?
    ensures |ReadEntriesFrom(p, name, entries, k, flags, s).value.value| == |entries| - k
    ensures var init := entries[i].init;
            && init.flag < |flags| && init.bit < 8
            && ReadEntriesFrom(p, name, entries, k, flags, s).value.value[i - k] ==
                    Flag(Bit(flags[init.flag], init.bit))
    decreases |entries| - k
  {
    hide Resolved, Bit;
    if k < i {
      var first := RunInit(p, name, entries[k].init, flags, s).value;
      EntryRead(p, name, entries, k + 1, i, flags, first.rest);
    } else {
      BitOfGet(flags, entries[i].init.flag, entries[i].init.bit);
      var first := RunInit(p, name, entries[k].init, flags, s).value;
      EntriesLength(p, name, entries, k + 1, flags, first.rest);
    }
  }

  lemma BitOfGet(flags: seq<bv8>, flag: nat, bit: nat)
    ensures flag < |flags| && GetFlag(flags[flag], bit).Ok? ==>
              bit < 8 && GetFlag(flags[flag], bit).value == Bit(flags[flag], bit)
  {
  }

  lemma {:induction false} EntriesLength(p: Protocol, name: string, entries: seq<Entry>, k: nat, flags: seq<bv8>,
                                        s: Bytes)
    requires Resolved(p) && name in p.classes && k <= |entries| && EntriesFollow(p, name, entries)
    requires ReadEntriesFrom(p, name, entries, k, flags, s).Ok?
    ensures |ReadEntriesFrom(p, name, entries, k, flags, s).value.value| == |entries| - k
    decreases |entries| - k
  {
    hide Resolved, RunInit;
    if k < |entries| {
      var first := RunInit(p, name, entries[k].init, flags, s).value;
      EntriesLength(p, name, entries, k + 1, flags, first.rest);
    }
  }

  /** The first boolean of a run is decoded from the byte at the run's number, wherever the run was written. */
  lemma RunReadsEarlyByte(p: Protocol, name: string, i: nat, s: Bytes)
    requires Resolved(p) && name in p.classes && StartsRun(p.classes[name], i)
    requires Deserialize(p, name, s).Ok?
    ensures var j := RunsBetween(p.classes[name], 0, i);
            && j < |s|
            && Deserialize(p, name, s).value.value.Struct?
            && i < |Deserialize(p, name, s).value.value.fields|
            && Deserialize(p, name, s).value.value.fields[i] == Flag(Bit(s[j] as bv8, 0))
  {
    hide Resolved, RunInit, RunsBetween, RunCount, ReadEntriesFrom, Bit, ReadEntries, ReadFlags;
    var fields := p.classes[name];
    RunEntry(fields, 0, i, 0);
    RunsBeforeCounted(fields, 0, i);
    LiteralFollows(p, name, 0, 0);
    var program := DeserializeProgram(fields);
    var flags := ReadFlags(program.flagReads, s).value;
    var j := RunsBetween(fields, 0, i);
    FlagsAreFirstBytes(program.flagReads, s, j);
    EntryRead(p, name, program.entries, 0, i, flags.value, flags.rest);
  }

  /** A value with its packed boolean i inverted. */
  function Flip(v: Value, i: nat): Value
    requires v.Struct? && i < |v.fields| && v.fields[i].Flag?
  {
    Struct(v.fields[i := Flag(!v.fields[i].b)])
  }

  /** If more bytes than flags precede a run, no deserializer output can tell the two values of its first boolean
      apart. */
  lemma LateFlagLost(p: Protocol, name: string, v: Value, i: nat)
    requires Resolved(p) && name in p.classes && StartsRun(p.classes[name], i)
    requires v.Struct? && |v.fields| == |p.classes[name]| && v.fields[i].Flag?
    requires var prefix := RunWrite(p, p.classes[name], StmtsBetween(p.classes[name], 0, i), v);
             prefix.Ok? ==> |prefix.value| > RunsBetween(p.classes[name], 0, i)
    ensures !(RoundTrips(p, name, v, []) && RoundTrips(p, name, Flip(v, i), []))
  {
    hide Resolved, Deserialize, RunsBetween, StmtsBetween, Bit, WriteProgram, RunWrite;
    var fields := p.classes[name];
    var w := Flip(v, i);
    if RoundTrips(p, name, v, []) && RoundTrips(p, name, w, []) {
      SerializedPrefix(p, name, v, i);
      SerializedPrefix(p, name, w, i);
      PrefixSame(p, fields, 0, i, v, w);
      RunReadsEarlyByte(p, name, i, Serialize(p, name, v).value + []);
      RunReadsEarlyByte(p, name, i, Serialize(p, name, w).value + []);
    }
  }

  /** A serialized struct begins with the bytes written before the run. */
  lemma SerializedPrefix(p: Protocol, name: string, v: Value, i: nat)
    requires name in p.classes && StartsRun(p.classes[name], i)
    requires v.Struct? && |v.fields| == |p.classes[name]| && Serialize(p, name, v).Ok?
    ensures var prefix := RunWrite(p, p.classes[name], StmtsBetween(p.classes[name], 0, i), v);
            prefix.Ok? && prefix.value <= Serialize(p, name, v).value
  {
    hide StmtsBetween, WriteProgram, RunWrite;
    var fields := p.classes[name];
    ProgramSplits(fields, 0, i);
    RunWriteSplits(p, fields, StmtsBetween(fields, 0, i), WriteProgram(fields, i), v);
  }

  // ---- Every field that is not silent writes something ----

  lemma PutNotEmpty(wire: Wire, v: Value)
    requires Put(wire, v).Ok?
    ensures Put(wire, v).value != []
  {
  }

  lemma LebNotEmpty(n: nat)
    ensures Leb128(n) != []
  {
  }

  lemma VariantNotEmpty(p: Protocol, base: string, v: Value)
    requires SerializeVariant(p, base, v).Ok?
    ensures SerializeVariant(p, base, v).value != []
  {
    hide Serialize;
  }

  lemma PackNotEmpty(p: Protocol, fields: seq<Field>, group: seq<nat>, v: Value)
    requires v.Struct? && |v.fields| == |fields| && RunStmt(p, fields, PackFlags(group), v).Ok?
    ensures RunStmt(p, fields, PackFlags(group), v).value != []
  {
    hide PackFrom;
  }

  /** A class that is not silent has a field that writes. */
  lemma {:induction false} SerializeNotEmpty(p: Protocol, scope: set<string>, m: string, v: Value)
    requires SchemaOk(p, scope) && m in scope && !SilentClass(p, m) && Serialize(p, m, v).Ok?
    ensures Serialize(p, m, v).value != []
    decreases p.rank[m], 1
  {
    hide SchemaOk, RunStmt, WriteStmtOf, WriteProgram, RunWrite, IsPacked, SilentType, TypeResolved, TypeInside,
      Supported;
    ScopeResolved(p, scope);
    var fields := p.classes[m];
    var i :| 0 <= i < |fields| && (IsPacked(fields[i]) || !SilentType(p, fields[i].fieldType, p.rank[m]));
    if !IsPacked(fields[i]) && RunStmt(p, fields, WriteStmtOf(fields[i].fieldType, i), v).Ok? {
      LoudStmt(p, scope, m, i, v);
    }
    StmtInside(p, fields, 0, i, v);
  }

  /** What the schema says about one field. */
  lemma FieldOfScope(p: Protocol, scope: set<string>, m: string, i: nat)
    requires SchemaOk(p, scope) && m in scope && i < |p.classes[m]| && !IsPacked(p.classes[m][i])
    ensures TypeResolved(p, p.classes[m][i].fieldType, p.rank[m])
    ensures TypeInside(p, scope, p.classes[m][i].fieldType) && Supported(p.classes[m][i].fieldType)
  {
    hide IsPacked, TypeResolved, TypeInside, Supported;
    assert ClassResolved(p, m) && FieldsSupported(p.classes[m]);
  }

  /** A field that is neither packed nor silent writes at least one byte. */
  lemma {:induction false} LoudStmt(p: Protocol, scope: set<string>, m: string, k: nat, v: Value)
    requires SchemaOk(p, scope) && m in scope && v.Struct? && k < |v.fields| == |p.classes[m]|
    requires !IsPacked(p.classes[m][k]) && !SilentType(p, p.classes[m][k].fieldType, p.rank[m])
    requires RunStmt(p, p.classes[m], WriteStmtOf(p.classes[m][k].fieldType, k), v).Ok?
    ensures RunStmt(p, p.classes[m], WriteStmtOf(p.classes[m][k].fieldType, k), v).value != []
    decreases p.rank[m], 0
  {
    hide SchemaOk, Serialize, WriteItems, Put, Leb128, LengthWrite, WriteElemOf, BigEndian, SilentClass, IsPacked;
    ScopeResolved(p, scope);
    FieldOfScope(p, scope, m, k);
    var ft := p.classes[m][k].fieldType;
    match ft
    case Type(n) => SerializeNotEmpty(p, scope, n, v.fields[k]);
    case TypeManager(_) => VariantNotEmpty(p, ft.name, v.fields[k]);
    case Vector(_, lengthType) => PutNotEmpty(LengthWrite(lengthType), Number(|v.fields[k].items|));
    case ByteArray => LebNotEmpty(|v.fields[k].s| % 0x1_0000_0000);
    case _ => PutNotEmpty(WriteStmtOf(ft, k).wire, v.fields[k]);
  }

  /** Field i or the run it is in writes something. */
  ghost predicate WritesAt(p: Protocol, fields: seq<Field>, i: nat, v: Value) {
    && v.Struct? && i < |v.fields| == |fields|
    && (IsPacked(fields[i]) || (
          var enc := RunStmt(p, fields, WriteStmtOf(fields[i].fieldType, i), v);
          enc.Ok? ==> enc.value != []))
  }

  lemma {:induction false} StmtInside(p: Protocol, fields: seq<Field>, k: nat, i: nat, v: Value)
    requires k <= i && WritesAt(p, fields, i, v) && RunWrite(p, fields, WriteProgram(fields, k), v).Ok?
    ensures RunWrite(p, fields, WriteProgram(fields, k), v).value != []
    decreases i - k
  {
    hide RunStmt, WriteStmtOf, IsPacked;
    if IsPacked(fields[k]) {
      PackNotEmpty(p, fields, Indices(k, RunEnd(fields, k)), v);
    } else if k < i {
      assert WriteProgram(fields, k)[1..] == WriteProgram(fields, k + 1);
      StmtInside(p, fields, k + 1, i, v);
    }
  }

  /** In front of a run every earlier run writes a byte, and so does an unpacked field that writes. */
  lemma {:induction false} PrefixLong(p: Protocol, fields: seq<Field>, k: nat, i: nat, loud: nat, v: Value)
    requires StartsRun(fields, i) && k <= i && WritesAt(p, fields, loud, v) && !IsPacked(fields[loud])
    requires RunWrite(p, fields, StmtsBetween(fields, k, i), v).Ok?
    ensures |RunWrite(p, fields, StmtsBetween(fields, k, i), v).value| >=
            RunsBetween(fields, k, i) + if k <= loud < i then 1 else 0
    decreases i - k
  {
    hide RunStmt, IsPacked, WriteStmtOf;
    if k < i && IsPacked(fields[k]) {
      var end := RunEnd(fields, k);
      RunStaysBefore(fields, k, i);
      assert StmtsBetween(fields, k, i)[1..] == StmtsBetween(fields, end, i);
      PackNotEmpty(p, fields, Indices(k, end), v);
      PrefixLong(p, fields, end, i, loud, v);
    } else if k < i {
      assert StmtsBetween(fields, k, i)[1..] == StmtsBetween(fields, k + 1, i);
      PrefixLong(p, fields, k + 1, i, loud, v);
    }
  }

  // ---- The exact layouts ----

  lemma {:induction false} FirstLateRun(fields: seq<Field>, from: nat, i: nat) returns (start: nat)
    requires from < i < |fields| && IsPacked(fields[i]) && !IsPacked(fields[from])
    ensures from < start <= i && StartsRun(fields, start)
    decreases i
  {
    if IsPacked(fields[i - 1]) {
      start := FirstLateRun(fields, from, i - 1);
    } else {
      start := i;
    }
  }

  /** A run of more than eight aborts, wherever it is. */
  lemma LongRunFails(p: Protocol, name: string, v: Value, i: nat)
    requires StructConforms(p, name, v) && StartsRun(p.classes[name], i) && RunEnd(p.classes[name], i) - i > 8
    ensures Serialize(p, name, v).Err?
  {
    hide FieldConforms, IsPacked, StmtsBetween, PackFrom;
    var fields := p.classes[name];
    var group := Indices(i, RunEnd(fields, i));
    PackOverflows(v, group, 0, 0);
    assert WriteProgram(fields, i) != [] && WriteProgram(fields, i)[0] == PackFlags(group);
    assert RunWrite(p, fields, WriteProgram(fields, i), v).Err?;
    if Serialize(p, name, v).Ok? {
      ProgramSplits(fields, 0, i);
      RunWriteSplits(p, fields, StmtsBetween(fields, 0, i), WriteProgram(fields, i), v);
      assert false;
    }
  }

  lemma {:induction false} PackOverflows(v: Value, group: seq<nat>, bit: nat, flag: bv8)
    requires v.Struct? && |group| > 8 && bit <= 8
    ensures PackFrom(v, group, bit, flag).Err?
    decreases 8 - bit
  {
    if bit < 8 && group[bit] < |v.fields| && v.fields[group[bit]].Flag? {
      PackOverflows(v, group, bit + 1, SetFlag(flag, bit, v.fields[group[bit]].b).value);
    } else if group[bit] < |v.fields| && v.fields[group[bit]].Flag? {
      assert SetFlag(flag, bit, v.fields[group[bit]].b).Err?;
    }
  }

  lemma FlipConforms(p: Protocol, name: string, v: Value, i: nat)
    requires StructConforms(p, name, v) && i < |v.fields| && IsPacked(p.classes[name][i])
    ensures v.fields[i].Flag? && StructConforms(p, name, Flip(v, i))
  {
    hide IsPacked, Conforms;
    assert FieldConforms(p, p.classes[name][i], v.fields[i]);
    var w := Flip(v, i);
    forall k | 0 <= k < |w.fields| ensures FieldConforms(p, p.classes[name][k], w.fields[k]) {
      assert FieldConforms(p, p.classes[name][k], v.fields[k]);
    }
  }

  ghost predicate AllRoundTrip(p: Protocol, name: string)
    requires Resolved(p) && name in p.classes
  {
    forall v :: StructConforms(p, name, v) ==> RoundTrips(p, name, v, [])
  }

  /** Behind a field that writes, one of the two values of a packed boolean is lost. */
  lemma LateRunLosesValue(p: Protocol, scope: set<string>, name: string, v: Value, loud: nat, late: nat)
    requires SchemaOk(p, scope) && name in scope && StructConforms(p, name, v) && loud < late < |p.classes[name]|
    requires !IsPacked(p.classes[name][loud]) && IsPacked(p.classes[name][late]) && !SilentField(p, name, loud)
    ensures !AllRoundTrip(p, name)
  {
    hide SchemaOk, IsPacked, FieldConforms, SilentType, Deserialize, Serialize, StmtsBetween, RunsBetween, RunWrite,
      RunStmt, WriteStmtOf;
    var fields := p.classes[name];
    assert Resolved(p) by { ScopeResolved(p, scope); }
    var i := FirstLateRun(fields, loud, late);
    FlipConforms(p, name, v, i);
    if RunStmt(p, fields, WriteStmtOf(fields[loud].fieldType, loud), v).Ok? {
      LoudStmt(p, scope, name, loud, v);
    }
    if RunWrite(p, fields, StmtsBetween(fields, 0, i), v).Ok? {
      PrefixLong(p, fields, 0, i, loud, v);
    }
    LateFlagLost(p, name, v, i);
    assert !RoundTrips(p, name, v, []) || !RoundTrips(p, name, Flip(v, i), []);
  }

  lemma ScopeResolved(p: Protocol, scope: set<string>)
    requires SchemaOk(p, scope)
    ensures Resolved(p) && scope <= p.classes.Keys && scope <= p.rank.Keys
  {
    hide ClassResolved, VariantsResolved;
    forall m | m in scope ensures m in p.rank {
      assert m in p.classes;
    }
  }

  /** A class with any other layout loses a value. */
  lemma BadLayoutLosesValue(p: Protocol, scope: set<string>, name: string, v: Value)
    requires SchemaOk(p, scope) && name in scope && StructConforms(p, name, v) && !GoodLayout(p, name)
    ensures !AllRoundTrip(p, name)
  {
    hide SchemaOk, IsPacked, FieldConforms, SilentField, Deserialize, Serialize;
    ScopeResolved(p, scope);
    var fields := p.classes[name];
    if !RunsFit(fields) {
      var i :| StartsRun(fields, i) && RunEnd(fields, i) - i > 8;
      LongRunFails(p, name, v, i);
      assert !RoundTrips(p, name, v, []);
    } else {
      var loud, late :| 0 <= loud < late < |fields| && !IsPacked(fields[loud]) && IsPacked(fields[late]) &&
                        !SilentField(p, name, loud);
      LateRunLosesValue(p, scope, name, v, loud, late);
    }
  }

  lemma GoodLayoutRoundTrips(p: Protocol, scope: set<string>, name: string)
    requires ProtocolOk(p, scope) && name in scope
    ensures Resolved(p) && name in p.classes && AllRoundTrip(p, name)
  {
    hide ProtocolOk, RoundTrips, StructConforms;
    LayoutOf(p, scope, name);
    forall v | StructConforms(p, name, v) ensures RoundTrips(p, name, v, []) {
      StructBack(p, scope, name, v, []);
    }
  }

  /** Main result: with the other classes well laid out, every value of a class survives exactly when its runs fit
      their bytes and only fields that write nothing stand in front of packed booleans. */
  lemma LayoutDecidesRoundTrip(p: Protocol, scope: set<string>, name: string, example: Value)
    requires SchemaOk(p, scope) && name in scope && StructConforms(p, name, example)
    requires forall m :: m in scope && m != name ==> GoodLayout(p, m)
    ensures AllRoundTrip(p, name) <==> GoodLayout(p, name)
  {
    hide SchemaOk, GoodLayout, AllRoundTrip, StructConforms;
    ScopeResolved(p, scope);
    if GoodLayout(p, name) {
      AllGoodIsOk(p, scope);
      GoodLayoutRoundTrips(p, scope, name);
    } else {
      BadLayoutLosesValue(p, scope, name, example);
    }
  }

  /** A whole set of classes round-trips exactly when every class in it is well laid out. */
  lemma LayoutsDecideRoundTrips(p: Protocol, scope: set<string>, examples: map<string, Value>)
    requires SchemaOk(p, scope)
    requires forall m :: m in scope ==> m in examples && StructConforms(p, m, examples[m])
    ensures (forall m :: m in scope ==> AllRoundTrip(p, m)) <==> (forall m :: m in scope ==> GoodLayout(p, m))
  {
    hide SchemaOk, GoodLayout, AllRoundTrip, StructConforms;
    ScopeResolved(p, scope);
    forall m | m in scope && !GoodLayout(p, m) ensures !AllRoundTrip(p, m) {
      BadLayoutLosesValue(p, scope, m, examples[m]);
    }
    if forall m :: m in scope ==> GoodLayout(p, m) {
      AllGoodIsOk(p, scope);
      forall m | m in scope ensures AllRoundTrip(p, m) {
        GoodLayoutRoundTrips(p, scope, m);
      }
    }
  }

  lemma AllGoodIsOk(p: Protocol, scope: set<string>)
    requires SchemaOk(p, scope) && (forall m :: m in scope ==> m in p.classes && m in p.rank && GoodLayout(p, m))
    ensures ProtocolOk(p, scope)
  {
    hide GoodLayout, Resolved, AllVariantsOk, AllFieldsSupported;
  }
}
