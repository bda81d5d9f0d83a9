/** What a written D2I file gives back. */
module D2iRoundTrip {
  import opened Common
  import opened Binary
  import opened Sorting
  import opened D2i

  /** What survives of a string behind a 16-bit length prefix. */
  function Stored(s: Bytes): Bytes {
    s[..|s| % 0x1_0000]
  }

  lemma ReadUtfStored(b: Bytes, rest: Bytes)
    ensures ReadUtf(Utf(b) + rest).Ok? && ReadUtf(Utf(b) + rest).value.value == Stored(b)
  {
    hide BigEndian, FromBigEndian;
    Pow2Values();
    BigEndianRoundTrip(|b|, 2);
    var s := Utf(b) + rest;
    assert s[..2] == BigEndian(|b|, 2);
    assert s[2..] == b + rest;
    assert (b + rest)[..|b| % 0x1_0000] == Stored(b);
  }

  ghost predicate Holds<K(!new)>(data: Bytes, keys: seq<K>, texts: map<K, Bytes>, at: nat)
    requires Covers(keys, texts)
  {
    && at + |Strings(keys, texts)| <= |data|
    && data[at..][..|Strings(keys, texts)|] == Strings(keys, texts)
  }

  /** The string found at a key's offset. */
  lemma {:induction false} OffsetPoints<K(!new)>(data: Bytes, keys: seq<K>, texts: map<K, Bytes>, at: nat, k: K)
    requires Covers(keys, texts) && Holds(data, keys, texts, at) && k in keys
    ensures k in Offsets(keys, texts, at) && at <= Offsets(keys, texts, at)[k] < |data|
    ensures ReadStringAt(data, Offsets(keys, texts, at)[k]) == Ok(Stored(texts[k]))
  {
    hide ReadUtf, BigEndian, Stored;
    var first := Utf(texts[keys[0]]);
    var later := Strings(keys[1..], texts);
    var here := data[at..];
    assert here == first + (later + here[|first + later|..]);
    assert data[at + |first|..] == here[|first|..] == later + here[|first + later|..];
    if k == keys[0] {
      ReadUtfStored(texts[k], later + here[|first + later|..]);
    } else {
      OffsetPoints(data, keys[1..], texts, at + |first|, k);
    }
  }

  // ---- The sections ----

  ghost predicate Fit<K(!new)>(offsets: map<K, nat>) {
    forall k :: k in offsets ==> offsets[k] < 0x1_0000_0000
  }

  ghost function AddTexts(keys: seq<int>, texts: map<int, nat>, plain: map<int, nat>, acc: TextTables): TextTables
    requires Covers(keys, texts)
  {
    if keys == [] then acc
    else
      AddTexts(keys[1..], texts, plain,
               TextTables(acc.texts[keys[0] := texts[keys[0]]],
                          if keys[0] in plain then acc.plain[keys[0] := plain[keys[0]]] else acc.plain))
  }

  lemma TextEntryBack(key: int, texts: map<int, nat>, plain: map<int, nat>, rest: Bytes, left: int, acc: TextTables)
    requires key in texts && IsSigned(key, 32) && Fit(texts) && Fit(plain) && left > 0
    ensures ReadTexts(TextEntry(key, texts, plain) + rest, left, acc) ==
            ReadTexts(rest, left - |TextEntry(key, texts, plain)|,
                      TextTables(acc.texts[key := texts[key]],
                              if key in plain then acc.plain[key := plain[key]] else acc.plain))
  {
    hide BigEndian, ReadUnsigned, ReadSigned, IsSigned;
    Pow2Values();
    var mark: Bytes := [if key in plain then 1 else 0];
    var s2 := (if key in plain then BigEndian(plain[key], 4) else []) + rest;
    var s1 := BigEndian(texts[key], 4) + s2;
    assert TextEntry(key, texts, plain) + rest == BigEndian(key, 4) + (mark + s1);
    ReadSignedBack(key, 4, mark + s1);
    MarkBack(key in plain, s1);
    ReadUnsignedBack(texts[key], 4, s2);
    if key in plain {
      ReadUnsignedBack(plain[key], 4, rest);
    } else {
      assert s2 == rest;
    }
  }

  lemma MarkBack(b: bool, rest: Bytes)
    ensures ReadUnsigned([if b then 1 else 0] + rest, 1) == Ok(Parsed(if b then 1 else 0, rest))
  {
    var s := [if b then 1 else 0] + rest;
    assert s[..1] == [if b then 1 else 0] && s[1..] == rest;
    assert s[..1][..0] == [];
    assert FromBigEndian(s[..1]) == if b then 1 else 0;
  }

  lemma {:induction false} TextsBack(keys: seq<int>, texts: map<int, nat>, plain: map<int, nat>, rest: Bytes,
                                     acc: TextTables)
    requires Covers(keys, texts) && Fit(texts) && Fit(plain) && forall k :: k in keys ==> IsSigned(k, 32)
    ensures ReadTexts(TextIndex(keys, texts, plain) + rest, |TextIndex(keys, texts, plain)|, acc)
            == Ok(Parsed(AddTexts(keys, texts, plain, acc), rest))
  {
    hide ReadTexts, TextEntry, IsSigned;
    if keys == [] {
      assert [] + rest == rest;
      NoTexts(rest, acc);
    } else {
      var others := TextIndex(keys[1..], texts, plain);
      EntryTakesSpace(keys[0], texts, plain);
      TextEntryBack(keys[0], texts, plain, others + rest, |TextIndex(keys, texts, plain)|, acc);
      TextsBack(keys[1..], texts, plain, rest,
                TextTables(acc.texts[keys[0] := texts[keys[0]]],
                           if keys[0] in plain then acc.plain[keys[0] := plain[keys[0]]] else acc.plain));
      assert TextIndex(keys, texts, plain) + rest == TextEntry(keys[0], texts, plain) + (others + rest);
    }
  }

  lemma NoTexts(s: Bytes, acc: TextTables)
    ensures ReadTexts(s, 0, acc) == Ok(Parsed(acc, s))
  {
  }

  lemma EntryTakesSpace(key: int, texts: map<int, nat>, plain: map<int, nat>)
    requires key in texts
    ensures |TextEntry(key, texts, plain)| > 0
  {
  }

  lemma SameMap(a: map<int, int>, b: map<int, int>)
    requires forall k :: k in a ==> k in b && a[k] == b[k]
    requires forall k :: k in b ==> k in a
    ensures a == b
  {
    forall k ensures k in a <==> k in b {
    }
    assert a.Keys == b.Keys;
    forall k | k in a ensures a[k] == b[k] {
    }
  }

  lemma {:induction false} AddTextsIsAll(keys: seq<int>, texts: map<int, nat>, plain: map<int, nat>, acc: TextTables)
    requires Covers(keys, texts)
    requires forall k :: k in acc.texts ==> k in texts && acc.texts[k] == texts[k]
    requires forall k :: k in acc.plain ==> k in plain && acc.plain[k] == plain[k]
    requires forall k :: k in texts ==> k in acc.texts || k in keys
    requires forall k :: k in plain ==> k in acc.plain || k in keys
    ensures AddTexts(keys, texts, plain, acc) == TextTables(texts, plain)
  {
    if keys == [] {
      SameMap(acc.texts, texts);
      SameMap(acc.plain, plain);
    } else {
      AddTextsIsAll(keys[1..], texts, plain,
                    TextTables(acc.texts[keys[0] := texts[keys[0]]],
                               if keys[0] in plain then acc.plain[keys[0] := plain[keys[0]]] else acc.plain));
    }
  }

  ghost predicate ShortNames(names: seq<Bytes>) {
    forall n :: n in names ==> |n| < 0x1_0000
  }

  lemma NameEntryBack(name: Bytes, offset: nat, rest: Bytes, left: int, acc: map<Bytes, nat>)
    requires |name| < 0x1_0000 && offset < 0x1_0000_0000 && left > 0
    ensures ReadNames(Utf(name) + BigEndian(offset, 4) + rest, left, acc) ==
            ReadNames(rest, left - |Utf(name) + BigEndian(offset, 4)|, acc[name := offset])
  {
    hide BigEndian, ReadUnsigned, Utf, ReadUtf;
    Pow2Values();
    ReadUtfBack(name, BigEndian(offset, 4) + rest);
    ReadUnsignedBack(offset, 4, rest);
    assert Utf(name) + BigEndian(offset, 4) + rest == Utf(name) + (BigEndian(offset, 4) + rest);
  }

  lemma NoNames(s: Bytes, acc: map<Bytes, nat>, offsets: map<Bytes, nat>)
    ensures NameIndex([], offsets) == []
    ensures ReadNames([] + s, 0, acc) == Ok(Parsed(acc, s))
  {
    assert [] + s == s;
  }

  /** The names section read back onto acc. */
  lemma {:induction false} NamesBack(names: seq<Bytes>, offsets: map<Bytes, nat>, rest: Bytes, acc: map<Bytes, nat>)
    requires Covers(names, offsets) && Fit(offsets) && ShortNames(names)
    requires forall n :: n in acc ==> n in offsets && acc[n] == offsets[n]
    requires forall n :: n in offsets ==> n in acc || n in names
    ensures ReadNames(NameIndex(names, offsets) + rest, |NameIndex(names, offsets)|, acc) == Ok(Parsed(offsets, rest))
  {
    hide BigEndian, Utf, ReadNames, NameIndex;
    if names == [] {
      assert acc == offsets;
      NoNames(rest, acc, offsets);
    } else {
      var n, others := names[0], NameIndex(names[1..], offsets);
      NameIndexStep(names, offsets, rest);
      NameEntryBack(n, offsets[n], others + rest, |NameIndex(names, offsets)|, acc);
      NamesBack(names[1..], offsets, rest, acc[n := offsets[n]]);
    }
  }

  lemma NameIndexStep(names: seq<Bytes>, offsets: map<Bytes, nat>, rest: Bytes)
    requires Covers(names, offsets) && names != []
    ensures var entry, others := Utf(names[0]) + BigEndian(offsets[names[0]], 4), NameIndex(names[1..], offsets);
            && NameIndex(names, offsets) + rest == entry + (others + rest)
            && |NameIndex(names, offsets)| == |entry| + |others| && |entry| > 0
  {
    hide BigEndian;
  }

  ghost function Positions(keys: seq<int>, counter: int, acc: map<int, int>): map<int, int> {
    if keys == [] then acc else Positions(keys[1..], counter + 1, acc[keys[0] := counter])
  }

  lemma {:induction false} SortsBack(keys: seq<int>, rest: Bytes, counter: int, acc: map<int, int>)
    requires forall k :: k in keys ==> IsSigned(k, 32)
    ensures |SortIndex(keys)| == 4 * |keys|
    ensures ReadSorts(SortIndex(keys) + rest, 4 * |keys|, counter, acc) ==
            Ok(Parsed(Positions(keys, counter, acc), rest))
  {
    hide BigEndian, ReadSigned, IsSigned;
    if keys == [] {
      assert [] + rest == rest;
    } else {
      var others := SortIndex(keys[1..]) + rest;
      SortsBack(keys[1..], rest, counter + 1, acc[keys[0] := counter]);
      ReadSignedBack(keys[0], 4, others);
      assert SortIndex(keys) + rest == BigEndian(keys[0], 4) + others;
    }
  }

  lemma {:induction false} PositionsKeys(keys: seq<int>, counter: int, acc: map<int, int>)
    ensures forall k :: k in Positions(keys, counter, acc) <==> k in acc || k in keys
    ensures forall k :: k in acc && k !in keys ==> Positions(keys, counter, acc)[k] == acc[k]
  {
    if keys != [] {
      PositionsKeys(keys[1..], counter + 1, acc[keys[0] := counter]);
    }
  }

  lemma {:induction false} PositionAt(keys: seq<int>, counter: int, acc: map<int, int>, i: nat)
    requires i < |keys| && forall a, b :: 0 <= a < b < |keys| ==> keys[a] != keys[b]
    ensures keys[i] in Positions(keys, counter, acc) && Positions(keys, counter, acc)[keys[i]] == counter + i
  {
    if i == 0 {
      PositionsKeys(keys[1..], counter + 1, acc[keys[0] := counter]);
    } else {
      PositionAt(keys[1..], counter + 1, acc[keys[0] := counter], i - 1);
    }
  }

  ghost function Ranks(keys: set<int>): map<int, int> {
    map k | k in keys :: |set j | j in keys && j < k|
  }

  /** Sort positions are ranks. */
  lemma PositionsAreRanks(keys: seq<int>, all: set<int>)
    requires Lists(keys, all) && Sorted(keys, IntLeq)
    ensures Positions(keys, 0, map[]) == Ranks(all)
  {
    hide Positions;
    PositionsKeys(keys, 0, map[]);
    var found := Positions(keys, 0, map[]);
    forall k | k in found ensures k in Ranks(all) && found[k] == Ranks(all)[k] {
      var i :| 0 <= i < |keys| && keys[i] == k;
      PositionAt(keys, 0, map[], i);
      PositionIsRank(keys, all, i);
    }
    SameMap(found, Ranks(all));
  }

  // ---- The whole file ----

  ghost predicate FileOk(f: Source) {
    && SourceOk(f)
    && (forall k :: k in f.keys ==> IsSigned(k, 32))
    && |EncodeTexts(f)| < 0x8000_0000
  }

  /** The body is where the offset tables say. */
  lemma BodyHolds(f: Source)
    requires FileOk(f)
    ensures var data := EncodeTexts(f);
            var at1 := 4 + |Strings(f.keys, f.texts)|;
            var at2 := at1 + |Strings(Marked(f.keys, f.plain), f.plain)|;
            && Holds(data, f.keys, f.texts, 4)
            && Holds(data, Marked(f.keys, f.plain), f.plain, at1)
            && Holds(data, f.names, f.named, at2)
  {
    hide Strings, Marked, Sections, Tables, BigEndian, Lists, IsSigned;
    TablesComplete(f);
    var data := EncodeTexts(f);
    var s1, s2, s3 := Strings(f.keys, f.texts), Strings(Marked(f.keys, f.plain), f.plain), Strings(f.names, f.named);
    assert data[4..][..|s1|] == s1;
    assert data[4 + |s1|..][..|s2|] == s2;
    assert data[4 + |s1| + |s2|..][..|s3|] == s3;
  }

  lemma {:induction false} OffsetsFit<K(!new)>(data: Bytes, keys: seq<K>, texts: map<K, Bytes>, at: nat)
    requires Covers(keys, texts) && Holds(data, keys, texts, at) && |data| < 0x1_0000_0000
    ensures Fit(Offsets(keys, texts, at))
  {
    hide Holds, Offsets, Strings;
    OffsetKeys(keys, texts, at);
    forall k | k in Offsets(keys, texts, at) ensures Offsets(keys, texts, at)[k] < 0x1_0000_0000 {
      OffsetPoints(data, keys, texts, at, k);
    }
  }

  lemma TablesFit(f: Source)
    requires FileOk(f)
    ensures Fit(Tables(f).0) && Fit(Tables(f).1) && Fit(Tables(f).2)
  {
    hide Holds, Offsets, Strings, Marked, EncodeTexts, Lists, IsSigned, Fit;
    BodyHolds(f);
    var at1 := 4 + |Strings(f.keys, f.texts)|;
    var at2 := at1 + |Strings(Marked(f.keys, f.plain), f.plain)|;
    OffsetsFit(EncodeTexts(f), f.keys, f.texts, 4);
    OffsetsFit(EncodeTexts(f), Marked(f.keys, f.plain), f.plain, at1);
    OffsetsFit(EncodeTexts(f), f.names, f.named, at2);
  }

  lemma {:induction false} MarkedKeys(keys: seq<int>, plain: map<int, Bytes>)
    ensures forall k :: k in Marked(keys, plain) <==> k in keys && k in plain
  {
    if keys != [] {
      MarkedKeys(keys[1..], plain);
    }
  }

  /** The tables hold the keys of the maps; variants of unknown ids are not in them. */
  lemma TableKeys(f: Source)
    requires SourceOk(f)
    ensures forall k :: k in Tables(f).0 <==> k in f.texts
    ensures forall k :: k in Tables(f).1 <==> k in f.texts && k in f.plain
    ensures forall n :: n in Tables(f).2 <==> n in f.named
  {
    hide Offsets, Strings, Marked, Sorted;
    var at1 := 4 + |Strings(f.keys, f.texts)|;
    OffsetKeys(f.keys, f.texts, 4);
    OffsetKeys(Marked(f.keys, f.plain), f.plain, at1);
    OffsetKeys(f.names, f.named, at1 + |Strings(Marked(f.keys, f.plain), f.plain)|);
    MarkedKeys(f.keys, f.plain);
    assert forall k :: k in f.keys <==> k in f.texts.Keys;
    assert forall n :: n in f.names <==> n in f.named.Keys;
  }

  lemma LengthBack(n: nat, rest: Bytes)
    requires n < 0x8000_0000
    ensures ReadLength(BigEndian(n, 4) + rest) == Ok(Parsed(n, rest))
  {
    Pow2Values();
    ReadSignedBack(n, 4, rest);
  }

  /** Three sections behind each other, each read back whole. */
  lemma SectionsBack(i1: Bytes, i2: Bytes, i3: Bytes, t: TextTables, named: map<Bytes, nat>, sorts: map<int, int>)
    requires |i1| < 0x8000_0000 && |i2| < 0x8000_0000 && |i3| < 0x8000_0000
    requires ReadTexts(i1 + (Sized(i2) + Sized(i3)), |i1|, TextTables(map[], map[])) ==
            Ok(Parsed(t, Sized(i2) + Sized(i3)))
    requires ReadNames(i2 + Sized(i3), |i2|, map[]) == Ok(Parsed(named, Sized(i3)))
    requires ReadSorts(i3, |i3|, 0, map[]) == Ok(Parsed(sorts, []))
    ensures ReadSections(Sized(i1) + (Sized(i2) + Sized(i3))) == Ok((t, named, sorts))
  {
    hide Sized, ReadLength, ReadTexts, ReadNames, ReadSorts;
    SizedBack(i1, Sized(i2) + Sized(i3));
    SizedBack(i2, Sized(i3));
    SizedBack(i3, []);
    assert Sized(i3) + [] == Sized(i3) && i3 + [] == i3;
  }

  lemma SizedBack(s: Bytes, rest: Bytes)
    requires |s| < 0x8000_0000
    ensures ReadLength(Sized(s) + rest) == Ok(Parsed(|s|, s + rest))
  {
    hide BigEndian, ReadLength;
    LengthBack(|s|, s + rest);
    assert Sized(s) + rest == BigEndian(|s|, 4) + (s + rest);
  }

  /** The three sections behind the pointer give back the tables and the ranks. */
  lemma SectionsRead(f: Source)
    requires FileOk(f) && ShortNames(f.names)
    requires Covers(f.keys, Tables(f).0) && Covers(f.names, Tables(f).2) && |Sections(f, Tables(f))| < 0x8000_0000
    ensures ReadSections(Sections(f, Tables(f))) ==
            Ok((TextTables(Tables(f).0, Tables(f).1), Tables(f).2, Ranks(f.texts.Keys)))
  {
    hide BigEndian, ReadTexts, ReadNames, ReadSorts, ReadSections, TextIndex, NameIndex, SortIndex, Tables, EncodeTexts,
      AddTexts, Positions, Ranks, IsSigned, Fit;
    var (texts, plain, named) := Tables(f);
    TablesFit(f);
    TableKeys(f);
    assert forall k :: k in f.keys <==> k in f.texts.Keys;
    assert forall n :: n in f.names <==> n in f.named.Keys;
    var i1, i2, i3 := TextIndex(f.keys, texts, plain), NameIndex(f.names, named), SortIndex(f.keys);
    TextsBack(f.keys, texts, plain, Sized(i2) + Sized(i3), TextTables(map[], map[]));
    AddTextsIsAll(f.keys, texts, plain, TextTables(map[], map[]));
    NamesBack(f.names, named, Sized(i3), map[]);
    SortsBack(f.keys, [], 0, map[]);
    assert i3 + [] == i3;
    PositionsAreRanks(f.keys, f.texts.Keys);
    SectionsBack(i1, i2, i3, TextTables(texts, plain), named, Ranks(f.texts.Keys));
  }

  /** The reader recovers the offset tables and the sort positions. */
  lemma TablesRead(f: Source)
    requires FileOk(f) && ShortNames(f.names)
    ensures FromBytes(EncodeTexts(f)) ==
            Ok(Reader(EncodeTexts(f), Tables(f).0, Tables(f).1, Tables(f).2, Ranks(f.texts.Keys)))
  {
    hide BigEndian, ReadSigned, ReadSections, Sections, Tables, Ranks, Body, SourceOk;
    TablesComplete(f);
    var data, tail := EncodeTexts(f), Sections(f, Tables(f));
    Pow2Values();
    assert data == BigEndian(4 + |Body(f)|, 4) + (Body(f) + tail);
    ReadSignedBack(4 + |Body(f)|, 4, Body(f) + tail);
    assert At(data, 4 + |Body(f)|) == tail;
    SectionsRead(f);
  }

  /** What the lookups return: every string cut to its length modulo 2^16, variants only for known ids. */
  lemma LookupsReturn(f: Source)
    requires FileOk(f) && ShortNames(f.names)
    ensures FromBytes(EncodeTexts(f)).Ok?
    ensures var r := FromBytes(EncodeTexts(f)).value;
            && r.texts.Keys == f.texts.Keys && r.named.Keys == f.named.Keys && r.sorts == Ranks(f.texts.Keys)
            && (forall k :: k in f.texts ==> GetText(r, k) == Ok(Stored(f.texts[k])))
            && (forall k :: k in f.texts && k in f.plain ==> GetUndiacriticalText(r, k) == Ok(Some(Stored(f.plain[k]))))
            && (forall k :: k !in f.texts || k !in f.plain ==> GetUndiacriticalText(r, k) == Ok(None))
            && (forall n :: n in f.named ==> GetNamedText(r, n) == Ok(Stored(f.named[n])))
  {
    hide FromBytes, EncodeTexts, ReadStringAt, Stored, Offsets, Strings, Marked, Holds, Ranks, IsSigned, Sorted;
    TablesRead(f);
    TableKeys(f);
    BodyHolds(f);
    var r := FromBytes(EncodeTexts(f)).value;
    forall k ensures k in r.texts <==> k in f.texts {
    }
    assert r.texts.Keys == f.texts.Keys && r.named.Keys == f.named.Keys;
    var at1 := 4 + |Strings(f.keys, f.texts)|;
    var at2 := at1 + |Strings(Marked(f.keys, f.plain), f.plain)|;
    forall k | k in f.texts ensures GetText(r, k) == Ok(Stored(f.texts[k])) {
      assert k in f.texts.Keys;
      OffsetPoints(r.data, f.keys, f.texts, 4, k);
    }
    forall k | k in f.texts && k in f.plain ensures GetUndiacriticalText(r, k) == Ok(Some(Stored(f.plain[k]))) {
      assert k in f.texts.Keys;
      MarkedKeys(f.keys, f.plain);
      OffsetPoints(r.data, Marked(f.keys, f.plain), f.plain, at1, k);
    }
    forall n | n in f.named ensures GetNamedText(r, n) == Ok(Stored(f.named[n])) {
      assert n in f.named.Keys;
      OffsetPoints(r.data, f.names, f.named, at2, n);
    }
  }

  // ---- When nothing is lost ----

  /** The reader returns exactly the three maps, and each id's sort position is its rank among the ids. */
  ghost predicate Recovered(r: Result<Reader>, f: Source) {
    && r.Ok?
    && r.value.texts.Keys == f.texts.Keys && r.value.named.Keys == f.named.Keys && r.value.sorts == Ranks(f.texts.Keys)
    && (forall k :: k in f.texts ==> GetText(r.value, k) == Ok(f.texts[k]))
    && (forall k :: GetUndiacriticalText(r.value, k) == Ok(if k in f.plain then Some(f.plain[k]) else None))
    && (forall n :: n in f.named ==> GetNamedText(r.value, n) == Ok(f.named[n]))
  }

  ghost predicate ShortTexts(f: Source) {
    && (forall k :: k in f.texts ==> |f.texts[k]| < 0x1_0000)
    && (forall k :: k in f.plain ==> |f.plain[k]| < 0x1_0000)
    && (forall n :: n in f.named ==> |f.named[n]| < 0x1_0000)
  }

  lemma StringsAreShort(data: Bytes, offset: nat)
    requires ReadStringAt(data, offset).Ok?
    ensures |ReadStringAt(data, offset).value| < 0x1_0000
  {
    ReadUtfShort(At(data, offset));
  }

  lemma {:induction false} NamesAreShort(s: Bytes, left: int, acc: map<Bytes, nat>)
    requires ReadNames(s, left, acc).Ok?
    ensures forall n :: n in ReadNames(s, left, acc).value.value && n !in acc ==> |n| < 0x1_0000
    decreases |s|
  {
    hide ReadUnsigned, ReadUtf;
    if left > 0 {
      var name := ReadUtf(s).value;
      ReadUtfShort(s);
      var pointer := ReadUnsigned(name.rest, 4).value;
      Shrinks(s);
      NamesAreShort(pointer.rest, left - (|s| - |pointer.rest|), acc[name.value := pointer.value]);
    }
  }

  lemma Shrinks(s: Bytes)
    requires ReadUtf(s).Ok? && ReadUnsigned(ReadUtf(s).value.rest, 4).Ok?
    ensures |ReadUnsigned(ReadUtf(s).value.rest, 4).value.rest| < |s|
  {
  }

  lemma {:induction false} MarksAreIds(s: Bytes, left: int, acc: TextTables)
    requires ReadTexts(s, left, acc).Ok? && acc.plain.Keys <= acc.texts.Keys
    ensures ReadTexts(s, left, acc).value.value.plain.Keys <= ReadTexts(s, left, acc).value.value.texts.Keys
    decreases |s|
  {
    if left > 0 {
      var key := ReadSigned(s, 4).value;
      var mark := ReadUnsigned(key.rest, 1).value;
      var pointer := ReadUnsigned(mark.rest, 4).value;
      var texts := acc.texts[key.value := pointer.value];
      if mark.value == 0 {
        MarksAreIds(pointer.rest, left - (|s| - |pointer.rest|), TextTables(texts, acc.plain));
      } else {
        var other := ReadUnsigned(pointer.rest, 4).value;
        MarksAreIds(other.rest, left - (|s| - |other.rest|), TextTables(texts, acc.plain[key.value := other.value]));
      }
    }
  }

  /** Whatever the bytes, a reader holds short names only, and variants only of known ids. */
  lemma ReaderLimits(data: Bytes)
    requires FromBytes(data).Ok?
    ensures forall n :: n in FromBytes(data).value.named ==> |n| < 0x1_0000
    ensures FromBytes(data).value.plain.Keys <= FromBytes(data).value.texts.Keys
  {
    hide ReadTexts, ReadNames, ReadSorts, ReadLength;
    var pointer := ReadSigned(data, 4).value;
    var n1 := ReadLength(At(data, pointer.value)).value;
    MarksAreIds(n1.rest, n1.value, TextTables(map[], map[]));
    var texts := ReadTexts(n1.rest, n1.value, TextTables(map[], map[])).value;
    var n2 := ReadLength(texts.rest).value;
    NamesAreShort(n2.rest, n2.value, map[]);
  }

  /** Main result: everything is recovered exactly when all strings and names fit their prefix and every variant has
      a text. */
  lemma TextsRoundTrip(f: Source)
    requires FileOk(f)
    ensures Recovered(FromBytes(EncodeTexts(f)), f) <==>
            ShortNames(f.names) && ShortTexts(f) && f.plain.Keys <= f.texts.Keys
  {
    hide FromBytes, EncodeTexts, Stored, GetText, GetUndiacriticalText, GetNamedText, Ranks, SourceOk, ShortNames;
    if ShortNames(f.names) && ShortTexts(f) && f.plain.Keys <= f.texts.Keys {
      LookupsReturn(f);
      NothingCut(f);
      assert forall k :: k in f.plain ==> k in f.texts.Keys;
    }
    if Recovered(FromBytes(EncodeTexts(f)), f) {
      ReaderLimits(EncodeTexts(f));
      RecoveredFits(FromBytes(EncodeTexts(f)).value, f);
    }
  }

  lemma NothingCut(f: Source)
    requires ShortTexts(f)
    ensures forall k :: k in f.texts ==> Stored(f.texts[k]) == f.texts[k]
    ensures forall k :: k in f.plain ==> Stored(f.plain[k]) == f.plain[k]
    ensures forall n :: n in f.named ==> Stored(f.named[n]) == f.named[n]
  {
  }

  lemma RecoveredFits(r: Reader, f: Source)
    requires SourceOk(f) && Recovered(Ok(r), f)
    requires (forall n :: n in r.named ==> |n| < 0x1_0000) && r.plain.Keys <= r.texts.Keys
    ensures ShortNames(f.names) && ShortTexts(f) && f.plain.Keys <= f.texts.Keys
  {
    hide Ranks, Sorted, ReadStringAt;
    forall k | k in f.texts ensures |f.texts[k]| < 0x1_0000 {
      assert GetText(r, k) == Ok(f.texts[k]);
      StringsAreShort(r.data, r.texts[k]);
    }
    forall k | k in f.plain ensures |f.plain[k]| < 0x1_0000 && k in f.texts.Keys {
      assert GetUndiacriticalText(r, k) == Ok(Some(f.plain[k]));
      assert k in r.plain.Keys;
      StringsAreShort(r.data, r.plain[k]);
    }
    forall n | n in f.named ensures |f.named[n]| < 0x1_0000 {
      assert GetNamedText(r, n) == Ok(f.named[n]);
      StringsAreShort(r.data, r.named[n]);
    }
    assert forall n :: n in f.names <==> n in f.named.Keys;
  }

  // ---- Section lengths that no writer produces ----

  lemma NegativeLengthRefused(n: int, rest: Bytes)
    requires -0x8000_0000 <= n < 0
    ensures ReadLength(BigEndian(n, 4) + rest) == Err
  {
    hide BigEndian, ReadSigned, Pow2;
    Pow2Values();
    ReadSignedBack(n, 4, rest);
  }

  /** An entry that has begun is read to its end: a length is rounded up to whole ids. */
  lemma {:induction false} SortsRounded(s: Bytes, left: int, counter: int, acc: map<int, int>)
    ensures ReadSorts(s, left, counter, acc) == ReadSorts(s, (left + 3) / 4 * 4, counter, acc)
    decreases |s|
  {
    hide ReadSigned;
    if left > 0 && ReadSigned(s, 4).Ok? {
      ShorterRest(s);
      assert (left - 4 + 3) / 4 * 4 == (left + 3) / 4 * 4 - 4;
      var id := ReadSigned(s, 4).value;
      SortsRounded(id.rest, left - 4, counter + 1, acc[id.value := counter]);
    }
  }

  lemma ShorterRest(s: Bytes)
    requires ReadSigned(s, 4).Ok?
    ensures |ReadSigned(s, 4).value.rest| < |s|
  {
  }

  /** Any mark but zero announces the offset of a variant. */
  lemma MarkedEntry(key: int, mark: Byte, pointer: nat, other: nat, rest: Bytes, left: int, acc: TextTables)
    requires -0x8000_0000 <= key < 0x8000_0000 && pointer < 0x1_0000_0000 && other < 0x1_0000_0000 && left > 0
    ensures var s := BigEndian(key, 4) + ([mark] + (BigEndian(pointer, 4) + (BigEndian(other, 4) + rest)));
            var texts := acc.texts[key := pointer];
            ReadTexts(s, left, acc) ==
            if mark == 0 then ReadTexts(BigEndian(other, 4) + rest, left - 9, TextTables(texts, acc.plain))
            else ReadTexts(rest, left - 13, TextTables(texts, acc.plain[key := other]))
  {
    hide BigEndian, ReadSigned, ReadUnsigned, Pow2;
    Pow2Values();
    var behind := BigEndian(other, 4) + rest;
    ReadSignedBack(key, 4, [mark] + (BigEndian(pointer, 4) + behind));
    OneByteBack(mark, BigEndian(pointer, 4) + behind);
    ReadUnsignedBack(pointer, 4, behind);
    ReadUnsignedBack(other, 4, rest);
  }
}
