/** The D2I writer and reader as they run: one growing buffer, offset maps filled in loops, the pointer patched last. */
module D2iIO {
  import opened Common
  import opened Binary
  import opened ByteIO
  import opened Sorting
  import opened D2i

  ghost predicate Distinct<K(!new)>(keys: seq<K>) {
    forall i, j :: 0 <= i < j < |keys| ==> keys[i] != keys[j]
  }

  /** The strings of the keys in order; the map receives where each one starts. */
  method WriteStrings<K(==,!new)>(w: OutCursor, keys: seq<K>, texts: map<K, Bytes>) returns (offsets: map<K, nat>)
    requires w.AtEnd() && Covers(keys, texts) && Distinct(keys)
    modifies w
    ensures w.AtEnd() && w.buf == old(w.buf) + Strings(keys, texts)
    ensures offsets == Offsets(keys, texts, old(w.pos))
  {
    hide Utf, StringsPending, Strings, Offsets;
    offsets := map[];
    assert keys[0..] == keys;
    StringsStart(w.buf, keys, texts);
    for i := 0 to |keys|
      invariant w.AtEnd() && forall k :: k in offsets ==> k in keys[..i]
      invariant StringsPending(old(w.buf), old(w.pos), keys, texts, w.buf, offsets, keys[i..])
    {
      var k := keys[i];
      NewKey(keys, i);
      assert keys[i..] == [k] + keys[i + 1..];
      StringsStep(old(w.buf), old(w.pos), keys, texts, w.buf, offsets, k, keys[i + 1..]);
      var offset := w.pos;
      w.WriteUtf(texts[k]);
      offsets := offsets[k := offset];
    }
    assert keys[|keys|..] == [];
    StringsDone(old(w.buf), old(w.pos), keys, texts, w.buf, offsets);
  }

  lemma MergeStep<K(!new)>(later: map<K, nat>, found: map<K, nat>, k: K, offset: nat)
    requires k !in found
    ensures later[k := offset] + found == later + found[k := offset]
  {
  }

  /** What is still to come when the strings of later keys are missing. */
  ghost predicate StringsPending<K(!new)>(before: Bytes, at: nat, all: seq<K>, texts: map<K, Bytes>,
                                          buf: Bytes, offsets: map<K, nat>, later: seq<K>)
    requires Covers(all, texts) && Covers(later, texts)
  {
    && buf + Strings(later, texts) == before + Strings(all, texts)
    && Offsets(later, texts, |buf|) + offsets == Offsets(all, texts, at)
  }

  lemma StringsStep<K(!new)>(before: Bytes, at: nat, all: seq<K>, texts: map<K, Bytes>, buf: Bytes,
                             offsets: map<K, nat>, k: K, later: seq<K>)
    requires k in texts && Covers(all, texts) && Covers(later, texts) && k !in offsets
    requires StringsPending(before, at, all, texts, buf, offsets, [k] + later)
    ensures StringsPending(before, at, all, texts, buf + Utf(texts[k]), offsets[k := |buf|], later)
  {
    hide Utf;
    assert ([k] + later)[1..] == later;
    assert buf + (Utf(texts[k]) + Strings(later, texts)) == buf + Utf(texts[k]) + Strings(later, texts);
    MergeStep(Offsets(later, texts, |buf + Utf(texts[k])|), offsets, k, |buf|);
  }

  lemma StringsStart<K(!new)>(buf: Bytes, all: seq<K>, texts: map<K, Bytes>)
    requires Covers(all, texts)
    ensures StringsPending(buf, |buf|, all, texts, buf, map[], all)
  {
    hide Offsets, Strings;
    assert Offsets(all, texts, |buf|) + map[] == Offsets(all, texts, |buf|);
  }

  lemma StringsDone<K(!new)>(before: Bytes, at: nat, all: seq<K>, texts: map<K, Bytes>, buf: Bytes,
                             offsets: map<K, nat>)
    requires Covers(all, texts) && StringsPending(before, at, all, texts, buf, offsets, [])
    ensures buf == before + Strings(all, texts) && offsets == Offsets(all, texts, at)
  {
    assert buf + [] == buf;
    assert map[] + offsets == offsets;
  }

  /** The same for the variants: the ids are the texts' ids, those without a variant are passed over. */
  method WriteVariants(w: OutCursor, keys: seq<int>, plain: map<int, Bytes>) returns (offsets: map<int, nat>)
    requires w.AtEnd() && Distinct(keys)
    modifies w
    ensures w.AtEnd() && w.buf == old(w.buf) + Strings(Marked(keys, plain), plain)
    ensures offsets == Offsets(Marked(keys, plain), plain, old(w.pos))
  {
    hide Utf, StringsPending, Marked, Strings, Offsets;
    offsets := map[];
    ghost var all := Marked(keys, plain);
    StringsStart(w.buf, all, plain);
    for i := 0 to |keys|
      invariant w.AtEnd() && forall k :: k in offsets ==> k in keys[..i]
      invariant StringsPending(old(w.buf), old(w.pos), all, plain, w.buf, offsets, Marked(keys[i..], plain))
    {
      var k := keys[i];
      MarkedStep(keys, i, plain);
      NewKey(keys, i);
      if k in plain {
        StringsStep(old(w.buf), old(w.pos), all, plain, w.buf, offsets, k, Marked(keys[i + 1..], plain));
        var offset := w.pos;
        w.WriteUtf(plain[k]);
        offsets := offsets[k := offset];
      }
    }
    NoneMarked(plain);
    assert keys[|keys|..] == [];
    StringsDone(old(w.buf), old(w.pos), all, plain, w.buf, offsets);
  }

  lemma NewKey<K(!new)>(keys: seq<K>, i: nat)
    requires i < |keys| && Distinct(keys)
    ensures keys[i] !in keys[..i] && forall k :: k in keys[..i + 1] <==> k in keys[..i] || k == keys[i]
  {
    assert keys[..i + 1] == keys[..i] + [keys[i]];
  }

  lemma NoneMarked(plain: map<int, Bytes>)
    ensures Marked([], plain) == []
  {
  }

  lemma MarkedStep(keys: seq<int>, i: nat, plain: map<int, Bytes>)
    requires i < |keys|
    ensures keys[i] !in plain ==> Marked(keys[i..], plain) == Marked(keys[i + 1..], plain)
    ensures keys[i] in plain ==> Marked(keys[i..], plain) == [keys[i]] + Marked(keys[i + 1..], plain)
    ensures keys[i] in plain ==> Marked(keys[i..], plain)[1..] == Marked(keys[i + 1..], plain)
  {
    assert keys[i..][1..] == keys[i + 1..];
  }

  method WriteTextIndex(keys: seq<int>, texts: map<int, nat>, plain: map<int, nat>) returns (section: Bytes)
    requires Covers(keys, texts)
    ensures section == TextIndex(keys, texts, plain)
  {
    hide BigEndian;
    var ic := new OutCursor();
    for i := 0 to |keys|
      invariant ic.AtEnd() && ic.buf + TextIndex(keys[i..], texts, plain) == TextIndex(keys, texts, plain)
    {
      assert keys[i..][1..] == keys[i + 1..];
      var key := keys[i];
      ghost var buf, later := ic.buf, TextIndex(keys[i + 1..], texts, plain);
      ic.WriteAll(BigEndian(key, 4));
      var hasDiacritical := key in plain;
      ic.WriteAll([if hasDiacritical then 1 else 0]);
      ic.WriteAll(BigEndian(texts[key], 4));
      if hasDiacritical {
        ic.WriteAll(BigEndian(plain[key], 4));
      }
      assert ic.buf == buf + TextEntry(key, texts, plain);
      assert buf + (TextEntry(key, texts, plain) + later) == ic.buf + later;
    }
    return ic.buf;
  }

  method WriteNameIndex(names: seq<Bytes>, offsets: map<Bytes, nat>) returns (section: Bytes)
    requires Covers(names, offsets)
    ensures section == NameIndex(names, offsets)
  {
    hide BigEndian, Utf;
    var nc := new OutCursor();
    for i := 0 to |names|
      invariant nc.AtEnd() && nc.buf + NameIndex(names[i..], offsets) == NameIndex(names, offsets)
    {
      assert names[i..][1..] == names[i + 1..];
      ghost var buf, later := nc.buf, NameIndex(names[i + 1..], offsets);
      ghost var entry := Utf(names[i]) + BigEndian(offsets[names[i]], 4);
      nc.WriteUtf(names[i]);
      nc.WriteAll(BigEndian(offsets[names[i]], 4));
      assert buf + (entry + later) == nc.buf + later;
    }
    return nc.buf;
  }

  method WriteSorts(w: OutCursor, keys: seq<int>)
    requires w.AtEnd()
    modifies w
    ensures w.AtEnd() && w.buf == old(w.buf) + Sized(SortIndex(keys))
  {
    hide BigEndian;
    SortSize(keys);
    w.WriteAll(BigEndian(4 * |keys|, 4));
    ghost var before := w.buf;
    for i := 0 to |keys|
      invariant w.AtEnd() && w.buf + SortIndex(keys[i..]) == before + SortIndex(keys)
    {
      assert keys[i..][1..] == keys[i + 1..];
      ghost var buf, later := w.buf, SortIndex(keys[i + 1..]);
      w.WriteAll(BigEndian(keys[i], 4));
      assert buf + (BigEndian(keys[i], 4) + later) == w.buf + later;
    }
    assert old(w.buf) + (BigEndian(4 * |keys|, 4) + SortIndex(keys)) == before + SortIndex(keys);
  }

  lemma {:induction false} SortSize(keys: seq<int>)
    ensures |SortIndex(keys)| == 4 * |keys|
  {
    hide BigEndian;
    if keys != [] {
      SortSize(keys[1..]);
    }
  }

  /** The four index bytes are zero until the very end. */
  method WriteD2i(texts: map<int, Bytes>, plain: map<int, Bytes>, named: map<Bytes, Bytes>) returns (r: Bytes,
                  f: Source)
    ensures SourceOk(f) && f.texts == texts && f.plain == plain && f.named == named && Sorted(f.names, LexLeq)
    ensures r == EncodeTexts(f)
  {
    hide BigEndian, Strings, Offsets, Marked, TextIndex, NameIndex, SortIndex, Sized, LexLeq, TotalOrder, Sorted, Lists;
    var keys, names := CollectKeys(texts, named);
    f := Source(texts, plain, named, keys, names);
    KeysDistinct(f);
    TablesComplete(f);
    var w := new OutCursor();
    w.WriteAll(BigEndian(0, 4));
    var textOffsets := WriteStrings(w, keys, texts);
    var plainOffsets := WriteVariants(w, keys, plain);
    var namedOffsets := WriteStrings(w, names, named);
    assert (textOffsets, plainOffsets, namedOffsets) == Tables(f);
    assert w.buf == BigEndian(0, 4) + Body(f);
    var indexesPointer := w.pos;
    WriteSections(w, f, textOffsets, plainOffsets, namedOffsets);
    ghost var tail := Body(f) + Sections(f, Tables(f));
    assert w.buf == BigEndian(0, 4) + tail;
    PatchPointer(w, indexesPointer, tail);
    assert w.buf == BigEndian(indexesPointer, 4) + Body(f) + Sections(f, Tables(f));
    return w.buf, f;
  }

  method PatchPointer(w: OutCursor, pointer: int, ghost tail: Bytes)
    requires w.buf == BigEndian(0, 4) + tail
    modifies w
    ensures w.buf == BigEndian(pointer, 4) + tail
  {
    hide BigEndian;
    ghost var before := w.buf;
    assert before == [] + BigEndian(0, 4) + tail;
    w.Seek(0);
    w.WriteAll(BigEndian(pointer, 4));
    Patched([], BigEndian(0, 4), BigEndian(pointer, 4), tail, before, w.buf);
    assert w.buf == BigEndian(pointer, 4) + tail;
  }

  method CollectKeys(texts: map<int, Bytes>, named: map<Bytes, Bytes>) returns (keys: seq<int>, names: seq<Bytes>)
    ensures Lists(keys, texts.Keys) && Sorted(keys, IntLeq) && Covers(keys, texts)
    ensures Lists(names, named.Keys) && Sorted(names, LexLeq) && Covers(names, named)
  {
    hide LexLeq, Sorted;
    LexIsOrder();
    keys := SortedKeys(texts.Keys, IntLeq);
    names := SortedKeys(named.Keys, LexLeq);
    assert forall k :: k in keys ==> k in texts.Keys;
    assert forall n :: n in names ==> n in named.Keys;
  }

  lemma KeysDistinct(f: Source)
    requires SourceOk(f)
    ensures Distinct(f.keys) && Distinct(f.names)
  {
  }

  /** The sections, each built in its own buffer and copied behind its length. */
  method WriteSections(w: OutCursor, f: Source, texts: map<int, nat>, plain: map<int, nat>, named: map<Bytes, nat>)
    requires w.AtEnd() && Covers(f.keys, texts) && Covers(f.names, named)
    modifies w
    ensures w.AtEnd() && w.buf == old(w.buf) + Sections(f, (texts, plain, named))
  {
    hide BigEndian, TextIndex, NameIndex, SortIndex;
    var indexSection := WriteTextIndex(f.keys, texts, plain);
    w.WriteAll(BigEndian(|indexSection|, 4));
    w.WriteAll(indexSection);
    var namedSection := WriteNameIndex(f.names, named);
    w.WriteAll(BigEndian(|namedSection|, 4));
    w.WriteAll(namedSection);
    WriteSorts(w, f.keys);
    ghost var s1, s2, s3 := Sized(indexSection), Sized(namedSection), Sized(SortIndex(f.keys));
    assert w.buf == old(w.buf) + (s1 + (s2 + s3));
  }

  // ---- Reader ----

  method ReadSectionLength(cursor: BigEndianReader) returns (r: Result<nat>)
    requires cursor.Valid()
    modifies cursor
    ensures cursor.Agrees(ReadLength(old(cursor.Remaining())), r)
  {
    hide Binary.ReadSigned;
    var n := cursor.ReadSigned(4);
    if n.Err? || n.value < 0 { return Err; }
    return Ok(n.value);
  }

  method ReadTextSection(cursor: BigEndianReader, length: nat) returns (r: Result<TextTables>)
    requires cursor.Valid()
    modifies cursor
    ensures cursor.Agrees(ReadTexts(old(cursor.Remaining()), length, TextTables(map[], map[])), r)
  {
    hide Binary.ReadSigned, Binary.ReadUnsigned;
    var end := cursor.pos + length;
    var texts: map<int, nat>, plain: map<int, nat> := map[], map[];
    while cursor.pos < end
      invariant cursor.Valid()
      invariant ReadTexts(old(cursor.Remaining()), length, TextTables(map[], map[]))
                == ReadTexts(cursor.Remaining(), end - cursor.pos, TextTables(texts, plain))
      decreases |cursor.data| - cursor.pos
    {
      ghost var s := cursor.Remaining();
      var key := cursor.ReadSigned(4);
      if key.Err? { return Err; }
      var mark := cursor.ReadUnsigned(1);
      if mark.Err? { return Err; }
      var pointer := cursor.ReadUnsigned(4);
      if pointer.Err? { return Err; }
      texts := texts[key.value := pointer.value];
      if mark.value != 0 {
        var other := cursor.ReadUnsigned(4);
        if other.Err? { return Err; }
        plain := plain[key.value := other.value];
      }
    }
    return Ok(TextTables(texts, plain));
  }

  method ReadNameSection(cursor: BigEndianReader, length: nat) returns (r: Result<map<Bytes, nat>>)
    requires cursor.Valid()
    modifies cursor
    ensures cursor.Agrees(ReadNames(old(cursor.Remaining()), length, map[]), r)
  {
    hide Binary.ReadUtf, Binary.ReadUnsigned;
    var end := cursor.pos + length;
    var names: map<Bytes, nat> := map[];
    while cursor.pos < end
      invariant cursor.Valid()
      invariant ReadNames(old(cursor.Remaining()), length, map[]) ==
              ReadNames(cursor.Remaining(), end - cursor.pos, names)
      decreases |cursor.data| - cursor.pos
    {
      var name := cursor.ReadUtf();
      if name.Err? { return Err; }
      var pointer := cursor.ReadUnsigned(4);
      if pointer.Err? { return Err; }
      names := names[name.value := pointer.value];
    }
    return Ok(names);
  }

  method ReadSortSection(cursor: BigEndianReader, length: nat) returns (r: Result<map<int, int>>)
    requires cursor.Valid()
    modifies cursor
    ensures cursor.Agrees(ReadSorts(old(cursor.Remaining()), length, 0, map[]), r)
  {
    hide Binary.ReadSigned;
    var end := cursor.pos + length;
    var sorts: map<int, int> := map[];
    var counter := 0;
    while cursor.pos < end
      invariant cursor.Valid()
      invariant ReadSorts(old(cursor.Remaining()), length, 0, map[]) ==
              ReadSorts(cursor.Remaining(), end - cursor.pos, counter, sorts)
      decreases |cursor.data| - cursor.pos
    {
      var id := cursor.ReadSigned(4);
      if id.Err? { return Err; }
      sorts := sorts[id.value := counter];
      counter := counter + 1;
    }
    return Ok(sorts);
  }

  method ReadAllSections(cursor: BigEndianReader) returns (r: Result<(TextTables, map<Bytes, nat>, map<int, int>)>)
    requires cursor.Valid()
    modifies cursor
    ensures r == ReadSections(old(cursor.Remaining()))
  {
    hide ReadLength, ReadTexts, ReadNames, ReadSorts;
    var n1 := ReadSectionLength(cursor);
    if n1.Err? { return Err; }
    var texts := ReadTextSection(cursor, n1.value);
    if texts.Err? { return Err; }
    var n2 := ReadSectionLength(cursor);
    if n2.Err? { return Err; }
    var names := ReadNameSection(cursor, n2.value);
    if names.Err? { return Err; }
    var n3 := ReadSectionLength(cursor);
    if n3.Err? { return Err; }
    var sorts := ReadSortSection(cursor, n3.value);
    if sorts.Err? { return Err; }
    return Ok((texts.value, names.value, sorts.value));
  }

  method ReadD2i(data: Bytes) returns (r: Result<Reader>)
    ensures r == FromBytes(data)
  {
    hide Binary.ReadSigned, ReadSections;
    var cursor := new BigEndianReader(data);
    var pointer := cursor.ReadSigned(4);
    if pointer.Err? { return Err; }
    if pointer.value < 0 {
      cursor.Seek(|data| + 1);
    } else {
      cursor.Seek(pointer.value);
    }
    assert cursor.Remaining() == At(data, pointer.value);
    var sections := ReadAllSections(cursor);
    if sections.Err? { return Err; }
    var (texts, names, sorts) := sections.value;
    return Ok(Reader(data, texts.texts, texts.plain, names, sorts));
  }

  /** The string a reader finds under an id, through a fresh cursor. */
  method LookupText(reader: Reader, key: int) returns (r: Result<Bytes>)
    ensures r == GetText(reader, key)
  {
    hide Binary.ReadUtf;
    if key !in reader.texts { return Err; }
    var cursor := new BigEndianReader(reader.data);
    cursor.Seek(reader.texts[key]);
    r := cursor.ReadUtf();
  }
}
