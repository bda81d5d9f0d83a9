/** The D2P writer and both readers as they run. */
module D2pIO {
  import opened Common
  import opened Binary
  import opened ByteIO
  import opened Sorting
  import opened D2p
  import opened D2pRoundTrip

  ghost function EntryBytes(entries: seq<(Bytes, nat, nat)>): Bytes {
    if entries == [] then []
    else
      var e := entries[|entries| - 1];
      EntryBytes(entries[..|entries| - 1]) + (Utf(e.0) + BigEndian(e.1, 4) + BigEndian(e.2, 4))
  }

  lemma EntryAdded(entries: seq<(Bytes, nat, nat)>, e: (Bytes, nat, nat))
    ensures EntryBytes(entries + [e]) == EntryBytes(entries) + (Utf(e.0) + BigEndian(e.1, 4) + BigEndian(e.2, 4))
  {
    assert (entries + [e])[..|entries|] == entries;
  }

  /** What is still to come when the files of later names are missing. */
  ghost predicate PayloadsPending(files: map<Bytes, Bytes>, names: seq<Bytes>, before: Bytes, buf: Bytes,
                                  entries: seq<(Bytes, nat, nat)>, later: seq<Bytes>)
    requires Covers(names, files) && Covers(later, files)
  {
    && |buf| >= DATA_OFFSET
    && buf + Payloads(files, later) == before + Payloads(files, names)
    && EntryBytes(entries) + IndexBytes(files, later, |buf| - DATA_OFFSET) == IndexBytes(files, names, 0)
  }

  lemma PayloadStep(files: map<Bytes, Bytes>, names: seq<Bytes>, before: Bytes, buf: Bytes,
                    entries: seq<(Bytes, nat, nat)>, later: seq<Bytes>)
    requires Covers(names, files) && Covers(later, files) && later != []
    requires PayloadsPending(files, names, before, buf, entries, later)
    ensures var data := files[later[0]];
            PayloadsPending(files, names, before, buf + data, entries + [(later[0], |buf| - DATA_OFFSET, |data|)],
                    later[1..])
  {
    hide EntryBytes, IndexBytes;
    var data := files[later[0]];
    assert buf + (data + Payloads(files, later[1..])) == buf + data + Payloads(files, later[1..]);
    EntryMoves(files, entries, later, |buf| - DATA_OFFSET);
  }

  lemma EntryMoves(files: map<Bytes, Bytes>, entries: seq<(Bytes, nat, nat)>, later: seq<Bytes>, at: nat)
    requires Covers(later, files) && later != []
    ensures var size := |files[later[0]]|;
            EntryBytes(entries) + IndexBytes(files, later, at) ==
            EntryBytes(entries + [(later[0], at, size)]) + IndexBytes(files, later[1..], at + size)
  {
    hide Utf, BigEndian, EntryBytes;
    var size := |files[later[0]]|;
    EntryAdded(entries, (later[0], at, size));
    var entry := Utf(later[0]) + BigEndian(at, 4) + BigEndian(size, 4);
    var index := IndexBytes(files, later[1..], at + size);
    assert EntryBytes(entries) + (entry + index) == EntryBytes(entries) + entry + index;
  }

  lemma PayloadsDone(files: map<Bytes, Bytes>, names: seq<Bytes>, before: Bytes, buf: Bytes, entries: seq<(Bytes, nat,
                     nat)>)
    requires Covers(names, files) && PayloadsPending(files, names, before, buf, entries, [])
    ensures buf == before + Payloads(files, names) && EntryBytes(entries) == IndexBytes(files, names, 0)
  {
    hide EntryBytes;
    assert buf + [] == buf && EntryBytes(entries) + [] == EntryBytes(entries);
  }

  /** The payloads one after the other, with their names, offsets and lengths. */
  method WritePayloads(w: OutCursor, files: map<Bytes, Bytes>, names: seq<Bytes>) returns (entries: seq<(Bytes, nat,
                       nat)>)
    requires w.AtEnd() && w.pos == DATA_OFFSET && Covers(names, files)
    modifies w
    ensures w.AtEnd() && w.buf == old(w.buf) + Payloads(files, names)
    ensures EntryBytes(entries) == IndexBytes(files, names, 0) && |entries| == |names|
  {
    hide EntryBytes, Payloads, IndexBytes;
    entries := [];
    NoEntries();
    assert [] + IndexBytes(files, names, 0) == IndexBytes(files, names, 0);
    assert names[0..] == names;
    for i := 0 to |names|
      invariant w.AtEnd() && w.pos >= DATA_OFFSET && |entries| == i
      invariant PayloadsPending(files, names, old(w.buf), w.buf, entries, names[i..])
    {
      assert names[i..][1..] == names[i + 1..];
      PayloadStep(files, names, old(w.buf), w.buf, entries, names[i..]);
      var data := files[names[i]];
      var offset := w.pos - DATA_OFFSET;
      w.WriteAll(data);
      entries := entries + [(names[i], offset, |data|)];
    }
    assert names[|names|..] == [];
    PayloadsDone(files, names, old(w.buf), w.buf, entries);
  }

  lemma NoEntries()
    ensures EntryBytes([]) == []
  {
  }

  method WriteProperties(w: OutCursor, properties: map<Bytes, Bytes>, keys: seq<Bytes>)
    requires w.AtEnd() && Covers(keys, properties)
    modifies w
    ensures w.AtEnd() && w.buf == old(w.buf) + PropertyBytes(properties, keys)
  {
    hide Utf;
    for i := 0 to |keys|
      invariant w.AtEnd() && w.buf + PropertyBytes(properties, keys[i..]) ==
              old(w.buf) + PropertyBytes(properties, keys)
    {
      assert keys[i..][1..] == keys[i + 1..];
      ghost var before, later := w.buf, PropertyBytes(properties, keys[i + 1..]);
      w.WriteUtf(keys[i]);
      w.WriteUtf(properties[keys[i]]);
      assert before + (Utf(keys[i]) + Utf(properties[keys[i]]) + later) == w.buf + later;
    }
  }

  method WriteEntries(w: OutCursor, entries: seq<(Bytes, nat, nat)>)
    requires w.AtEnd()
    modifies w
    ensures w.AtEnd() && w.buf == old(w.buf) + EntryBytes(entries)
  {
    hide Utf, BigEndian;
    for i := 0 to |entries|
      invariant w.AtEnd() && w.buf == old(w.buf) + EntryBytes(entries[..i])
    {
      assert entries[..i + 1] == entries[..i] + [entries[i]];
      EntryAdded(entries[..i], entries[i]);
      w.WriteUtf(entries[i].0);
      w.WriteAll(BigEndian(entries[i].1, 4));
      w.WriteAll(BigEndian(entries[i].2, 4));
    }
    assert entries[..|entries|] == entries;
  }

  lemma ListsCovers(names: seq<Bytes>, files: map<Bytes, Bytes>)
    requires Lists(names, files.Keys)
    ensures Covers(names, files)
  {
  }

  method WriteFooter(w: OutCursor, indexOffset: nat, names: nat, propertiesOffset: nat, keys: nat)
    requires w.AtEnd()
    modifies w
    ensures w.AtEnd() && w.buf == old(w.buf) + FooterBytes(indexOffset, names, propertiesOffset, keys)
  {
    hide BigEndian;
    w.WriteAll(BigEndian(DATA_OFFSET, 4));
    w.WriteAll(BigEndian(indexOffset - DATA_OFFSET, 4));
    w.WriteAll(BigEndian(indexOffset, 4));
    w.WriteAll(BigEndian(names, 4));
    w.WriteAll(BigEndian(propertiesOffset, 4));
    w.WriteAll(BigEndian(keys, 4));
  }

  ghost predicate IsSortedList(names: seq<Bytes>, files: map<Bytes, Bytes>) {
    Lists(names, files.Keys) && Sorted(names, LexLeq) && Covers(names, files)
  }

  /** The archive of the two maps, their names and keys in order. */
  ghost predicate IsArchive(data: Bytes, files: map<Bytes, Bytes>, properties: map<Bytes, Bytes>) {
    exists names, keys ::
      && IsSortedList(names, files) && IsSortedList(keys, properties)
      && data == EncodeArchive(files, names, properties, keys)
  }

  method WriteArchive(files: map<Bytes, Bytes>, names: seq<Bytes>, properties: map<Bytes, Bytes>,
                      keys: seq<Bytes>) returns (r: Bytes)
    requires Covers(names, files) && Covers(keys, properties)
    ensures r == EncodeArchive(files, names, properties, keys)
  {
    hide BigEndian, FooterBytes, Payloads, PropertyBytes, IndexBytes, EntryBytes;
    var w := new OutCursor();
    w.WriteAll([2]);
    w.WriteAll([1]);
    var entries := WritePayloads(w, files, names);
    var propertiesOffset := w.pos;
    WriteProperties(w, properties, keys);
    var indexOffset := w.pos;
    WriteEntries(w, entries);
    WriteFooter(w, indexOffset, |entries|, propertiesOffset, |keys|);
    return w.buf;
  }

  /** The whole archive, from the two maps alone. */
  method WriteD2p(files: map<Bytes, Bytes>, properties: map<Bytes, Bytes>) returns (r: Bytes)
    ensures IsArchive(r, files, properties)
  {
    hide EncodeArchive, LexLeq, Lists, Sorted, TotalOrder;
    LexIsOrder();
    var names := SortedKeys(files.Keys, LexLeq);
    ListsCovers(names, files);
    var keys := SortedKeys(properties.Keys, LexLeq);
    ListsCovers(keys, properties);
    r := WriteArchive(files, names, properties, keys);
    assert IsSortedList(names, files) && IsSortedList(keys, properties);
  }

  // ---- Readers ----

  method ReadTrailer(cursor: BigEndianReader) returns (r: Result<Footer>)
    requires cursor.Valid()
    modifies cursor
    ensures cursor.Valid() && r == ReadFooter(cursor.data)
  {
    hide Binary.ReadUnsigned;
    if |cursor.data| < 2 + FOOTER_SIZE {
      return Err;
    }
    cursor.Seek(|cursor.data| - FOOTER_SIZE);
    var dataOffset := cursor.ReadUnsigned(4);
    if dataOffset.Err? { return Err; }
    var dataCount := cursor.ReadUnsigned(4);
    if dataCount.Err? { return Err; }
    var indexOffset := cursor.ReadUnsigned(4);
    if indexOffset.Err? { return Err; }
    var indexCount := cursor.ReadUnsigned(4);
    if indexCount.Err? { return Err; }
    var propertiesOffset := cursor.ReadUnsigned(4);
    if propertiesOffset.Err? { return Err; }
    var propertiesCount := cursor.ReadUnsigned(4);
    if propertiesCount.Err? { return Err; }
    return Ok(Footer(dataOffset.value, indexOffset.value, indexCount.value, propertiesOffset.value,
            propertiesCount.value));
  }

  /** A string of the tool: invalid UTF-8 is an error. */
  method ReadString(cursor: BigEndianReader, u: Utf8) returns (r: Result<Bytes>)
    requires cursor.Valid()
    modifies cursor
    ensures cursor.Agrees(ReadText(u, old(cursor.Remaining())), r)
  {
    hide Binary.ReadUtf;
    var text := cursor.ReadUtf();
    if text.Err? || !u.valid(text.value) { return Err; }
    return text;
  }

  method ReadPropertyTable(cursor: BigEndianReader, u: Utf8, count: nat) returns (r: Result<map<Bytes, Bytes>>)
    requires cursor.Valid()
    modifies cursor
    ensures cursor.Valid() && r == ReadProperties(u, count, old(cursor.Remaining()), map[])
  {
    hide ReadText;
    var properties: map<Bytes, Bytes> := map[];
    for i := 0 to count
      invariant cursor.Valid()
      invariant ReadProperties(u, count, old(cursor.Remaining()), map[])
                == ReadProperties(u, count - i, cursor.Remaining(), properties)
    {
      var key := ReadString(cursor, u);
      if key.Err? { return Err; }
      var value := ReadString(cursor, u);
      if value.Err? { return Err; }
      properties := properties[key.value := value.value];
    }
    return Ok(properties);
  }

  method ReadIndex(cursor: BigEndianReader, u: Utf8, count: nat, dataOffset: nat) returns (r: Result<map<Bytes, Entry>>)
    requires cursor.Valid()
    modifies cursor
    ensures cursor.Valid() && r == ReadEntries(u, count, old(cursor.Remaining()), dataOffset, map[])
  {
    hide Binary.ReadUnsigned, ReadText;
    var entries: map<Bytes, Entry> := map[];
    for i := 0 to count
      invariant cursor.Valid()
      invariant ReadEntries(u, count, old(cursor.Remaining()), dataOffset, map[])
                == ReadEntries(u, count - i, cursor.Remaining(), dataOffset, entries)
    {
      var name := ReadString(cursor, u);
      if name.Err? { return Err; }
      var offset := cursor.ReadUnsigned(4);
      if offset.Err? { return Err; }
      var length := cursor.ReadUnsigned(4);
      if length.Err? { return Err; }
      if offset.value + dataOffset >= 0x1_0000_0000 { return Err; }
      entries := entries[name.value := Entry(offset.value + dataOffset, length.value)];
    }
    return Ok(entries);
  }

  /** The tool's reader: properties first, then the index. */
  method ReadD2p(u: Utf8, data: Bytes) returns (r: Result<Reader>)
    ensures r == FromBytes(u, data)
  {
    hide ReadProperties, ReadEntries, ReadFooter;
    var cursor := new BigEndianReader(data);
    var footer := ReadTrailer(cursor);
    if footer.Err? { return Err; }
    var f := footer.value;
    cursor.Seek(f.propertiesOffset);
    var properties := ReadPropertyTable(cursor, u, f.propertiesCount);
    if properties.Err? { return Err; }
    cursor.Seek(f.indexOffset);
    var entries := ReadIndex(cursor, u, f.indexCount, f.dataOffset);
    if entries.Err? { return Err; }
    return Ok(Reader(data, entries.value, properties.value));
  }

  method ReadMapIndex(cursor: BigEndianReader, u: Utf8, count: nat, dataOffset: nat)
    returns (r: Result<map<Bytes, Entry>>)
    requires cursor.Valid()
    modifies cursor
    ensures cursor.Valid() && r == ReadMapEntries(u, count, old(cursor.Remaining()), dataOffset, map[])
  {
    hide Binary.ReadUnsigned, Binary.ReadBytes;
    var entries: map<Bytes, Entry> := map[];
    for i := 0 to count
      invariant cursor.Valid()
      invariant ReadMapEntries(u, count, old(cursor.Remaining()), dataOffset, map[])
                == ReadMapEntries(u, count - i, cursor.Remaining(), dataOffset, entries)
    {
      var nameLength := cursor.ReadUnsigned(2);
      if nameLength.Err? { return Err; }
      var name := cursor.ReadBytes(nameLength.value);
      if name.Err? { return Err; }
      var offset := cursor.ReadUnsigned(4);
      if offset.Err? { return Err; }
      if offset.value + dataOffset >= 0x1_0000_0000 { return Err; }
      var length := cursor.ReadUnsigned(4);
      if length.Err? { return Err; }
      entries := entries[u.lossy(name.value) := Entry(offset.value + dataOffset, length.value)];
    }
    return Ok(entries);
  }

  /** The world server's reader. */
  method ReadMapArchive(u: Utf8, data: Bytes) returns (r: Result<MapArchive>)
    ensures r == OpenMaps(u, data)
  {
    hide ReadFooter, ReadMapEntries;
    var cursor := new BigEndianReader(data);
    var footer := ReadTrailer(cursor);
    if footer.Err? { return Err; }
    var f := footer.value;
    cursor.Seek(f.indexOffset);
    var entries := ReadMapIndex(cursor, u, f.indexCount, f.dataOffset);
    if entries.Err? { return Err; }
    return Ok(MapArchive(data, entries.value));
  }

  ghost predicate AllShort(files: map<Bytes, Bytes>) {
    forall n :: n in files ==> Short(n)
  }

  /** The keys, and for properties the values too, are strings. */
  ghost predicate AreTexts(u: Utf8, files: map<Bytes, Bytes>, properties: map<Bytes, Bytes>) {
    && (forall n :: n in files ==> u.valid(n))
    && (forall k :: k in properties ==> u.valid(k) && u.valid(properties[k]))
  }

  /** No file name is what lossy decoding makes of invalid bytes. */
  ghost predicate NoStandIns(u: Utf8, files: map<Bytes, Bytes>) {
    forall b :: u.lossy(b) in files ==> u.valid(b)
  }

  /** Main result in terms of the maps alone: when each of the two readers gets back what was written. */
  lemma WrittenIsRead(u: Utf8, data: Bytes, files: map<Bytes, Bytes>, properties: map<Bytes, Bytes>)
    requires Lawful(u) && AreTexts(u, files, properties)
    requires IsArchive(data, files, properties) && |data| < 0x1_0000_0000
    ensures Recovered(FromBytes(u, data), files, properties) <==>
            AllShort(files) && AllShort(properties) && ShortValues(properties)
    ensures AllShort(files) ==> MapsRecovered(OpenMaps(u, data), files)
    ensures NoStandIns(u, files) && MapsRecovered(OpenMaps(u, data), files) ==> AllShort(files)
  {
    hide EncodeArchive, FromBytes, OpenMaps, Recovered, MapsRecovered, Sorted, ShortValues, ShortNames, AllShort;
    var names, keys :| IsSortedList(names, files) && IsSortedList(keys, properties)
                       && data == EncodeArchive(files, names, properties, keys);
    TextLists(u, files, names, properties, keys);
    ArchiveRoundTrip(u, files, names, properties, keys);
    MapsRoundTrip(u, files, names, properties, keys);
    ShortLists(names, files);
    ShortLists(keys, properties);
  }

  lemma TextLists(u: Utf8, files: map<Bytes, Bytes>, names: seq<Bytes>, properties: map<Bytes, Bytes>, keys: seq<Bytes>)
    requires AreTexts(u, files, properties) && Lists(names, files.Keys) && Lists(keys, properties.Keys)
    ensures AllValid(u, names) && Texts(u, keys, properties)
    ensures NoStandIns(u, files) ==> NothingReplaced(u, names)
  {
    assert forall n :: n in names <==> n in files.Keys;
    assert forall k :: k in keys <==> k in properties.Keys;
  }

  lemma ShortLists(names: seq<Bytes>, files: map<Bytes, Bytes>)
    requires Lists(names, files.Keys)
    ensures ShortNames(names) <==> AllShort(files)
  {
    hide Short;
    assert forall n :: n in names <==> n in files.Keys;
  }
}
