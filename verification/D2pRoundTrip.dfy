/** What the two readers get back from a written D2P archive. */
module D2pRoundTrip {
  import opened Common
  import opened Binary
  import opened Sorting
  import opened D2p

  // ---- Reading what was written ----

  ghost predicate Short(s: Bytes) {
    |s| < 0x1_0000
  }

  ghost predicate ShortNames(names: seq<Bytes>) {
    forall n :: n in names ==> Short(n)
  }

  ghost predicate ShortValues(properties: map<Bytes, Bytes>) {
    forall k :: k in properties ==> Short(properties[k])
  }

  /** Keys and values are strings, hence valid UTF-8. */
  ghost predicate Texts(u: Utf8, keys: seq<Bytes>, properties: map<Bytes, Bytes>) {
    AllValid(u, keys) && forall k :: k in properties ==> u.valid(properties[k])
  }

  /** The entries after the files from names on have been inserted. */
  ghost function Inserted(files: map<Bytes, Bytes>, names: seq<Bytes>, at: nat, acc: map<Bytes, Entry>)
    : map<Bytes, Entry>
    requires Covers(names, files)
  {
    if names == [] then acc
    else
      var size := |files[names[0]]|;
      Inserted(files, names[1..], at + size, acc[names[0] := Entry(at + DATA_OFFSET, size)])
  }

  lemma EntryBack(u: Utf8, count: nat, name: Bytes, at: nat, size: nat, rest: Bytes, acc: map<Bytes, Entry>)
    requires count > 0 && Short(name) && u.valid(name) && at + DATA_OFFSET < 0x1_0000_0000 && size < 0x1_0000_0000
    ensures ReadEntries(u, count, Utf(name) + BigEndian(at, 4) + BigEndian(size, 4) + rest, DATA_OFFSET, acc) ==
            ReadEntries(u, count - 1, rest, DATA_OFFSET, acc[name := Entry(at + DATA_OFFSET, size)])
  {
    hide BigEndian, ReadUnsigned, Utf, ReadUtf;
    EntryFieldsBack(name, at, size, rest);
  }

  /** The three fields of an index entry. */
  lemma EntryFieldsBack(name: Bytes, at: nat, size: nat, rest: Bytes)
    requires Short(name) && at < 0x1_0000_0000 && size < 0x1_0000_0000
    ensures var s2 := BigEndian(size, 4) + rest;
            var s1 := BigEndian(at, 4) + s2;
            && ReadUtf(Utf(name) + BigEndian(at, 4) + BigEndian(size, 4) + rest) == Ok(Parsed(name, s1))
            && ReadUnsigned(s1, 4) == Ok(Parsed(at, s2)) && ReadUnsigned(s2, 4) == Ok(Parsed(size, rest))
  {
    hide BigEndian, ReadUnsigned, Utf, ReadUtf;
    Pow2Values();
    ReadUtfBack(name, BigEndian(at, 4) + (BigEndian(size, 4) + rest));
    ReadUnsignedBack(at, 4, BigEndian(size, 4) + rest);
    ReadUnsignedBack(size, 4, rest);
    assert Utf(name) + BigEndian(at, 4) + BigEndian(size, 4) + rest
           == Utf(name) + (BigEndian(at, 4) + (BigEndian(size, 4) + rest));
  }

  lemma IndexStep(files: map<Bytes, Bytes>, names: seq<Bytes>, at: nat, rest: Bytes)
    requires Covers(names, files) && names != []
    ensures var n, size := names[0], |files[names[0]]|;
            IndexBytes(files, names, at) + rest ==
            Utf(n) + BigEndian(at, 4) + BigEndian(size, 4) + (IndexBytes(files, names[1..], at + size) + rest)
  {
    hide BigEndian, Utf;
  }

  lemma {:induction false} EntriesBack(u: Utf8, files: map<Bytes, Bytes>, names: seq<Bytes>, at: nat, rest: Bytes,
                                       acc: map<Bytes, Entry>)
    requires Covers(names, files) && ShortNames(names) && AllValid(u, names)
    requires at + DATA_OFFSET + |Payloads(files, names)| < 0x1_0000_0000
    ensures ReadEntries(u, |names|, IndexBytes(files, names, at) + rest, DATA_OFFSET, acc) ==
            Ok(Inserted(files, names, at, acc))
  {
    hide *;
    if names == [] {
      NoEntries(u, files, at, rest, acc);
    } else {
      TailCovered(u, files, names, at);
      var n, size := names[0], |files[names[0]]|;
      var others := IndexBytes(files, names[1..], at + size);
      EntriesBack(u, files, names[1..], at + size, rest, acc[n := Entry(at + DATA_OFFSET, size)]);
      IndexStep(files, names, at, rest);
      EntryBack(u, |names|, n, at, size, others + rest, acc);
      assert |names[1..]| == |names| - 1;
      InsertedStep(files, names, at, acc);
    }
  }

  lemma NoEntries(u: Utf8, files: map<Bytes, Bytes>, at: nat, rest: Bytes, acc: map<Bytes, Entry>)
    ensures ReadEntries(u, 0, IndexBytes(files, [], at) + rest, DATA_OFFSET, acc) == Ok(Inserted(files, [], at, acc))
  {
  }

  lemma TailCovered(u: Utf8, files: map<Bytes, Bytes>, names: seq<Bytes>, at: nat)
    requires Covers(names, files) && ShortNames(names) && AllValid(u, names) && names != []
    ensures Covers(names[1..], files) && ShortNames(names[1..]) && AllValid(u, names[1..])
    ensures Short(names[0]) && u.valid(names[0]) && names[0] in files
    ensures at + |Payloads(files, names)| == at + |files[names[0]]| + |Payloads(files, names[1..])|
  {
  }

  lemma InsertedStep(files: map<Bytes, Bytes>, names: seq<Bytes>, at: nat, acc: map<Bytes, Entry>)
    requires Covers(names, files) && names != []
    ensures var n, size := names[0], |files[names[0]]|;
            Inserted(files, names, at, acc) ==
            Inserted(files, names[1..], at + size, acc[n := Entry(at + DATA_OFFSET, size)])
  {
  }

  lemma {:induction false} InsertedKeys(files: map<Bytes, Bytes>, names: seq<Bytes>, at: nat, acc: map<Bytes, Entry>)
    requires Covers(names, files)
    ensures forall n :: n in Inserted(files, names, at, acc) <==> n in acc || n in names
    ensures forall n :: n in acc && n !in names ==> Inserted(files, names, at, acc)[n] == acc[n]
  {
    if names != [] {
      var size := |files[names[0]]|;
      InsertedKeys(files, names[1..], at + size, acc[names[0] := Entry(at + DATA_OFFSET, size)]);
    }
  }

  /** The payloads lie in data from offset at (counted from the start of the data section) on. */
  ghost predicate Holds(data: Bytes, files: map<Bytes, Bytes>, names: seq<Bytes>, at: nat)
    requires Covers(names, files)
  {
    && DATA_OFFSET + at + |Payloads(files, names)| <= |data|
    && data[DATA_OFFSET + at..][..|Payloads(files, names)|] == Payloads(files, names)
  }

  /** Every inserted entry points at its file's bytes. */
  lemma {:induction false} InsertedPoints(data: Bytes, files: map<Bytes, Bytes>, names: seq<Bytes>, at: nat,
                                        acc: map<Bytes, Entry>, n: Bytes)
    requires Covers(names, files) && Lists(names, set m | m in names) && Holds(data, files, names, at) && n in names
    ensures n in Inserted(files, names, at, acc)
    ensures Slice(data, Inserted(files, names, at, acc)[n]) == Ok(files[n])
  {
    var first := files[names[0]];
    var more := acc[names[0] := Entry(at + DATA_OFFSET, |first|)];
    var later := Payloads(files, names[1..]);
    var here := data[DATA_OFFSET + at..];
    assert here[..|first|] == (first + later)[..|first|];
    assert data[DATA_OFFSET + at + |first|..] == here[|first|..];
    assert here[|first|..][..|later|] == here[..|first + later|][|first|..];
    if n == names[0] {
      assert n !in names[1..];
      InsertedKeys(files, names[1..], at + |first|, more);
      assert data[DATA_OFFSET + at..DATA_OFFSET + at + |first|] == first;
    } else {
      InsertedPoints(data, files, names[1..], at + |first|, more, n);
    }
  }

  ghost function Added(properties: map<Bytes, Bytes>, keys: seq<Bytes>, acc: map<Bytes, Bytes>): map<Bytes, Bytes>
    requires Covers(keys, properties)
  {
    if keys == [] then acc else Added(properties, keys[1..], acc[keys[0] := properties[keys[0]]])
  }

  lemma {:induction false} AddedIsAll(properties: map<Bytes, Bytes>, keys: seq<Bytes>, acc: map<Bytes, Bytes>)
    requires Covers(keys, properties)
    requires forall k :: k in acc ==> k in properties && acc[k] == properties[k]
    requires forall k :: k in properties ==> k in acc || k in keys
    ensures Added(properties, keys, acc) == properties
  {
    if keys != [] {
      AddedIsAll(properties, keys[1..], acc[keys[0] := properties[keys[0]]]);
    }
  }

  lemma {:induction false} PropertiesBack(u: Utf8, properties: map<Bytes, Bytes>, keys: seq<Bytes>, rest: Bytes,
                                          acc: map<Bytes, Bytes>)
    requires Covers(keys, properties) && ShortNames(keys) && ShortValues(properties) && Texts(u, keys, properties)
    ensures ReadProperties(u, |keys|, PropertyBytes(properties, keys) + rest, acc) == Ok(Added(properties, keys, acc))
  {
    hide Utf, ReadUtf;
    if keys != [] {
      var k, v := keys[0], properties[keys[0]];
      assert Short(k) && Short(v) && u.valid(k) && u.valid(v);
      var others := PropertyBytes(properties, keys[1..]) + rest;
      PropertiesBack(u, properties, keys[1..], rest, acc[k := v]);
      ReadUtfBack(k, Utf(v) + others);
      ReadUtfBack(v, others);
      assert PropertyBytes(properties, keys) + rest == Utf(k) + (Utf(v) + others);
    }
  }

  // ---- Nothing longer than a length prefix can hold is ever read ----

  lemma {:induction false} PropertiesShort(u: Utf8, count: nat, s: Bytes, acc: map<Bytes, Bytes>)
    requires ReadProperties(u, count, s, acc).Ok?
    requires forall k :: k in acc ==> Short(k) && Short(acc[k])
    ensures forall k :: k in ReadProperties(u, count, s, acc).value ==>
              Short(k) && Short(ReadProperties(u, count, s, acc).value[k])
  {
    hide ReadUtf;
    if count > 0 {
      var key := ReadText(u, s).value;
      var value := ReadText(u, key.rest).value;
      ReadUtfShort(s);
      ReadUtfShort(key.rest);
      PropertiesShort(u, count - 1, value.rest, acc[key.value := value.value]);
    }
  }

  lemma {:induction false} IndexNamesShort(count: nat, s: Bytes, dataOffset: nat)
    requires IndexNames(count, s, dataOffset).Ok?
    ensures ShortNames(IndexNames(count, s, dataOffset).value)
  {
    hide ReadUnsigned, ReadUtf;
    if count > 0 {
      var name := ReadUtf(s).value;
      ReadUtfShort(s);
      var length := ReadUnsigned(ReadUnsigned(name.rest, 4).value.rest, 4).value;
      IndexNamesShort(count - 1, length.rest, dataOffset);
    }
  }

  /** Every name the server lists is the decoding of a name of the index. */
  lemma {:induction false} ListedNames(u: Utf8, count: nat, s: Bytes, dataOffset: nat, acc: map<Bytes, Entry>)
    requires ReadMapEntries(u, count, s, dataOffset, acc).Ok?
    ensures IndexNames(count, s, dataOffset).Ok?
    ensures forall n :: n in ReadMapEntries(u, count, s, dataOffset, acc).value && n !in acc ==>
              exists b :: b in IndexNames(count, s, dataOffset).value && u.lossy(b) == n
  {
    hide ReadUnsigned;
    if count > 0 {
      var name := ReadUtf(s).value;
      var offset := ReadUnsigned(name.rest, 4).value;
      var length := ReadUnsigned(offset.rest, 4).value;
      var entry := Entry(offset.value + dataOffset, length.value);
      var more := acc[u.lossy(name.value) := entry];
      ListedNames(u, count - 1, length.rest, dataOffset, more);
      var rest := IndexNames(count - 1, length.rest, dataOffset).value;
      var names := [name.value] + rest;
      assert name.value in names && forall b :: b in rest ==> b in names;
    }
  }

  /** The names the tool lists are names of the index. */
  lemma {:induction false} ToolNames(u: Utf8, count: nat, s: Bytes, dataOffset: nat, acc: map<Bytes, Entry>)
    requires ReadEntries(u, count, s, dataOffset, acc).Ok?
    ensures forall n :: n in ReadEntries(u, count, s, dataOffset, acc).value && n !in acc ==> Short(n)
  {
    hide ReadUnsigned, ReadUtf;
    if count > 0 {
      var name := ReadText(u, s).value;
      ReadUtfShort(s);
      var offset := ReadUnsigned(name.rest, 4).value;
      var length := ReadUnsigned(offset.rest, 4).value;
      var entry := Entry(offset.value + dataOffset, length.value);
      ToolNames(u, count - 1, length.rest, dataOffset, acc[name.value := entry]);
    }
  }

  // ---- Archives ----

  ghost predicate ArchiveOk(files: map<Bytes, Bytes>, names: seq<Bytes>, properties: map<Bytes, Bytes>,
                            keys: seq<Bytes>) {
    && Lists(names, files.Keys) && Lists(keys, properties.Keys)
    && Covers(names, files) && Covers(keys, properties)
    && |EncodeArchive(files, names, properties, keys)| < 0x1_0000_0000
  }

  lemma {:induction false} CountsFit(files: map<Bytes, Bytes>, names: seq<Bytes>, at: nat)
    requires Covers(names, files)
    ensures |IndexBytes(files, names, at)| >= |names|
  {
    hide Utf, BigEndian;
    if names != [] {
      CountsFit(files, names[1..], at + |files[names[0]]|);
    }
  }

  lemma {:induction false} PropertyCountFits(properties: map<Bytes, Bytes>, keys: seq<Bytes>)
    requires Covers(keys, properties)
    ensures |PropertyBytes(properties, keys)| >= |keys|
  {
    if keys != [] {
      PropertyCountFits(properties, keys[1..]);
    }
  }

  lemma FooterBack(before: Bytes, indexOffset: nat, names: nat, propertiesOffset: nat, keys: nat)
    requires |before| >= 2 && DATA_OFFSET <= indexOffset
    requires indexOffset < 0x1_0000_0000 && names < 0x1_0000_0000
    requires propertiesOffset < 0x1_0000_0000 && keys < 0x1_0000_0000
    ensures ReadFooter(before + FooterBytes(indexOffset, names, propertiesOffset, keys))
            == Ok(Footer(DATA_OFFSET, indexOffset, names, propertiesOffset, keys))
  {
    hide BigEndian, ReadUnsigned;
    Pow2Values();
    var data := before + FooterBytes(indexOffset, names, propertiesOffset, keys);
    var s5 := BigEndian(keys, 4) + [];
    var s4 := BigEndian(propertiesOffset, 4) + s5;
    var s3 := BigEndian(names, 4) + s4;
    var s2 := BigEndian(indexOffset, 4) + s3;
    var s1 := BigEndian(indexOffset - DATA_OFFSET, 4) + s2;
    assert data[|data| - FOOTER_SIZE..] == BigEndian(DATA_OFFSET, 4) + s1;
    ReadUnsignedBack(DATA_OFFSET, 4, s1);
    ReadUnsignedBack(indexOffset - DATA_OFFSET, 4, s2);
    ReadUnsignedBack(indexOffset, 4, s3);
    ReadUnsignedBack(names, 4, s4);
    ReadUnsignedBack(propertiesOffset, 4, s5);
    ReadUnsignedBack(keys, 4, []);
  }

  /** Where the sections of a written archive lie. */
  lemma ArchiveParts(files: map<Bytes, Bytes>, names: seq<Bytes>, properties: map<Bytes, Bytes>, keys: seq<Bytes>)
    requires ArchiveOk(files, names, properties, keys)
    ensures var data := EncodeArchive(files, names, properties, keys);
            var p := 2 + |Payloads(files, names)|;
            var i := p + |PropertyBytes(properties, keys)|;
            && ReadFooter(data) == Ok(Footer(DATA_OFFSET, i, |names|, p, |keys|))
            && Holds(data, files, names, 0)
            && (exists rest :: At(data, p) == PropertyBytes(properties, keys) + rest)
            && (exists rest :: At(data, i) == IndexBytes(files, names, 0) + rest)
  {
    hide Payloads, PropertyBytes, IndexBytes, FooterBytes, ReadFooter, Lists;
    var data := EncodeArchive(files, names, properties, keys);
    var payloads, props, index := Payloads(files, names), PropertyBytes(properties, keys), IndexBytes(files, names, 0);
    var p := 2 + |payloads|;
    var i := p + |props|;
    var footer := FooterBytes(i, |names|, p, |keys|);
    CountsFit(files, names, 0);
    PropertyCountFits(properties, keys);
    FooterBack([2, 1] + payloads + props + index, i, |names|, p, |keys|);
    assert data[2..][..|payloads|] == payloads;
    assert At(data, p) == props + (index + footer);
    assert At(data, i) == index + footer;
  }

  /** The reader holds exactly these files and these properties. */
  ghost predicate Recovered(r: Result<Reader>, files: map<Bytes, Bytes>, properties: map<Bytes, Bytes>) {
    && r.Ok?
    && r.value.properties == properties
    && r.value.entries.Keys == files.Keys
    && forall name :: name in files ==> ReadFile(r.value, name) == Ok(files[name])
  }

  ghost predicate MapsRecovered(r: Result<MapArchive>, files: map<Bytes, Bytes>) {
    && r.Ok?
    && r.value.entries.Keys == files.Keys
    && forall name :: name in files ==> ReadMapFile(r.value, name) == Ok(files[name])
  }

  lemma EntriesRead(u: Utf8, files: map<Bytes, Bytes>, names: seq<Bytes>, properties: map<Bytes, Bytes>,
                    keys: seq<Bytes>)
    returns (entries: map<Bytes, Entry>)
    requires ArchiveOk(files, names, properties, keys) && ShortNames(names) && AllValid(u, names)
    ensures var data := EncodeArchive(files, names, properties, keys);
            && ReadFooter(data).Ok?
            && var f := ReadFooter(data).value;
               && ReadEntries(u, f.indexCount, At(data, f.indexOffset), f.dataOffset, map[]) == Ok(entries)
               && entries.Keys == files.Keys
               && forall n :: n in files ==> Slice(data, entries[n]) == Ok(files[n])
  {
    hide Payloads, PropertyBytes, IndexBytes, ReadFooter, ReadEntries, At, Slice, EncodeArchive, Inserted, Holds, Lists,
      AllValid, ShortNames;
    ArchiveParts(files, names, properties, keys);
    PayloadsFit(files, names, properties, keys);
    var data := EncodeArchive(files, names, properties, keys);
    var f := ReadFooter(data).value;
    var rest :| At(data, f.indexOffset) == IndexBytes(files, names, 0) + rest;
    EntriesBack(u, files, names, 0, rest, map[]);
    entries := Inserted(files, names, 0, map[]);
    EntriesPoint(data, files, names);
  }

  lemma PayloadsFit(files: map<Bytes, Bytes>, names: seq<Bytes>, properties: map<Bytes, Bytes>, keys: seq<Bytes>)
    requires ArchiveOk(files, names, properties, keys)
    ensures DATA_OFFSET + |Payloads(files, names)| < 0x1_0000_0000
  {
    hide Payloads, PropertyBytes, IndexBytes, FooterBytes, Lists;
  }

  lemma EntriesPoint(data: Bytes, files: map<Bytes, Bytes>, names: seq<Bytes>)
    requires Covers(names, files) && Lists(names, files.Keys) && Holds(data, files, names, 0)
    ensures var entries := Inserted(files, names, 0, map[]);
            && entries.Keys == files.Keys
            && forall n :: n in files ==> Slice(data, entries[n]) == Ok(files[n])
  {
    hide Slice, Inserted, Holds;
    var entries := Inserted(files, names, 0, map[]);
    InsertedKeys(files, names, 0, map[]);
    assert Lists(names, set m | m in names);
    assert forall n :: n in files.Keys <==> n in names;
    forall n | n in files ensures Slice(data, entries[n]) == Ok(files[n]) {
      assert n in files.Keys;
      InsertedPoints(data, files, names, 0, map[], n);
    }
  }

  // ---- The names of the index, before decoding ----

  lemma {:induction false} IndexNamesBack(files: map<Bytes, Bytes>, names: seq<Bytes>, at: nat, rest: Bytes)
    requires Covers(names, files) && ShortNames(names)
    requires at + DATA_OFFSET + |Payloads(files, names)| < 0x1_0000_0000
    ensures IndexNames(|names|, IndexBytes(files, names, at) + rest, DATA_OFFSET) == Ok(names)
  {
    hide BigEndian, ReadUnsigned, Utf, ReadUtf, IndexBytes;
    if names != [] {
      var n, size := names[0], |files[names[0]]|;
      assert Short(n);
      IndexNamesBack(files, names[1..], at + size, rest);
      IndexStep(files, names, at, rest);
      EntryFieldsBack(n, at, size, IndexBytes(files, names[1..], at + size) + rest);
      assert [n] + names[1..] == names;
    }
  }

  /** The index holds exactly the names that were written if and only if each fits its length prefix. */
  lemma WrittenNames(files: map<Bytes, Bytes>, names: seq<Bytes>, properties: map<Bytes, Bytes>, keys: seq<Bytes>)
    requires ArchiveOk(files, names, properties, keys)
    ensures NamesOf(EncodeArchive(files, names, properties, keys)) == Ok(names) <==> ShortNames(names)
  {
    hide EncodeArchive, ReadFooter, IndexNames, At, Payloads, PropertyBytes, IndexBytes, ShortNames, Holds;
    ArchiveParts(files, names, properties, keys);
    PayloadsFit(files, names, properties, keys);
    var data := EncodeArchive(files, names, properties, keys);
    var f := ReadFooter(data).value;
    if ShortNames(names) {
      var rest :| At(data, f.indexOffset) == IndexBytes(files, names, 0) + rest;
      IndexNamesBack(files, names, 0, rest);
    }
    if NamesOf(data) == Ok(names) {
      IndexNamesShort(f.indexCount, At(data, f.indexOffset), f.dataOffset);
    }
  }

  // ---- Main results ----

  /** No file name is what lossy decoding makes of invalid bytes; a name without U+FFFD never is. */
  ghost predicate NothingReplaced(u: Utf8, names: seq<Bytes>) {
    forall b :: u.lossy(b) in names ==> u.valid(b)
  }

  /** The world server gets every file back, and no other name, when every name fits its length prefix; and only then,
      unless a name could stand for invalid bytes. */
  lemma MapsRoundTrip(u: Utf8, files: map<Bytes, Bytes>, names: seq<Bytes>, properties: map<Bytes, Bytes>,
                      keys: seq<Bytes>)
    requires Lawful(u) && ArchiveOk(files, names, properties, keys) && AllValid(u, names)
    ensures var recovered := MapsRecovered(OpenMaps(u, EncodeArchive(files, names, properties, keys)), files);
            && (ShortNames(names) ==> recovered)
            && (NothingReplaced(u, names) && recovered ==> ShortNames(names))
  {
    hide EncodeArchive, ReadFooter, ReadEntries, ReadMapEntries, IndexNames, At, Slice, AllValid;
    var data := EncodeArchive(files, names, properties, keys);
    if ShortNames(names) {
      var entries := EntriesRead(u, files, names, properties, keys);
      var f := ReadFooter(data).value;
      EntriesAgree(u, f.indexCount, At(data, f.indexOffset), f.dataOffset, map[]);
    }
    if NothingReplaced(u, names) && MapsRecovered(OpenMaps(u, data), files) {
      var f := ReadFooter(data).value;
      var s := At(data, f.indexOffset);
      ListedNames(u, f.indexCount, s, f.dataOffset, map[]);
      IndexNamesShort(f.indexCount, s, f.dataOffset);
      forall n | n in names ensures Short(n) {
        assert n in files.Keys;
        var b :| b in IndexNames(f.indexCount, s, f.dataOffset).value && u.lossy(b) == n;
      }
    }
  }

  /** Main result: the tool gets everything back exactly when every name and property string fits its length prefix. */
  lemma ArchiveRoundTrip(u: Utf8, files: map<Bytes, Bytes>, names: seq<Bytes>, properties: map<Bytes, Bytes>,
                         keys: seq<Bytes>)
    requires ArchiveOk(files, names, properties, keys) && AllValid(u, names) && Texts(u, keys, properties)
    ensures Recovered(FromBytes(u, EncodeArchive(files, names, properties, keys)), files, properties)
            <==> ShortNames(names) && ShortNames(keys) && ShortValues(properties)
  {
    hide EncodeArchive, ReadFooter, ReadEntries, ReadProperties, At, Slice, PropertyBytes, IndexBytes, Payloads,
      AllValid, Texts;
    var data := EncodeArchive(files, names, properties, keys);
    if ShortNames(names) && ShortNames(keys) && ShortValues(properties) {
      var entries := EntriesRead(u, files, names, properties, keys);
      ArchiveParts(files, names, properties, keys);
      var f := ReadFooter(data).value;
      var rest :| At(data, f.propertiesOffset) == PropertyBytes(properties, keys) + rest;
      PropertiesBack(u, properties, keys, rest, map[]);
      AddedIsAll(properties, keys, map[]);
    }
    if Recovered(FromBytes(u, data), files, properties) {
      var f := ReadFooter(data).value;
      ToolNames(u, f.indexCount, At(data, f.indexOffset), f.dataOffset, map[]);
      PropertiesShort(u, f.propertiesCount, At(data, f.propertiesOffset), map[]);
      assert forall n :: n in names ==> n in files.Keys;
      assert forall k :: k in keys ==> k in properties.Keys;
    }
  }

  // ---- An archive on which the two readers differ ----

  /** One empty file whose name is the single byte 255, which no UTF-8 text contains. */
  ghost function OddArchive(): Bytes {
    EncodeArchive(map[[255] := []], [[255]], map[], [])
  }

  lemma OddArchiveOk()
    ensures ArchiveOk(map[[255] := []], [[255]], map[], []) && ShortNames([[255]])
    ensures ReadFooter(OddArchive()).Ok? && ReadFooter(OddArchive()).value.indexCount == 1
  {
    hide Utf, BigEndian, ReadFooter;
    var files: map<Bytes, Bytes> := map[[255] := []];
    assert [[255]][1..] == [];
    assert |IndexBytes(files, [[255]], 0)| == |Utf([255])| + 8;
    assert Payloads(files, [[255]]) == [] && PropertyBytes(map[], []) == [];
    assert |Utf([255])| == 3 by { UtfSize([255]); }
    ArchiveParts(files, [[255]], map[], []);
  }

  lemma UtfSize(s: Bytes)
    ensures |Utf(s)| == 2 + |s|
  {
  }

  lemma OneEntry(u: Utf8, s: Bytes, dataOffset: nat)
    requires ReadMapEntries(u, 1, s, dataOffset, map[]).Ok? && IndexNames(1, s, dataOffset) == Ok([[255]])
    ensures ReadMapEntries(u, 1, s, dataOffset, map[]).value.Keys == {u.lossy([255])}
  {
    hide ReadUnsigned;
    var name := ReadUtf(s).value;
    var offset := ReadUnsigned(name.rest, 4).value;
    var length := ReadUnsigned(offset.rest, 4).value;
    assert IndexNames(0, length.rest, dataOffset) == Ok([]);
    assert ([name.value] + [])[0] == [255];
    var entries: map<Bytes, Entry> := map[u.lossy([255]) := Entry(offset.value + dataOffset, length.value)];
    assert ReadMapEntries(u, 0, length.rest, dataOffset, entries) == Ok(entries);
    assert ReadMapEntries(u, 1, s, dataOffset, map[]) == Ok(entries);
  }

  /** The world server opens it and lists the decoded name; the tool reports an error. */
  lemma InvalidNameSplitsReaders(u: Utf8)
    requires Lawful(u) && !u.valid([255])
    ensures FromBytes(u, OddArchive()).Err? && OpenMaps(u, OddArchive()).Ok?
    ensures OpenMaps(u, OddArchive()).value.entries.Keys == {u.lossy([255])}
  {
    hide ReadFooter, ReadMapEntries, IndexNames, FromBytes, OddArchive, At, ArchiveOk;
    OddArchiveOk();
    OddNames();
    ReadersAgree(u, OddArchive());
    assert [255] in [[255]];
    var f := ReadFooter(OddArchive()).value;
    OneEntry(u, At(OddArchive(), f.indexOffset), f.dataOffset);
  }

  lemma OddNames()
    ensures NamesOf(OddArchive()) == Ok([[255]])
  {
    hide EncodeArchive, ArchiveOk, NamesOf;
    OddArchiveOk();
    WrittenNames(map[[255] := []], [[255]], map[], []);
  }
}
