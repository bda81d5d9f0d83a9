/** D2P archives: payloads, properties, an index of relative offsets and a footer, with the two readers of the
    repository. */
module D2p {
  import opened Common
  import opened Binary
  import opened Sorting

  // ---- Writer: names and keys are the sorted key lists of the two maps ----

  ghost function Payloads(files: map<Bytes, Bytes>, names: seq<Bytes>): Bytes
    requires Covers(names, files)
  {
    if names == [] then [] else files[names[0]] + Payloads(files, names[1..])
  }

  ghost function PropertyBytes(properties: map<Bytes, Bytes>, keys: seq<Bytes>): Bytes
    requires Covers(keys, properties)
  {
    if keys == [] then [] else Utf(keys[0]) + Utf(properties[keys[0]]) + PropertyBytes(properties, keys[1..])
  }

  /** Index entries; at is the offset of the first payload from the start of the data. */
  ghost function IndexBytes(files: map<Bytes, Bytes>, names: seq<Bytes>, at: nat): Bytes
    requires Covers(names, files)
  {
    if names == [] then []
    else
      Utf(names[0]) + BigEndian(at, 4) + BigEndian(|files[names[0]]|, 4)
      + IndexBytes(files, names[1..], at + |files[names[0]]|)
  }

  const DATA_OFFSET: nat := 2

  ghost function FooterBytes(indexOffset: nat, names: nat, propertiesOffset: nat, keys: nat): Bytes {
    BigEndian(DATA_OFFSET, 4) + BigEndian(indexOffset - DATA_OFFSET, 4) + BigEndian(indexOffset, 4) + BigEndian(names,
            4)
    + BigEndian(propertiesOffset, 4) + BigEndian(keys, 4)
  }

  ghost function EncodeArchive(files: map<Bytes, Bytes>, names: seq<Bytes>, properties: map<Bytes, Bytes>,
                               keys: seq<Bytes>): Bytes
    requires Covers(names, files) && Covers(keys, properties)
  {
    var payloads := Payloads(files, names);
    var props := PropertyBytes(properties, keys);
    [2, 1] + payloads + props + IndexBytes(files, names, 0)
    + FooterBytes(2 + |payloads| + |props|, |names|, 2 + |payloads|, |keys|)
  }

  // ---- The tool's reader ----

  datatype Entry = Entry(offset: nat, length: nat)

  datatype Footer = Footer(dataOffset: nat, indexOffset: nat, indexCount: nat, propertiesOffset: nat,
          propertiesCount: nat)

  datatype Reader = Reader(data: Bytes, entries: map<Bytes, Entry>, properties: map<Bytes, Bytes>)

  const FOOTER_SIZE: nat := 24

  function ReadFooter(data: Bytes): Result<Footer> {
    if |data| < 2 + FOOTER_SIZE then Err
    else
      var dataOffset :- ReadUnsigned(data[|data| - FOOTER_SIZE..], 4);
      var dataCount :- ReadUnsigned(dataOffset.rest, 4);
      var indexOffset :- ReadUnsigned(dataCount.rest, 4);
      var indexCount :- ReadUnsigned(indexOffset.rest, 4);
      var propertiesOffset :- ReadUnsigned(indexCount.rest, 4);
      var propertiesCount :- ReadUnsigned(propertiesOffset.rest, 4);
      Ok(Footer(dataOffset.value, indexOffset.value, indexCount.value, propertiesOffset.value, propertiesCount.value))
  }

  /** How bytes become strings: which ones are valid UTF-8, and what lossy decoding makes of any bytes. */
  datatype Utf8 = Utf8(valid: Bytes -> bool, lossy: Bytes -> Bytes)

  /** Lossy decoding leaves valid bytes alone. */
  ghost predicate Lawful(u: Utf8) {
    forall b :: u.valid(b) ==> u.lossy(b) == b
  }

  /** The tool's strings: invalid UTF-8 is an error. */
  function ReadText(u: Utf8, s: Bytes): Result<Parsed<Bytes>> {
    var text :- ReadUtf(s);
    if u.valid(text.value) then Ok(text) else Err
  }

  function ReadProperties(u: Utf8, count: nat, s: Bytes, acc: map<Bytes, Bytes>): Result<map<Bytes, Bytes>> {
    if count == 0 then Ok(acc)
    else
      var key :- ReadText(u, s);
      var value :- ReadText(u, key.rest);
      ReadProperties(u, count - 1, value.rest, acc[key.value := value.value])
  }

  /** The sum of two 32-bit offsets is checked for overflow. */
  function ReadEntries(u: Utf8, count: nat, s: Bytes, dataOffset: nat, acc: map<Bytes, Entry>)
    : Result<map<Bytes, Entry>>
  {
    if count == 0 then Ok(acc)
    else
      var name :- ReadText(u, s);
      var offset :- ReadUnsigned(name.rest, 4);
      var length :- ReadUnsigned(offset.rest, 4);
      if offset.value + dataOffset >= 0x1_0000_0000 then Err
      else
        var entry := Entry(offset.value + dataOffset, length.value);
        ReadEntries(u, count - 1, length.rest, dataOffset, acc[name.value := entry])
  }

  function FromBytes(u: Utf8, data: Bytes): Result<Reader> {
    var f :- ReadFooter(data);
    var properties :- ReadProperties(u, f.propertiesCount, At(data, f.propertiesOffset), map[]);
    var entries :- ReadEntries(u, f.indexCount, At(data, f.indexOffset), f.dataOffset, map[]);
    Ok(Reader(data, entries, properties))
  }

  function Slice(data: Bytes, e: Entry): Result<Bytes> {
    if e.offset + e.length > |data| then Err else Ok(data[e.offset..e.offset + e.length])
  }

  function ReadFile(r: Reader, name: Bytes): Result<Bytes> {
    if name in r.entries then Slice(r.data, r.entries[name]) else Err
  }

  // ---- The world server's reader: no properties, lossy names, the offset shifted before the length is read ----

  datatype MapArchive = MapArchive(data: Bytes, entries: map<Bytes, Entry>)

  function ReadMapEntries(u: Utf8, count: nat, s: Bytes, dataOffset: nat, acc: map<Bytes, Entry>)
    : Result<map<Bytes, Entry>>
  {
    if count == 0 then Ok(acc)
    else
      var nameLength :- ReadUnsigned(s, 2);
      var name :- ReadBytes(nameLength.rest, nameLength.value);
      var offset :- ReadUnsigned(name.rest, 4);
      if offset.value + dataOffset >= 0x1_0000_0000 then Err
      else
        var length :- ReadUnsigned(offset.rest, 4);
        var entry := Entry(offset.value + dataOffset, length.value);
        ReadMapEntries(u, count - 1, length.rest, dataOffset, acc[u.lossy(name.value) := entry])
  }

  function OpenMaps(u: Utf8, data: Bytes): Result<MapArchive> {
    var f :- ReadFooter(data);
    var entries :- ReadMapEntries(u, f.indexCount, At(data, f.indexOffset), f.dataOffset, map[]);
    Ok(MapArchive(data, entries))
  }

  function ReadMapFile(r: MapArchive, name: Bytes): Result<Bytes> {
    if name in r.entries then Slice(r.data, r.entries[name]) else Err
  }

  // ---- How far the two readers agree, on every byte string ----

  /** The names of the index before any decoding. */
  function IndexNames(count: nat, s: Bytes, dataOffset: nat): Result<seq<Bytes>> {
    if count == 0 then Ok([])
    else
      var name :- ReadUtf(s);
      var offset :- ReadUnsigned(name.rest, 4);
      var length :- ReadUnsigned(offset.rest, 4);
      if offset.value + dataOffset >= 0x1_0000_0000 then Err
      else
        var names :- IndexNames(count - 1, length.rest, dataOffset);
        Ok([name.value] + names)
  }

  /** The keys and values of the properties before any decoding. */
  function PropertyStrings(count: nat, s: Bytes): Result<seq<Bytes>> {
    if count == 0 then Ok([])
    else
      var key :- ReadUtf(s);
      var value :- ReadUtf(key.rest);
      var strings :- PropertyStrings(count - 1, value.rest);
      Ok([key.value, value.value] + strings)
  }

  ghost predicate AllValid(u: Utf8, strings: seq<Bytes>) {
    forall s :: s in strings ==> u.valid(s)
  }

  /** The server reads every index that can be read, the tool those with valid names only, and then the same entries. */
  lemma {:induction false} EntriesAgree(u: Utf8, count: nat, s: Bytes, dataOffset: nat, acc: map<Bytes, Entry>)
    requires Lawful(u)
    ensures ReadMapEntries(u, count, s, dataOffset, acc).Ok? <==> IndexNames(count, s, dataOffset).Ok?
    ensures ReadEntries(u, count, s, dataOffset, acc).Ok? <==>
            IndexNames(count, s, dataOffset).Ok? && AllValid(u, IndexNames(count, s, dataOffset).value)
    ensures ReadEntries(u, count, s, dataOffset, acc).Ok? ==>
              ReadMapEntries(u, count, s, dataOffset, acc) == ReadEntries(u, count, s, dataOffset, acc)
  {
    hide ReadUnsigned, AllValid;
    if count == 0 {
      NoneInvalid(u);
    } else if ReadUtf(s).Ok? {
      var name := ReadUtf(s).value;
      var offset := ReadUnsigned(name.rest, 4);
      if offset.Ok? && ReadUnsigned(offset.value.rest, 4).Ok? {
        var length := ReadUnsigned(offset.value.rest, 4).value;
        var entry := Entry(offset.value.value + dataOffset, length.value);
        EntriesAgree(u, count - 1, length.rest, dataOffset, acc[u.lossy(name.value) := entry]);
        var names := IndexNames(count - 1, length.rest, dataOffset);
        if names.Ok? {
          OneMoreValid(u, name.value, names.value);
        }
      }
    }
  }

  lemma NoneInvalid(u: Utf8)
    ensures AllValid(u, [])
  {
  }

  lemma OneMoreValid(u: Utf8, first: Bytes, strings: seq<Bytes>)
    ensures AllValid(u, [first] + strings) <==> u.valid(first) && AllValid(u, strings)
  {
    assert first in [first] + strings;
    assert forall s :: s in strings ==> s in [first] + strings;
  }

  lemma {:induction false} PropertiesAgree(u: Utf8, count: nat, s: Bytes, acc: map<Bytes, Bytes>)
    ensures ReadProperties(u, count, s, acc).Ok? <==>
            PropertyStrings(count, s).Ok? && AllValid(u, PropertyStrings(count, s).value)
  {
    hide ReadUtf, AllValid;
    if count == 0 {
      NoneInvalid(u);
    } else if ReadUtf(s).Ok? && ReadUtf(ReadUtf(s).value.rest).Ok? {
      var key := ReadUtf(s).value;
      var value := ReadUtf(key.rest).value;
      PropertiesAgree(u, count - 1, value.rest, acc[key.value := value.value]);
      var strings := PropertyStrings(count - 1, value.rest);
      if strings.Ok? {
        OneMoreValid(u, value.value, strings.value);
        OneMoreValid(u, key.value, [value.value] + strings.value);
        assert [key.value] + ([value.value] + strings.value) == [key.value, value.value] + strings.value;
      }
    }
  }

  function NamesOf(data: Bytes): Result<seq<Bytes>> {
    var f :- ReadFooter(data);
    IndexNames(f.indexCount, At(data, f.indexOffset), f.dataOffset)
  }

  function PropertiesOf(data: Bytes): Result<seq<Bytes>> {
    var f :- ReadFooter(data);
    PropertyStrings(f.propertiesCount, At(data, f.propertiesOffset))
  }

  /** Of any bytes at all: the tool opens what the world server opens, provided the properties can be read and every
      name and property string is valid UTF-8; then entries and files agree. */
  lemma ReadersAgree(u: Utf8, data: Bytes)
    requires Lawful(u)
    ensures OpenMaps(u, data).Ok? <==> NamesOf(data).Ok?
    ensures FromBytes(u, data).Ok? <==>
            && OpenMaps(u, data).Ok? && PropertiesOf(data).Ok?
            && AllValid(u, NamesOf(data).value) && AllValid(u, PropertiesOf(data).value)
    ensures FromBytes(u, data).Ok? ==>
              && FromBytes(u, data).value.entries == OpenMaps(u, data).value.entries
              && forall name :: ReadFile(FromBytes(u, data).value, name) == ReadMapFile(OpenMaps(u, data).value, name)
  {
    hide ReadFooter, ReadProperties, ReadEntries, ReadMapEntries, At, IndexNames, PropertyStrings, AllValid;
    if ReadFooter(data).Ok? {
      var f := ReadFooter(data).value;
      EntriesAgree(u, f.indexCount, At(data, f.indexOffset), f.dataOffset, map[]);
      PropertiesAgree(u, f.propertiesCount, At(data, f.propertiesOffset), map[]);
    }
  }

  /** Both readers refuse less than the two version bytes and the footer, and accept that much alone when it announces
      no entries and no properties. */
  lemma SmallestArchive(u: Utf8, data: Bytes)
    ensures |data| < 26 ==> FromBytes(u, data) == Err && OpenMaps(u, data) == Err
    ensures |data| == 26 && data[2..] == seq(24, _ => 0) ==> FromBytes(u, data) == Ok(Reader(data, map[], map[]))
    ensures |data| == 26 && data[2..] == seq(24, _ => 0) ==> OpenMaps(u, data) == Ok(MapArchive(data, map[]))
  {
    hide ReadProperties, ReadEntries, ReadMapEntries, FromBigEndian;
    if |data| == 26 && data[2..] == seq(24, _ => 0) {
      ZeroFooter(data);
      NothingListed(u, At(data, 0));
    }
  }

  lemma ZeroFooter(data: Bytes)
    requires |data| == 26 && data[2..] == seq(24, _ => 0)
    ensures ReadFooter(data) == Ok(Footer(0, 0, 0, 0, 0))
  {
    hide FromBigEndian;
    var zeros := seq(24, _ => 0);
    ZeroRead(24);
    ZeroRead(20);
    ZeroRead(16);
    ZeroRead(12);
    ZeroRead(8);
    ZeroRead(4);
    assert data[|data| - FOOTER_SIZE..] == zeros;
  }

  lemma ZeroRead(n: nat)
    requires n >= 4
    ensures ReadUnsigned(seq(n, _ => 0), 4) == Ok(Parsed(0, seq(n - 4, _ => 0)))
  {
    hide FromBigEndian;
    assert seq(n, _ => 0)[..4] == [0, 0, 0, 0] && seq(n, _ => 0)[4..] == seq(n - 4, _ => 0);
    FourZeros();
  }

  lemma FourZeros()
    ensures FromBigEndian([0, 0, 0, 0]) == 0
  {
    var one: Bytes, two: Bytes, three: Bytes, four: Bytes := [0], [0, 0], [0, 0, 0], [0, 0, 0, 0];
    assert four[..3] == three && three[..2] == two && two[..1] == one && one[..0] == [];
    assert FromBigEndian(one) == 0;
    assert FromBigEndian(two) == 0;
    assert FromBigEndian(three) == 0;
    assert FromBigEndian(four) == 0;
  }

  lemma NothingListed(u: Utf8, s: Bytes)
    ensures ReadProperties(u, 0, s, map[]) == Ok(map[])
    ensures ReadEntries(u, 0, s, 0, map[]) == Ok(map[]) && ReadMapEntries(u, 0, s, 0, map[]) == Ok(map[])
  {
  }
}
