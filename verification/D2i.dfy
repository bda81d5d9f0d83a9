/** D2I translation files: strings at absolute offsets, three index sections, and the pointer to them patched in
    last. */
module D2i {
  import opened Common
  import opened Binary
  import opened Sorting

  // ---- Writer: keys and names are the sorted key lists of the maps ----

  /** The strings of the given keys, one after the other. */
  ghost function Strings<K(!new)>(keys: seq<K>, texts: map<K, Bytes>): Bytes
    requires Covers(keys, texts)
  {
    if keys == [] then [] else Utf(texts[keys[0]]) + Strings(keys[1..], texts)
  }

  /** Where each key's string starts when the first one starts at offset at. */
  ghost function Offsets<K(!new)>(keys: seq<K>, texts: map<K, Bytes>, at: nat): map<K, nat>
    requires Covers(keys, texts)
  {
    if keys == [] then map[] else Offsets(keys[1..], texts, at + |Utf(texts[keys[0]])|)[keys[0] := at]
  }

  /** The keys that also have a variant without diacritics. */
  ghost function Marked(keys: seq<int>, plain: map<int, Bytes>): (r: seq<int>)
    ensures Covers(r, plain)
  {
    if keys == [] then [] else (if keys[0] in plain then [keys[0]] else []) + Marked(keys[1..], plain)
  }

  ghost function TextEntry(key: int, texts: map<int, nat>, plain: map<int, nat>): Bytes
    requires key in texts
  {
    BigEndian(key, 4) + [if key in plain then 1 else 0] + BigEndian(texts[key], 4)
    + if key in plain then BigEndian(plain[key], 4) else []
  }

  ghost function TextIndex(keys: seq<int>, texts: map<int, nat>, plain: map<int, nat>): Bytes
    requires Covers(keys, texts)
  {
    if keys == [] then [] else TextEntry(keys[0], texts, plain) + TextIndex(keys[1..], texts, plain)
  }

  ghost function NameIndex(names: seq<Bytes>, offsets: map<Bytes, nat>): Bytes
    requires Covers(names, offsets)
  {
    if names == [] then [] else Utf(names[0]) + BigEndian(offsets[names[0]], 4) + NameIndex(names[1..], offsets)
  }

  ghost function SortIndex(keys: seq<int>): Bytes {
    if keys == [] then [] else BigEndian(keys[0], 4) + SortIndex(keys[1..])
  }

  ghost function Sized(s: Bytes): Bytes {
    BigEndian(|s|, 4) + s
  }

  /** Everything that goes into a file. */
  datatype Source = Source(texts: map<int, Bytes>, plain: map<int, Bytes>, named: map<Bytes, Bytes>,
                           keys: seq<int>, names: seq<Bytes>)

  ghost predicate SourceOk(f: Source) {
    && Lists(f.keys, f.texts.Keys) && Sorted(f.keys, IntLeq) && Covers(f.keys, f.texts)
    && Lists(f.names, f.named.Keys) && Covers(f.names, f.named)
  }

  /** The three offset tables. */
  ghost function Tables(f: Source): (map<int, nat>, map<int, nat>, map<Bytes, nat>)
    requires SourceOk(f)
  {
    var at1 := 4 + |Strings(f.keys, f.texts)|;
    var at2 := at1 + |Strings(Marked(f.keys, f.plain), f.plain)|;
    (Offsets(f.keys, f.texts, 4), Offsets(Marked(f.keys, f.plain), f.plain, at1), Offsets(f.names, f.named, at2))
  }

  ghost function Body(f: Source): Bytes
    requires SourceOk(f)
  {
    Strings(f.keys, f.texts) + Strings(Marked(f.keys, f.plain), f.plain) + Strings(f.names, f.named)
  }

  ghost function Sections(f: Source, tables: (map<int, nat>, map<int, nat>, map<Bytes, nat>)): Bytes
    requires Covers(f.keys, tables.0) && Covers(f.names, tables.2)
  {
    Sized(TextIndex(f.keys, tables.0, tables.1)) + (Sized(NameIndex(f.names, tables.2)) + Sized(SortIndex(f.keys)))
  }

  ghost function EncodeTexts(f: Source): Bytes
    requires SourceOk(f)
  {
    TablesComplete(f);
    BigEndian(4 + |Body(f)|, 4) + Body(f) + Sections(f, Tables(f))
  }

  lemma TablesComplete(f: Source)
    requires SourceOk(f)
    ensures Covers(f.keys, Tables(f).0) && Covers(f.names, Tables(f).2)
  {
    hide Offsets, Strings;
    OffsetKeys(f.keys, f.texts, 4);
    OffsetKeys(f.names, f.named, 4 + |Strings(f.keys, f.texts)| + |Strings(Marked(f.keys, f.plain), f.plain)|);
  }

  lemma {:induction false} OffsetKeys<K(!new)>(keys: seq<K>, texts: map<K, Bytes>, at: nat)
    requires Covers(keys, texts)
    ensures forall k :: k in keys <==> k in Offsets(keys, texts, at)
  {
    if keys != [] {
      OffsetKeys(keys[1..], texts, at + |Utf(texts[keys[0]])|);
    }
  }

  // ---- Reader ----

  datatype Reader = Reader(data: Bytes, texts: map<int, nat>, plain: map<int, nat>, named: map<Bytes, nat>,
          sorts: map<int, int>)

  datatype TextTables = TextTables(texts: map<int, nat>, plain: map<int, nat>)

  /** Entries until left bytes have been used up; the last one may overshoot. */
  function ReadTexts(s: Bytes, left: int, acc: TextTables): Result<Parsed<TextTables>>
    decreases |s|
  {
    if left <= 0 then Ok(Parsed(acc, s))
    else
      var key :- ReadSigned(s, 4);
      var mark :- ReadUnsigned(key.rest, 1);
      var pointer :- ReadUnsigned(mark.rest, 4);
      var texts := acc.texts[key.value := pointer.value];
      if mark.value == 0 then ReadTexts(pointer.rest, left - (|s| - |pointer.rest|), TextTables(texts, acc.plain))
      else
        var other :- ReadUnsigned(pointer.rest, 4);
        ReadTexts(other.rest, left - (|s| - |other.rest|), TextTables(texts, acc.plain[key.value := other.value]))
  }

  function ReadNames(s: Bytes, left: int, acc: map<Bytes, nat>): Result<Parsed<map<Bytes, nat>>>
    decreases |s|
  {
    if left <= 0 then Ok(Parsed(acc, s))
    else
      var name :- ReadUtf(s);
      var pointer :- ReadUnsigned(name.rest, 4);
      ReadNames(pointer.rest, left - (|s| - |pointer.rest|), acc[name.value := pointer.value])
  }

  /** The sort position of an id is the number of ids before it in the file. */
  function ReadSorts(s: Bytes, left: int, counter: int, acc: map<int, int>): Result<Parsed<map<int, int>>>
    decreases |s|
  {
    if left <= 0 then Ok(Parsed(acc, s))
    else
      var id :- ReadSigned(s, 4);
      ReadSorts(id.rest, left - 4, counter + 1, acc[id.value := counter])
  }

  /** A section length. A negative one overflows when added to the position, or asks for more than there is. */
  function ReadLength(s: Bytes): Result<Parsed<nat>> {
    var n :- ReadSigned(s, 4);
    if n.value < 0 then Err else Ok(Parsed(n.value, n.rest))
  }

  /** The three index sections, one behind the other. */
  function ReadSections(s: Bytes): Result<(TextTables, map<Bytes, nat>, map<int, int>)> {
    var n1 :- ReadLength(s);
    var texts :- ReadTexts(n1.rest, n1.value, TextTables(map[], map[]));
    var n2 :- ReadLength(texts.rest);
    var names :- ReadNames(n2.rest, n2.value, map[]);
    var n3 :- ReadLength(names.rest);
    var sorts :- ReadSorts(n3.rest, n3.value, 0, map[]);
    Ok((texts.value, names.value, sorts.value))
  }

  function FromBytes(data: Bytes): Result<Reader> {
    var pointer :- ReadSigned(data, 4);
    var t :- ReadSections(At(data, pointer.value));
    Ok(Reader(data, t.0.texts, t.0.plain, t.1, t.2))
  }

  function ReadStringAt(data: Bytes, offset: nat): Result<Bytes> {
    var s :- ReadUtf(At(data, offset));
    Ok(s.value)
  }

  function GetText(r: Reader, key: int): Result<Bytes> {
    if key in r.texts then ReadStringAt(r.data, r.texts[key]) else Err
  }

  function GetUndiacriticalText(r: Reader, key: int): Result<Option<Bytes>> {
    if key in r.plain then
      var s :- ReadStringAt(r.data, r.plain[key]);
      Ok(Some(s))
    else Ok(None)
  }

  function GetNamedText(r: Reader, name: Bytes): Result<Bytes> {
    if name in r.named then ReadStringAt(r.data, r.named[name]) else Err
  }
}
