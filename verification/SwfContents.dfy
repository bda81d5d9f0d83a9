/** What extraction finds in a file, described by the tags the file is built from. */
module SwfContents {
  import opened Common
  import opened Binary
  import opened Swf

  /** One tag, in the short form (up to 62 bytes of data) or the long one. */
  datatype Item =
    | NamedCode(flags: Bytes, name: Bytes, code: Bytes, long: bool)
    | RawCode(code: Bytes, long: bool)
    | NoCode(data: Bytes, long: bool)
    | Other(kind: nat, data: Bytes, long: bool)

  function Kind(t: Item): nat {
    match t
    case NamedCode(_, _, _, _) => 82
    case RawCode(_, _) => 72
    case NoCode(_, _) => 82
    case Other(kind, _, _) => kind
  }

  function Data(t: Item): Bytes {
    match t
    case NamedCode(flags, name, code, _) => flags + name + [0] + code
    case RawCode(code, _) => code
    case NoCode(data, _) => data
    case Other(_, data, _) => data
  }

  /** A named block has four flag bytes, a name without a zero and some code; a tag of its kind without code has no
      zero behind its flags, except perhaps as the last byte. */
  predicate ItemOk(t: Item) {
    && (if t.long then |Data(t)| < 0x1_0000_0000 else |Data(t)| < 63)
    && match t
       case NamedCode(flags, name, code, _) => |flags| == 4 && code != [] && 0 !in name
       case RawCode(_, _) => true
       case NoCode(data, _) => |data| < 5 || forall i :: 4 <= i < |data| - 1 ==> data[i] != 0
       case Other(kind, _, _) => kind < 1024 && kind != 0 && kind != 72 && kind != 82
  }

  function TagBytes(kind: nat, data: Bytes, long: bool): Bytes {
    if long then LittleEndian(kind * 64 + 63, 2) + LittleEndian(|data|, 4) + data
    else LittleEndian(kind * 64 + |data|, 2) + data
  }

  function Listed(t: Item): seq<AbcBlock> {
    match t
    case NamedCode(_, name, code, _) => [AbcBlock(name, code)]
    case RawCode(code, _) => [AbcBlock([], code)]
    case _ => []
  }

  function Tags(items: seq<Item>): Bytes {
    if items == [] then [] else TagBytes(Kind(items[0]), Data(items[0]), items[0].long) + Tags(items[1..])
  }

  function AllListed(items: seq<Item>): seq<AbcBlock> {
    if items == [] then [] else Listed(items[0]) + AllListed(items[1..])
  }

  /** How a file may end: at once, inside a tag header, inside a tag's data, or with an end tag and anything. */
  datatype Ending =
    | Stray(bytes: Bytes)
    | CutShort(kind: nat, length: nat, part: Bytes)
    | CutHeader(kind: nat, part: Bytes)
    | CutLong(kind: nat, length: nat, part: Bytes)
    | EndTag(data: Bytes, long: bool, behind: Bytes)

  function EndingBytes(e: Ending): Bytes {
    match e
    case Stray(bytes) => bytes
    case CutShort(kind, length, part) => LittleEndian(kind * 64 + length, 2) + part
    case CutHeader(kind, part) => LittleEndian(kind * 64 + 63, 2) + part
    case CutLong(kind, length, part) => LittleEndian(kind * 64 + 63, 2) + LittleEndian(length, 4) + part
    case EndTag(data, long, behind) => TagBytes(0, data, long) + behind
  }

  predicate EndingOk(e: Ending) {
    match e
    case Stray(bytes) => |bytes| < 2
    case CutShort(kind, length, part) => kind < 1024 && |part| < length < 63
    case CutHeader(kind, part) => kind < 1024 && |part| < 4
    case CutLong(kind, length, part) => kind < 1024 && |part| < length < 0x1_0000_0000
    case EndTag(data, long, _) => if long then |data| < 0x1_0000_0000 else |data| < 63
  }

  /** The bit-packed rectangle: five bits hold the width of its four numbers. */
  predicate RectangleOk(rect: Bytes) {
    rect != [] && 8 * (|rect| - 1) < 5 + 4 * (rect[0] / 8) <= 8 * |rect|
  }

  // ---- Tags are recognised ----

  lemma CodeOfTag(n: nat, rest: Bytes)
    requires n < 0x1_0000
    ensures var s := LittleEndian(n, 2) + rest;
            FromLittleEndian(s[..2]) == n && s[2..] == rest
  {
    hide LittleEndian, FromLittleEndian, Pow2;
    Pow2Values();
    LittleEndianBack(n, 2);
    var s := LittleEndian(n, 2) + rest;
    assert s[..2] == LittleEndian(n, 2);
  }

  lemma LengthOfTag(kind: nat, length: nat, rest: Bytes)
    requires kind < 1024 && length < 0x1_0000_0000
    ensures var s := LittleEndian(kind * 64 + 63, 2) + LittleEndian(length, 4) + rest;
            && FromLittleEndian(s[..2]) == kind * 64 + 63 && FromLittleEndian(s[2..6]) == length
            && s[6..] == rest
  {
    hide LittleEndian, FromLittleEndian, Pow2;
    Pow2Values();
    LittleEndianBack(length, 4);
    var s := LittleEndian(kind * 64 + 63, 2) + LittleEndian(length, 4) + rest;
    assert s == LittleEndian(kind * 64 + 63, 2) + (LittleEndian(length, 4) + rest);
    CodeOfTag(kind * 64 + 63, LittleEndian(length, 4) + rest);
    assert s[2..6] == LittleEndian(length, 4);
  }

  lemma TagRead(kind: nat, data: Bytes, long: bool, rest: Bytes)
    requires kind < 1024 && if long then |data| < 0x1_0000_0000 else |data| < 63
    ensures var s := TagBytes(kind, data, long) + rest;
            var t := NextTag(s);
            && t == Tag(kind, if long then 6 else 2, |data|)
            && TagData(s, t) == data && s[TagSize(t)..] == rest
  {
    hide LittleEndian, FromLittleEndian;
    var s := TagBytes(kind, data, long) + rest;
    if long {
      LengthOfTag(kind, |data|, data + rest);
      assert s == LittleEndian(kind * 64 + 63, 2) + LittleEndian(|data|, 4) + (data + rest);
    } else {
      CodeOfTag(kind * 64 + |data|, data + rest);
      assert s == LittleEndian(kind * 64 + |data|, 2) + (data + rest);
    }
  }

  lemma EndingRead(e: Ending)
    requires EndingOk(e)
    ensures ExtractFrom(EndingBytes(e)) == []
  {
    hide BlocksOf, NextTag;
    EndingStops(e);
  }

  lemma EndingStops(e: Ending)
    requires EndingOk(e)
    ensures var t := NextTag(EndingBytes(e)); t.NoTag? || t.CutTag? || t.kind == 0
  {
    hide LittleEndian, FromLittleEndian, TagBytes;
    match e
    case Stray(_) =>
    case CutShort(kind, length, part) => CodeOfTag(kind * 64 + length, part);
    case CutHeader(kind, part) => CodeOfTag(kind * 64 + 63, part);
    case CutLong(kind, length, part) => LengthOfTag(kind, length, part);
    case EndTag(data, long, behind) => TagRead(0, data, long, behind);
  }

  // ---- Blocks ----

  lemma {:induction false} FirstZero(data: Bytes, i: nat, at: nat)
    requires i <= at <= |data| && (forall k :: i <= k < at ==> data[k] != 0) && (at < |data| ==> data[at] == 0)
    ensures FindZero(data, i) == at
    decreases at - i
  {
    if i < at {
      FirstZero(data, i + 1, at);
    }
  }

  lemma BlocksListed(t: Item)
    requires ItemOk(t)
    ensures BlocksOf(Kind(t), Data(t)) == Listed(t)
  {
    hide FindZero;
    match t
    case NamedCode(flags, name, code, _) =>
      var data := Data(t);
      assert data == flags + name + ([0] + code);
      FirstZero(data, 4, 4 + |name|);
      assert data[4..4 + |name|] == name && data[4 + |name| + 1..] == code;
    case NoCode(data, _) =>
      if |data| >= 5 {
        FirstZero(data, 4, if data[|data| - 1] == 0 then |data| - 1 else |data|);
      }
    case _ =>
  }

  /** Main result: extraction lists exactly the code blocks of the file's tags, in order. */
  lemma {:induction false} TagsExtracted(items: seq<Item>, e: Ending)
    requires (forall i :: 0 <= i < |items| ==> ItemOk(items[i])) && EndingOk(e)
    ensures ExtractFrom(Tags(items) + EndingBytes(e)) == AllListed(items)
  {
    hide BlocksOf, NextTag, ExtractFrom, TagBytes, Data, ItemOk, EndingOk, EndingBytes, Listed;
    if items == [] {
      assert [] + EndingBytes(e) == EndingBytes(e);
      EndingRead(e);
    } else {
      TagsExtracted(items[1..], e);
      OneTag(items[0], Tags(items[1..]) + EndingBytes(e));
      var first := TagBytes(Kind(items[0]), Data(items[0]), items[0].long);
      assert Tags(items) + EndingBytes(e) == first + (Tags(items[1..]) + EndingBytes(e));
    }
  }

  lemma OneTag(t: Item, rest: Bytes)
    requires ItemOk(t)
    ensures ExtractFrom(TagBytes(Kind(t), Data(t), t.long) + rest) == Listed(t) + ExtractFrom(rest)
  {
    hide BlocksOf, NextTag, TagBytes, Data, Listed;
    assert Kind(t) < 1024 && Kind(t) != 0;
    TagRead(Kind(t), Data(t), t.long, rest);
    BlocksListed(t);
  }

  lemma FileExtracted(header: Bytes, rect: Bytes, frames: Bytes, items: seq<Item>, e: Ending)
    requires |header| == 8 && RectangleOk(rect) && |frames| == 4
    requires (forall i :: 0 <= i < |items| ==> ItemOk(items[i])) && EndingOk(e)
    ensures ExtractAbc(header + rect + frames + Tags(items) + EndingBytes(e)) == Ok(AllListed(items))
  {
    hide ExtractFrom, Tags, EndingBytes, ItemOk, EndingOk, AllListed;
    var body := Tags(items) + EndingBytes(e);
    var file := header + rect + frames + Tags(items) + EndingBytes(e);
    assert file == header + rect + frames + body;
    assert file[8] == rect[0];
    assert HeaderLength(rect[0]) == |rect| + 4;
    assert file[12 + |rect|..] == body;
    TagsExtracted(items, e);
  }

  /** Patching keeps the rectangle and the frame rate and count and patches what lies behind them, be it nothing; a file
      that ends inside them is an error. */
  lemma FilePatched(rect: Bytes, frames: Bytes, body: Bytes, sig: Bytes, key: Bytes)
    requires RectangleOk(rect) && |frames| == 4
    ensures PatchTags(rect + frames + body, sig, key) ==
            Ok(Prepend(rect + frames, PatchFrom(body, sig, key, false, false)))
    ensures forall k :: 0 < k < |rect + frames| ==> PatchTags((rect + frames)[..k], sig, key) == Err
  {
    hide PatchFrom;
    var raw := rect + frames + body;
    assert HeaderLength(rect[0]) == |rect| + 4;
    assert raw[..|rect| + 4] == rect + frames && raw[|rect| + 4..] == body;
    forall k | 0 < k < |rect + frames| ensures PatchTags((rect + frames)[..k], sig, key) == Err {
      assert (rect + frames)[..k][0] == rect[0];
    }
  }
}
