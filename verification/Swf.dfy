/** SWF tag streams: replacing embedded keys, and extracting code blocks, by two separate walkers. */
module Swf {
  import opened Common
  import opened Binary

  const TAG_DEFINE_BINARY_DATA := 87
  const TAG_DO_ABC := 82
  const TAG_DO_ABC_DEFINE := 72

  /** "DofusPublicKey" and "BEGIN PUBLIC KEY". */
  const DOFUS_MARKER: Bytes := [68, 111, 102, 117, 115, 80, 117, 98, 108, 105, 99, 75, 101, 121]
  const PEM_MARKER: Bytes := [66, 69, 71, 73, 78, 32, 80, 85, 66, 76, 73, 67, 32, 75, 69, 89]

  function LittleEndian(n: nat, width: nat): (s: Bytes)
    ensures |s| == width
    decreases width
  {
    if width == 0 then [] else [n % 256] + LittleEndian(n / 256, width - 1)
  }

  function FromLittleEndian(s: Bytes): nat {
    if s == [] then 0 else s[0] + 256 * FromLittleEndian(s[1..])
  }

  /** Bytes of the bit-packed rectangle and the frame rate and count behind it, from its first byte. */
  function HeaderLength(first: Byte): nat {
    (5 + first / 8 * 4 + 7) / 8 + 4
  }

  /** The tag at the front of s. A short form carries its length in six bits, the long form in four more bytes. */
  datatype TagView = NoTag | CutTag | Tag(kind: nat, headerSize: nat, length: nat)

  function NextTag(s: Bytes): (t: TagView)
    ensures t.Tag? ==> 2 <= t.headerSize <= 6 && t.headerSize + t.length <= |s|
  {
    if |s| < 2 then NoTag
    else
      var code := FromLittleEndian(s[..2]);
      if code % 64 == 63 then
        if |s| < 6 then NoTag
        else if 6 + FromLittleEndian(s[2..6]) > |s| then CutTag
        else Tag(code / 64, 6, FromLittleEndian(s[2..6]))
      else if 2 + code % 64 > |s| then CutTag
      else Tag(code / 64, 2, code % 64)
  }

  function TagSize(t: TagView): nat
    requires t.Tag?
  {
    t.headerSize + t.length
  }

  function TagData(s: Bytes, t: TagView): Bytes
    requires t == NextTag(s) && t.Tag?
  {
    s[t.headerSize..TagSize(t)]
  }

  // ---- Patching ----

  predicate MatchesAt(data: Bytes, pattern: Bytes, i: nat) {
    i + |pattern| <= |data| && data[i..i + |pattern|] == pattern
  }

  predicate Contains(data: Bytes, pattern: Bytes) {
    exists i: nat | i <= |data| :: MatchesAt(data, pattern, i)
  }

  function BinaryDataTag(characterId: Bytes, newData: Bytes): Bytes {
    LittleEndian(TAG_DEFINE_BINARY_DATA * 64 + 63, 2) + LittleEndian(6 + |newData|, 4)
    + characterId + [0, 0, 0, 0] + newData
  }

  predicate Holds(kind: nat, data: Bytes, marker: Bytes) {
    kind == TAG_DEFINE_BINARY_DATA && |data| > 6 && Contains(data[6..], marker)
  }

  datatype Patch = Patch(bytes: Bytes, sigDone: bool, pemDone: bool)

  function Prepend(a: Bytes, p: Patch): Patch {
    p.(bytes := a + p.bytes)
  }

  /** The tags of s with the first tag holding each marker replaced, unless that was done before. */
  function PatchFrom(s: Bytes, sig: Bytes, key: Bytes, sigDone: bool, pemDone: bool): Patch
    decreases |s|
  {
    match NextTag(s)
    case NoTag => Patch([], sigDone, pemDone)
    case CutTag => Patch(s, sigDone, pemDone)
    case Tag(kind, header, length) =>
      var data := TagData(s, NextTag(s));
      var rest := s[header + length..];
      if !sigDone && Holds(kind, data, DOFUS_MARKER) then
        Prepend(BinaryDataTag(data[..2], sig), PatchFrom(rest, sig, key, true, pemDone))
      else if !pemDone && Holds(kind, data, PEM_MARKER) then
        Prepend(BinaryDataTag(data[..2], key), PatchFrom(rest, sig, key, sigDone, true))
      else
        Prepend(s[..header + length], PatchFrom(rest, sig, key, sigDone, pemDone))
  }

  /** raw is the body behind the eight byte file header; it is indexed before its length is checked. */
  function PatchTags(raw: Bytes, sig: Bytes, key: Bytes): Result<Patch>
    requires raw != []
  {
    var header := HeaderLength(raw[0]);
    if |raw| < header then Err else Ok(Prepend(raw[..header], PatchFrom(raw[header..], sig, key, false, false)))
  }

  // ---- Extraction ----

  datatype AbcBlock = AbcBlock(name: Bytes, data: Bytes)

  /** The position of the first zero from i on, or the length. */
  function FindZero(data: Bytes, i: nat): (r: nat)
    requires i <= |data|
    ensures i <= r <= |data|
    decreases |data| - i
  {
    if i == |data| || data[i] == 0 then i else FindZero(data, i + 1)
  }

  function BlocksOf(kind: nat, data: Bytes): seq<AbcBlock> {
    if kind == TAG_DO_ABC then
      if |data| < 5 then []
      else
        var end := FindZero(data, 4);
        if end + 1 < |data| then [AbcBlock(data[4..end], data[end + 1..])] else []
    else if kind == TAG_DO_ABC_DEFINE then [AbcBlock([], data)]
    else []
  }

  /** All code blocks up to the end tag or the first incomplete tag. */
  function ExtractFrom(s: Bytes): seq<AbcBlock>
    decreases |s|
  {
    match NextTag(s)
    case NoTag => []
    case CutTag => []
    case Tag(kind, header, length) =>
      if kind == 0 then []
      else BlocksOf(kind, TagData(s, NextTag(s))) + ExtractFrom(s[header + length..])
  }

  function ExtractAbc(data: Bytes): Result<seq<AbcBlock>> {
    if |data| < 9 then Err
    else
      var pos := 8 + HeaderLength(data[8]);
      Ok(ExtractFrom(At(data, pos)))
  }

  // ---- Patching keeps what extraction finds ----

  lemma {:induction false} LittleEndianBack(n: nat, width: nat)
    ensures Range(width) > 0
    ensures n < Range(width) ==> FromLittleEndian(LittleEndian(n, width)) == n
    decreases width
  {
    if width > 0 {
      RangeStep(width);
      LittleEndianBack(n / 256, width - 1);
    } else {
      assert Range(0) == 1;
    }
  }

  /** The replacement is one well-formed long tag of the same kind, whatever follows. */
  lemma ReplacementIsTag(id: Bytes, newData: Bytes, rest: Bytes)
    requires |id| == 2 && 6 + |newData| < 0x1_0000_0000
    ensures var s := BinaryDataTag(id, newData) + rest;
            && NextTag(s) == Tag(TAG_DEFINE_BINARY_DATA, 6, 6 + |newData|)
            && TagData(s, NextTag(s)) == id + [0, 0, 0, 0] + newData
            && s[12 + |newData|..] == rest
            && s[..12 + |newData|] == BinaryDataTag(id, newData)
  {
    hide LittleEndian, FromLittleEndian, Pow2;
    Pow2Values();
    assert Range(2) == 0x1_0000 && Range(4) == 0x1_0000_0000;
    var code := LittleEndian(TAG_DEFINE_BINARY_DATA * 64 + 63, 2);
    var length := LittleEndian(6 + |newData|, 4);
    LittleEndianBack(TAG_DEFINE_BINARY_DATA * 64 + 63, 2);
    LittleEndianBack(6 + |newData|, 4);
    var s := BinaryDataTag(id, newData) + rest;
    assert s == code + (length + (id + [0, 0, 0, 0] + newData + rest));
    assert s[..2] == code;
    assert s[2..6] == length;
    assert s[6..12 + |newData|] == id + [0, 0, 0, 0] + newData;
  }

  /** Both markers, as text. */
  lemma MarkersAreText()
    ensures |DOFUS_MARKER| == |"DofusPublicKey"|
    ensures forall i :: 0 <= i < |DOFUS_MARKER| ==> DOFUS_MARKER[i] == "DofusPublicKey"[i] as int
    ensures |PEM_MARKER| == |"BEGIN PUBLIC KEY"|
    ensures forall i :: 0 <= i < |PEM_MARKER| ==> PEM_MARKER[i] == "BEGIN PUBLIC KEY"[i] as int
  {
  }

  /** A tag holds a marker when it is of kind 87 and the marker lies somewhere behind its six leading bytes. */
  lemma HoldsMeans(kind: nat, data: Bytes, marker: Bytes)
    requires marker != []
    ensures Holds(kind, data, marker) <==>
            kind == 87 && exists front: Bytes, back: Bytes :: |front| >= 6 && data == front + marker + back
  {
    if Holds(kind, data, marker) {
      var i: nat :| i <= |data[6..]| && MatchesAt(data[6..], marker, i);
      assert data[6..][i..i + |marker|] == data[6 + i..6 + i + |marker|];
      assert data == data[..6 + i] + marker + data[6 + i + |marker|..];
    }
    if exists front: Bytes, back: Bytes :: |front| >= 6 && data == front + marker + back {
      var front: Bytes, back: Bytes :| |front| >= 6 && data == front + marker + back;
      assert data[6..] == front[6..] + marker + back;
      assert MatchesAt(data[6..], marker, |front| - 6);
    }
  }

  /** The replacement byte by byte: a long tag of kind 87, the id and four zeros in front of the new contents. */
  lemma ReplacementBytes(id: Bytes, newData: Bytes)
    requires |id| == 2
    ensures var n := 6 + |newData|;
            BinaryDataTag(id, newData) ==
            [0xFF, 0x15] + [n % 256, n / 0x100 % 256, n / 0x1_0000 % 256, n / 0x100_0000 % 256]
            + id + [0, 0, 0, 0] + newData
  {
    LittleEndianBytes(87 * 64 + 63);
    LittleEndianBytes(6 + |newData|);
  }

  lemma LittleEndianBytes(n: nat)
    ensures LittleEndian(n, 2) == [n % 256, n / 256 % 256]
    ensures LittleEndian(n, 4) == [n % 256, n / 0x100 % 256, n / 0x1_0000 % 256, n / 0x100_0000 % 256]
  {
    LowTwo(n, 0);
    LowTwo(n, 2);
    LowTwo(n / 256 / 256, 0);
    assert n / 256 / 256 == n / 0x1_0000 && n / 256 / 256 / 256 == n / 0x100_0000;
  }

  lemma LowTwo(n: nat, width: nat)
    ensures LittleEndian(n, width + 2) == [n % 256, n / 256 % 256] + LittleEndian(n / 256 / 256, width)
  {
    hide LittleEndian;
    LowOne(n, width + 1);
    LowOne(n / 256, width);
  }

  lemma LowOne(n: nat, width: nat)
    ensures LittleEndian(n, width + 1) == [n % 256] + LittleEndian(n / 256, width)
    ensures LittleEndian(n, 0) == []
  {
  }

  /** A tag is recognised by its own bytes: what follows it plays no role. */
  lemma CopiedIsTag(s: Bytes, rest: Bytes)
    requires NextTag(s).Tag?
    ensures var n := TagSize(NextTag(s));
            var c := s[..n] + rest;
            && NextTag(c) == NextTag(s) && TagData(c, NextTag(c)) == TagData(s, NextTag(s))
            && c[n..] == rest && c[..n] == s[..n]
  {
    hide FromLittleEndian;
    var n := TagSize(NextTag(s));
    var c := s[..n] + rest;
    assert c[..2] == s[..2];
    if NextTag(s).headerSize == 6 {
      assert c[2..6] == s[2..6];
    }
  }

  /** Main result: the code blocks found are the same before and after patching, truncated tags and all. */
  lemma {:induction false} PatchKeepsCode(s: Bytes, sig: Bytes, key: Bytes, sigDone: bool, pemDone: bool)
    requires 6 + |sig| < 0x1_0000_0000 && 6 + |key| < 0x1_0000_0000
    ensures ExtractFrom(PatchFrom(s, sig, key, sigDone, pemDone).bytes) == ExtractFrom(s)
    decreases |s|
  {
    hide NextTag, BlocksOf, Contains, BinaryDataTag, ExtractFrom;
    match NextTag(s)
    case NoTag => NothingToRead();
    case CutTag =>
    case Tag(kind, header, length) =>
      var data := TagData(s, NextTag(s));
      var rest := s[header + length..];
      if !sigDone && Holds(kind, data, DOFUS_MARKER) {
        PatchKeepsCode(rest, sig, key, true, pemDone);
        ReplacedCode(s, sig, PatchFrom(rest, sig, key, true, pemDone).bytes);
      } else if !pemDone && Holds(kind, data, PEM_MARKER) {
        PatchKeepsCode(rest, sig, key, sigDone, true);
        ReplacedCode(s, key, PatchFrom(rest, sig, key, sigDone, true).bytes);
      } else {
        PatchKeepsCode(rest, sig, key, sigDone, pemDone);
        CopiedCode(s, PatchFrom(rest, sig, key, sigDone, pemDone).bytes);
      }
  }

  /** Replacing the contents of a binary data tag changes no code, given that none changes behind it. */
  lemma ReplacedCode(s: Bytes, newData: Bytes, later: Bytes)
    requires NextTag(s).Tag? && NextTag(s).kind == TAG_DEFINE_BINARY_DATA && |TagData(s, NextTag(s))| >= 2
    requires 6 + |newData| < 0x1_0000_0000
    requires ExtractFrom(later) == ExtractFrom(s[TagSize(NextTag(s))..])
    ensures ExtractFrom(BinaryDataTag(TagData(s, NextTag(s))[..2], newData) + later) == ExtractFrom(s)
  {
    hide NextTag, BlocksOf, BinaryDataTag;
    var data := TagData(s, NextTag(s));
    ReplacementIsTag(data[..2], newData, later);
    NoCodeInBinaryData(data);
    NoCodeInBinaryData(data[..2] + [0, 0, 0, 0] + newData);
  }

  lemma CopiedCode(s: Bytes, later: Bytes)
    requires NextTag(s).Tag? && ExtractFrom(later) == ExtractFrom(s[TagSize(NextTag(s))..])
    ensures ExtractFrom(s[..TagSize(NextTag(s))] + later) == ExtractFrom(s)
  {
    hide NextTag, BlocksOf;
    CopiedIsTag(s, later);
  }

  lemma NothingToRead()
    ensures NextTag([]) == NoTag && forall s :: NextTag(s) == NoTag ==> ExtractFrom(s) == []
  {
  }

  lemma NoCodeInBinaryData(data: Bytes)
    ensures BlocksOf(TAG_DEFINE_BINARY_DATA, data) == []
  {
  }

  lemma HeaderAtLeastOne(first: Byte)
    ensures HeaderLength(first) >= 1
  {
  }

  /** The same for whole files: eight header bytes before and after patching, whatever they are. */
  lemma PatchedFileKeepsCode(header: Bytes, newHeader: Bytes, raw: Bytes, sig: Bytes, key: Bytes)
    requires |header| == 8 && |newHeader| == 8 && raw != []
    requires 6 + |sig| < 0x1_0000_0000 && 6 + |key| < 0x1_0000_0000
    requires PatchTags(raw, sig, key).Ok?
    ensures ExtractAbc(newHeader + PatchTags(raw, sig, key).value.bytes) == ExtractAbc(header + raw)
  {
    hide PatchFrom, ExtractFrom, HeaderLength;
    var n := HeaderLength(raw[0]);
    var body := PatchFrom(raw[n..], sig, key, false, false).bytes;
    PatchKeepsCode(raw[n..], sig, key, false, false);
    HeaderAtLeastOne(raw[0]);
    var file, patched := header + raw, newHeader + (raw[..n] + body);
    assert file[8] == raw[0] && patched[8] == raw[0];
    assert At(file, 8 + n) == raw[n..];
    assert At(patched, 8 + n) == body;
  }

  // ---- Patching twice ----

  /** One step of patching a body that begins with a complete tag. */
  function PatchStep(s: Bytes, sig: Bytes, key: Bytes, sigDone: bool, pemDone: bool): (r: (Bytes, bool, bool))
    requires NextTag(s).Tag?
  {
    var t := NextTag(s);
    var data := TagData(s, t);
    if !sigDone && Holds(t.kind, data, DOFUS_MARKER) then (BinaryDataTag(data[..2], sig), true, pemDone)
    else if !pemDone && Holds(t.kind, data, PEM_MARKER) then (BinaryDataTag(data[..2], key), sigDone, true)
    else (s[..TagSize(t)], sigDone, pemDone)
  }

  lemma PatchUnfold(s: Bytes, sig: Bytes, key: Bytes, sigDone: bool, pemDone: bool)
    ensures NextTag(s).NoTag? ==> PatchFrom(s, sig, key, sigDone, pemDone) == Patch([], sigDone, pemDone)
    ensures NextTag(s).CutTag? ==> PatchFrom(s, sig, key, sigDone, pemDone) == Patch(s, sigDone, pemDone)
    ensures NextTag(s).Tag? ==>
              var (chunk, sigNext, pemNext) := PatchStep(s, sig, key, sigDone, pemDone);
              PatchFrom(s, sig, key, sigDone, pemDone)
              == Prepend(chunk, PatchFrom(s[TagSize(NextTag(s))..], sig, key, sigNext, pemNext))
  {
    hide NextTag, Contains, BinaryDataTag;
  }

  /** The new contents hold their own markers, and the key not the other one. */
  predicate KeepsMarkers(sig: Bytes, key: Bytes) {
    Contains(sig, DOFUS_MARKER) && Contains(key, PEM_MARKER) && !Contains(key, DOFUS_MARKER)
  }

  /** What a step emits is taken by the same step again, whatever follows. */
  lemma StepAgain(s: Bytes, sig: Bytes, key: Bytes, sigDone: bool, pemDone: bool, later: Bytes)
    requires NextTag(s).Tag? && KeepsMarkers(sig, key)
    requires 6 + |sig| < 0x1_0000_0000 && 6 + |key| < 0x1_0000_0000
    ensures var step := PatchStep(s, sig, key, sigDone, pemDone);
            var t := step.0 + later;
            NextTag(t).Tag? && t[TagSize(NextTag(t))..] == later && PatchStep(t, sig, key, sigDone, pemDone) == step
  {
    hide NextTag, Contains, BinaryDataTag;
    var t := NextTag(s);
    var data := TagData(s, t);
    if !sigDone && Holds(t.kind, data, DOFUS_MARKER) {
      ReplacementIsTag(data[..2], sig, later);
      ReplacementHolds(data[..2], sig, DOFUS_MARKER);
    } else if !pemDone && Holds(t.kind, data, PEM_MARKER) {
      ReplacementIsTag(data[..2], key, later);
      ReplacementHolds(data[..2], key, PEM_MARKER);
      ReplacementHolds(data[..2], key, DOFUS_MARKER);
    } else {
      CopiedIsTag(s, later);
    }
  }

  /** Patching again changes nothing, if the new contents hold their markers and the key does not hold the other one. */
  lemma {:induction false} PatchIsIdempotent(s: Bytes, sig: Bytes, key: Bytes, sigDone: bool, pemDone: bool)
    requires 6 + |sig| < 0x1_0000_0000 && 6 + |key| < 0x1_0000_0000 && KeepsMarkers(sig, key)
    ensures PatchFrom(PatchFrom(s, sig, key, sigDone, pemDone).bytes, sig, key, sigDone, pemDone) ==
            PatchFrom(s, sig, key, sigDone, pemDone)
    decreases |s|
  {
    hide NextTag, PatchFrom, PatchStep, KeepsMarkers;
    PatchUnfold(s, sig, key, sigDone, pemDone);
    match NextTag(s)
    case NoTag =>
      NothingToRead();
      PatchUnfold([], sig, key, sigDone, pemDone);
    case CutTag =>
    case Tag(_, header, length) =>
      var (chunk, sigNext, pemNext) := PatchStep(s, sig, key, sigDone, pemDone);
      var rest := s[header + length..];
      PatchIsIdempotent(rest, sig, key, sigNext, pemNext);
      var later := PatchFrom(rest, sig, key, sigNext, pemNext).bytes;
      StepAgain(s, sig, key, sigDone, pemDone, later);
      PatchUnfold(chunk + later, sig, key, sigDone, pemDone);
  }

  ghost predicate Idempotent(s: Bytes, sig: Bytes, key: Bytes) {
    PatchFrom(PatchFrom(s, sig, key, false, false).bytes, sig, key, false, false).bytes
    == PatchFrom(s, sig, key, false, false).bytes
  }

  /** A binary data tag with these contents. */
  ghost function Asset(contents: Bytes): Bytes {
    BinaryDataTag([0, 0], contents)
  }

  lemma AssetInjective(a: Bytes, b: Bytes, p: Bytes, q: Bytes)
    requires 6 + |a| < 0x1_0000_0000 && 6 + |b| < 0x1_0000_0000
    requires Asset(a) + p == Asset(b) + q
    ensures a == b && p == q
  {
    hide NextTag, BinaryDataTag;
    ReplacementIsTag([0, 0], a, p);
    ReplacementIsTag([0, 0], b, q);
    AssetContents(a);
    AssetContents(b);
  }

  lemma AssetContents(a: Bytes)
    ensures ([0, 0] + [0, 0, 0, 0] + a)[6..] == a
  {
  }

  /** Patching a body that begins with an asset. */
  lemma PatchAsset(a: Bytes, rest: Bytes, sig: Bytes, key: Bytes, sigDone: bool, pemDone: bool)
    requires 6 + |a| < 0x1_0000_0000
    ensures PatchFrom(Asset(a) + rest, sig, key, sigDone, pemDone) ==
            if !sigDone && Contains(a, DOFUS_MARKER) then
              Prepend(Asset(sig), PatchFrom(rest, sig, key, true, pemDone))
            else if !pemDone && Contains(a, PEM_MARKER) then
              Prepend(Asset(key), PatchFrom(rest, sig, key, sigDone, true))
            else
              Prepend(Asset(a), PatchFrom(rest, sig, key, sigDone, pemDone))
  {
    hide NextTag, BinaryDataTag, Contains, PatchFrom;
    PatchUnfold(Asset(a) + rest, sig, key, sigDone, pemDone);
    ReplacementIsTag([0, 0], a, rest);
    ReplacementHolds([0, 0], a, DOFUS_MARKER);
    ReplacementHolds([0, 0], a, PEM_MARKER);
  }

  lemma MarkersApart()
    ensures Contains(DOFUS_MARKER, DOFUS_MARKER) && !Contains(DOFUS_MARKER, PEM_MARKER)
    ensures Contains(PEM_MARKER, PEM_MARKER) && !Contains(PEM_MARKER, DOFUS_MARKER)
  {
    assert MatchesAt(DOFUS_MARKER, DOFUS_MARKER, 0) && MatchesAt(PEM_MARKER, PEM_MARKER, 0);
    forall i: nat | i <= |PEM_MARKER| ensures !MatchesAt(PEM_MARKER, DOFUS_MARKER, i) {
      if i + |DOFUS_MARKER| <= |PEM_MARKER| {
        assert PEM_MARKER[i..i + |DOFUS_MARKER|][0] == PEM_MARKER[i] != DOFUS_MARKER[0];
      }
    }
  }

  /** Patching two assets. */
  lemma PatchTwoAssets(a: Bytes, b: Bytes, sig: Bytes, key: Bytes)
    requires 6 + |a| < 0x1_0000_0000 && 6 + |b| < 0x1_0000_0000
    ensures var sigFirst, pemFirst := Contains(a, DOFUS_MARKER), !Contains(a, DOFUS_MARKER) && Contains(a, PEM_MARKER);
            PatchFrom(Asset(a) + Asset(b), sig, key, false, false).bytes ==
            (if sigFirst then Asset(sig) else if pemFirst then Asset(key) else Asset(a)) +
            (if !sigFirst && Contains(b, DOFUS_MARKER) then Asset(sig)
             else if !pemFirst && Contains(b, PEM_MARKER) then Asset(key)
             else Asset(b))
  {
    hide NextTag, BinaryDataTag, Contains, PatchFrom, Asset;
    var sigFirst, pemFirst := Contains(a, DOFUS_MARKER), !Contains(a, DOFUS_MARKER) && Contains(a, PEM_MARKER);
    PatchAsset(a, Asset(b), sig, key, false, false);
    PatchAsset(b, [], sig, key, sigFirst, pemFirst);
    NothingToRead();
    PatchUnfold([], sig, key, true, true);
    PatchUnfold([], sig, key, true, false);
    PatchUnfold([], sig, key, false, true);
    PatchUnfold([], sig, key, false, false);
    assert Asset(b) + [] == Asset(b) && Asset(sig) + [] == Asset(sig) && Asset(key) + [] == Asset(key);
  }

  /** Two assets with the Dofus marker: without it in the new signature, the second run replaces the second one. */
  lemma SigNeedsMarker(sig: Bytes, key: Bytes)
    requires 6 + |sig| < 0x1_0000_0000 && 6 + |key| < 0x1_0000_0000
    requires Idempotent(Asset(DOFUS_MARKER) + Asset(DOFUS_MARKER), sig, key)
    ensures Contains(sig, DOFUS_MARKER)
  {
    hide Contains, PatchFrom, Asset;
    MarkersApart();
    PatchTwoAssets(DOFUS_MARKER, DOFUS_MARKER, sig, key);
    PatchTwoAssets(sig, DOFUS_MARKER, sig, key);
    if !Contains(sig, DOFUS_MARKER) {
      AssetInjective(if Contains(sig, PEM_MARKER) then key else sig, sig, Asset(sig), Asset(DOFUS_MARKER));
      assert Asset(sig) + [] == Asset(sig) && Asset(DOFUS_MARKER) + [] == Asset(DOFUS_MARKER);
      AssetInjective(sig, DOFUS_MARKER, [], []);
    }
  }

  /** Two assets with the PEM marker: the second run leaves them alone only if the key holds that marker and not the
      other. */
  lemma KeyNeedsMarker(sig: Bytes, key: Bytes)
    requires 6 + |sig| < 0x1_0000_0000 && 6 + |key| < 0x1_0000_0000
    requires Idempotent(Asset(PEM_MARKER) + Asset(PEM_MARKER), sig, key)
    ensures Contains(key, PEM_MARKER) && !Contains(key, DOFUS_MARKER)
  {
    hide Contains, PatchFrom, Asset;
    MarkersApart();
    PatchTwoAssets(PEM_MARKER, PEM_MARKER, sig, key);
    PatchTwoAssets(key, PEM_MARKER, sig, key);
    if !Contains(key, PEM_MARKER) || Contains(key, DOFUS_MARKER) {
      AssetInjective(if Contains(key, DOFUS_MARKER) then sig else key, key, Asset(key), Asset(PEM_MARKER));
      assert Asset(key) + [] == Asset(key) && Asset(PEM_MARKER) + [] == Asset(PEM_MARKER);
      AssetInjective(key, PEM_MARKER, [], []);
    }
  }

  /** Main result: patching is idempotent on every body exactly when the signature holds its marker and the key its own
      and not the other. */
  lemma IdempotentIff(sig: Bytes, key: Bytes)
    requires 6 + |sig| < 0x1_0000_0000 && 6 + |key| < 0x1_0000_0000
    ensures (forall s :: Idempotent(s, sig, key)) <==> KeepsMarkers(sig, key)
  {
    hide PatchFrom, Asset, Contains;
    if KeepsMarkers(sig, key) {
      forall s ensures Idempotent(s, sig, key) {
        PatchIsIdempotent(s, sig, key, false, false);
      }
    }
    if forall s :: Idempotent(s, sig, key) {
      SigNeedsMarker(sig, key);
      KeyNeedsMarker(sig, key);
    }
  }

  lemma ReplacementHolds(id: Bytes, newData: Bytes, marker: Bytes)
    requires |id| == 2 && |marker| > 0
    ensures Holds(TAG_DEFINE_BINARY_DATA, id + [0, 0, 0, 0] + newData, marker) <==> Contains(newData, marker)
    ensures (id + [0, 0, 0, 0] + newData)[..2] == id
  {
    var data := id + [0, 0, 0, 0] + newData;
    assert data[6..] == newData;
  }

  // ---- The tag list, pointwise, on every body ----

  /** The complete tags of a body, and what is left behind them. */
  function SplitTags(s: Bytes): (r: (seq<Bytes>, Bytes))
    ensures !NextTag(r.1).Tag?
    decreases |s|
  {
    match NextTag(s)
    case NoTag => ([], s)
    case CutTag => ([], s)
    case Tag(_, header, length) =>
      var (tags, left) := SplitTags(s[header + length..]);
      ([s[..header + length]] + tags, left)
  }

  function Flatten(tags: seq<Bytes>): Bytes {
    if tags == [] then [] else tags[0] + Flatten(tags[1..])
  }

  predicate TagHolds(tag: Bytes, marker: Bytes) {
    var t := NextTag(tag);
    t.Tag? && Holds(t.kind, TagData(tag, t), marker)
  }

  /** The first tag from i on, other than number skip, that holds the marker; the number of tags if there is none. */
  function FirstHolding(tags: seq<Bytes>, marker: Bytes, skip: int, i: nat): (r: nat)
    requires i <= |tags|
    ensures i <= r <= |tags|
    ensures r < |tags| ==> r != skip && TagHolds(tags[r], marker)
    ensures forall k :: i <= k < r ==> k == skip || !TagHolds(tags[k], marker)
    decreases |tags| - i
  {
    if i == |tags| || (i != skip && TagHolds(tags[i], marker)) then i else FirstHolding(tags, marker, skip, i + 1)
  }

  /** The character id that begins the tag's data. */
  function CharacterId(tag: Bytes): Bytes
    requires NextTag(tag).Tag?
  {
    var data := TagData(tag, NextTag(tag));
    if |data| >= 2 then data[..2] else data
  }

  /** Tag k after patching a list whose first marker holders are numbers sigAt and pemAt. */
  function PatchedTag(tags: seq<Bytes>, k: nat, sig: Bytes, key: Bytes, sigAt: int, pemAt: int): Bytes
    requires k < |tags| && NextTag(tags[k]).Tag?
  {
    if k == sigAt then BinaryDataTag(CharacterId(tags[k]), sig)
    else if k == pemAt then BinaryDataTag(CharacterId(tags[k]), key)
    else tags[k]
  }

  ghost predicate AllTags(tags: seq<Bytes>) {
    forall k :: 0 <= k < |tags| ==> NextTag(tags[k]).Tag? && TagSize(NextTag(tags[k])) == |tags[k]|
  }

  function PatchedFrom(tags: seq<Bytes>, i: nat, sig: Bytes, key: Bytes, sigAt: int, pemAt: int): Bytes
    requires i <= |tags| && AllTags(tags)
    decreases |tags| - i
  {
    if i == |tags| then []
    else PatchedTag(tags, i, sig, key, sigAt, pemAt) + PatchedFrom(tags, i + 1, sig, key, sigAt, pemAt)
  }

  lemma {:induction false} SplitsIntoTags(s: Bytes)
    ensures AllTags(SplitTags(s).0) && Flatten(SplitTags(s).0) + SplitTags(s).1 == s
    decreases |s|
  {
    hide NextTag;
    if NextTag(s).Tag? {
      var n := TagSize(NextTag(s));
      SplitsIntoTags(s[n..]);
      CopiedIsTag(s, []);
      assert s[..n] + [] == s[..n] && s[..n] + s[n..] == s;
      var tags := SplitTags(s).0;
      assert tags[1..] == SplitTags(s[n..]).0;
      assert s[..n] + (Flatten(tags[1..]) + SplitTags(s).1) == s[..n] + Flatten(tags[1..]) + SplitTags(s).1;
    }
  }

  /** What becomes of the bytes behind the last complete tag: a cut tag is copied, an incomplete tag header dropped. */
  function KeptRest(left: Bytes): Bytes {
    if NextTag(left).CutTag? then left else []
  }

  /** Positions of the markers before tag i have been dealt with. */
  ghost predicate Consistent(i: nat, at: int, done: bool) {
    done <==> at < i
  }

  lemma {:induction false} PatchListFrom(tags: seq<Bytes>, i: nat, left: Bytes, s: Bytes, sig: Bytes, key: Bytes,
                                        sigAt: nat, pemAt: nat, sigDone: bool, pemDone: bool)
    requires AllTags(tags) && i <= |tags| && !NextTag(left).Tag?
    requires s == Flatten(tags[i..]) + left
    requires sigAt == FirstHolding(tags, DOFUS_MARKER, -1, 0) && pemAt == FirstHolding(tags, PEM_MARKER, sigAt, 0)
    requires Consistent(i, sigAt, sigDone) && Consistent(i, pemAt, pemDone)
    ensures PatchFrom(s, sig, key, sigDone, pemDone).bytes ==
            PatchedFrom(tags, i, sig, key, sigAt, pemAt) + KeptRest(left)
    ensures PatchFrom(s, sig, key, sigDone, pemDone).sigDone <==> sigAt < |tags|
    ensures PatchFrom(s, sig, key, sigDone, pemDone).pemDone <==> pemAt < |tags|
    decreases |tags| - i
  {
    hide NextTag, BinaryDataTag, Holds, FirstHolding, PatchFrom, Flatten, PatchStep, PatchedTag;
    PatchUnfold(s, sig, key, sigDone, pemDone);
    if i == |tags| {
      FlattenEnd(tags);
      assert s == left;
    } else {
      var tag, rest := tags[i], Flatten(tags[i + 1..]) + left;
      FlattenStep(tags, i);
      assert s == tag + rest == tag[..|tag|] + rest;
      CopiedIsTag(tag, rest);
      var step := PatchStep(s, sig, key, sigDone, pemDone);
      PatchedTagIsStep(tags, i, rest, sig, key, sigAt, pemAt, sigDone, pemDone);
      PatchListFrom(tags, i + 1, left, rest, sig, key, sigAt, pemAt, step.1, step.2);
      var later := PatchedFrom(tags, i + 1, sig, key, sigAt, pemAt);
      assert step.0 + (later + KeptRest(left)) == step.0 + later + KeptRest(left);
    }
  }

  lemma FlattenStep(tags: seq<Bytes>, i: nat)
    requires i < |tags|
    ensures Flatten(tags[i..]) == tags[i] + Flatten(tags[i + 1..])
  {
    assert tags[i..][1..] == tags[i + 1..];
  }

  lemma FlattenEnd(tags: seq<Bytes>)
    ensures Flatten(tags[|tags|..]) == []
  {
  }

  /** One step of patching is one entry of the patched list. */
  lemma PatchedTagIsStep(tags: seq<Bytes>, i: nat, rest: Bytes, sig: Bytes, key: Bytes,
                         sigAt: nat, pemAt: nat, sigDone: bool, pemDone: bool)
    requires AllTags(tags) && i < |tags| && NextTag(tags[i] + rest).Tag?
    requires sigAt == FirstHolding(tags, DOFUS_MARKER, -1, 0) && pemAt == FirstHolding(tags, PEM_MARKER, sigAt, 0)
    requires Consistent(i, sigAt, sigDone) && Consistent(i, pemAt, pemDone)
    ensures var step := PatchStep(tags[i] + rest, sig, key, sigDone, pemDone);
            && step.0 == PatchedTag(tags, i, sig, key, sigAt, pemAt)
            && Consistent(i + 1, sigAt, step.1) && Consistent(i + 1, pemAt, step.2)
  {
    hide NextTag, BinaryDataTag, Holds, FirstHolding;
    var tag := tags[i];
    assert tag[..|tag|] == tag;
    CopiedIsTag(tag, rest);
    MarkerReached(tags, i, DOFUS_MARKER, -1, sigAt);
    MarkerReached(tags, i, PEM_MARKER, sigAt, pemAt);
    HoldsBinary(NextTag(tag).kind, TagData(tag, NextTag(tag)));
  }

  lemma HoldsBinary(kind: nat, data: Bytes)
    ensures Holds(kind, data, DOFUS_MARKER) || Holds(kind, data, PEM_MARKER) ==> |data| > 6
  {
  }

  /** Tag i is the first holder exactly when it holds the marker and no earlier one did. */
  lemma MarkerReached(tags: seq<Bytes>, i: nat, marker: Bytes, skip: int, at: nat)
    requires AllTags(tags) && i < |tags| && at == FirstHolding(tags, marker, skip, 0)
    ensures at >= i ==> (at == i <==> i != skip && TagHolds(tags[i], marker))
  {
    hide NextTag, Holds, TagHolds;
  }

  /** On every body patching replaces exactly the first holder of each marker, copies all other tags and a cut tag
      behind them, and drops an incomplete tag header; it reports which markers it found. */
  lemma PatchedTagList(s: Bytes, sig: Bytes, key: Bytes)
    ensures AllTags(SplitTags(s).0)
    ensures var (tags, left) := SplitTags(s);
            var sigAt := FirstHolding(tags, DOFUS_MARKER, -1, 0);
            var pemAt := FirstHolding(tags, PEM_MARKER, sigAt, 0);
            && PatchFrom(s, sig, key, false, false).bytes ==
               PatchedFrom(tags, 0, sig, key, sigAt, pemAt) + KeptRest(left)
            && (PatchFrom(s, sig, key, false, false).sigDone <==> sigAt < |tags|)
            && (PatchFrom(s, sig, key, false, false).pemDone <==> pemAt < |tags|)
  {
    hide NextTag, BinaryDataTag, FirstHolding, PatchFrom, KeptRest;
    SplitsIntoTags(s);
    var (tags, left) := SplitTags(s);
    var sigAt := FirstHolding(tags, DOFUS_MARKER, -1, 0);
    assert tags[0..] == tags;
    PatchListFrom(tags, 0, left, s, sig, key, sigAt, FirstHolding(tags, PEM_MARKER, sigAt, 0), false, false);
  }

  ghost predicate HasNoMarker(tags: seq<Bytes>) {
    forall k :: 0 <= k < |tags| ==> !TagHolds(tags[k], DOFUS_MARKER) && !TagHolds(tags[k], PEM_MARKER)
  }

  /** Without either marker patching is the identity exactly when no incomplete tag header ends the body. */
  lemma NothingToPatch(s: Bytes, sig: Bytes, key: Bytes)
    requires HasNoMarker(SplitTags(s).0)
    ensures PatchFrom(s, sig, key, false, false).bytes == s <==> SplitTags(s).1 == [] || NextTag(SplitTags(s).1).CutTag?
  {
    hide NextTag, BinaryDataTag, FirstHolding, PatchFrom, TagHolds, SplitTags;
    SplitsIntoTags(s);
    PatchedTagList(s, sig, key);
    var (tags, left) := SplitTags(s);
    assert tags[0..] == tags;
    CopiesAll(tags, 0, sig, key);
    assert Flatten(tags) + left == s;
  }

  /** A stray byte behind the frame header is lost. */
  lemma StrayByteIsLost(sig: Bytes, key: Bytes)
    ensures PatchTags([0, 0, 0, 0, 0, 65], sig, key) == Ok(Patch([0, 0, 0, 0, 0], false, false))
  {
    hide PatchFrom;
    var raw: Bytes := [0, 0, 0, 0, 0, 65];
    assert HeaderLength(0) == 5;
    assert raw[5..] == [65] && NextTag([65]).NoTag?;
    PatchUnfold([65], sig, key, false, false);
    assert raw[..5] + [] == [0, 0, 0, 0, 0];
  }

  lemma {:induction false} CopiesAll(tags: seq<Bytes>, i: nat, sig: Bytes, key: Bytes)
    requires AllTags(tags) && i <= |tags|
    ensures PatchedFrom(tags, i, sig, key, |tags|, |tags|) == Flatten(tags[i..])
    decreases |tags| - i
  {
    hide NextTag, BinaryDataTag;
    if i < |tags| {
      CopiesAll(tags, i + 1, sig, key);
      assert tags[i..][1..] == tags[i + 1..];
    }
  }
}
