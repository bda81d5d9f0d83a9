/** patch_tags and extract_abc_tags as position-driven loops. */
module SwfIO {
  import opened Common
  import opened Binary
  import opened Swf

  method ContainsPattern(data: Bytes, pattern: Bytes) returns (found: bool)
    ensures found <==> Contains(data, pattern)
  {
    var i := 0;
    while i + |pattern| <= |data|
      invariant forall k: nat :: k < i ==> !MatchesAt(data, pattern, k)
    {
      if data[i..i + |pattern|] == pattern {
        assert MatchesAt(data, pattern, i);
        return true;
      }
      i := i + 1;
    }
    return false;
  }

  /** The tag at a position: its kind, where its data starts, and how long it claims to be. */
  method ReadTagHeader(raw: Bytes, pos: nat) returns (complete: bool, kind: nat, headerSize: nat, length: nat)
    requires pos + 2 <= |raw|
    ensures !complete ==> NextTag(raw[pos..]).NoTag?
    ensures complete ==> 2 <= headerSize && NextTag(raw[pos..]) ==
                         if pos + headerSize + length > |raw| then CutTag else Tag(kind, headerSize, length)
  {
    assert raw[pos..][..2] == raw[pos..pos + 2];
    var code := FromLittleEndian(raw[pos..pos + 2]);
    kind, length, headerSize := code / 64, code % 64, 2;
    if length == 63 {
      if pos + 6 > |raw| {
        return false, 0, 0, 0;
      }
      assert raw[pos..][2..6] == raw[pos + 2..pos + 6];
      length := FromLittleEndian(raw[pos + 2..pos + 6]);
      headerSize := 6;
    }
    complete := true;
  }

  /** Whether a tag holds a marker behind its six bytes of id and reserved field. */
  method TagHoldsMarker(kind: nat, data: Bytes, marker: Bytes) returns (holds: bool)
    ensures holds <==> Holds(kind, data, marker)
  {
    if kind == TAG_DEFINE_BINARY_DATA && |data| > 6 {
      holds := ContainsPattern(data[6..], marker);
    } else {
      holds := false;
    }
  }

  /** Decides what one complete tag is replaced by, if anything. */
  method PatchOneTag(raw: Bytes, pos: nat, kind: nat, headerSize: nat, length: nat, sig: Bytes, key: Bytes,
                     sigReplaced: bool, pemReplaced: bool)
    returns (chunk: Bytes, sigDone: bool, pemDone: bool)
    requires pos + headerSize + length <= |raw| && headerSize >= 2
    requires NextTag(raw[pos..]) == Tag(kind, headerSize, length)
    ensures PatchFrom(raw[pos..], sig, key, sigReplaced, pemReplaced) ==
            Prepend(chunk, PatchFrom(raw[pos + headerSize + length..], sig, key, sigDone, pemDone))
  {
    hide NextTag, BinaryDataTag, Holds;
    var end := pos + headerSize + length;
    var data := raw[pos + headerSize..end];
    assert data == TagData(raw[pos..], NextTag(raw[pos..]));
    assert raw[pos..][headerSize + length..] == raw[end..];
    assert raw[pos..][..headerSize + length] == raw[pos..end];
    MarkerNeedsData(kind, data);
    if !sigReplaced {
      var holds := TagHoldsMarker(kind, data, DOFUS_MARKER);
      if holds {
        return BinaryDataTag(data[..2], sig), true, pemReplaced;
      }
    }
    if !pemReplaced {
      var holds := TagHoldsMarker(kind, data, PEM_MARKER);
      if holds {
        return BinaryDataTag(data[..2], key), sigReplaced, true;
      }
    }
    return raw[pos..end], sigReplaced, pemReplaced;
  }

  ghost predicate Patching(whole: Patch, before: Bytes, output: Bytes, later: Patch) {
    whole.sigDone == later.sigDone && whole.pemDone == later.pemDone && before + whole.bytes == output + later.bytes
  }

  lemma PatchingStep(whole: Patch, before: Bytes, output: Bytes, chunk: Bytes, later: Patch)
    requires Patching(whole, before, output, Prepend(chunk, later))
    ensures Patching(whole, before, output + chunk, later)
  {
    assert output + (chunk + later.bytes) == output + chunk + later.bytes;
  }

  /** The end of the walk: what is left contributes last and the flags stay. */
  lemma PatchEnds(s: Bytes, sig: Bytes, key: Bytes, sigDone: bool, pemDone: bool)
    ensures NextTag(s).NoTag? ==> PatchFrom(s, sig, key, sigDone, pemDone) == Patch([], sigDone, pemDone)
    ensures NextTag(s).CutTag? ==> PatchFrom(s, sig, key, sigDone, pemDone) == Patch(s, sigDone, pemDone)
    ensures |s| < 2 ==> NextTag(s).NoTag?
  {
  }

  method PatchBody(raw: Bytes, start: nat, sig: Bytes, key: Bytes) returns (output: Bytes, sigReplaced: bool,
                   pemReplaced: bool)
    requires start <= |raw|
    ensures var p := PatchFrom(raw[start..], sig, key, false, false);
            output == raw[..start] + p.bytes && sigReplaced == p.sigDone && pemReplaced == p.pemDone
  {
    hide NextTag, PatchFrom;
    output := raw[..start];
    sigReplaced, pemReplaced := false, false;
    var pos := start;
    ghost var whole := PatchFrom(raw[start..], sig, key, false, false);
    while pos < |raw|
      invariant pos <= |raw|
      invariant Patching(whole, raw[..start], output, PatchFrom(raw[pos..], sig, key, sigReplaced, pemReplaced))
      decreases |raw| - pos
    {
      PatchEnds(raw[pos..], sig, key, sigReplaced, pemReplaced);
      if pos + 2 > |raw| {
        return;
      }
      var complete, kind, headerSize, length := ReadTagHeader(raw, pos);
      if !complete {
        return;
      }
      var end := pos + headerSize + length;
      if end > |raw| {
        output := output + raw[pos..];
        return;
      }
      var chunk, sigDone, pemDone := PatchOneTag(raw, pos, kind, headerSize, length, sig, key, sigReplaced,
              pemReplaced);
      PatchingStep(whole, raw[..start], output, chunk, PatchFrom(raw[end..], sig, key, sigDone, pemDone));
      output := output + chunk;
      sigReplaced, pemReplaced := sigDone, pemDone;
      pos := end;
    }
    PatchEnds(raw[pos..], sig, key, sigReplaced, pemReplaced);
  }

  lemma MarkerNeedsData(kind: nat, data: Bytes)
    ensures Holds(kind, data, DOFUS_MARKER) || Holds(kind, data, PEM_MARKER) ==> |data| > 6
  {
  }

  method PatchTagsFrom(raw: Bytes, sig: Bytes, key: Bytes) returns (r: Result<(Bytes, nat, nat)>)
    requires raw != []
    ensures match PatchTags(raw, sig, key)
            case Err => r.Err?
            case Ok(p) => r == Ok((p.bytes, if p.sigDone then 1 else 0, if p.pemDone then 1 else 0))
  {
    hide PatchFrom;
    var headerLen := HeaderLength(raw[0]);
    if |raw| < headerLen {
      return Err;
    }
    var output, sigReplaced, pemReplaced := PatchBody(raw, headerLen, sig, key);
    return Ok((output, if sigReplaced then 1 else 0, if pemReplaced then 1 else 0));
  }

  method ExtractAbcTags(data: Bytes) returns (r: Result<seq<AbcBlock>>)
    ensures r == ExtractAbc(data)
  {
    hide NextTag, BlocksOf, ExtractFrom, Extracting;
    if |data| < 9 {
      return Err;
    }
    var blocks: seq<AbcBlock> := [];
    var pos := 8 + HeaderLength(data[8]);
    ghost var all := ExtractFrom(At(data, pos));
    ExtractStart(all);
    while pos + 2 <= |data|
      invariant Extracting(all, blocks, ExtractFrom(At(data, pos)))
      decreases |data| - pos
    {
      ExtractEnds(data[pos..]);
      assert At(data, pos) == data[pos..];
      ExtractDone(all, blocks, ExtractFrom(At(data, pos)));
      var complete, kind, headerSize, length := ReadTagHeader(data, pos);
      if !complete {
        return Ok(blocks);
      }
      var end := pos + headerSize + length;
      if end > |data| {
        return Ok(blocks);
      }
      if kind == 0 {
        return Ok(blocks);
      }
      var tagData := data[pos + headerSize..end];
      ExtractStep(data, pos, kind, headerSize, length, all, blocks);
      var found := CodeOf(kind, tagData);
      blocks := blocks + found;
      pos := end;
    }
    ExtractEnds(At(data, pos));
    ExtractDone(all, blocks, ExtractFrom(At(data, pos)));
    return Ok(blocks);
  }

  ghost predicate Extracting(all: seq<AbcBlock>, blocks: seq<AbcBlock>, later: seq<AbcBlock>) {
    all == blocks + later
  }

  lemma ExtractDone(all: seq<AbcBlock>, blocks: seq<AbcBlock>, later: seq<AbcBlock>)
    requires Extracting(all, blocks, later)
    ensures later == [] ==> blocks == all
  {
    assert blocks + [] == blocks;
  }

  lemma ExtractStart(all: seq<AbcBlock>)
    ensures Extracting(all, [], all)
  {
  }

  lemma ExtractStep(data: Bytes, pos: nat, kind: nat, headerSize: nat, length: nat, all: seq<AbcBlock>,
                    blocks: seq<AbcBlock>)
    requires pos + headerSize + length <= |data| && headerSize >= 2 && kind != 0
    requires NextTag(data[pos..]) == Tag(kind, headerSize, length)
    requires Extracting(all, blocks, ExtractFrom(At(data, pos)))
    ensures var end := pos + headerSize + length;
            Extracting(all, blocks + BlocksOf(kind, data[pos + headerSize..end]), ExtractFrom(At(data, end)))
  {
    hide NextTag, BlocksOf;
    var end := pos + headerSize + length;
    var tagData, later := data[pos + headerSize..end], ExtractFrom(data[end..]);
    var here := data[pos..];
    assert here[headerSize..headerSize + length] == tagData;
    assert here[headerSize + length..] == data[end..];
    assert ExtractFrom(here) == BlocksOf(kind, tagData) + later;
    assert blocks + (BlocksOf(kind, tagData) + later) == blocks + BlocksOf(kind, tagData) + later;
  }

  /** Where extraction stops. */
  lemma ExtractEnds(s: Bytes)
    ensures NextTag(s).NoTag? || NextTag(s).CutTag? || (NextTag(s).Tag? && NextTag(s).kind == 0) ==>
            ExtractFrom(s) == []
    ensures |s| < 2 ==> ExtractFrom(s) == []
  {
  }

  /** The block of one tag, if it holds code: flags and a zero-terminated name come before the data in the newer
      form. */
  method CodeOf(kind: nat, tagData: Bytes) returns (blocks: seq<AbcBlock>)
    ensures blocks == BlocksOf(kind, tagData)
  {
    blocks := [];
    if kind == TAG_DO_ABC {
      if |tagData| < 5 {
        return;
      }
      var nameEnd := 4;
      while nameEnd < |tagData| && tagData[nameEnd] != 0
        invariant 4 <= nameEnd <= |tagData| && FindZero(tagData, 4) == FindZero(tagData, nameEnd)
      {
        nameEnd := nameEnd + 1;
      }
      var abcStart := nameEnd + 1;
      if abcStart < |tagData| {
        blocks := [AbcBlock(tagData[4..nameEnd], tagData[abcStart..])];
      }
    } else if kind == TAG_DO_ABC_DEFINE {
      blocks := [AbcBlock([], tagData)];
    }
  }
}
