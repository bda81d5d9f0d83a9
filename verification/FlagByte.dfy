/** Single bits of a flag byte. */
module FlagByte {
  import opened Common

  type Offset = o: nat | o < 8

  function SetFlag(flag: bv8, offset: nat, value: bool): Result<bv8> {
    if offset >= 8 then Err
    else if value then Ok(flag | (1 << offset))
    else Ok(flag & (255 - (1 << offset)))
  }

  function GetFlag(flag: bv8, offset: nat): Result<bool> {
    if offset >= 8 then Err else Ok((flag & (1 << offset)) != 0)
  }

  function Bit(flag: bv8, o: Offset): bool {
    (flag & (1 << o)) != 0
  }

  /** Setting one bit is read back and disturbs no other bit. */
  lemma SetThenGet(flag: bv8, o: Offset, p: Offset, value: bool)
    ensures SetFlag(flag, o, value).Ok?
    ensures Bit(SetFlag(flag, o, value).value, p) == if p == o then value else Bit(flag, p)
  {
    ShiftCases(o);
    ShiftCases(p);
  }

  lemma ShiftCases(o: Offset)
    ensures (1 as bv8) << o == match o
      case 0 => 1 case 1 => 2 case 2 => 4 case 3 => 8 case 4 => 16 case 5 => 32 case 6 => 64 case _ => 128
  {
  }
}
