/** Lowercase hexadecimal text of byte strings: `''.join('%.2x' % x ...)`. */
module Hex {
  import opened Wrappers

  type byte = x: int | 0 <= x < 256

  predicate IsHexDigit(c: char) {
    '0' <= c <= '9' || 'a' <= c <= 'f'
  }

  function NibbleChar(d: nat): (c: char)
    requires d < 16
    ensures IsHexDigit(c)
  {
    if d < 10 then ('0' as int + d) as char else ('a' as int + d - 10) as char
  }

  function NibbleValue(c: char): Option<nat> {
    if '0' <= c <= '9' then Some(c as int - '0' as int)
    else if 'a' <= c <= 'f' then Some(c as int - 'a' as int + 10)
    else None
  }

  /** `'%.2x' % b`: exactly two lowercase digits, high nibble first. */
  function EncodeByte(b: byte): (h: string)
    ensures |h| == 2 && IsHexDigit(h[0]) && IsHexDigit(h[1])
    ensures NibbleValue(h[0]) == Some(b / 16) && NibbleValue(h[1]) == Some(b % 16)
  {
    [NibbleChar(b / 16), NibbleChar(b % 16)]
  }

  function Encode(bs: seq<byte>): (h: string)
    ensures |h| == 2 * |bs|
    ensures forall i :: 0 <= i < |h| ==> IsHexDigit(h[i])
    decreases |bs|
  {
    if |bs| == 0 then "" else EncodeByte(bs[0]) + Encode(bs[1..])
  }

  /** The inverse reading: pairs of hex digits back into bytes. */
  function Decode(h: string): Option<seq<byte>>
    decreases |h|
  {
    if |h| == 0 then Some([])
    else if |h| == 1 then None
    else
      match (NibbleValue(h[0]), NibbleValue(h[1]))
      case (Some(hi), Some(lo)) =>
        if hi < 16 && lo < 16 then
          match Decode(h[2..])
          case Some(rest) => Some([hi * 16 + lo] + rest)
          case None => None
        else None
      case _ => None
  }

  /** Hex text decodes back to the bytes it was made from. */
  lemma {:induction false} DecodeEncode(bs: seq<byte>)
    ensures Decode(Encode(bs)) == Some(bs)
    decreases |bs|
  {
    if |bs| > 0 {
      var h := Encode(bs);
      assert h[2..] == Encode(bs[1..]);
      DecodeEncode(bs[1..]);
      assert [bs[0]] + bs[1..] == bs;
    }
  }
}
