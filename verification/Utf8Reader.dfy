/** A decoder of UTF-8, row by row after the syntax of section 4 of RFC 3629. */
module Utf8Reader {
  import opened Options
  import opened ByteText
  import opened KeyOrders

  predicate IsTail(b: byte) {
    0x80 <= b <= 0xbf
  }

  /** The six payload bits of a tail byte. */
  function Payload(b: byte): int
    requires IsTail(b)
  {
    b as int - 0x80
  }

  function DecodeTwo(b: Bytes): Option<(CodePoint, Bytes)>
    requires |b| >= 2 && 0xc2 <= b[0] <= 0xdf
  {
    if IsTail(b[1]) then Some(((b[0] as int - 0xc0) * 0x40 + Payload(b[1]), b[2..])) else None
  }

  /** Three bytes: no overlong form, no surrogate. */
  function DecodeThree(b: Bytes): Option<(CodePoint, Bytes)>
    requires |b| >= 3 && 0xe0 <= b[0] <= 0xef
  {
    if IsTail(b[1]) && IsTail(b[2]) && (b[0] == 0xe0 ==> b[1] >= 0xa0) && (b[0] == 0xed ==> b[1] <= 0x9f)
    then Some(((b[0] as int - 0xe0) * 0x1000 + Payload(b[1]) * 0x40 + Payload(b[2]), b[3..])) else None
  }

  /** Four bytes: no overlong form, nothing above U+10FFFF. */
  function DecodeFour(b: Bytes): Option<(CodePoint, Bytes)>
    requires |b| >= 4 && 0xf0 <= b[0] <= 0xf4
  {
    if IsTail(b[1]) && IsTail(b[2]) && IsTail(b[3]) && (b[0] == 0xf0 ==> b[1] >= 0x90) && (b[0] == 0xf4 ==> b[1] <= 0x8f)
    then Some(((b[0] as int - 0xf0) * 0x4_0000 + Payload(b[1]) * 0x1000 + Payload(b[2]) * 0x40 + Payload(b[3]), b[4..]))
    else None
  }

  function DecodePoint(b: Bytes): (r: Option<(CodePoint, Bytes)>)
    ensures r.Some? ==> |r.value.1| < |b|
  {
    if b == [] then None
    else if b[0] <= 0x7f then Some((b[0] as int, b[1..]))
    else if 0xc2 <= b[0] <= 0xdf && |b| >= 2 then DecodeTwo(b)
    else if 0xe0 <= b[0] <= 0xef && |b| >= 3 then DecodeThree(b)
    else if 0xf0 <= b[0] <= 0xf4 && |b| >= 4 then DecodeFour(b)
    else None
  }

  function Decode(b: Bytes): Option<Text>
    decreases |b|
  {
    if b == [] then Some([])
    else
      var c := DecodePoint(b);
      if c.None? then None
      else
        var t := Decode(c.value.1);
        if t.None? then None else Some([c.value.0] + t.value)
  }
}
