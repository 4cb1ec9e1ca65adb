/**
 Byte strings and the three printed forms that enter the hashed envelope: decimal integers, hexadecimal
 octets and the hyphenated form of a UUID (section 4 of RFC 9562). Every printed form comes with a reader
 that inverts it, so no two values share a text.
 */
module ByteText {

  newtype byte = x: int | 0 <= x < 256

  /** A Rust `String` is its UTF-8 bytes, so text and content share one type. */
  type Bytes = seq<byte>

  /** A UUID as the 128-bit number its sixteen octets spell. */
  type Uuid = u: int | 0 <= u < 0x1_0000_0000_0000_0000_0000_0000_0000_0000

  const COLON: byte := 58
  const NEWLINE: byte := 10
  const HYPHEN: byte := 45
  const PLUS: byte := 43

  /** The bytes of an ASCII literal. */
  function Ascii(s: string): (r: Bytes)
    ensures |r| == |s|
  {
    seq(|s|, i requires 0 <= i < |s| => if s[i] as int < 128 then s[i] as int as byte else 63)
  }

  // ---------------------------------------------------------------- decimal

  predicate IsDigit(b: byte) {
    48 <= b <= 57
  }

  /** `n.to_string()` for an unsigned integer. */
  function Decimal(n: nat): (r: Bytes)
    ensures r != [] && forall i | 0 <= i < |r| :: IsDigit(r[i])
  {
    if n < 10 then [(48 + n) as byte] else Decimal(n / 10) + [(48 + n % 10) as byte]
  }

  /** Reads digits while there are any; returns the value and what follows. */
  function ReadNat(acc: nat, b: Bytes): (nat, Bytes)
    decreases |b|
  {
    if b == [] || !IsDigit(b[0]) then (acc, b)
    else ReadNat(10 * acc + (b[0] as int - 48), b[1..])
  }

  lemma {:induction false} ReadNatInvertsDecimal(n: nat, rest: Bytes)
    ensures ReadNat(0, Decimal(n) + rest) == ReadNat(n, rest)
    decreases n
  {
    if n < 10 {
      assert (Decimal(n) + rest)[1..] == rest;
    } else {
      var d := [(48 + n % 10) as byte];
      assert Decimal(n) + rest == Decimal(n / 10) + (d + rest);
      ReadNatInvertsDecimal(n / 10, d + rest);
      assert (d + rest)[1..] == rest;
    }
  }

  /** `n.to_string()` for a signed integer. */
  function Signed(n: int): Bytes {
    if n < 0 then [HYPHEN] + Decimal(-n) else Decimal(n)
  }

  function ReadSigned(b: Bytes): int {
    if b != [] && b[0] == HYPHEN then 0 - ReadNat(0, b[1..]).0 else ReadNat(0, b).0
  }

  lemma ReadSignedInvertsSigned(n: int)
    ensures ReadSigned(Signed(n)) == n
  {
    var m := if n < 0 then -n else n;
    ReadNatInvertsDecimal(m, []);
    assert Decimal(m) + [] == Decimal(m);
    if n < 0 {
      assert Signed(n)[1..] == Decimal(m);
    } else {
      assert Signed(n)[0] != HYPHEN;
    }
  }

  // ------------------------------------------------------------ hexadecimal

  function HexDigit(n: int): byte
    requires 0 <= n < 16
  {
    if n < 10 then (48 + n) as byte else (87 + n) as byte
  }

  /** `hex::encode`. */
  function Hex(b: Bytes): (r: Bytes)
    ensures |r| == 2 * |b|
  {
    if b == [] then []
    else [HexDigit(b[0] as int / 16), HexDigit(b[0] as int % 16)] + Hex(b[1..])
  }

  /** The last `k` big-endian octets of `n`. */
  function Octets(n: nat, k: nat): (r: Bytes)
    ensures |r| == k
  {
    if k == 0 then [] else Octets(n / 256, k - 1) + [(n % 256) as byte]
  }

  /** The hyphenated form of sixteen octets: 8-4-4-4-12 lower-case hexadecimal digits. */
  function Hyphenated(o: Bytes): (r: Bytes)
    requires |o| == 16
    ensures |r| == 36
  {
    Hex(o[..4]) + ([HYPHEN] + (Hex(o[4..6]) + ([HYPHEN] + (Hex(o[6..8]) + ([HYPHEN] + (Hex(o[8..10]) + ([HYPHEN] + Hex(o[10..]))))))))
  }

  /** `Uuid::to_string`. */
  function UuidText(u: Uuid): Bytes {
    Hyphenated(Octets(u, 16))
  }

  /** The value of a hexadecimal digit. */
  function DigitValue(b: byte): nat {
    if 48 <= b <= 57 then b as nat - 48 else if 97 <= b <= 102 then b as nat - 87 else 0
  }

  /** Reads a text of hexadecimal digits as a number and passes over the hyphens. */
  function ReadHex(acc: nat, t: Bytes): nat
    decreases |t|
  {
    if t == [] then acc
    else if t[0] == HYPHEN then ReadHex(acc, t[1..])
    else ReadHex(16 * acc + DigitValue(t[0]), t[1..])
  }

  function BigEndian(acc: nat, o: Bytes): nat
    decreases |o|
  {
    if o == [] then acc else BigEndian(256 * acc + o[0] as nat, o[1..])
  }

  lemma {:induction false} BigEndianJoins(acc: nat, a: Bytes, b: Bytes)
    ensures BigEndian(acc, a + b) == BigEndian(BigEndian(acc, a), b)
    decreases |a|
  {
    if a == [] {
      assert a + b == b;
    } else {
      assert (a + b)[1..] == a[1..] + b;
      BigEndianJoins(256 * acc + a[0] as nat, a[1..], b);
    }
  }

  function Pow256(k: nat): nat {
    if k == 0 then 1 else 256 * Pow256(k - 1)
  }

  lemma {:induction false} OctetsSpell(n: nat, k: nat)
    requires n < Pow256(k)
    ensures BigEndian(0, Octets(n, k)) == n
  {
    if k > 0 {
      OctetsSpell(n / 256, k - 1);
      BigEndianJoins(0, Octets(n / 256, k - 1), [(n % 256) as byte]);
    }
  }

  lemma {:induction false} ReadHexInvertsHex(acc: nat, o: Bytes, rest: Bytes)
    ensures ReadHex(acc, Hex(o) + rest) == ReadHex(BigEndian(acc, o), rest)
    decreases |o|
  {
    if o == [] {
      assert Hex(o) + rest == rest;
    } else {
      var x, y := HexDigit(o[0] as int / 16), HexDigit(o[0] as int % 16);
      var tail := Hex(o[1..]) + rest;
      assert Hex(o) + rest == [x] + ([y] + tail);
      assert ([x] + ([y] + tail))[1..] == [y] + tail && ([y] + tail)[1..] == tail;
      ReadHexInvertsHex(256 * acc + o[0] as nat, o[1..], rest);
    }
  }

  lemma ReadGroup(acc: nat, o: Bytes, rest: Bytes)
    ensures ReadHex(acc, Hex(o) + ([HYPHEN] + rest)) == ReadHex(BigEndian(acc, o), rest)
  {
    ReadHexInvertsHex(acc, o, [HYPHEN] + rest);
    assert ([HYPHEN] + rest)[1..] == rest;
  }

  lemma ReadHyphenated(o: Bytes)
    requires |o| == 16
    ensures ReadHex(0, Hyphenated(o)) == BigEndian(0, o)
  {
    hide Hex, ReadHex, BigEndian;
    var rest4 := Hex(o[10..]);
    var rest3 := Hex(o[8..10]) + ([HYPHEN] + rest4);
    var rest2 := Hex(o[6..8]) + ([HYPHEN] + rest3);
    var rest1 := Hex(o[4..6]) + ([HYPHEN] + rest2);
    var a := BigEndian(0, o[..4]);
    ReadGroup(0, o[..4], rest1);
    var b := BigEndian(a, o[4..6]);
    ReadGroup(a, o[4..6], rest2);
    var c := BigEndian(b, o[6..8]);
    ReadGroup(b, o[6..8], rest3);
    var d := BigEndian(c, o[8..10]);
    ReadGroup(c, o[8..10], rest4);
    ReadHexInvertsHex(d, o[10..], []);
    assert rest4 + [] == rest4;
    NothingToRead(BigEndian(d, o[10..]));
    BigEndianJoins(0, o[..4], o[4..6]);
    BigEndianJoins(0, o[..4] + o[4..6], o[6..8]);
    BigEndianJoins(0, o[..4] + o[4..6] + o[6..8], o[8..10]);
    BigEndianJoins(0, o[..4] + o[4..6] + o[6..8] + o[8..10], o[10..]);
    assert o == o[..4] + o[4..6] + o[6..8] + o[8..10] + o[10..];
  }

  lemma NothingToRead(acc: nat)
    ensures ReadHex(acc, []) == acc
  {
  }

  predicate LowerHex(b: byte) {
    48 <= b <= 57 || 97 <= b <= 102
  }

  lemma {:induction false} HexIsLower(o: Bytes)
    ensures forall k | 0 <= k < 2 * |o| :: LowerHex(Hex(o)[k])
  {
    if o != [] {
      HexIsLower(o[1..]);
    }
  }

  /** The text of an id is read back as its number: lower-case hexadecimal digits in groups of 8-4-4-4-12. */
  lemma UuidTextReads(u: Uuid)
    ensures ReadHex(0, UuidText(u)) == u
    ensures |UuidText(u)| == 36
    ensures forall k | 0 <= k < 36 ::
              if k == 8 || k == 13 || k == 18 || k == 23 then UuidText(u)[k] == HYPHEN
              else 48 <= UuidText(u)[k] <= 57 || 97 <= UuidText(u)[k] <= 102
  {
    hide Hex, ReadHex, BigEndian, Octets;
    var o := Octets(u, 16);
    ReadHyphenated(o);
    assert Pow256(8) == 0x1_0000_0000_0000_0000;
    assert Pow256(16) == 0x1_0000_0000_0000_0000_0000_0000_0000_0000;
    OctetsSpell(u, 16);
    HexIsLower(o[..4]);
    HexIsLower(o[4..6]);
    HexIsLower(o[6..8]);
    HexIsLower(o[8..10]);
    HexIsLower(o[10..]);
  }

  lemma UuidTextInjective(u: Uuid, v: Uuid)
    requires UuidText(u) == UuidText(v)
    ensures u == v
  {
    UuidTextReads(u);
    UuidTextReads(v);
  }
}
