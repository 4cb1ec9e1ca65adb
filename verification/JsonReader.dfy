/**
 A reader of JSON texts without insignificant white space, after the grammar of RFC 8259, and the proof that it reads
 back what the adapter prints (adapters/cpex/cpex_to_ledger.py): the printed text is the JSON of that very value.
 */
module JsonReader {
  import opened Options
  import opened ByteText
  import opened KeyOrders
  import opened JsonText

  /** What a text says: objects are lists of members, in the order of the text. Numbers are integers. */
  datatype Value =
    | NullValue
    | BoolValue(b: bool)
    | NumberValue(n: int)
    | StringValue(s: Text)
    | ArrayValue(items: seq<Value>)
    | ObjectValue(members: seq<(Text, Value)>)

  // -------------------------------------------- strings (section 7 of RFC 8259)

  function HexDigitValue(c: CodePoint): (r: Option<int>)
    ensures r.Some? ==> 0 <= r.value < 16
  {
    if 48 <= c <= 57 then Some(c - 48)
    else if 65 <= c <= 70 then Some(c - 55)
    else if 97 <= c <= 102 then Some(c - 87)
    else None
  }

  /** Four hexadecimal digits. */
  function FourHex(text: Text): (r: Option<CodePoint>)
    ensures r.Some? ==> |text| >= 4 && r.value < 0x1_0000
  {
    if |text| < 4 then None
    else
      var a, b, c, d := HexDigitValue(text[0]), HexDigitValue(text[1]), HexDigitValue(text[2]), HexDigitValue(text[3]);
      if a.None? || b.None? || c.None? || d.None? then None
      else Some(0x1000 * a.value + 0x100 * b.value + 0x10 * c.value + d.value)
  }

  /** The escape after a backslash that stands for one character. */
  function ShortForm(c: CodePoint): Option<CodePoint> {
    if c == 0x22 then Some(0x22)       // quotation mark
    else if c == 0x5c then Some(0x5c)  // reverse solidus
    else if c == 0x2f then Some(0x2f)  // solidus
    else if c == 0x62 then Some(0x08)  // b: backspace
    else if c == 0x66 then Some(0x0c)  // f: form feed
    else if c == 0x6e then Some(0x0a)  // n: line feed
    else if c == 0x72 then Some(0x0d)  // r: carriage return
    else if c == 0x74 then Some(0x09)  // t: tab
    else None
  }

  /** One character of a string, escaped or not; two escaped surrogates are one character. */
  function ReadCharacter(text: Text): (r: Option<(CodePoint, Text)>)
    ensures r.Some? ==> |r.value.1| < |text|
  {
    if text == [] || text[0] < 0x20 || text[0] == 0x22 then None
    else if text[0] != 0x5c then Some((text[0], text[1..]))
    else if |text| < 2 then None
    else if ShortForm(text[1]).Some? then Some((ShortForm(text[1]).value, text[2..]))
    else if text[1] != 0x75 || FourHex(text[2..]).None? then None
    else
      var unit, rest := FourHex(text[2..]).value, text[6..];
      if 0xd800 <= unit < 0xdc00 && |rest| >= 2 && rest[0] == 0x5c && rest[1] == 0x75
         && FourHex(rest[2..]).Some? && 0xdc00 <= FourHex(rest[2..]).value < 0xe000
      then Some((0x1_0000 + 0x400 * (unit - 0xd800) + (FourHex(rest[2..]).value - 0xdc00), rest[6..]))
      else Some((unit, rest))
  }

  /** The rest of a string, up to and with its closing quotation mark. */
  function ReadString(text: Text): (r: Option<(Text, Text)>)
    ensures r.Some? ==> |r.value.1| < |text|
    decreases |text|
  {
    if text == [] then None
    else if text[0] == 0x22 then Some(([], text[1..]))
    else
      var c := ReadCharacter(text);
      if c.None? then None
      else
        var s := ReadString(c.value.1);
        if s.None? then None else Some(([c.value.0] + s.value.0, s.value.1))
  }

  // -------------------------------------------- numbers (section 6 of RFC 8259)

  predicate IsDecimalDigit(c: CodePoint) {
    0x30 <= c <= 0x39
  }

  /** Reads digits while there are any. */
  function ReadDigits(acc: nat, text: Text): (r: (nat, Text))
    ensures |r.1| <= |text|
    ensures text != [] && IsDecimalDigit(text[0]) ==> |r.1| < |text|
    decreases |text|
  {
    if text == [] || !IsDecimalDigit(text[0]) then (acc, text) else ReadDigits(10 * acc + (text[0] - 0x30), text[1..])
  }

  /** An unsigned integer: a zero, or digits that do not begin with one; no fraction and no exponent. */
  function ReadUnsigned(text: Text): (r: Option<(nat, Text)>)
    ensures r.Some? ==> |r.value.1| < |text|
  {
    if text == [] || !IsDecimalDigit(text[0]) then None
    else
      var (n, rest) := ReadDigits(0, text);
      if text[0] == 0x30 && |rest| + 1 != |text| then None
      else if rest != [] && (rest[0] == 0x2e || rest[0] == 0x65 || rest[0] == 0x45) then None
      else Some((n, rest))
  }

  function ReadNumber(text: Text): (r: Option<(int, Text)>)
    ensures r.Some? ==> |r.value.1| < |text|
  {
    if text != [] && text[0] == 0x2d then
      var u := ReadUnsigned(text[1..]);
      if u.None? then None else Some((0 - u.value.0, u.value.1))
    else
      var u := ReadUnsigned(text);
      if u.None? then None else Some((u.value.0, u.value.1))
  }

  // ---------------------------- values, objects, arrays (sections 3 to 5 of RFC 8259)

  /** The text after the given one, if it starts with that. */
  function AfterWord(word: Text, text: Text): Option<Text> {
    if word <= text then Some(text[|word|..]) else None
  }

  function ReadValue(text: Text): (r: Option<(Value, Text)>)
    ensures r.Some? ==> |r.value.1| < |text|
    decreases |text|, 1
  {
    if text == [] then None
    else if text[0] == 0x22 then
      var s := ReadString(text[1..]);
      if s.None? then None else Some((StringValue(s.value.0), s.value.1))
    else if text[0] == 0x5b then
      if |text| > 1 && text[1] == 0x5d then Some((ArrayValue([]), text[2..]))
      else
        var items := ReadItems(text[1..]);
        if items.None? then None else Some((ArrayValue(items.value.0), items.value.1))
    else if text[0] == 0x7b then
      if |text| > 1 && text[1] == 0x7d then Some((ObjectValue([]), text[2..]))
      else
        var members := ReadMembers(text[1..]);
        if members.None? then None else Some((ObjectValue(members.value.0), members.value.1))
    else if AfterWord([0x6e, 0x75, 0x6c, 0x6c], text).Some? then Some((NullValue, text[4..]))
    else if AfterWord([0x74, 0x72, 0x75, 0x65], text).Some? then Some((BoolValue(true), text[4..]))
    else if AfterWord([0x66, 0x61, 0x6c, 0x73, 0x65], text).Some? then Some((BoolValue(false), text[5..]))
    else
      var n := ReadNumber(text);
      if n.None? then None else Some((NumberValue(n.value.0), n.value.1))
  }

  /** Values with commas between them, and the closing bracket. */
  function ReadItems(text: Text): (r: Option<(seq<Value>, Text)>)
    ensures r.Some? ==> |r.value.1| < |text|
    decreases |text|, 2
  {
    var v := ReadValue(text);
    if v.None? || v.value.1 == [] then None
    else
      var rest := v.value.1;
      if rest[0] == 0x5d then Some(([v.value.0], rest[1..]))
      else if rest[0] != 0x2c then None
      else
        var more := ReadItems(rest[1..]);
        if more.None? then None else Some(([v.value.0] + more.value.0, more.value.1))
  }

  /** A string, a colon and a value. */
  function ReadMember(text: Text): (r: Option<((Text, Value), Text)>)
    ensures r.Some? ==> |r.value.1| < |text|
    decreases |text|, 2
  {
    if text == [] || text[0] != 0x22 then None
    else
      var k := ReadString(text[1..]);
      if k.None? || k.value.1 == [] || k.value.1[0] != 0x3a then None
      else
        var v := ReadValue(k.value.1[1..]);
        if v.None? then None else Some(((k.value.0, v.value.0), v.value.1))
  }

  /** Members with commas between them, and the closing brace. */
  function ReadMembers(text: Text): (r: Option<(seq<(Text, Value)>, Text)>)
    ensures r.Some? ==> |r.value.1| < |text|
    decreases |text|, 3
  {
    var m := ReadMember(text);
    if m.None? || m.value.1 == [] then None
    else
      var rest := m.value.1;
      if rest[0] == 0x7d then Some(([m.value.0], rest[1..]))
      else if rest[0] != 0x2c then None
      else
        var more := ReadMembers(rest[1..]);
        if more.None? then None else Some(([m.value.0] + more.value.0, more.value.1))
  }

  /** A whole JSON text. */
  function Read(text: Text): Option<Value> {
    var v := ReadValue(text);
    if v.None? || v.value.1 != [] then None else Some(v.value.0)
  }

  // ------------------------------------------------------ what a value says

  /** `a` sorts before `b` code point by code point. */
  predicate Precedes(a: Text, b: Text) {
    exists k :: 0 <= k <= |a| && k < |b| && a[..k] == b[..k] && (k == |a| || a[k] < b[k])
  }

  /** `v` is the value `j`, with the members of each object in ascending code-point order of their keys. */
  predicate Says(v: Value, j: Json)
    decreases v
  {
    match v
    case NullValue => j.Null?
    case BoolValue(b) => j == Bool(b)
    case NumberValue(n) => j == Int(n)
    case StringValue(s) => j == Str(s)
    case ArrayValue(items) =>
      j.Arr? && |items| == |j.items| && forall i | 0 <= i < |items| :: Says(items[i], j.items[i])
    case ObjectValue(members) =>
      && j.Obj?
      && (forall i | 0 <= i < |members| :: members[i].0 in j.members && Says(members[i].1, j.members[members[i].0]))
      && (forall k | k in j.members :: HasKey(members, k))
      && (forall i, l | 0 <= i < l < |members| :: Precedes(members[i].0, members[l].0))
  }

  predicate HasKey(members: seq<(Text, Value)>, k: Text) {
    exists i :: 0 <= i < |members| && members[i].0 == k
  }

  // ---------------------------------------------------------- what is printed

  lemma CharacterReads(c: CodePoint, x: Text)
    ensures ReadCharacter(Escape(c) + x) == Some((c, x))
  {
    var t := Escape(c) + x;
    assert t[|Escape(c)|..] == x;
    assert forall i | 0 <= i < |Escape(c)| :: t[i] == Escape(c)[i];
    if |Escape(c)| == 6 {
      EscapedHex(c, x);
    }
  }

  lemma HexDigitReads(n: int)
    requires 0 <= n < 16
    ensures HexDigitValue(HexDigit(n) as int) == Some(n)
  {
  }

  /** The long escapes of the printer stand for control characters. */
  lemma EscapedHex(c: CodePoint, x: Text)
    requires |Escape(c)| == 6
    ensures c < 32 && FourHex((Escape(c) + x)[2..]) == Some(c)
  {
    var f := (Escape(c) + x)[2..];
    assert forall i | 0 <= i < 4 :: f[i] == Escape(c)[i + 2];
    HexDigitReads(c / 16);
    HexDigitReads(c % 16);
  }

  lemma {:induction false} StringReads(s: Text, x: Text)
    ensures ReadString(Escaped(s, x)) == Some((s, x))
  {
    hide Escape, ReadCharacter;
    if s == [] {
      assert Escaped(s, x)[1..] == x;
    } else {
      CharacterReads(s[0], Escaped(s[1..], x));
      StringReads(s[1..], x);
      EscapedFirst(s, x);
      assert s == [s[0]] + s[1..];
    }
  }

  lemma {:induction false} DecimalReads(n: nat, x: Text)
    ensures ReadDigits(0, AsText(Decimal(n)) + x) == ReadDigits(n, x)
    decreases n
  {
    if n < 10 {
      var t := AsText(Decimal(n)) + x;
      assert t[0] == 48 + n && t[1..] == x;
    } else {
      var d: Text := [48 + n % 10];
      assert AsText(Decimal(n)) + x == AsText(Decimal(n / 10)) + (d + x);
      DecimalReads(n / 10, d + x);
      assert (d + x)[1..] == x;
    }
  }

  lemma {:induction false} NoLeadingZero(n: nat)
    ensures Decimal(n)[0] == 48 ==> n == 0
    ensures |Decimal(n)| == 1 <==> n < 10
  {
    if n >= 10 {
      NoLeadingZero(n / 10);
      assert Decimal(n)[0] == Decimal(n / 10)[0];
    }
  }

  lemma UnsignedReads(n: nat, x: Text)
    requires Ends(x)
    ensures ReadUnsigned(AsText(Decimal(n)) + x) == Some((n, x))
  {
    hide Decimal;
    var t := AsText(Decimal(n)) + x;
    DecimalReads(n, x);
    NoLeadingZero(n);
    assert t[0] == Decimal(n)[0] as int && IsDigit(Decimal(n)[0]);
    assert |t| == |Decimal(n)| + |x|;
  }

  lemma SignedText(n: int)
    ensures n < 0 ==> AsText(Signed(n)) == [0x2d] + AsText(Decimal(-n))
    ensures n >= 0 ==> AsText(Signed(n)) == AsText(Decimal(n)) && IsDecimalDigit(AsText(Decimal(n))[0])
  {
    if n >= 0 {
      assert IsDigit(Decimal(n)[0]);
    }
  }

  lemma NumberReads(n: int, x: Text)
    requires Ends(x)
    ensures ReadNumber(AsText(Signed(n)) + x) == Some((n, x))
    ensures (AsText(Signed(n)) + x)[0] == 0x2d || IsDecimalDigit((AsText(Signed(n)) + x)[0])
  {
    hide Decimal, Signed, ReadUnsigned, Ends, AsText;
    SignedText(n);
    if n < 0 {
      UnsignedReads(-n, x);
      assert AsText(Signed(n)) + x == [0x2d] + (AsText(Decimal(-n)) + x);
      assert (AsText(Signed(n)) + x)[1..] == AsText(Decimal(-n)) + x;
    } else {
      UnsignedReads(n, x);
      assert (AsText(Decimal(n)) + x)[0] == AsText(Decimal(n))[0];
    }
  }

  lemma LiteralReads(j: Json, x: Text)
    requires j.Null? || j.Bool?
    ensures var v := if j.Null? then NullValue else BoolValue(j.b); ReadValue(Literal(j) + x) == Some((v, x))
  {
    hide ReadNumber;
    var t := Literal(j) + x;
    assert t[|Literal(j)|..] == x;
    var word: Text := if j.Null? then [0x6e, 0x75, 0x6c, 0x6c]
                      else if j.b then [0x74, 0x72, 0x75, 0x65] else [0x66, 0x61, 0x6c, 0x73, 0x65];
    assert Literal(j) == word;
    assert t[0] == word[0];
  }

  /** The printed text reads back as the value, whatever ends it. */
  lemma {:induction false} WriteReads(j: Json, rest: Text) returns (v: Value)
    requires Jcs(j) && Ends(rest)
    ensures ReadValue(Write(ByCodePoint, j, rest)) == Some((v, rest)) && Says(v, j)
    decreases j, 1, 0
  {
    hide Escaped, SortedKeys, MoreItems, MoreMembers, Member, Literal, Signed, ReadString, ReadItems, ReadMembers, ReadNumber, Jcs, Says;
    match j
    case Int(n) =>
      NumberReads(n, rest);
      v := NumberValue(n);
      assert Says(v, j) by { SaysScalar(v, j); }
    case Str(s) =>
      StringReads(s, rest);
      assert Write(ByCodePoint, j, rest)[1..] == Escaped(s, rest);
      v := StringValue(s);
      assert Says(v, j) by { SaysScalar(v, j); }
    case Arr(_) => v := ArrayReads(j, rest);
    case Obj(_) => v := ObjectReads(j, rest);
    case Null =>
      LiteralReads(j, rest);
      v := NullValue;
      assert Says(v, j) by { SaysScalar(v, j); }
    case Bool(b) =>
      LiteralReads(j, rest);
      v := BoolValue(b);
      assert Says(v, j) by { SaysScalar(v, j); }
    case Float(_) => FirstCharacter(ByCodePoint, j, rest);
  }

  lemma SaysScalar(v: Value, j: Json)
    requires !v.ArrayValue? && !v.ObjectValue?
    ensures Says(v, j) <==> match v
                            case NullValue => j == Null
                            case BoolValue(b) => j == Bool(b)
                            case NumberValue(n) => j == Int(n)
                            case StringValue(s) => j == Str(s)
  {
  }

  lemma {:induction false} ArrayReads(j: Json, rest: Text) returns (v: Value)
    requires j.Arr? && Jcs(j)
    ensures ReadValue(Write(ByCodePoint, j, rest)) == Some((v, rest)) && Says(v, j)
    decreases j, 0, |j.items| + 1
  {
    hide ReadItems, ReadMembers, ReadNumber, ReadString, MoreItems, Jcs;
    var t := Write(ByCodePoint, j, rest);
    if j.items == [] {
      v := ArrayValue([]);
      assert t[2..] == rest;
    } else {
      assert Jcs(j.items[0]) by { ItemIsJcs(j, 0); }
      var first := Write(ByCodePoint, j.items[0], MoreItems(ByCodePoint, j, 1, rest));
      FirstCharacter(ByCodePoint, j.items[0], MoreItems(ByCodePoint, j, 1, rest));
      assert t[1..] == first && t[1] == first[0];
      var vs := ItemsRead(j, 0, rest);
      v := ArrayValue(vs);
    }
  }

  lemma ItemIsJcs(j: Json, i: nat)
    requires j.Arr? && Jcs(j) && i < |j.items|
    ensures Jcs(j.items[i])
  {
  }

  lemma MoreItemsEnd(j: Json, i: nat, rest: Text)
    requires j.Arr? && Jcs(j) && i <= |j.items|
    ensures var t := MoreItems(ByCodePoint, j, i, rest);
            && t != [] && Ends(t) && t[0] == (if i == |j.items| then 0x5d else 0x2c)
            && (i == |j.items| ==> t[1..] == rest)
            && (i < |j.items| ==> t[1..] == Write(ByCodePoint, j.items[i], MoreItems(ByCodePoint, j, i + 1, rest)))
  {
    hide Write, Jcs;
  }

  lemma {:induction false} ItemsRead(j: Json, i: nat, rest: Text) returns (vs: seq<Value>)
    requires j.Arr? && Jcs(j) && i < |j.items|
    ensures ReadItems(Write(ByCodePoint, j.items[i], MoreItems(ByCodePoint, j, i + 1, rest))) == Some((vs, rest))
    ensures |vs| == |j.items| - i && forall k | 0 <= k < |vs| :: Says(vs[k], j.items[i + k])
    decreases j, 0, |j.items| - i
  {
    hide Write, MoreItems, ReadValue, Jcs, Says;
    ItemIsJcs(j, i);
    MoreItemsEnd(j, i + 1, rest);
    var v := WriteReads(j.items[i], MoreItems(ByCodePoint, j, i + 1, rest));
    if i + 1 == |j.items| {
      vs := [v];
    } else {
      var more := ItemsRead(j, i + 1, rest);
      vs := [v] + more;
      forall k | 0 <= k < |vs|
        ensures Says(vs[k], j.items[i + k])
      {
        assert k > 0 ==> vs[k] == more[k - 1];
      }
    }
  }

  lemma {:induction false} ObjectReads(j: Json, rest: Text) returns (v: Value)
    requires j.Obj? && Jcs(j)
    ensures ReadValue(Write(ByCodePoint, j, rest)) == Some((v, rest)) && Says(v, j)
    decreases j, 0, |SortedKeys(ByCodePoint, j.members.Keys)| + 2
  {
    hide ReadItems, ReadMembers, ReadNumber, ReadString, MoreMembers, Member, Jcs, SortedKeys, Says, Precedes, HasKey;
    var keys := SortedKeys(ByCodePoint, j.members.Keys);
    var t := Write(ByCodePoint, j, rest);
    if keys == [] {
      v := ObjectValue([]);
      assert t[2..] == rest;
      SaysObject(j, [], keys);
    } else {
      var first := Member(ByCodePoint, j, keys[0], MoreMembers(ByCodePoint, j, keys[1..], rest));
      MemberStarts(j, keys[0], MoreMembers(ByCodePoint, j, keys[1..], rest));
      assert t[1..] == first && t[1] == first[0];
      var ms := MembersRead(j, keys, rest);
      v := ObjectValue(ms);
      SaysObject(j, ms, keys);
    }
  }

  lemma MemberStarts(j: Json, k: Text, rest: Text)
    requires j.Obj? && Jcs(j) && k in j.members
    ensures Member(ByCodePoint, j, k, rest) != [] && Member(ByCodePoint, j, k, rest)[0] == 0x22
    ensures Member(ByCodePoint, j, k, rest)[1..] == Escaped(k, [COLON_CHAR] + Write(ByCodePoint, j.members[k], rest))
  {
    hide Write, Jcs, Escaped;
  }

  lemma MoreMembersEnd(j: Json, keys: seq<Text>, rest: Text)
    requires j.Obj? && Jcs(j) && forall k | k in keys :: k in j.members
    ensures var t := MoreMembers(ByCodePoint, j, keys, rest);
            && t != [] && Ends(t) && t[0] == (if keys == [] then 0x7d else 0x2c)
            && (keys == [] ==> t[1..] == rest)
            && (keys != [] ==> t[1..] == Member(ByCodePoint, j, keys[0], MoreMembers(ByCodePoint, j, keys[1..], rest)))
  {
    hide Member, Jcs;
  }

  lemma MemberValueIsJcs(j: Json, k: Text)
    requires j.Obj? && Jcs(j) && k in j.members
    ensures Jcs(j.members[k])
  {
  }

  lemma {:induction false} MemberReads(j: Json, k: Text, rest: Text) returns (v: Value)
    requires j.Obj? && Jcs(j) && k in j.members && Ends(rest)
    ensures ReadMember(Member(ByCodePoint, j, k, rest)) == Some(((k, v), rest)) && Says(v, j.members[k])
    decreases j, 0, 0
  {
    hide Write, ReadValue, ReadString, Escaped, Member, Jcs, Says;
    MemberValueIsJcs(j, k);
    v := WriteReads(j.members[k], rest);
    var x := [COLON_CHAR] + Write(ByCodePoint, j.members[k], rest);
    MemberStarts(j, k, rest);
    StringReads(k, x);
    assert x[1..] == Write(ByCodePoint, j.members[k], rest);
  }

  lemma {:induction false} MembersRead(j: Json, keys: seq<Text>, rest: Text) returns (ms: seq<(Text, Value)>)
    requires j.Obj? && Jcs(j) && keys != [] && forall k | k in keys :: k in j.members
    ensures ReadMembers(Member(ByCodePoint, j, keys[0], MoreMembers(ByCodePoint, j, keys[1..], rest))) == Some((ms, rest))
    ensures |ms| == |keys| && forall i | 0 <= i < |ms| :: ms[i].0 == keys[i] && Says(ms[i].1, j.members[keys[i]])
    decreases j, 0, |keys| + 1
  {
    hide Member, MoreMembers, ReadMember, Jcs, Says;
    MoreMembersEnd(j, keys[1..], rest);
    var v := MemberReads(j, keys[0], MoreMembers(ByCodePoint, j, keys[1..], rest));
    if |keys| == 1 {
      ms := [(keys[0], v)];
    } else {
      var more := MembersRead(j, keys[1..], rest);
      ms := [(keys[0], v)] + more;
      forall i | 0 <= i < |ms|
        ensures ms[i].0 == keys[i] && Says(ms[i].1, j.members[keys[i]])
      {
        assert i > 0 ==> ms[i] == more[i - 1] && keys[i] == keys[1..][i - 1];
      }
    }
  }

  lemma SameHead(a: Text, b: Text, k: nat)
    requires 0 < k <= |a| && k <= |b| && a[..k] == b[..k]
    ensures a[0] == b[0]
  {
    assert a[..k][0] == b[..k][0];
  }

  lemma {:induction false} LessPrecedes(a: Text, b: Text)
    ensures Less(a, b) <==> Precedes(a, b)
  {
    if a != [] && b != [] && a[0] == b[0] {
      LessPrecedes(a[1..], b[1..]);
      if Precedes(a[1..], b[1..]) {
        var k :| 0 <= k <= |a[1..]| && k < |b[1..]| && a[1..][..k] == b[1..][..k] && (k == |a[1..]| || a[1..][k] < b[1..][k]);
        assert a[..k + 1] == [a[0]] + a[1..][..k] && b[..k + 1] == [b[0]] + b[1..][..k];
      }
      if Precedes(a, b) {
        var k :| 0 <= k <= |a| && k < |b| && a[..k] == b[..k] && (k == |a| || a[k] < b[k]);
        assert k > 0;
        assert a[1..][..k - 1] == a[..k][1..] && b[1..][..k - 1] == b[..k][1..];
      }
    } else {
      assert a[..0] == b[..0];
      if Precedes(a, b) {
        var k :| 0 <= k <= |a| && k < |b| && a[..k] == b[..k] && (k == |a| || a[k] < b[k]);
        if k > 0 {
          SameHead(a, b, k);
        }
      }
    }
  }

  lemma SaysObject(j: Json, ms: seq<(Text, Value)>, keys: seq<Text>)
    requires j.Obj? && keys == SortedKeys(ByCodePoint, j.members.Keys)
    requires |ms| == |keys| && forall i | 0 <= i < |ms| :: ms[i].0 == keys[i] && keys[i] in j.members && Says(ms[i].1, j.members[keys[i]])
    ensures Says(ObjectValue(ms), j)
  {
    hide SortedKeys, Precedes, Less;
    SortedKeysAscend(ByCodePoint, j.members.Keys);
    forall k | k in j.members
      ensures HasKey(ms, k)
    {
      assert k in keys;
      var i :| 0 <= i < |keys| && keys[i] == k;
      assert ms[i].0 == k;
    }
    forall i, l | 0 <= i < l < |ms|
      ensures Precedes(ms[i].0, ms[l].0)
    {
      LessPrecedes(keys[i], keys[l]);
    }
  }

  /** What the adapter prints for a float-free value is the JSON text of that value, with the keys of each object in
      ascending order. */
  lemma DumpsReads(j: Json)
    requires Jcs(j)
    ensures Read(Dumps(j)).Some? && Says(Read(Dumps(j)).value, j)
  {
    hide ReadValue, Write, Jcs, Says;
    var v := WriteReads(j, []);
  }
}
