/**
 JSON values and their text: Python's `json.dumps` with sorted keys, no white space and non-ASCII characters left as
 they are (adapters/cpex/cpex_to_ledger.py). The text is proved unambiguous, and its key order is compared with the
 one of section 3.2.3 of RFC 8785.
 */
module JsonText {
  import opened Options
  import opened ByteText
  import opened KeyOrders

  /** What `json.loads` returns. A float is kept as its text, since every float is refused. */
  datatype Json =
    | Null
    | Bool(b: bool)
    | Int(n: int)
    | Float(digits: Text)
    | Str(s: Text)
    | Arr(items: seq<Json>)
    | Obj(members: map<Text, Json>)

  /** `_reject_non_jcs_scalars` lets the value pass: there is no float anywhere in it. */
  predicate Jcs(j: Json) {
    match j
    case Float(_) => false
    case Arr(items) => forall i | 0 <= i < |items| :: Jcs(items[i])
    case Obj(members) => forall k | k in members :: Jcs(members[k])
    case _ => true
  }

  /** A place in a value: an item of an array or a member of an object. */
  datatype Place = Item(i: nat) | Key(k: Text)

  /** What stands at the end of a path of places, if it leads anywhere. */
  function At(j: Json, path: seq<Place>): Option<Json>
    decreases |path|
  {
    if path == [] then Some(j)
    else if j.Arr? && path[0].Item? && path[0].i < |j.items| then At(j.items[path[0].i], path[1..])
    else if j.Obj? && path[0].Key? && path[0].k in j.members then At(j.members[path[0].k], path[1..])
    else None
  }

  predicate IsFloat(j: Option<Json>) {
    j.Some? && j.value.Float?
  }

  /** A value passes exactly when no path leads to a float. */
  lemma JcsExact(j: Json)
    ensures Jcs(j) <==> forall path: seq<Place> :: !IsFloat(At(j, path))
  {
    if Jcs(j) {
      forall path: seq<Place>
        ensures !IsFloat(At(j, path))
      {
        NoFloatAt(j, path);
      }
    } else {
      FloatBelow(j);
    }
  }

  lemma {:induction false} NoFloatAt(j: Json, path: seq<Place>)
    requires Jcs(j)
    ensures !IsFloat(At(j, path))
    decreases |path|
  {
    if path != [] {
      if j.Arr? && path[0].Item? && path[0].i < |j.items| {
        NoFloatAt(j.items[path[0].i], path[1..]);
      } else if j.Obj? && path[0].Key? && path[0].k in j.members {
        NoFloatAt(j.members[path[0].k], path[1..]);
      }
    }
  }

  lemma {:induction false} FloatBelow(j: Json)
    requires !Jcs(j)
    ensures exists path: seq<Place> :: IsFloat(At(j, path))
  {
    if j.Arr? {
      var i :| 0 <= i < |j.items| && !Jcs(j.items[i]);
      FloatBelow(j.items[i]);
      var path: seq<Place> :| IsFloat(At(j.items[i], path));
      assert ([Item(i)] + path)[1..] == path;
      assert IsFloat(At(j, [Item(i)] + path));
    } else if j.Obj? {
      var k :| k in j.members && !Jcs(j.members[k]);
      FloatBelow(j.members[k]);
      var path: seq<Place> :| IsFloat(At(j.members[k], path));
      assert ([Key(k)] + path)[1..] == path;
      assert IsFloat(At(j, [Key(k)] + path));
    } else {
      assert IsFloat(At(j, []));
    }
  }

  // ------------------------------------------------------------------ printing

  const QUOTE: CodePoint := 34
  const COMMA: CodePoint := 44
  const COLON_CHAR: CodePoint := 58
  const BACKSLASH: CodePoint := 92
  const OPEN_BRACKET: CodePoint := 91
  const CLOSE_BRACKET: CodePoint := 93
  const OPEN_BRACE: CodePoint := 123
  const CLOSE_BRACE: CodePoint := 125

  /** ASCII bytes as text. */
  function AsText(b: Bytes): (r: Text)
    ensures |r| == |b| && forall i | 0 <= i < |b| :: r[i] == b[i] as int
  {
    seq(|b|, i requires 0 <= i < |b| => b[i] as int)
  }

  function Word(s: string): Text {
    AsText(Ascii(s))
  }

  /** The short escapes: \b \t \n \f \r. */
  function ShortEscape(c: CodePoint): Option<CodePoint> {
    if c == 8 then Some(98)
    else if c == 9 then Some(116)
    else if c == 10 then Some(110)
    else if c == 12 then Some(102)
    else if c == 13 then Some(114)
    else None
  }

  function Escape(c: CodePoint): Text {
    if c == QUOTE || c == BACKSLASH then [BACKSLASH, c]
    else if ShortEscape(c).Some? then [BACKSLASH, ShortEscape(c).value]
    else if c < 32 then [BACKSLASH, 117, 48, 48, HexDigit(c / 16) as int, HexDigit(c % 16) as int]
    else [c]
  }

  /** The characters of a string, escaped, and its closing quote. */
  function Escaped(s: Text, rest: Text): Text {
    if s == [] then [QUOTE] + rest else Escape(s[0]) + Escaped(s[1..], rest)
  }

  function Quoted(s: Text, rest: Text): Text {
    [QUOTE] + Escaped(s, rest)
  }

  function Literal(j: Json): Text {
    if j.Null? then Word("null") else if j == Bool(true) then Word("true") else Word("false")
  }

  /** The text of a value with the keys of each object in the given order and without white space, followed by `rest`. */
  ghost function Write(o: KeyOrder, j: Json, rest: Text): Text
    requires Jcs(j)
    decreases j, 1, 0
  {
    match j
    case Int(n) => AsText(Signed(n)) + rest
    case Str(s) => Quoted(s, rest)
    case Arr(items) =>
      [OPEN_BRACKET] + (if items == [] then [CLOSE_BRACKET] + rest else Write(o, items[0], MoreItems(o, j, 1, rest)))
    case Obj(members) =>
      var keys := SortedKeys(o, members.Keys);
      [OPEN_BRACE] + (if keys == [] then [CLOSE_BRACE] + rest
                      else Member(o, j, keys[0], MoreMembers(o, j, keys[1..], rest)))
    case _ => Literal(j) + rest
  }

  ghost function MoreItems(o: KeyOrder, j: Json, i: nat, rest: Text): Text
    requires j.Arr? && Jcs(j) && i <= |j.items|
    decreases j, 0, |j.items| - i
  {
    if i == |j.items| then [CLOSE_BRACKET] + rest else [COMMA] + Write(o, j.items[i], MoreItems(o, j, i + 1, rest))
  }

  ghost function Member(o: KeyOrder, j: Json, k: Text, rest: Text): Text
    requires j.Obj? && Jcs(j) && k in j.members
    decreases j, 0, 0
  {
    Quoted(k, [COLON_CHAR] + Write(o, j.members[k], rest))
  }

  ghost function MoreMembers(o: KeyOrder, j: Json, keys: seq<Text>, rest: Text): Text
    requires j.Obj? && Jcs(j) && forall k | k in keys :: k in j.members
    decreases j, 0, |keys| + 1
  {
    if keys == [] then [CLOSE_BRACE] + rest else [COMMA] + Member(o, j, keys[0], MoreMembers(o, j, keys[1..], rest))
  }

  /** `json.dumps(j, sort_keys=True, separators=(",", ":"), ensure_ascii=False)`. */
  ghost function Dumps(j: Json): Text
    requires Jcs(j)
  {
    Write(ByCodePoint, j, [])
  }

  /** The same text with the keys of each object sorted as section 3.2.3 of RFC 8785 asks. */
  ghost function DumpsUtf16(j: Json): Text
    requires Jcs(j)
  {
    Write(ByUtf16, j, [])
  }

  // -------------------------------------------------------------- unambiguity

  lemma EscapeUnambiguous(c: CodePoint, d: CodePoint, x: Text, y: Text)
    requires Escape(c) + x == Escape(d) + y
    ensures c == d && x == y
  {
    assert (Escape(c) + x)[0] == Escape(c)[0] && (Escape(d) + y)[0] == Escape(d)[0];
    if |Escape(c)| > 1 {
      assert (Escape(c) + x)[1] == Escape(c)[1] && (Escape(d) + y)[1] == Escape(d)[1];
      if |Escape(c)| == 6 {
        assert forall i | 4 <= i < 6 :: (Escape(c) + x)[i] == Escape(c)[i] && (Escape(d) + y)[i] == Escape(d)[i];
        assert DigitValue(HexDigit(c / 16)) == c / 16 && DigitValue(HexDigit(d / 16)) == d / 16;
        assert DigitValue(HexDigit(c % 16)) == c % 16 && DigitValue(HexDigit(d % 16)) == d % 16;
      }
    }
    assert (Escape(c) + x)[|Escape(c)|..] == x && (Escape(d) + y)[|Escape(d)|..] == y;
  }

  lemma Cons(c: CodePoint, d: CodePoint, x: Text, y: Text)
    requires [c] + x == [d] + y
    ensures c == d && x == y
  {
    assert ([c] + x)[1..] == x && ([d] + y)[1..] == y;
    assert ([c] + x)[0] == c && ([d] + y)[0] == d;
  }

  lemma EscapedFirst(s: Text, rest: Text)
    ensures Escaped(s, rest) != [] && (Escaped(s, rest)[0] == QUOTE <==> s == [])
  {
    if s != [] {
      assert Escaped(s, rest)[0] == Escape(s[0])[0];
    }
  }

  lemma {:induction false} EscapedUnambiguous(a: Text, b: Text, x: Text, y: Text)
    requires Escaped(a, x) == Escaped(b, y)
    ensures a == b && x == y
  {
    if a != [] && b != [] {
      EscapeUnambiguous(a[0], b[0], Escaped(a[1..], x), Escaped(b[1..], y));
      EscapedUnambiguous(a[1..], b[1..], x, y);
      assert a == [a[0]] + a[1..] && b == [b[0]] + b[1..];
    } else {
      EscapedFirst(a, x);
      EscapedFirst(b, y);
      Cons(QUOTE, QUOTE, x, y);
    }
  }

  lemma QuotedUnambiguous(a: Text, b: Text, x: Text, y: Text)
    requires Quoted(a, x) == Quoted(b, y)
    ensures a == b && x == y
  {
    Cons(QUOTE, QUOTE, Escaped(a, x), Escaped(b, y));
    EscapedUnambiguous(a, b, x, y);
  }

  /** What may follow a value inside a text: nothing, or one of the characters that close or continue a container. */
  predicate Ends(x: Text) {
    x == [] || x[0] in {COMMA, CLOSE_BRACKET, CLOSE_BRACE}
  }

  predicate Numeric(c: int) {
    c == 45 || 48 <= c <= 57
  }

  lemma SignedChars(n: int)
    ensures Signed(n) != [] && forall i | 0 <= i < |Signed(n)| :: Numeric(Signed(n)[i] as int)
  {
  }

  lemma NoLonger(a: Text, b: Text, x: Text, y: Text)
    requires a + x == b + y && Ends(x) && b != [] && forall i | 0 <= i < |b| :: Numeric(b[i])
    ensures |b| <= |a|
  {
    var k := if |a| < |b| then |a| else 0;
    assert (b + y)[k] == b[k];
    assert x != [] ==> (a + x)[|a|] == x[0];
  }

  lemma IntUnambiguous(m: int, n: int, x: Text, y: Text)
    requires AsText(Signed(m)) + x == AsText(Signed(n)) + y && Ends(x) && Ends(y)
    ensures m == n && x == y
  {
    SignedChars(m);
    SignedChars(n);
    var a, b := AsText(Signed(m)), AsText(Signed(n));
    assert forall i | 0 <= i < |a| :: a[i] == Signed(m)[i] as int;
    assert forall i | 0 <= i < |b| :: b[i] == Signed(n)[i] as int;
    NoLonger(a, b, x, y);
    NoLonger(b, a, y, x);
    assert a == (a + x)[..|a|] && b == (b + y)[..|b|];
    assert x == (a + x)[|a|..] && y == (b + y)[|b|..];
    forall i | 0 <= i < |a|
      ensures Signed(m)[i] == Signed(n)[i]
    {
      assert a[i] == Signed(m)[i] as int && b[i] == Signed(n)[i] as int;
    }
    assert Signed(m) == Signed(n);
    ReadSignedInvertsSigned(m);
    ReadSignedInvertsSigned(n);
  }

  /** The first character of a text tells which kind of value it is. */
  lemma FirstCharacter(o: KeyOrder, j: Json, rest: Text)
    requires Jcs(j)
    ensures !j.Float? && Write(o, j, rest) != []
    ensures var c := Write(o, j, rest)[0];
            match j
            case Null => c == 110
            case Bool(b) => c == if b then 116 else 102
            case Int(_) => Numeric(c)
            case Str(_) => c == QUOTE
            case Arr(_) => c == OPEN_BRACKET
            case Obj(_) => c == OPEN_BRACE
  {
    hide Escaped, SortedKeys, MoreItems, MoreMembers;
    if j.Int? {
      SignedChars(j.n);
    }
  }

  lemma LiteralUnambiguous(a: Json, x: Text, y: Text)
    requires Literal(a) + x == Literal(a) + y
    ensures x == y
  {
    assert (Literal(a) + x)[|Literal(a)|..] == x && (Literal(a) + y)[|Literal(a)|..] == y;
  }

  /** The two orders list the keys of every object in the value alike. */
  ghost predicate SameOrders(o: KeyOrder, p: KeyOrder, j: Json) {
    match j
    case Arr(items) => forall i | 0 <= i < |items| :: SameOrders(o, p, items[i])
    case Obj(members) =>
      && SortedKeys(o, members.Keys) == SortedKeys(p, members.Keys)
      && forall k | k in members :: SameOrders(o, p, members[k])
    case _ => true
  }

  /** The text of a value, whatever follows it, determines the value and what follows: printing loses nothing, under
      either key order. Both orders can only give the same text where they list the keys alike. */
  lemma {:induction false} Unambiguous(o: KeyOrder, a: Json, p: KeyOrder, b: Json, x: Text, y: Text)
    requires Jcs(a) && Jcs(b) && Ends(x) && Ends(y) && Write(o, a, x) == Write(p, b, y)
    ensures a == b && x == y && SameOrders(o, p, a)
    decreases a, 1, 0
  {
    hide Jcs, Quoted, SortedKeys, MoreItems, Member, MoreMembers, Literal, Signed;
    FirstCharacter(o, a, x);
    FirstCharacter(p, b, y);
    match a
    case Int(_) => IntUnambiguous(a.n, b.n, x, y);
    case Str(s) => QuotedUnambiguous(s, b.s, x, y);
    case Arr(_) => ArrUnambiguous(o, a, p, b, x, y);
    case Obj(_) => ObjUnambiguous(o, a, p, b, x, y);
    case _ => LiteralUnambiguous(a, x, y);
  }

  lemma {:induction false} ArrUnambiguous(o: KeyOrder, a: Json, p: KeyOrder, b: Json, x: Text, y: Text)
    requires a.Arr? && b.Arr? && Jcs(a) && Jcs(b) && Write(o, a, x) == Write(p, b, y)
    ensures a == b && x == y && SameOrders(o, p, a)
    decreases a, 0, |a.items| + 1
  {
    hide SortedKeys;
    var l := if a.items == [] then [CLOSE_BRACKET] + x else Write(o, a.items[0], MoreItems(o, a, 1, x));
    var r := if b.items == [] then [CLOSE_BRACKET] + y else Write(p, b.items[0], MoreItems(p, b, 1, y));
    Cons(OPEN_BRACKET, OPEN_BRACKET, l, r);
    if a.items != [] {
      FirstCharacter(o, a.items[0], MoreItems(o, a, 1, x));
    }
    if b.items != [] {
      FirstCharacter(p, b.items[0], MoreItems(p, b, 1, y));
    }
    if a.items == [] && b.items == [] {
      Cons(CLOSE_BRACKET, CLOSE_BRACKET, x, y);
    } else {
      assert l[0] == r[0];
      Unambiguous(o, a.items[0], p, b.items[0], MoreItems(o, a, 1, x), MoreItems(p, b, 1, y));
      MoreItemsUnambiguous(o, a, p, b, 1, x, y);
      assert a.items == [a.items[0]] + a.items[1..] && b.items == [b.items[0]] + b.items[1..];
    }
  }

  lemma {:induction false} MoreItemsUnambiguous(o: KeyOrder, a: Json, p: KeyOrder, b: Json, i: nat, x: Text, y: Text)
    requires a.Arr? && b.Arr? && Jcs(a) && Jcs(b) && i <= |a.items| && i <= |b.items|
    requires MoreItems(o, a, i, x) == MoreItems(p, b, i, y)
    ensures a.items[i..] == b.items[i..] && x == y && forall k | i <= k < |a.items| :: SameOrders(o, p, a.items[k])
    decreases a, 0, |a.items| - i
  {
    hide Write;
    assert MoreItems(o, a, i, x)[0] == if i == |a.items| then CLOSE_BRACKET else COMMA;
    assert MoreItems(p, b, i, y)[0] == if i == |b.items| then CLOSE_BRACKET else COMMA;
    if i == |a.items| {
      Cons(CLOSE_BRACKET, CLOSE_BRACKET, x, y);
    } else {
      var xs, ys := MoreItems(o, a, i + 1, x), MoreItems(p, b, i + 1, y);
      Cons(COMMA, COMMA, Write(o, a.items[i], xs), Write(p, b.items[i], ys));
      Unambiguous(o, a.items[i], p, b.items[i], xs, ys);
      MoreItemsUnambiguous(o, a, p, b, i + 1, x, y);
      assert a.items[i..] == [a.items[i]] + a.items[i + 1..] && b.items[i..] == [b.items[i]] + b.items[i + 1..];
    }
  }

  lemma {:induction false} MemberUnambiguous(o: KeyOrder, a: Json, p: KeyOrder, b: Json, k: Text, l: Text, x: Text, y: Text)
    requires a.Obj? && b.Obj? && Jcs(a) && Jcs(b) && k in a.members && l in b.members
    requires Ends(x) && Ends(y) && Member(o, a, k, x) == Member(p, b, l, y)
    ensures k == l && a.members[k] == b.members[l] && x == y && SameOrders(o, p, a.members[k])
    decreases a, 0, 0
  {
    hide Write, Quoted;
    var v, w := a.members[k], b.members[l];
    QuotedUnambiguous(k, l, [COLON_CHAR] + Write(o, v, x), [COLON_CHAR] + Write(p, w, y));
    Cons(COLON_CHAR, COLON_CHAR, Write(o, v, x), Write(p, w, y));
    Unambiguous(o, v, p, w, x, y);
  }

  lemma {:induction false} MoreMembersUnambiguous(o: KeyOrder, a: Json, p: KeyOrder, b: Json, ks: seq<Text>, ls: seq<Text>, x: Text, y: Text)
    requires a.Obj? && b.Obj? && Jcs(a) && Jcs(b)
    requires (forall k | k in ks :: k in a.members) && (forall l | l in ls :: l in b.members)
    requires MoreMembers(o, a, ks, x) == MoreMembers(p, b, ls, y)
    ensures ks == ls && x == y && forall k | k in ks :: a.members[k] == b.members[k] && SameOrders(o, p, a.members[k])
    decreases a, 0, |ks| + 1
  {
    hide Member, Jcs;
    assert MoreMembers(o, a, ks, x)[0] == if ks == [] then CLOSE_BRACE else COMMA;
    assert MoreMembers(p, b, ls, y)[0] == if ls == [] then CLOSE_BRACE else COMMA;
    if ks == [] {
      Cons(CLOSE_BRACE, CLOSE_BRACE, x, y);
    } else {
      var xs, ys := MoreMembers(o, a, ks[1..], x), MoreMembers(p, b, ls[1..], y);
      Cons(COMMA, COMMA, Member(o, a, ks[0], xs), Member(p, b, ls[0], ys));
      MemberUnambiguous(o, a, p, b, ks[0], ls[0], xs, ys);
      MoreMembersUnambiguous(o, a, p, b, ks[1..], ls[1..], x, y);
      assert ks == [ks[0]] + ks[1..] && ls == [ls[0]] + ls[1..];
    }
  }

  lemma {:induction false} ObjUnambiguous(o: KeyOrder, a: Json, p: KeyOrder, b: Json, x: Text, y: Text)
    requires a.Obj? && b.Obj? && Jcs(a) && Jcs(b) && Write(o, a, x) == Write(p, b, y)
    ensures a == b && x == y && SameOrders(o, p, a)
    decreases a, 0, |SortedKeys(o, a.members.Keys)| + 2
  {
    hide SortedKeys, Jcs, MoreMembers;
    var ks, ls := SortedKeys(o, a.members.Keys), SortedKeys(p, b.members.Keys);
    var l := if ks == [] then [CLOSE_BRACE] + x else Member(o, a, ks[0], MoreMembers(o, a, ks[1..], x));
    var r := if ls == [] then [CLOSE_BRACE] + y else Member(p, b, ls[0], MoreMembers(p, b, ls[1..], y));
    Cons(OPEN_BRACE, OPEN_BRACE, l, r);
    assert l[0] == if ks == [] then CLOSE_BRACE else QUOTE;
    assert r[0] == if ls == [] then CLOSE_BRACE else QUOTE;
    if ks == [] {
      Cons(CLOSE_BRACE, CLOSE_BRACE, x, y);
    } else {
      var xs, ys := MoreMembers(o, a, ks[1..], x), MoreMembers(p, b, ls[1..], y);
      MembersEnd(o, a, ks[1..], x);
      MembersEnd(p, b, ls[1..], y);
      MemberUnambiguous(o, a, p, b, ks[0], ls[0], xs, ys);
      MoreMembersUnambiguous(o, a, p, b, ks[1..], ls[1..], x, y);
      assert ks == [ks[0]] + ks[1..] && ls == [ls[0]] + ls[1..];
    }
    SameMembers(a.members, b.members, ks);
  }

  lemma MembersEnd(o: KeyOrder, j: Json, keys: seq<Text>, rest: Text)
    requires j.Obj? && Jcs(j) && forall k | k in keys :: k in j.members
    ensures Ends(MoreMembers(o, j, keys, rest))
  {
    hide Member, Jcs;
  }

  lemma SameMembers(a: map<Text, Json>, b: map<Text, Json>, ks: seq<Text>)
    requires forall k :: k in ks <==> k in a.Keys
    requires forall k :: k in ks <==> k in b.Keys
    requires forall k | k in ks :: a[k] == b[k]
    ensures a == b
  {
    assert a.Keys == b.Keys;
  }

  // --------------------------------------------------------------- surrogates

  /** No string and no key anywhere in the value holds a lone surrogate. */
  predicate Clean(j: Json) {
    match j
    case Str(s) => NoSurrogates(s)
    case Arr(items) => forall i | 0 <= i < |items| :: Clean(items[i])
    case Obj(members) => forall k | k in members :: NoSurrogates(k) && Clean(members[k])
    case _ => true
  }

  lemma CleanJoin(a: Text, b: Text)
    ensures NoSurrogates(a + b) <==> NoSurrogates(a) && NoSurrogates(b)
  {
    assert forall i | 0 <= i < |a| :: (a + b)[i] == a[i];
    assert forall i | 0 <= i < |b| :: (a + b)[|a| + i] == b[i];
  }

  lemma CleanEscape(c: CodePoint)
    ensures NoSurrogates(Escape(c)) <==> NoSurrogates([c])
  {
    ScalarOne(c);
    if Escape(c) == [c] {
    } else {
      assert !IsSurrogate(c);
    }
  }

  lemma {:induction false} CleanEscaped(s: Text, rest: Text)
    ensures NoSurrogates(Escaped(s, rest)) <==> NoSurrogates(s) && NoSurrogates(rest)
  {
    hide NoSurrogates, Escape;
    if s == [] {
      CleanJoin([QUOTE], rest);
      ScalarOne(QUOTE);
      assert NoSurrogates(s) by {
        ScalarText([]);
        assert AsText([]) == [];
      }
    } else {
      CleanEscaped(s[1..], rest);
      CleanJoin(Escape(s[0]), Escaped(s[1..], rest));
      CleanEscape(s[0]);
      CleanJoin([s[0]], s[1..]);
      assert [s[0]] + s[1..] == s;
    }
  }

  lemma CleanQuoted(s: Text, rest: Text)
    ensures NoSurrogates(Quoted(s, rest)) <==> NoSurrogates(s) && NoSurrogates(rest)
  {
    CleanEscaped(s, rest);
    CleanJoin([QUOTE], Escaped(s, rest));
  }

  /** The text holds a lone surrogate exactly when the value does. */
  lemma {:induction false} WriteClean(o: KeyOrder, j: Json, rest: Text)
    requires Jcs(j)
    ensures NoSurrogates(Write(o, j, rest)) <==> Clean(j) && NoSurrogates(rest)
    decreases j, 1, 0
  {
    hide NoSurrogates, Quoted, MoreItems, Member, MoreMembers, SortedKeys, Literal, Signed;
    match j
    case Int(n) =>
      SignedChars(n);
      ScalarText(Signed(n));
      CleanJoin(AsText(Signed(n)), rest);
    case Str(s) => CleanQuoted(s, rest);
    case Arr(items) =>
      CleanItems(o, j, 0, rest);
      FirstItem(o, j, rest);
    case Obj(members) =>
      CleanMembers(o, j, SortedKeys(o, members.Keys), rest);
      FirstMember(o, j, rest);
    case _ =>
      LiteralClean(j);
      CleanJoin(Literal(j), rest);
  }

  lemma ScalarText(b: Bytes)
    ensures NoSurrogates(AsText(b))
  {
  }

  lemma LiteralClean(j: Json)
    ensures NoSurrogates(Literal(j))
  {
    ScalarText(Ascii("null"));
    ScalarText(Ascii("true"));
    ScalarText(Ascii("false"));
  }

  lemma FirstItem(o: KeyOrder, j: Json, rest: Text)
    requires j.Arr? && Jcs(j)
    ensures NoSurrogates(Write(o, j, rest)) <==> NoSurrogates(MoreItems(o, j, 0, rest))
  {
    hide NoSurrogates;
    if j.items == [] {
      CleanJoin([OPEN_BRACKET], [CLOSE_BRACKET] + rest);
    } else {
      CleanJoin([OPEN_BRACKET], Write(o, j.items[0], MoreItems(o, j, 1, rest)));
      CleanJoin([COMMA], Write(o, j.items[0], MoreItems(o, j, 1, rest)));
      ScalarOne(COMMA);
    }
    ScalarOne(OPEN_BRACKET);
  }

  lemma ScalarOne(c: CodePoint)
    ensures NoSurrogates([c]) <==> !IsSurrogate(c)
  {
    if NoSurrogates([c]) {
      assert !IsSurrogate([c][0]);
    }
  }

  lemma {:induction false} CleanItems(o: KeyOrder, j: Json, i: nat, rest: Text)
    requires j.Arr? && Jcs(j) && i <= |j.items|
    ensures NoSurrogates(MoreItems(o, j, i, rest)) <==> NoSurrogates(rest) && forall k | i <= k < |j.items| :: Clean(j.items[k])
    decreases j, 0, |j.items| - i
  {
    hide NoSurrogates, Write, Clean;
    if i == |j.items| {
      CleanJoin([CLOSE_BRACKET], rest);
      ScalarOne(CLOSE_BRACKET);
    } else {
      CleanJoin([COMMA], Write(o, j.items[i], MoreItems(o, j, i + 1, rest)));
      ScalarOne(COMMA);
      WriteClean(o, j.items[i], MoreItems(o, j, i + 1, rest));
      CleanItems(o, j, i + 1, rest);
    }
  }

  lemma FirstMember(o: KeyOrder, j: Json, rest: Text)
    requires j.Obj? && Jcs(j)
    ensures NoSurrogates(Write(o, j, rest)) <==> NoSurrogates(MoreMembers(o, j, SortedKeys(o, j.members.Keys), rest))
  {
    hide NoSurrogates, SortedKeys, Member;
    var keys := SortedKeys(o, j.members.Keys);
    if keys == [] {
      CleanJoin([OPEN_BRACE], [CLOSE_BRACE] + rest);
    } else {
      CleanJoin([OPEN_BRACE], Member(o, j, keys[0], MoreMembers(o, j, keys[1..], rest)));
      CleanJoin([COMMA], Member(o, j, keys[0], MoreMembers(o, j, keys[1..], rest)));
      ScalarOne(COMMA);
    }
    ScalarOne(OPEN_BRACE);
  }

  lemma {:induction false} CleanMembers(o: KeyOrder, j: Json, keys: seq<Text>, rest: Text)
    requires j.Obj? && Jcs(j) && forall k | k in keys :: k in j.members
    ensures NoSurrogates(MoreMembers(o, j, keys, rest)) <==>
            NoSurrogates(rest) && forall k | k in keys :: NoSurrogates(k) && Clean(j.members[k])
    decreases j, 0, |keys| + 1
  {
    hide NoSurrogates, Write, Clean, Quoted;
    if keys == [] {
      CleanJoin([CLOSE_BRACE], rest);
      ScalarOne(CLOSE_BRACE);
    } else {
      var k, more := keys[0], MoreMembers(o, j, keys[1..], rest);
      CleanJoin([COMMA], Member(o, j, k, more));
      ScalarOne(COMMA);
      CleanQuoted(k, [COLON_CHAR] + Write(o, j.members[k], more));
      CleanJoin([COLON_CHAR], Write(o, j.members[k], more));
      ScalarOne(COLON_CHAR);
      WriteClean(o, j.members[k], more);
      CleanMembers(o, j, keys[1..], rest);
      assert keys == [k] + keys[1..];
    }
  }

  // ------------------------------------------------- the order of RFC 8785

  lemma {:induction false} SameText(o: KeyOrder, p: KeyOrder, j: Json, rest: Text)
    requires Jcs(j) && SameOrders(o, p, j)
    ensures Write(o, j, rest) == Write(p, j, rest)
    decreases j, 1, 0
  {
    hide SortedKeys, MoreItems, MoreMembers;
    match j
    case Arr(items) =>
      if items != [] {
        SameItems(o, p, j, 1, rest);
        assert SameOrders(o, p, items[0]);
        SameText(o, p, items[0], MoreItems(o, j, 1, rest));
      }
    case Obj(members) =>
      var keys := SortedKeys(o, members.Keys);
      if keys != [] {
        SameMembersText(o, p, j, keys[1..], rest);
        assert keys[0] in members;
        SameText(o, p, members[keys[0]], MoreMembers(o, j, keys[1..], rest));
      }
    case _ =>
  }

  lemma {:induction false} SameItems(o: KeyOrder, p: KeyOrder, j: Json, i: nat, rest: Text)
    requires j.Arr? && Jcs(j) && SameOrders(o, p, j) && i <= |j.items|
    ensures MoreItems(o, j, i, rest) == MoreItems(p, j, i, rest)
    decreases j, 0, |j.items| - i
  {
    hide Write;
    if i < |j.items| {
      SameItems(o, p, j, i + 1, rest);
      SameText(o, p, j.items[i], MoreItems(o, j, i + 1, rest));
    }
  }

  lemma {:induction false} SameMembersText(o: KeyOrder, p: KeyOrder, j: Json, keys: seq<Text>, rest: Text)
    requires j.Obj? && Jcs(j) && SameOrders(o, p, j) && forall k | k in keys :: k in j.members
    ensures MoreMembers(o, j, keys, rest) == MoreMembers(p, j, keys, rest)
    decreases j, 0, |keys| + 1
  {
    hide Write, SortedKeys;
    if keys != [] {
      SameMembersText(o, p, j, keys[1..], rest);
      SameText(o, p, j.members[keys[0]], MoreMembers(o, j, keys[1..], rest));
    }
  }

  /** No object anywhere in the value has two crossed keys. */
  predicate Uncrossed(j: Json) {
    match j
    case Arr(items) => forall i | 0 <= i < |items| :: Uncrossed(items[i])
    case Obj(members) => NoneCrossed(members.Keys) && forall k | k in members :: Uncrossed(members[k])
    case _ => true
  }

  lemma {:induction false} SameOrdersExact(j: Json)
    requires Clean(j)
    ensures SameOrders(ByCodePoint, ByUtf16, j) <==> Uncrossed(j)
  {
    hide SortedKeys, NoneCrossed, NoSurrogates;
    match j
    case Arr(items) =>
      forall i | 0 <= i < |items|
        ensures SameOrders(ByCodePoint, ByUtf16, items[i]) <==> Uncrossed(items[i])
      {
        SameOrdersExact(items[i]);
      }
    case Obj(members) =>
      ObjectOrderExact(members.Keys);
      forall k | k in members
        ensures SameOrders(ByCodePoint, ByUtf16, members[k]) <==> Uncrossed(members[k])
      {
        SameOrdersExact(members[k]);
      }
    case _ =>
  }

  /** What is printed has its keys in the order of RFC 8785 exactly when no object in it has two crossed keys. */
  lemma DumpsUtf16Exact(j: Json)
    requires Jcs(j) && Clean(j)
    ensures Dumps(j) == DumpsUtf16(j) <==> Uncrossed(j)
  {
    hide Write, SameOrders, Uncrossed, Clean, Jcs;
    SameOrdersExact(j);
    if SameOrders(ByCodePoint, ByUtf16, j) {
      SameText(ByCodePoint, ByUtf16, j, []);
    }
    if Dumps(j) == DumpsUtf16(j) {
      Unambiguous(ByCodePoint, j, ByUtf16, j, [], []);
    }
  }
}
