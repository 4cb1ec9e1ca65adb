/**
 Texts as code points, and the two orders in which an object may list its keys: by code point, as Python sorts
 (adapters/cpex/cpex_to_ledger.py), and by UTF-16 code unit, as section 3.2.3 of RFC 8785 asks.
 */
module KeyOrders {

  type CodePoint = c: int | 0 <= c < 0x11_0000

  /** A Python `str`: code points, lone surrogates included. */
  type Text = seq<CodePoint>

  /** Lexicographic order on code points, or on code units. */
  predicate Less(a: seq<int>, b: seq<int>) {
    b != [] && (a == [] || a[0] < b[0] || (a[0] == b[0] && Less(a[1..], b[1..])))
  }

  lemma {:induction false} LessTotal(a: seq<int>, b: seq<int>)
    ensures a == b || Less(a, b) || Less(b, a)
    ensures !(Less(a, b) && Less(b, a)) && !Less(a, a)
  {
    if a != [] {
      LessTotal(a[1..], a[1..]);
    }
    if a != [] && b != [] && a[0] == b[0] {
      LessTotal(a[1..], b[1..]);
      assert a == [a[0]] + a[1..] && b == [b[0]] + b[1..];
    }
  }

  lemma {:induction false} LessTransitive(a: seq<int>, b: seq<int>, c: seq<int>)
    requires Less(a, b) && Less(b, c)
    ensures Less(a, c)
  {
    if a != [] && a[0] == b[0] && b[0] == c[0] {
      LessTransitive(a[1..], b[1..], c[1..]);
    }
  }

  function Units(c: CodePoint): seq<int> {
    if c < 0x1_0000 then [c] else [0xd800 + (c - 0x1_0000) / 1024, 0xdc00 + (c - 0x1_0000) % 1024]
  }

  /** A code point beyond the first plane is two code units, a high and a low surrogate (section 2.1 of RFC 2781). */
  lemma UnitsSpell(c: CodePoint)
    ensures c <= 0xffff ==> Units(c) == [c]
    ensures c > 0xffff ==>
              && |Units(c)| == 2 && 0xd800 <= Units(c)[0] <= 0xdbff && 0xdc00 <= Units(c)[1] <= 0xdfff
              && c == 0x1_0000 + 0x400 * (Units(c)[0] - 0xd800) + (Units(c)[1] - 0xdc00)
  {
  }

  /** The UTF-16 code units of a text. */
  function Utf16(t: Text): seq<int> {
    if t == [] then [] else Units(t[0]) + Utf16(t[1..])
  }

  /** How an object lists its keys: Python compares code points, section 3.2.3 of RFC 8785 compares UTF-16 code units. */
  datatype KeyOrder = ByCodePoint | ByUtf16

  /** Keys with the same code units differ only by lone surrogates; such keys are never printed. */
  predicate Before(o: KeyOrder, a: Text, b: Text) {
    match o
    case ByCodePoint => Less(a, b)
    case ByUtf16 => Less(Utf16(a), Utf16(b)) || (Utf16(a) == Utf16(b) && Less(a, b))
  }

  lemma BeforeTotal(o: KeyOrder, a: Text, b: Text)
    ensures a == b || Before(o, a, b) || Before(o, b, a)
    ensures !(Before(o, a, b) && Before(o, b, a)) && !Before(o, a, a)
  {
    LessTotal(a, b);
    LessTotal(Utf16(a), Utf16(b));
  }

  lemma BeforeTransitive(o: KeyOrder, a: Text, b: Text, c: Text)
    requires Before(o, a, b) && Before(o, b, c)
    ensures Before(o, a, c)
  {
    hide Less, Utf16;
    if Less(a, b) && Less(b, c) {
      LessTransitive(a, b, c);
    }
    if Less(Utf16(a), Utf16(b)) && Less(Utf16(b), Utf16(c)) {
      LessTransitive(Utf16(a), Utf16(b), Utf16(c));
    }
  }

  predicate IsLeast(o: KeyOrder, keys: set<Text>, k: Text) {
    k in keys && forall l | l in keys :: l == k || Before(o, k, l)
  }

  lemma {:induction false} HasLeast(o: KeyOrder, keys: set<Text>)
    requires keys != {}
    ensures exists k :: IsLeast(o, keys, k)
    decreases |keys|
  {
    hide Before;
    var k: Text :| k in keys;
    var rest := keys - {k};
    if rest == {} {
      assert keys == {k};
      assert IsLeast(o, keys, k);
    } else {
      HasLeast(o, rest);
      var r: Text :| IsLeast(o, rest, r);
      BeforeTotal(o, k, r);
      var least: Text := if Before(o, k, r) then k else r;
      forall l | l in keys
        ensures l == least || Before(o, least, l)
      {
        if l != k && least == k && l != r {
          BeforeTransitive(o, k, r, l);
        }
      }
      assert IsLeast(o, keys, least);
    }
  }

  ghost function Least(o: KeyOrder, keys: set<Text>): (k: Text)
    requires keys != {}
    ensures IsLeast(o, keys, k)
  {
    HasLeast(o, keys);
    var k: Text :| IsLeast(o, keys, k);
    k
  }

  /** The keys of an object in printing order. */
  ghost function SortedKeys(o: KeyOrder, keys: set<Text>): (r: seq<Text>)
    ensures forall k :: k in r <==> k in keys
    decreases |keys|
  {
    if keys == {} then [] else [Least(o, keys)] + SortedKeys(o, keys - {Least(o, keys)})
  }

  ghost predicate Ascending(o: KeyOrder, ks: seq<Text>) {
    forall i, j | 0 <= i < j < |ks| :: Before(o, ks[i], ks[j])
  }

  lemma TailMember(o: KeyOrder, ks: seq<Text>, k: Text)
    requires Ascending(o, ks) && ks != []
    ensures k in ks[1..] <==> k in ks && k != ks[0]
  {
    hide Before;
    assert ks == [ks[0]] + ks[1..];
    if k in ks[1..] {
      var i :| 0 <= i < |ks[1..]| && ks[1..][i] == k;
      assert Before(o, ks[0], ks[i + 1]);
      BeforeTotal(o, k, k);
    }
  }

  lemma FirstIsLeast(o: KeyOrder, ks: seq<Text>, k: Text)
    requires Ascending(o, ks) && k in ks
    ensures k == ks[0] || Before(o, ks[0], k)
  {
    hide Before;
    var i :| 0 <= i < |ks| && ks[i] == k;
  }

  lemma {:induction false} OneListing(o: KeyOrder, ks: seq<Text>, ls: seq<Text>)
    requires Ascending(o, ks) && Ascending(o, ls) && forall k :: k in ks <==> k in ls
    ensures ks == ls
  {
    hide Before;
    assert ks != [] ==> ks[0] in ls;
    assert ls != [] ==> ls[0] in ks;
    if ks != [] && ls != [] {
      FirstIsLeast(o, ks, ls[0]);
      FirstIsLeast(o, ls, ks[0]);
      BeforeTotal(o, ks[0], ls[0]);
      forall k
        ensures k in ks[1..] <==> k in ls[1..]
      {
        TailMember(o, ks, k);
        TailMember(o, ls, k);
      }
      assert Ascending(o, ks[1..]) && Ascending(o, ls[1..]);
      OneListing(o, ks[1..], ls[1..]);
      assert ks == [ks[0]] + ks[1..] && ls == [ls[0]] + ls[1..];
    }
  }

  /** Sorting leaves no choice: under either order the keys can be listed ascending in one way only. */
  lemma SortedKeysExact(o: KeyOrder, keys: set<Text>, ks: seq<Text>)
    ensures (Ascending(o, ks) && forall k :: k in ks <==> k in keys) <==> ks == SortedKeys(o, keys)
  {
    hide Ascending;
    SortedKeysAscend(o, keys);
    if Ascending(o, ks) && forall k :: k in ks <==> k in keys {
      OneListing(o, ks, SortedKeys(o, keys));
    }
  }

  lemma {:induction false} SortedKeysAscend(o: KeyOrder, keys: set<Text>)
    ensures Ascending(o, SortedKeys(o, keys))
    decreases |keys|
  {
    hide Before;
    if keys != {} {
      var least := Least(o, keys);
      var rest := SortedKeys(o, keys - {least});
      SortedKeysAscend(o, keys - {least});
      forall j | 0 <= j < |rest|
        ensures Before(o, least, rest[j])
      {
        assert rest[j] in rest;
      }
    }
  }

  // -------------------------------------------------- where the orders agree

  predicate IsSurrogate(c: CodePoint) {
    0xd800 <= c < 0xe000
  }

  predicate NoSurrogates(t: Text) {
    forall i | 0 <= i < |t| :: !IsSurrogate(t[i])
  }

  /** One code point is in a supplementary plane and the other between U+E000 and U+FFFF. */
  predicate CrossedPoints(c: CodePoint, d: CodePoint) {
    (c >= 0x1_0000 && 0xe000 <= d < 0x1_0000) || (d >= 0x1_0000 && 0xe000 <= c < 0x1_0000)
  }

  /** Two keys are crossed when the first code points in which they differ are. */
  predicate Crossed(a: Text, b: Text) {
    a != [] && b != [] && if a[0] == b[0] then Crossed(a[1..], b[1..]) else CrossedPoints(a[0], b[0])
  }

  lemma {:induction false} LessAfter(p: seq<int>, x: seq<int>, y: seq<int>)
    ensures Less(p + x, p + y) == Less(x, y)
  {
    if p == [] {
      assert p + x == x && p + y == y;
    } else {
      assert (p + x)[1..] == p[1..] + x && (p + y)[1..] == p[1..] + y;
      LessAfter(p[1..], x, y);
    }
  }

  lemma UnitsOrder(c: CodePoint, d: CodePoint, x: seq<int>, y: seq<int>)
    requires c != d && !IsSurrogate(c) && !IsSurrogate(d)
    ensures (c < d <==> Less(Units(c) + x, Units(d) + y)) <==> !CrossedPoints(c, d)
    ensures Units(c) + x != Units(d) + y
  {
    var u, v := Units(c) + x, Units(d) + y;
    assert u[0] == Units(c)[0] && v[0] == Units(d)[0];
    if u[0] == v[0] {
      assert u[1..][0] == Units(c)[1] && v[1..][0] == Units(d)[1];
    }
  }

  lemma UnitsPrefix(c: CodePoint, x: seq<int>, y: seq<int>)
    requires Units(c) + x == Units(c) + y
    ensures x == y
  {
    assert (Units(c) + x)[|Units(c)|..] == x && (Units(c) + y)[|Units(c)|..] == y;
  }

  /** The two orders agree on all keys without surrogates but the crossed ones. */
  lemma {:induction false} KeyOrderExact(a: Text, b: Text)
    requires NoSurrogates(a) && NoSurrogates(b)
    ensures (Before(ByCodePoint, a, b) <==> Before(ByUtf16, a, b)) <==> !Crossed(a, b)
    ensures Utf16(a) == Utf16(b) ==> a == b
  {
    hide Units, CrossedPoints;
    if a == [] || b == [] {
      EmptyUtf16(a);
      EmptyUtf16(b);
    } else if a[0] == b[0] {
      assert NoSurrogates(a[1..]) && NoSurrogates(b[1..]);
      KeyOrderExact(a[1..], b[1..]);
      LessAfter(Units(a[0]), Utf16(a[1..]), Utf16(b[1..]));
      if Utf16(a) == Utf16(b) {
        UnitsPrefix(a[0], Utf16(a[1..]), Utf16(b[1..]));
        assert a == [a[0]] + a[1..] && b == [b[0]] + b[1..];
      }
    } else {
      UnitsOrder(a[0], b[0], Utf16(a[1..]), Utf16(b[1..]));
    }
  }

  lemma EmptyUtf16(t: Text)
    ensures Utf16(t) == [] <==> t == []
  {
  }

  predicate NoneCrossed(keys: set<Text>) {
    forall a, b | a in keys && b in keys :: !Crossed(a, b)
  }

  /** Both orders list the keys of an object alike exactly when no two of them are crossed. */
  lemma ObjectOrderExact(keys: set<Text>)
    requires forall k | k in keys :: NoSurrogates(k)
    ensures SortedKeys(ByCodePoint, keys) == SortedKeys(ByUtf16, keys) <==> NoneCrossed(keys)
  {
    hide Before, Utf16, Crossed, NoSurrogates, SortedKeys;
    var ks := SortedKeys(ByCodePoint, keys);
    SortedKeysAscend(ByCodePoint, keys);
    SortedKeysExact(ByUtf16, keys, ks);
    forall i, j | 0 <= i < j < |ks|
      ensures ks[i] in keys && ks[j] in keys
      ensures Before(ByUtf16, ks[i], ks[j]) <==> !Crossed(ks[i], ks[j])
    {
      assert ks[i] in ks && ks[j] in ks;
      KeyOrderExact(ks[i], ks[j]);
    }
    if Ascending(ByUtf16, ks) {
      forall a, b | a in keys && b in keys
        ensures !Crossed(a, b)
      {
        assert a in ks && b in ks;
        var i, j :| 0 <= i < |ks| && 0 <= j < |ks| && ks[i] == a && ks[j] == b;
        NotCrossed(a);
        CrossedSymmetric(a, b);
      }
    }
  }

  lemma {:induction false} NotCrossed(a: Text)
    ensures !Crossed(a, a)
  {
    if a != [] {
      NotCrossed(a[1..]);
    }
  }

  lemma {:induction false} CrossedSymmetric(a: Text, b: Text)
    ensures Crossed(a, b) == Crossed(b, a)
  {
    if a != [] && b != [] && a[0] == b[0] {
      CrossedSymmetric(a[1..], b[1..]);
    }
  }
}
