/**
 The bytes an audit event is hashed over (adapters/cpex/cpex_to_ledger.py, `canonicalize_content`): which events are
 refused, and exactly which parts of an event the bytes cover.
 */
module CanonicalContent {
  import opened Options
  import opened ByteText
  import opened JsonText
  import opened KeyOrders
  import opened JsonReader
  import opened Utf8Reader

  type Event = map<Text, Json>

  const ATTESTATION_LIST: Text := Word("attestation_list")
  const FINGERPRINT: Text := Word("fingerprint")
  const SIGNATURES: Text := Word("signatures")
  const UNMAPPED: Text := Word("unmapped")
  const SIGNATURE_B64: Text := Word("signature_b64")
  const SIGNATURE_KEY_ID: Text := Word("signature_key_id")

  // -------------------------------------------------------------------- UTF-8

  function Continuation(n: int): byte {
    (0x80 + n % 64) as byte
  }

  /** The UTF-8 octets of a code point (section 3 of RFC 3629). */
  function Octet(c: CodePoint): Bytes {
    if c < 0x80 then [c as byte]
    else if c < 0x800 then [(0xc0 + c / 64) as byte, Continuation(c)]
    else if c < 0x1_0000 then [(0xe0 + c / 64 / 64) as byte, Continuation(c / 64), Continuation(c)]
    else [(0xf0 + c / 64 / 64 / 64) as byte, Continuation(c / 64 / 64), Continuation(c / 64), Continuation(c)]
  }

  function Utf8(t: Text): Bytes {
    if t == [] then [] else Octet(t[0]) + Utf8(t[1..])
  }

  lemma OctetDecodes(c: CodePoint, x: Bytes)
    requires !IsSurrogate(c)
    ensures DecodePoint(Octet(c) + x) == Some((c, x))
  {
    var b := Octet(c) + x;
    assert forall i | 0 <= i < |Octet(c)| :: b[i] == Octet(c)[i];
    assert b[|Octet(c)|..] == x;
    if c >= 0x800 {
      assert c == 0x40 * (c / 64) + c % 64 && c / 64 == 0x40 * (c / 64 / 64) + c / 64 % 64;
    }
    if c >= 0x1_0000 {
      assert c / 64 / 64 == 0x40 * (c / 64 / 64 / 64) + c / 64 / 64 % 64;
    }
  }

  /** The octets of a text without surrogates decode to that text. */
  lemma {:induction false} Utf8Decodes(t: Text)
    requires NoSurrogates(t)
    ensures Decode(Utf8(t)) == Some(t)
  {
    hide Octet, DecodePoint;
    if t != [] {
      assert !IsSurrogate(t[0]);
      assert NoSurrogates(t[1..]);
      OctetDecodes(t[0], Utf8(t[1..]));
      Utf8Decodes(t[1..]);
      assert t == [t[0]] + t[1..];
    }
  }

  lemma OctetUnambiguous(c: CodePoint, d: CodePoint, x: Bytes, y: Bytes)
    requires Octet(c) + x == Octet(d) + y
    ensures c == d && x == y
  {
    var l, r := Octet(c) + x, Octet(d) + y;
    assert l[0] == Octet(c)[0] && r[0] == Octet(d)[0];
    assert |Octet(c)| == |Octet(d)|;
    assert forall i | 0 <= i < |Octet(c)| :: l[i] == Octet(c)[i] && r[i] == Octet(d)[i];
    assert l[|Octet(c)|..] == x && r[|Octet(d)|..] == y;
  }

  lemma {:induction false} Utf8Injective(a: Text, b: Text)
    requires Utf8(a) == Utf8(b)
    ensures a == b
  {
    if a != [] && b != [] {
      OctetUnambiguous(a[0], b[0], Utf8(a[1..]), Utf8(b[1..]));
      Utf8Injective(a[1..], b[1..]);
      assert a == [a[0]] + a[1..] && b == [b[0]] + b[1..];
    }
  }

  // ---------------------------------------------------------------- the covered content

  /** The first attestation without its fingerprint and signatures. */
  function StripAttestation(event: Event): Event {
    if ATTESTATION_LIST !in event then event
    else match event[ATTESTATION_LIST]
      case Arr(items) =>
        if items != [] && items[0].Obj?
        then event[ATTESTATION_LIST := Arr([Obj(items[0].members - {FINGERPRINT, SIGNATURES})] + items[1..])]
        else event
      case _ => event
  }

  predicate UnmappedIsObject(event: Event) {
    UNMAPPED in event ==> event[UNMAPPED].Obj?
  }

  function Unmapped(event: Event): map<Text, Json>
    requires UnmappedIsObject(event)
  {
    if UNMAPPED in event then event[UNMAPPED].members else map[]
  }

  /** `unmapped` without the raw signature fields, and not at all when nothing else is in it. */
  function StripUnmapped(event: Event): Event
    requires UnmappedIsObject(event)
  {
    var rest := Unmapped(event) - {SIGNATURE_B64, SIGNATURE_KEY_ID};
    if rest == map[] then event - {UNMAPPED} else event[UNMAPPED := Obj(rest)]
  }

  datatype ContentError = NotJcs | UnmappedNotAnObject | LoneSurrogate

  /** `canonicalize_content`: the bytes whose SHA-256 becomes the input hash, or the exception. */
  ghost function Canonical(event: Event): Result<Bytes, ContentError> {
    if !Jcs(Obj(event)) then Err(NotJcs)
    else
      var content := StripAttestation(event);
      if !UnmappedIsObject(content) then Err(UnmappedNotAnObject)
      else
        StrippedIsJcs(event);
        var text := Dumps(Obj(StripUnmapped(content)));
        if NoSurrogates(text) then Ok(Utf8(text)) else Err(LoneSurrogate)
  }

  lemma StrippedIsJcs(event: Event)
    requires Jcs(Obj(event)) && UnmappedIsObject(StripAttestation(event))
    ensures Jcs(Obj(StripUnmapped(StripAttestation(event))))
  {
    var content := StripAttestation(event);
    assert Jcs(Obj(content)) by {
      forall k | k in content
        ensures Jcs(content[k])
      {
        assert k in event && Jcs(event[k]);
      }
    }
    if UNMAPPED in content {
      assert Jcs(content[UNMAPPED]);
      assert Jcs(Obj(Unmapped(content)));
    }
  }

  // --------------------------------------------------------- what the bytes cover

  predicate AgreeAt(m: map<Text, Json>, n: map<Text, Json>, k: Text) {
    (k in m <==> k in n) && (k in m && k in n ==> m[k] == n[k])
  }

  predicate AgreeExcept(m: map<Text, Json>, n: map<Text, Json>, except: set<Text>) {
    forall k | k in m.Keys + n.Keys && k !in except :: AgreeAt(m, n, k)
  }

  /** There is a first attestation, and it is an object. */
  predicate HasAttestation(event: Event) {
    && Word("attestation_list") in event && event[Word("attestation_list")].Arr?
    && event[Word("attestation_list")].items != [] && event[Word("attestation_list")].items[0].Obj?
  }

  /** The attestation lists are the same, but for the fingerprint and signatures of the first attestation. */
  predicate SameAttestations(e: Event, f: Event) {
    || AgreeAt(e, f, Word("attestation_list"))
    || (&& HasAttestation(e) && HasAttestation(f)
        && var a, b := e[Word("attestation_list")].items, f[Word("attestation_list")].items;
        && AgreeExcept(a[0].members, b[0].members, {Word("fingerprint"), Word("signatures")}) && a[1..] == b[1..])
  }

  /** The two events say the same, but for the derived parts that AID-EMIT-1 section 4 leaves out. */
  predicate SameCovered(e: Event, f: Event)
    requires UnmappedIsObject(e) && UnmappedIsObject(f)
  {
    && AgreeExcept(e, f, {Word("attestation_list"), Word("unmapped")})
    && SameAttestations(e, f)
    && AgreeExcept(Unmapped(e), Unmapped(f), {Word("signature_b64"), Word("signature_key_id")})
  }

  lemma MinusExact(m: map<Text, Json>, n: map<Text, Json>, except: set<Text>)
    ensures m - except == n - except <==> AgreeExcept(m, n, except)
  {
    var x, y := m - except, n - except;
    assert forall k :: k in x <==> k in m && k !in except;
    assert forall k :: k in y <==> k in n && k !in except;
    if x == y {
      forall k | k in m.Keys + n.Keys && k !in except
        ensures AgreeAt(m, n, k)
      {
        assert k in x <==> k in y;
      }
    }
    if AgreeExcept(m, n, except) {
      forall k
        ensures k in x <==> k in y
        ensures k in x && k in y ==> x[k] == y[k]
      {
        assert k in m.Keys + n.Keys && k !in except ==> AgreeAt(m, n, k);
      }
      assert x.Keys == y.Keys;
    }
  }

  lemma StripAttestationExact(e: Event, f: Event)
    ensures AgreeAt(StripAttestation(e), StripAttestation(f), ATTESTATION_LIST) <==> SameAttestations(e, f)
    ensures forall k | k != ATTESTATION_LIST :: AgreeAt(StripAttestation(e), e, k)
  {
    if HasAttestation(e) && HasAttestation(f) {
      var a, b := e[ATTESTATION_LIST].items, f[ATTESTATION_LIST].items;
      var v, w := [Obj(a[0].members - {FINGERPRINT, SIGNATURES})] + a[1..], [Obj(b[0].members - {FINGERPRINT, SIGNATURES})] + b[1..];
      MinusExact(a[0].members, b[0].members, {FINGERPRINT, SIGNATURES});
      assert v[1..] == a[1..] && w[1..] == b[1..];
      assert v == w <==> v[0] == w[0] && v[1..] == w[1..];
    }
  }

  lemma StripUnmappedExact(e: Event, f: Event)
    requires UnmappedIsObject(e) && UnmappedIsObject(f)
    ensures AgreeAt(StripUnmapped(e), StripUnmapped(f), UNMAPPED) <==>
            AgreeExcept(Unmapped(e), Unmapped(f), {SIGNATURE_B64, SIGNATURE_KEY_ID})
    ensures forall k | k != UNMAPPED :: AgreeAt(StripUnmapped(e), e, k)
  {
    MinusExact(Unmapped(e), Unmapped(f), {SIGNATURE_B64, SIGNATURE_KEY_ID});
  }

  /** What is printed: the event without the parts that are not covered. */
  function Stripped(event: Event): Event
    requires UnmappedIsObject(event)
  {
    StrippingKeepsUnmapped(event);
    StripUnmapped(StripAttestation(event))
  }

  lemma StrippingKeepsUnmapped(event: Event)
    ensures AgreeAt(StripAttestation(event), event, UNMAPPED)
    ensures UnmappedIsObject(StripAttestation(event)) <==> UnmappedIsObject(event)
    ensures UnmappedIsObject(event) ==> Unmapped(StripAttestation(event)) == Unmapped(event)
  {
    StripAttestationExact(event, event);
    assert UNMAPPED != ATTESTATION_LIST;
  }

  lemma StrippedExact(e: Event, f: Event)
    requires UnmappedIsObject(e) && UnmappedIsObject(f)
    ensures Stripped(e) == Stripped(f) <==> SameCovered(e, f)
  {
    hide StripAttestation, StripUnmapped, AgreeExcept, SameAttestations, Unmapped;
    StrippingKeepsUnmapped(e);
    StrippingKeepsUnmapped(f);
    StripAttestationExact(e, f);
    StripAttestationExact(f, e);
    StripUnmappedExact(StripAttestation(e), StripAttestation(f));
    StripUnmappedExact(StripAttestation(f), StripAttestation(e));
    var x, y := Stripped(e), Stripped(f);
    assert AgreeAt(x, y, UNMAPPED) <==> AgreeExcept(Unmapped(e), Unmapped(f), {SIGNATURE_B64, SIGNATURE_KEY_ID});
    assert UNMAPPED != ATTESTATION_LIST;
    assert AgreeAt(x, y, ATTESTATION_LIST) <==> SameAttestations(e, f) by {
      assert AgreeAt(x, StripAttestation(e), ATTESTATION_LIST) && AgreeAt(y, StripAttestation(f), ATTESTATION_LIST);
    }
    forall k | k != UNMAPPED && k != ATTESTATION_LIST
      ensures AgreeAt(x, y, k) <==> AgreeAt(e, f, k)
    {
      assert AgreeAt(x, StripAttestation(e), k) && AgreeAt(y, StripAttestation(f), k);
      assert AgreeAt(StripAttestation(e), e, k) && AgreeAt(StripAttestation(f), f, k);
    }
    SamePointwise(x, y);
    AgreeExceptTwo(x, y, e, f);
  }

  lemma SamePointwise(x: Event, y: Event)
    ensures x == y <==> forall k :: AgreeAt(x, y, k)
  {
    if forall k :: AgreeAt(x, y, k) {
      forall k: Text
        ensures (k in x <==> k in y) && (k in x && k in y ==> x[k] == y[k])
      {
        assert AgreeAt(x, y, k);
      }
    }
  }

  lemma AgreeExceptTwo(x: Event, y: Event, e: Event, f: Event)
    requires forall k | k != UNMAPPED && k != ATTESTATION_LIST :: AgreeAt(x, y, k) <==> AgreeAt(e, f, k)
    ensures (forall k :: AgreeAt(x, y, k)) <==>
            (AgreeExcept(e, f, {ATTESTATION_LIST, UNMAPPED}) && AgreeAt(x, y, UNMAPPED) && AgreeAt(x, y, ATTESTATION_LIST))
  {
    if AgreeExcept(e, f, {ATTESTATION_LIST, UNMAPPED}) && AgreeAt(x, y, UNMAPPED) && AgreeAt(x, y, ATTESTATION_LIST) {
      forall k
        ensures AgreeAt(x, y, k)
      {
        if k != UNMAPPED && k != ATTESTATION_LIST && k in e.Keys + f.Keys {
          assert AgreeAt(e, f, k);
        }
      }
    }
  }

  /** Two accepted events have the same bytes exactly when they agree on everything that is covered. */
  lemma CanonicalExact(e: Event, f: Event)
    requires Canonical(e).Ok? && Canonical(f).Ok?
    ensures Canonical(e) == Canonical(f) <==> SameCovered(e, f)
  {
    hide Jcs, StripAttestation, StripUnmapped, SameCovered, Utf8, NoSurrogates, Write;
    StrippingKeepsUnmapped(e);
    StrippingKeepsUnmapped(f);
    StrippedExact(e, f);
    if Canonical(e) == Canonical(f) {
      StrippedIsJcs(e);
      StrippedIsJcs(f);
      Utf8Injective(Dumps(Obj(Stripped(e))), Dumps(Obj(Stripped(f))));
      Unambiguous(ByCodePoint, Obj(Stripped(e)), ByCodePoint, Obj(Stripped(f)), [], []);
    }
  }

  /** An event is refused for a float anywhere, even in a part that is not covered, for an `unmapped` that is not an
      object, and for a lone surrogate in a covered part; for nothing else. */
  lemma AcceptedExact(event: Event)
    ensures Canonical(event).Ok? <==>
            Jcs(Obj(event)) && UnmappedIsObject(event) && Clean(Obj(Stripped(event)))
  {
    hide Jcs, StripAttestation, StripUnmapped, NoSurrogates, Write, Clean, Utf8;
    StrippingKeepsUnmapped(event);
    if Jcs(Obj(event)) && UnmappedIsObject(event) {
      StrippedIsJcs(event);
      WriteClean(ByCodePoint, Obj(Stripped(event)), []);
      assert NoSurrogates([]) by {
        CleanJoin([], []);
        ScalarText([]);
        assert AsText([]) == [];
      }
    }
  }

  /** The bytes of an accepted event are those of the printer with the key order of RFC 8785 exactly when no object in
      the covered content has two crossed keys. */
  lemma KeyOrderOfBytes(event: Event)
    requires Canonical(event).Ok?
    ensures var content := Obj(Stripped(event));
            && UnmappedIsObject(event) && Jcs(content)
            && (Canonical(event).value == Utf8(DumpsUtf16(content)) <==> Uncrossed(content))
  {
    hide Jcs, StripAttestation, StripUnmapped, NoSurrogates, Write, Clean, Uncrossed, Utf8;
    StrippingKeepsUnmapped(event);
    AcceptedExact(event);
    StrippedIsJcs(event);
    var content := Obj(Stripped(event));
    DumpsUtf16Exact(content);
    if Utf8(Dumps(content)) == Utf8(DumpsUtf16(content)) {
      Utf8Injective(Dumps(content), DumpsUtf16(content));
    }
  }

  const CROSSED_EVENT: Event := map[[0x1_0000] := Null, [0xe000] := Null]

  /** Some accepted event is printed in the other order. */
  lemma KeyOrderDeparts()
    ensures Canonical(CROSSED_EVENT).Ok? && Canonical(CROSSED_EVENT).value != Utf8(DumpsUtf16(Obj(CROSSED_EVENT)))
  {
    var e := CROSSED_EVENT;
    hide Write, Utf8;
    assert StripAttestation(e) == e && StripUnmapped(e) == e && Clean(Obj(e)) && Jcs(Obj(e)) by {
      assert |UNMAPPED| == 8 && |ATTESTATION_LIST| == 16;
      assert e - {UNMAPPED} == e;
    }
    AcceptedExact(e);
    KeyOrderOfBytes(e);
    assert !Uncrossed(Obj(e)) by {
      assert Crossed([0x1_0000], [0xe000]);
      assert [0x1_0000] in e.Keys && [0xe000] in e.Keys;
    }
  }

  /** What is printed of an event, part by part: every other key as it is; the attestation list as it is but for the
      fingerprint and signatures of a first attestation; `unmapped` without the signature fields, and only if anything
      else is in it. */
  lemma StrippedMeans(event: Event)
    requires UnmappedIsObject(event)
    ensures var s := Stripped(event);
            && (forall k | k != Word("attestation_list") && k != Word("unmapped") :: AgreeAt(s, event, k))
            && (!HasAttestation(event) ==> AgreeAt(s, event, Word("attestation_list")))
            && (HasAttestation(event) ==>
                  && HasAttestation(s)
                  && var a, b := s[Word("attestation_list")].items, event[Word("attestation_list")].items;
                  && a[1..] == b[1..]
                  && Word("fingerprint") !in a[0].members && Word("signatures") !in a[0].members
                  && AgreeExcept(a[0].members, b[0].members, {Word("fingerprint"), Word("signatures")}))
            && var rest := Unmapped(event) - {Word("signature_b64"), Word("signature_key_id")};
            && (Word("unmapped") in s <==> rest != map[])
            && (rest != map[] ==> s[Word("unmapped")] == Obj(rest))
  {
    StrippingKeepsUnmapped(event);
    StripAttestationExact(event, event);
    assert UNMAPPED != ATTESTATION_LIST;
    var x := StripAttestation(event);
    StripUnmappedExact(x, x);
    assert forall k | k != UNMAPPED :: AgreeAt(StripUnmapped(x), x, k);
    if HasAttestation(event) {
      var v, w := x[ATTESTATION_LIST].items, event[ATTESTATION_LIST].items;
      assert v[1..] == w[1..];
    }
  }

  /** The bytes of an accepted event are the UTF-8 of the JSON text of what it covers. */
  lemma CanonicalReads(event: Event)
    requires Canonical(event).Ok?
    ensures UnmappedIsObject(event)
    ensures var text := Decode(Canonical(event).value);
            && text.Some? && Read(text.value).Some?
            && Says(Read(text.value).value, Obj(Stripped(event)))
  {
    hide Jcs, StripAttestation, StripUnmapped, NoSurrogates, Write, Utf8, Says, Read, Decode;
    StrippingKeepsUnmapped(event);
    StrippedIsJcs(event);
    var content := Obj(Stripped(event));
    Utf8Decodes(Dumps(content));
    DumpsReads(content);
  }

  /** Why an event is refused: a float comes first, then an `unmapped` that is no object, then a lone surrogate. */
  lemma RefusedExact(event: Event)
    ensures Canonical(event) == Err(NotJcs) <==> !Jcs(Obj(event))
    ensures Canonical(event) == Err(UnmappedNotAnObject) <==> Jcs(Obj(event)) && !UnmappedIsObject(event)
    ensures Canonical(event) == Err(LoneSurrogate) <==>
            Jcs(Obj(event)) && UnmappedIsObject(event) && !Clean(Obj(Stripped(event)))
  {
    hide Jcs, StripAttestation, StripUnmapped, NoSurrogates, Write, Clean, Utf8;
    StrippingKeepsUnmapped(event);
    AcceptedExact(event);
  }
}
