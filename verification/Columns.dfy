/**
 What the bounded text columns of the entries table (migrations 001 to 008) make of a text. PostgreSQL refuses a text
 with a NUL, and one that is too long, unless everything past the width of the column is spaces; those it cuts off
 without a word. So a stored text may differ from the text that was hashed.
 */
module Columns {
  import opened Options
  import opened ByteText
  import opened Envelope
  import opened Utf8Reader

  const SPACE: byte := 32

  /** `VARCHAR` widths, in characters. */
  const NAME_WIDTH: nat := 255
  const CONTENT_TYPE_WIDTH: nat := 100
  const INPUT_HASH_WIDTH: nat := 128
  const DIGEST_WIDTH: nat := 64

  // ------------------------------------------------------------------ one text

  /** The first byte of a character in UTF-8: all but the continuation bytes. */
  predicate StartsCharacter(b: byte) {
    !(0x80 <= b < 0xc0)
  }

  function Characters(text: Bytes): nat {
    if text == [] then 0 else (if StartsCharacter(text[0]) then 1 else 0) + Characters(text[1..])
  }

  /** The characters of a well-formed text are its code points. */
  lemma {:induction false} CharactersAreCodePoints(text: Bytes)
    requires Decode(text).Some?
    ensures Characters(text) == |Decode(text).value|
    decreases |text|
  {
    hide DecodePoint, StartsCharacter;
    if text != [] {
      var k := |text| - |DecodePoint(text).value.1|;
      OneCharacter(text);
      CharactersAreCodePoints(text[k..]);
      CharactersJoin(text[..k], text[k..]);
      assert text == text[..k] + text[k..];
    }
  }

  lemma OneCharacter(text: Bytes)
    requires text != [] && DecodePoint(text).Some?
    ensures var k := |text| - |DecodePoint(text).value.1|;
            0 < k <= |text| && DecodePoint(text).value.1 == text[k..] && Characters(text[..k]) == 1
  {
    var k := |text| - |DecodePoint(text).value.1|;
    assert StartsCharacter(text[0]);
    assert Characters(text[..k]) == 1 + Characters(text[..k][1..]);
    NoCharacter(text[..k][1..]);
  }

  lemma {:induction false} NoCharacter(text: Bytes)
    requires forall i | 0 <= i < |text| :: !StartsCharacter(text[i])
    ensures Characters(text) == 0
  {
    if text != [] {
      NoCharacter(text[1..]);
    }
  }

  /** How many bytes the first `width` characters take. */
  function Clip(text: Bytes, width: nat): (k: nat)
    ensures k <= |text|
  {
    if text == [] then 0
    else if !StartsCharacter(text[0]) then 1 + Clip(text[1..], width)
    else if width == 0 then 0
    else 1 + Clip(text[1..], width - 1)
  }

  predicate NoNul(text: Bytes) {
    forall i | 0 <= i < |text| :: text[i] != 0
  }

  predicate AllSpaces(text: Bytes) {
    forall i | 0 <= i < |text| :: text[i] == SPACE
  }

  /** The text fits the column as it is. */
  predicate FitsColumn(width: nat, text: Bytes) {
    NoNul(text) && Characters(text) <= width
  }

  /** What the column holds for a text, or none when the statement fails. */
  function Stored(width: nat, text: Bytes): Option<Bytes> {
    if !NoNul(text) then None
    else if Characters(text) <= width then Some(text)
    else if AllSpaces(text[Clip(text, width)..]) then Some(text[..Clip(text, width)])
    else None
  }

  lemma {:induction false} ClipCounts(text: Bytes, width: nat)
    ensures Characters(text[..Clip(text, width)]) == if Characters(text) <= width then Characters(text) else width
    ensures Characters(text) <= width ==> Clip(text, width) == |text|
    ensures Characters(text) > width ==> Clip(text, width) < |text| && StartsCharacter(text[Clip(text, width)])
  {
    if text != [] {
      var k := Clip(text, width);
      if !StartsCharacter(text[0]) {
        ClipCounts(text[1..], width);
        assert text[..k][1..] == text[1..][..k - 1];
      } else if width > 0 {
        ClipCounts(text[1..], width - 1);
        assert text[..k][1..] == text[1..][..k - 1];
      }
    }
  }

  lemma {:induction false} CharactersJoin(a: Bytes, b: Bytes)
    ensures Characters(a + b) == Characters(a) + Characters(b)
  {
    if a == [] {
      assert a + b == b;
    } else {
      assert (a + b)[1..] == a[1..] + b;
      CharactersJoin(a[1..], b);
    }
  }

  /** A text can be stored exactly when it has no NUL and fits once spaces are taken off its end; it is stored as given
      exactly when it fits; and what is stored fits, is the text or all of it but spaces at its end, and is stored as
      given itself. */
  lemma StoredExact(width: nat, text: Bytes)
    ensures var s := Stored(width, text);
            && (s.Some? <==> NoNul(text) && exists k :: 0 <= k <= |text| && Characters(text[..k]) <= width && AllSpaces(text[k..]))
            && (s == Some(text) <==> FitsColumn(width, text))
            && (s.Some? ==> FitsColumn(width, s.value) && s.value <= text && AllSpaces(text[|s.value|..]))
            && (s.Some? && s.value != text ==> Characters(s.value) == width)
            && (s.Some? ==> Stored(width, s.value) == s)
  {
    ClipCounts(text, width);
    var k := Clip(text, width);
    assert text[..|text|] == text && AllSpaces(text[|text|..]);
    if NoNul(text) && Characters(text) > width {
      forall m | 0 <= m <= |text| && Characters(text[..m]) <= width && AllSpaces(text[m..])
        ensures AllSpaces(text[k..])
      {
        SpacesFromHere(text, width, m);
      }
      assert Characters(text[..k]) == width;
    }
  }

  lemma BeyondClip(text: Bytes, width: nat, m: nat)
    requires Characters(text) > width && Clip(text, width) < m <= |text|
    ensures Characters(text[..m]) > width
  {
    ClipCounts(text, width);
    var k := Clip(text, width);
    assert text[..m] == text[..k] + text[k..m];
    CharactersJoin(text[..k], text[k..m]);
    assert text[k..m][0] == text[k];
  }

  /** Spaces that make a text fit reach back at least to the cut. */
  lemma SpacesFromHere(text: Bytes, width: nat, m: nat)
    requires m <= |text| && Characters(text[..m]) <= width < Characters(text) && AllSpaces(text[m..])
    ensures m <= Clip(text, width) && AllSpaces(text[Clip(text, width)..])
  {
    var k := Clip(text, width);
    if k < m {
      BeyondClip(text, width, m);
    } else {
      assert text[k..] == text[m..][k - m..];
    }
  }

  // ---------------------------------------------------------------- a request

  function StoredOption(width: nat, text: Option<Bytes>): Option<Option<Bytes>> {
    match text
    case None => Some(None)
    case Some(t) => if Stored(width, t).Some? then Some(Stored(width, t)) else None
  }

  predicate FitsOption(width: nat, text: Option<Bytes>) {
    text.Some? ==> FitsColumn(width, text.value)
  }

  /** The request as the bounded columns hold it, or none when one of them refuses its text. */
  function StoredRequest(r: Request): Option<Request> {
    var t, a, c, s := Stored(NAME_WIDTH, r.entryType), Stored(NAME_WIDTH, r.agentId),
                      Stored(CONTENT_TYPE_WIDTH, r.contentType), Stored(NAME_WIDTH, r.sourceId);
    var o, k, i, g := StoredOption(NAME_WIDTH, r.correlationId), StoredOption(NAME_WIDTH, r.idempotencyKey),
                      StoredOption(INPUT_HASH_WIDTH, r.inputHash), StoredOption(NAME_WIDTH, r.signerKeyReference);
    if t.None? || a.None? || c.None? || s.None? || o.None? || k.None? || i.None? || g.None? then None
    else Some(r.(entryType := t.value, agentId := a.value, contentType := c.value, sourceId := s.value,
                 correlationId := o.value, idempotencyKey := k.value, inputHash := i.value, signerKeyReference := g.value))
  }

  /** Every bounded text of the request fits its column, by the widths the migrations give. */
  predicate Storable(r: Request) {
    && FitsColumn(255, r.entryType) && FitsColumn(255, r.agentId)
    && FitsColumn(100, r.contentType) && FitsColumn(255, r.sourceId)
    && FitsOption(255, r.correlationId) && FitsOption(255, r.idempotencyKey)
    && FitsOption(128, r.inputHash) && FitsOption(255, r.signerKeyReference)
  }

  /** The columns take the request, but cut spaces off one of its texts. */
  predicate Cut(r: Request) {
    StoredRequest(r).Some? && !Storable(r)
  }

  lemma StoredOptionExact(width: nat, text: Option<Bytes>)
    ensures StoredOption(width, text) == Some(text) <==> FitsOption(width, text)
    ensures StoredOption(width, text).Some? ==> FitsOption(width, StoredOption(width, text).value)
    ensures StoredOption(width, text).Some? ==> (StoredOption(width, text).value.Some? <==> text.Some?)
  {
    hide Stored, FitsColumn;
    if text.Some? {
      StoredExact(width, text.value);
    }
  }

  /** A request is stored as given exactly when each of its texts fits, and what is stored always fits. */
  lemma StoredRequestExact(r: Request)
    ensures StoredRequest(r) == Some(r) <==> Storable(r)
    ensures StoredRequest(r).Some? ==> Storable(StoredRequest(r).value)
  {
    hide Stored, FitsColumn, StoredOption, FitsOption;
    StoredExact(NAME_WIDTH, r.entryType);
    StoredExact(NAME_WIDTH, r.agentId);
    StoredExact(CONTENT_TYPE_WIDTH, r.contentType);
    StoredExact(NAME_WIDTH, r.sourceId);
    StoredOptionExact(NAME_WIDTH, r.correlationId);
    StoredOptionExact(NAME_WIDTH, r.idempotencyKey);
    StoredOptionExact(INPUT_HASH_WIDTH, r.inputHash);
    StoredOptionExact(NAME_WIDTH, r.signerKeyReference);
  }

  // ------------------------------------------------------------------ digests

  /** `sha256_hex`: 64 lower-case hexadecimal digits, which always fit their columns. */
  ghost predicate HexDigest(h: Hasher) {
    forall b :: |h(b)| == DIGEST_WIDTH && forall i | 0 <= i < |h(b)| :: 48 <= h(b)[i] <= 102
  }

  lemma {:induction false} AsciiCount(text: Bytes)
    requires forall i | 0 <= i < |text| :: 0 < text[i] < 0x80
    ensures Characters(text) == |text| && NoNul(text)
  {
    if text != [] {
      AsciiCount(text[1..]);
    }
  }

  lemma DigestFits(h: Hasher, b: Bytes)
    requires HexDigest(h)
    ensures FitsColumn(DIGEST_WIDTH, h(b)) && h(b) != []
  {
    AsciiCount(h(b));
  }
}
