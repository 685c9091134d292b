/** The URN codec used by the relationship core: a URN is `urn:<kind>:uuid:<uuid>`, where the
    UUID is written in its canonical lower-case 8-4-4-4-12 hexadecimal form. */
module UuidCodec {
  import opened Wrappers

  predicate IsHexDigit(c: char) {
    ('0' <= c <= '9') || ('a' <= c <= 'f')
  }

  predicate IsHyphenPosition(i: int) {
    i == 8 || i == 13 || i == 18 || i == 23
  }

  /** The canonical text of a UUID. */
  predicate IsUuidText(s: string) {
    && |s| == 36
    && forall i :: 0 <= i < 36 ==> if IsHyphenPosition(i) then s[i] == '-' else IsHexDigit(s[i])
  }

  const NilUuidText: string := "00000000-0000-0000-0000-000000000000"

  type Uuid = s: string | IsUuidText(s) witness NilUuidText

  /** A URN kind: the part between `urn:` and `:uuid:`. */
  predicate IsKind(k: string) {
    |k| > 0 && ':' !in k
  }

  const ThingKind: string := "thing"
  const RelationshipKind: string := "relationship"
  const TenantKind: string := "tenant"

  function Encode(kind: string, u: Uuid): (urn: string)
    requires IsKind(kind)
    ensures |urn| == |kind| + 46
  {
    "urn:" + kind + ":uuid:" + u
  }

  function ThingUrn(u: Uuid): string { Encode(ThingKind, u) }
  function RelationshipUrn(u: Uuid): string { Encode(RelationshipKind, u) }
  function TenantUrn(u: Uuid): string { Encode(TenantKind, u) }

  /** Index of the first ':' in `s`, or |s| when there is none. */
  function FirstColon(s: string): (i: nat)
    ensures i <= |s|
    ensures ':' !in s[..i]
    ensures i < |s| ==> s[i] == ':'
  {
    if s == [] then 0
    else if s[0] == ':' then 0
    else
      var j := FirstColon(s[1..]);
      assert s[..j + 1] == [s[0]] + s[1..][..j];
      1 + j
  }

  /** Decodes a URN back into its UUID; `None` is the codec's IllegalArgumentException. */
  function Decode(urn: string): (r: Option<Uuid>)
    ensures r.Some? ==> exists k :: IsKind(k) && urn == Encode(k, r.value)
    ensures |urn| < 4 || urn[..4] != "urn:" ==> r.None?
  {
    if |urn| < 4 || urn[..4] != "urn:" then None
    else
      var rest := urn[4..];
      var k := FirstColon(rest);
      var tail := rest[k..];
      if k == 0 || |tail| < 6 || tail[..6] != ":uuid:" || !IsUuidText(tail[6..]) then None
      else
        var u: Uuid := tail[6..];
        assert urn == Encode(rest[..k], u) by {
          assert rest == rest[..k] + tail[..6] + tail[6..];
          assert urn == urn[..4] + rest;
        }
        Some(u)
  }

  lemma {:induction false} FirstColonOfKind(k: string, tail: string)
    requires ':' !in k
    ensures FirstColon(k + ":" + tail) == |k|
  {
    if k != [] {
      assert (k + ":" + tail)[1..] == k[1..] + ":" + tail;
      FirstColonOfKind(k[1..], tail);
    }
  }

  /** Decoding an encoded URN gives back the UUID, whatever the kind. */
  lemma DecodeEncode(kind: string, u: Uuid)
    requires IsKind(kind)
    ensures Decode(Encode(kind, u)) == Some(u)
  {
    var urn := Encode(kind, u);
    assert urn[..4] == "urn:";
    var rest := urn[4..];
    assert rest == kind + ":" + ("uuid:" + u);
    FirstColonOfKind(kind, "uuid:" + u);
    var tail := rest[|kind|..];
    assert tail == ":uuid:" + u;
    assert tail[6..] == u;
  }

  /** Two URNs that decode to different UUIDs differ; Encode is injective in the UUID. */
  lemma EncodeInjective(kind: string, u: Uuid, v: Uuid)
    requires IsKind(kind)
    requires Encode(kind, u) == Encode(kind, v)
    ensures u == v
  {
    DecodeEncode(kind, u);
    DecodeEncode(kind, v);
  }
}
