/** Properties that relate the builder and the two conversions to one another. */
module OfferRoundTrips {
  import opened Wrappers
  import Json
  import Preview
  import Attachments
  import opened Externals
  import opened LegacyOffer
  import opened CredentialOfferMessage
  import opened OfferConversions

  /** The legacy attributes after they pass through a preview: every value becomes a JSON string. */
  function Stringified(attrs: map<string, Json.Value>): map<string, Json.Value>
  {
    map k | k in attrs :: Json.String(Json.AsStrOrEmpty(attrs[k]))
  }

  /** Every legacy attribute value is a JSON string. */
  ghost predicate StringValued(attrs: map<string, Json.Value>)
  {
    forall k :: k in attrs ==> attrs[k].String?
  }

  /** The legacy-only fields hold the values the current-to-legacy conversion writes. */
  ghost predicate HasLegacyDefaults(l: CredentialOfferV1)
  {
    && l.msgType == CredOfferKindName && l.version == LegacyVersion
    && l.toDid == "" && l.fromDid == "" && l.schemaSeqNo == 0
    && l.claimName == "" && l.claimId == "" && l.msgRefId == None
  }

  /** The entries of a preview, as a set. */
  function Entries(p: seq<Preview.Attribute>): set<Preview.Attribute>
  {
    set i | 0 <= i < |p| :: p[i]
  }

  /** Collapsing an imported preview gives back the legacy map, with each value as text. */
  lemma PreviewCollapse(p: seq<Preview.Attribute>, attrs: map<string, Json.Value>)
    requires IsPreviewOf(p, attrs)
    ensures Collapse(p) == Stringified(attrs)
  {
    var m := Collapse(p);
    forall k | k in attrs ensures k in m && m[k] == Json.String(Json.AsStrOrEmpty(attrs[k])) {
      assert HasEntry(p, k);
      var i :| 0 <= i < |p| && p[i].name == k;
      assert IsLastWithName(p, i);
    }
    forall k | k in m ensures k in attrs {
      var i :| 0 <= i < |p| && p[i].name == k;
    }
  }

  /** A string-valued map is unchanged by passing through a preview. */
  lemma StringifiedIdentity(attrs: map<string, Json.Value>)
    requires StringValued(attrs)
    ensures Stringified(attrs) == attrs
  {
  }

  /**
   * Two previews the legacy-to-current conversion may build from one legacy map differ at
   * most in order: they have the same length and the same entries, each exactly once, so
   * one is a permutation of the other.
   */
  lemma PreviewDeterminedUpToOrder(p: seq<Preview.Attribute>, q: seq<Preview.Attribute>, attrs: map<string, Json.Value>)
    requires IsPreviewOf(p, attrs) && IsPreviewOf(q, attrs)
    ensures |p| == |q|
    ensures Entries(p) == Entries(q)
    ensures multiset(p) == multiset(q)
  {
    PreviewEntries(p, attrs);
    PreviewEntries(q, attrs);
    DistinctNamesMultiset(p);
    DistinctNamesMultiset(q);
    forall a ensures a in p <==> a in q {
      if a in p {
        var i :| 0 <= i < |p| && p[i] == a;
        assert p[i] in Entries(p);
        assert a in Entries(q);
        var k :| 0 <= k < |q| && q[k] == a;
      }
      if a in q {
        var i :| 0 <= i < |q| && q[i] == a;
        assert q[i] in Entries(q);
        assert a in Entries(p);
        var k :| 0 <= k < |p| && p[k] == a;
      }
    }
    forall a ensures multiset(p)[a] == multiset(q)[a] {
      assert a in p <==> a in multiset(p);
      assert a in q <==> a in multiset(q);
    }
  }

  /** In a preview whose names do not repeat, no entry occurs more than once. */
  lemma {:induction false} DistinctNamesMultiset(p: seq<Preview.Attribute>)
    requires forall i, j :: 0 <= i < j < |p| ==> p[i].name != p[j].name
    ensures forall a :: multiset(p)[a] <= 1
  {
    if p != [] {
      var init := p[..|p| - 1];
      var last := p[|p| - 1];
      assert p == init + [last];
      DistinctNamesMultiset(init);
      assert last !in init by {
        forall i | 0 <= i < |init| ensures init[i] != last {
          assert init[i] == p[i];
        }
      }
      assert multiset(p) == multiset(init) + multiset{last};
    }
  }

  /** The entries of an imported preview are exactly the plain-text entries of the legacy keys. */
  lemma PreviewEntries(p: seq<Preview.Attribute>, attrs: map<string, Json.Value>)
    requires IsPreviewOf(p, attrs)
    ensures Entries(p) == (set k | k in attrs :: PlainEntry(attrs, k))
  {
    forall k | k in attrs ensures PlainEntry(attrs, k) in Entries(p) {
      assert HasEntry(p, k);
      var i :| 0 <= i < |p| && p[i].name == k;
      assert p[i] == PlainEntry(attrs, k);
    }
    forall i | 0 <= i < |p| ensures p[i] in (set k | k in attrs :: PlainEntry(attrs, k)) {
      assert p[i] == PlainEntry(attrs, p[i].name);
    }
  }

  /**
   * Legacy -> current -> legacy: the thread id comes back (as "" when it was absent), the
   * attribute map comes back with each value as text, the payload text comes back verbatim
   * and `cred_def_id` is read from it; the legacy-only fields take their defaults.
   */
  lemma LegacyRoundTrip(l: CredentialOfferV1, ext: Externals, o: CredentialOffer, payload: Json.Value)
    requires ImportedFrom(o, l, ext)
    requires CodecRoundTrips(ext)
    requires ext.parse(l.libindyOffer) == Some(payload)
    ensures var back := ToLegacySpec(o, ext);
            && back.Ok?
            && back.value.threadId == Some(UnwrapOr(l.threadId, ""))
            && back.value.credentialAttrs == Stringified(l.credentialAttrs)
            && back.value.libindyOffer == l.libindyOffer
            && back.value.credDefId == CredDefIdOf(payload)
            && HasLegacyDefaults(back.value)
  {
    assert ext.content(o.offersAttach) == Some(l.libindyOffer) by {
      assert o.offersAttach == Attachments.Attachments([Wrapped(ext.encode(l.libindyOffer).value)]);
    }
    PreviewCollapse(o.credentialPreview.attributes, l.credentialAttrs);
  }

  /**
   * Legacy -> current -> legacy is the identity on a legacy offer that has a thread id,
   * string-valued attributes, the `cred_def_id` of its own payload and default legacy-only fields.
   */
  lemma LegacyRoundTripExact(l: CredentialOfferV1, ext: Externals, o: CredentialOffer, payload: Json.Value)
    requires ImportedFrom(o, l, ext)
    requires CodecRoundTrips(ext)
    requires ext.parse(l.libindyOffer) == Some(payload)
    requires l.threadId.Some? && StringValued(l.credentialAttrs)
    requires l.credDefId == CredDefIdOf(payload) && HasLegacyDefaults(l)
    ensures ToLegacySpec(o, ext) == Ok(l)
  {
    LegacyRoundTrip(l, ext, o, payload);
    StringifiedIdentity(l.credentialAttrs);
  }

  /**
   * Current -> legacy -> current: the identifier and the attribute map survive, and the
   * comment and thread are reset.
   */
  lemma CurrentRoundTrip(o: CredentialOffer, ext: Externals, l: CredentialOfferV1, o2: CredentialOffer)
    requires ToLegacySpec(o, ext) == Ok(l)
    requires ImportedFrom(o2, l, ext)
    ensures o2.id == o.id
    ensures o2.comment == "" && o2.thread == None
    ensures Collapse(o2.credentialPreview.attributes) == Collapse(o.credentialPreview.attributes)
  {
    PreviewCollapse(o2.credentialPreview.attributes, l.credentialAttrs);
    var m := Collapse(o.credentialPreview.attributes);
    forall k | k in m ensures Stringified(m)[k] == m[k] {
      var p := o.credentialPreview.attributes;
      var i :| 0 <= i < |p| && p[i].name == k;
      var j := LastIndexWithName(p, i);
    }
  }

  /** Current -> legacy -> current keeps the attachment content when the codec round-trips. */
  lemma CurrentRoundTripContent(o: CredentialOffer, ext: Externals, l: CredentialOfferV1, o2: CredentialOffer)
    requires ToLegacySpec(o, ext) == Ok(l)
    requires ImportedFrom(o2, l, ext)
    requires CodecRoundTrips(ext)
    ensures ext.content(o2.offersAttach) == ext.content(o.offersAttach)
  {
    assert o2.offersAttach == Attachments.Attachments([Wrapped(ext.encode(l.libindyOffer).value)]);
  }

  /** Some entry at or after `i` is the last one with the name of entry `i`. */
  lemma LastIndexWithName(p: seq<Preview.Attribute>, i: int) returns (j: int)
    requires 0 <= i < |p|
    ensures i <= j && IsLastWithName(p, j) && p[j].name == p[i].name
    decreases |p| - i
  {
    if forall k :: i < k < |p| ==> p[k].name != p[i].name {
      j := i;
    } else {
      var k :| i < k < |p| && p[k].name == p[i].name;
      j := LastIndexWithName(p, k);
    }
  }

  /** An attribute added through the builder is what the legacy form holds under its name. */
  lemma AddedAttributeWins(o: CredentialOffer, name: string, value: string, mimeType: Preview.MimeType,
                           ext: Externals)
    requires ext.accepts(name, value, mimeType)
    ensures var added := AddCredentialPreviewData(o, name, value, mimeType, ext).value;
            var m := Collapse(added.credentialPreview.attributes);
            && m.Keys == Collapse(o.credentialPreview.attributes).Keys + {name}
            && m[name] == Json.String(value)
  {
  }

  /**
   * An offer built by `create`, `set_id` and `set_offers_attach` converts to the legacy form
   * carrying that identifier as thread id and the attached text verbatim.
   */
  lemma BuiltOfferToLegacy(freshId: string, id: string, offer: string, ext: Externals, payload: Json.Value)
    requires CodecRoundTrips(ext)
    requires ext.encode(offer).Some? && ext.parse(offer) == Some(payload)
    ensures var built := SetOffersAttach(SetId(Create(freshId), id), offer, ext);
            && built.Ok?
            && var back := ToLegacySpec(built.value, ext);
               && back.Ok?
               && back.value.threadId == Some(id)
               && back.value.libindyOffer == offer
               && back.value.credDefId == CredDefIdOf(payload)
               && back.value.credentialAttrs == map[]
  {
    var built := SetOffersAttach(SetId(Create(freshId), id), offer, ext).value;
    assert built.offersAttach == Attachments.Attachments([Wrapped(ext.encode(offer).value)]);
  }

  /** A payload without a string `cred_def_id` yields "" rather than an error. */
  lemma MissingCredDefIdLenient(o: CredentialOffer, ext: Externals, raw: string, payload: Json.Value)
    requires ext.content(o.offersAttach) == Some(raw) && ext.parse(raw) == Some(payload)
    requires !(payload.Object? && "cred_def_id" in payload.fields && payload.fields["cred_def_id"].String?)
    ensures ToLegacySpec(o, ext).Ok? && ToLegacySpec(o, ext).value.credDefId == ""
  {
  }

  /**
   * A legacy offer with the one attribute name = "Alice" and thread id "t1" becomes the offer "t1" whose preview is exactly that attribute, as plain text.
   */
  lemma AliceExample(l: CredentialOfferV1, ext: Externals, o: CredentialOffer)
    requires l.credentialAttrs == map["name" := Json.String("Alice")]
    requires l.threadId == Some("t1")
    requires ImportedFrom(o, l, ext)
    ensures o.id == "t1" && o.comment == "" && o.thread == None
    ensures o.credentialPreview.attributes == [Preview.Attribute("name", "Alice", Preview.Plain)]
    ensures o.offersAttach.items == [Wrapped(ext.encode(l.libindyOffer).value)]
  {
  }
}
