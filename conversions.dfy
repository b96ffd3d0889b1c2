/**
 * The two-way adapter between the current Credential Offer and the legacy record:
 * `TryInto<CredentialOffer> for CredentialOfferV1` (FromLegacy) and
 * `TryInto<CredentialOfferV1> for CredentialOffer` (ToLegacy).
 */
module OfferConversions {
  import opened Wrappers
  import Json
  import Preview
  import Attachments
  import opened Externals
  import opened LegacyOffer
  import opened CredentialOfferMessage

  // ---------------------------------------------------------------------------
  // Current -> legacy

  /** The names that occur in a preview. */
  function Names(p: seq<Preview.Attribute>): set<string>
  {
    set i | 0 <= i < |p| :: p[i].name
  }

  /** Entry `i` is the last one in `p` that carries its name. */
  ghost predicate IsLastWithName(p: seq<Preview.Attribute>, i: int)
  {
    0 <= i < |p| && forall j :: i < j < |p| ==> p[j].name != p[i].name
  }

  /**
   * The legacy attribute map built by inserting every preview entry, in order, as a
   * JSON string: one key per distinct name, holding the value of the last entry with it.
   */
  function Collapse(p: seq<Preview.Attribute>): (m: map<string, Json.Value>)
    ensures m.Keys == Names(p)
    ensures forall i :: IsLastWithName(p, i) ==> m[p[i].name] == Json.String(p[i].value)
  {
    if p == [] then map[]
    else
      var init := p[..|p| - 1];
      var last := p[|p| - 1];
      var m := Collapse(init)[last.name := Json.String(last.value)];
      assert m.Keys == Names(p) by {
        assert Names(p) == Names(init) + {last.name} by {
          forall i | 0 <= i < |p| ensures p[i].name in Names(init) + {last.name} {
            if i < |p| - 1 { assert p[i] == init[i]; }
          }
          forall i | 0 <= i < |init| ensures init[i].name in Names(p) {
            assert init[i] == p[i];
          }
        }
      }
      assert forall i :: IsLastWithName(p, i) ==> m[p[i].name] == Json.String(p[i].value) by {
        forall i | IsLastWithName(p, i) ensures m[p[i].name] == Json.String(p[i].value) {
          if i < |p| - 1 {
            assert init[i] == p[i];
            assert IsLastWithName(init, i);
          }
        }
      }
      m
  }

  /** The `cred_def_id` the legacy record gets: the payload field when it is a JSON string, "" otherwise. */
  function CredDefIdOf(payload: Json.Value): string
  {
    Json.AsStrOrEmpty(Json.Index(payload, "cred_def_id"))
  }

  /** The legacy record `to_legacy` produces from an offer whose payload text is `raw`, parsed as `payload`. */
  function Exported(o: CredentialOffer, raw: string, payload: Json.Value): CredentialOfferV1
  {
    CredentialOfferV1(
      msgType := CredOfferKindName,
      version := LegacyVersion,
      toDid := "",
      fromDid := "",
      credentialAttrs := Collapse(o.credentialPreview.attributes),
      schemaSeqNo := 0,
      claimName := "",
      claimId := "",
      msgRefId := None,
      credDefId := CredDefIdOf(payload),
      libindyOffer := raw,
      threadId := Some(o.id))
  }

  /** What the current-to-legacy conversion yields. */
  function ToLegacySpec(o: CredentialOffer, ext: Externals): (r: Result<CredentialOfferV1>)
    ensures ext.content(o.offersAttach).None? ==> r == Err(AttachmentError)
    ensures (ext.content(o.offersAttach).Some? && ext.parse(ext.content(o.offersAttach).value).None?)
              ==> r == Err(InvalidJson)
    ensures r.Ok? <==> ext.content(o.offersAttach).Some? && ext.parse(ext.content(o.offersAttach).value).Some?
    ensures r.Ok? ==> && r.value.libindyOffer == ext.content(o.offersAttach).value
                      && r.value.threadId == Some(o.id)
                      && r.value.credentialAttrs.Keys == Names(o.credentialPreview.attributes)
                      && (forall i :: IsLastWithName(o.credentialPreview.attributes, i) ==>
                            r.value.credentialAttrs[o.credentialPreview.attributes[i].name]
                              == Json.String(o.credentialPreview.attributes[i].value))
    ensures r.Ok? ==> var payload := ext.parse(ext.content(o.offersAttach).value).value;
                      r.value.credDefId == (if payload.Object? && "cred_def_id" in payload.fields
                                               && payload.fields["cred_def_id"].String?
                                            then payload.fields["cred_def_id"].s else "")
    ensures r.Ok? ==> && r.value.msgType == CredOfferKindName && r.value.version == "0.1"
                      && r.value.toDid == "" && r.value.fromDid == ""
                      && r.value.schemaSeqNo == 0 && r.value.claimName == "" && r.value.claimId == ""
                      && r.value.msgRefId == None
  {
    match ext.content(o.offersAttach)
    case None => Err(AttachmentError)
    case Some(raw) =>
      match ext.parse(raw)
      case None => Err(InvalidJson)
      case Some(payload) => Ok(Exported(o, raw, payload))
  }

  /** `TryInto<CredentialOfferV1> for CredentialOffer`. */
  method ToLegacy(o: CredentialOffer, ext: Externals) returns (r: Result<CredentialOfferV1>)
    ensures r == ToLegacySpec(o, ext)
  {
    var content := ext.content(o.offersAttach);
    if content.None? {
      return Err(AttachmentError);
    }
    var raw := content.value;
    var parsed := ext.parse(raw);
    if parsed.None? {
      return Err(InvalidJson);
    }
    var p := o.credentialPreview.attributes;
    var attrs: map<string, Json.Value> := map[];
    for i := 0 to |p|
      invariant attrs == Collapse(p[..i])
    {
      assert p[..i + 1][..i] == p[..i];
      attrs := attrs[p[i].name := Json.String(p[i].value)];
    }
    assert p[..|p|] == p;
    r := Ok(CredentialOfferV1(
      msgType := CredOfferKindName,
      version := LegacyVersion,
      toDid := "",
      fromDid := "",
      credentialAttrs := attrs,
      schemaSeqNo := 0,
      claimName := "",
      claimId := "",
      msgRefId := None,
      credDefId := Json.AsStrOrEmpty(Json.Index(parsed.value, "cred_def_id")),
      libindyOffer := raw,
      threadId := Some(o.id)));
  }

  // ---------------------------------------------------------------------------
  // Legacy -> current

  /** Some entry of `p` carries the name `k`. */
  ghost predicate HasEntry(p: seq<Preview.Attribute>, k: string)
  {
    exists i :: 0 <= i < |p| && p[i].name == k
  }

  /**
   * `p` holds one plain-text entry per key of `keys`, in some order: every entry names one of
   * those keys and carries its legacy value as text ("" for a non-string), every key has an
   * entry, and no name repeats.
   */
  ghost predicate Covers(p: seq<Preview.Attribute>, keys: set<string>, attrs: map<string, Json.Value>)
  {
    && keys <= attrs.Keys
    && |p| == |keys|
    && (forall i :: 0 <= i < |p| ==>
          && p[i].name in keys
          && p[i].value == Json.AsStrOrEmpty(attrs[p[i].name])
          && p[i].mimeType == Preview.Plain)
    && (forall k {:trigger HasEntry(p, k)} :: k in keys ==> HasEntry(p, k))
    && (forall i, j :: 0 <= i < j < |p| ==> p[i].name != p[j].name)
  }

  /** The preview the legacy-to-current conversion builds: one entry per legacy attribute. */
  ghost predicate IsPreviewOf(p: seq<Preview.Attribute>, attrs: map<string, Json.Value>)
  {
    Covers(p, attrs.Keys, attrs)
  }

  /** The entry the legacy-to-current conversion adds for key `k`. */
  function PlainEntry(attrs: map<string, Json.Value>, k: string): Preview.Attribute
    requires k in attrs
  {
    Preview.Attribute(k, Json.AsStrOrEmpty(attrs[k]), Preview.Plain)
  }

  /** Appending the entry of a key not yet covered covers one key more. */
  lemma CoversExtend(p: seq<Preview.Attribute>, keys: set<string>, attrs: map<string, Json.Value>, k: string)
    requires Covers(p, keys, attrs) && k in attrs && k !in keys
    ensures Covers(p + [PlainEntry(attrs, k)], keys + {k}, attrs)
  {
    var q := p + [PlainEntry(attrs, k)];
    forall n | n in keys + {k} ensures HasEntry(q, n) {
      if n == k {
        assert q[|p|].name == n;
      } else {
        assert HasEntry(p, n);
        var i :| 0 <= i < |p| && p[i].name == n;
        assert q[i].name == n;
      }
    }
    forall i, j | 0 <= i < j < |q| ensures q[i].name != q[j].name {
      assert q[i] == p[i];
      if j < |p| { assert q[j] == p[j]; }
    }
  }

  /** The preview's validation admits every legacy attribute as plain text. */
  ghost predicate AllAccepted(attrs: map<string, Json.Value>, ext: Externals)
  {
    forall k :: k in attrs ==> ext.accepts(k, Json.AsStrOrEmpty(attrs[k]), Preview.Plain)
  }

  /** `o` is an offer the legacy-to-current conversion may produce from `l`. */
  ghost predicate ImportedFrom(o: CredentialOffer, l: CredentialOfferV1, ext: Externals)
  {
    && o.id == UnwrapOr(l.threadId, "")
    && o.comment == ""
    && o.thread == None
    && IsPreviewOf(o.credentialPreview.attributes, l.credentialAttrs)
    && ext.encode(l.libindyOffer).Some?
    && o.offersAttach.items == [Wrapped(ext.encode(l.libindyOffer).value)]
  }

  /**
   * The attribute loop of the legacy-to-current conversion: adds every legacy attribute to
   * an empty preview as plain text, walking the map in an unspecified order.
   */
  method ImportAttributes(attrs: map<string, Json.Value>, ext: Externals) returns (r: Result<Preview.PreviewData>)
    ensures r.Ok? <==> AllAccepted(attrs, ext)
    ensures r.Err? ==> r.error == ValidationError
    ensures r.Ok? ==> IsPreviewOf(r.value.attributes, attrs)
  {
    var preview := Preview.New();
    var todo := attrs.Keys;
    ghost var done: set<string> := {};
    while todo != {}
      invariant todo !! done && todo + done == attrs.Keys
      invariant Covers(preview.attributes, done, attrs)
      invariant forall k :: k in done ==> ext.accepts(k, Json.AsStrOrEmpty(attrs[k]), Preview.Plain)
      decreases |todo|
    {
      var k :| k in todo;
      var next := Preview.AddValue(preview, k, Json.AsStrOrEmpty(attrs[k]), Preview.Plain, ext.accepts);
      if next.Err? {
        return Err(next.error);
      }
      assert next.value.attributes == preview.attributes + [PlainEntry(attrs, k)];
      CoversExtend(preview.attributes, done, attrs, k);
      preview := next.value;
      todo := todo - {k};
      done := done + {k};
    }
    assert done == attrs.Keys;
    return Ok(preview);
  }

  /**
   * `TryInto<CredentialOffer> for CredentialOfferV1`: the preview comes from the legacy
   * attributes, the identifier from the thread id, the attachment from the raw payload.
   */
  method FromLegacy(l: CredentialOfferV1, ext: Externals) returns (r: Result<CredentialOffer>)
    ensures r.Ok? <==> AllAccepted(l.credentialAttrs, ext) && ext.encode(l.libindyOffer).Some?
    ensures r.Err? ==> r.error == if AllAccepted(l.credentialAttrs, ext) then EncodingError else ValidationError
    ensures r.Ok? ==> ImportedFrom(r.value, l, ext)
  {
    var preview := ImportAttributes(l.credentialAttrs, ext);
    if preview.Err? {
      return Err(preview.error);
    }
    // `create` draws a fresh identifier that `set_id` overwrites at once, so any value serves.
    var withId := SetId(Create(""), UnwrapOr(l.threadId, ""));
    var withPreview := SetCredentialPreviewData(withId, preview.value).value;
    r := SetOffersAttach(withPreview, l.libindyOffer, ext);
  }
}
