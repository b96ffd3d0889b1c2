/** The current-version Credential Offer message and its builder steps. */
module CredentialOfferMessage {
  import opened Wrappers
  import Preview
  import Attachments
  import opened Externals

  /** The thread-correlation object; opaque to this core beyond its thread id. */
  datatype Thread = Thread(thid: Option<string>)

  datatype CredentialOffer = CredentialOffer(
    id: string,
    comment: string,
    credentialPreview: Preview.PreviewData,
    offersAttach: Attachments.Attachments,
    thread: Option<Thread>)

  /** `create`: a new offer; `freshId` stands for the identifier `MessageId::new()` generates. */
  function Create(freshId: string): (o: CredentialOffer)
    ensures o.id == freshId
    ensures o.comment == "" && o.credentialPreview.attributes == []
    ensures o.offersAttach.items == [] && o.thread == None
  {
    CredentialOffer(freshId, "", Preview.New(), Attachments.New(), None)
  }

  /** `set_id`: replaces the identifier and nothing else. */
  function SetId(o: CredentialOffer, id: string): (r: CredentialOffer)
    ensures r.id == id
    ensures r.comment == o.comment && r.credentialPreview == o.credentialPreview
    ensures r.offersAttach == o.offersAttach && r.thread == o.thread
  {
    o.(id := id)
  }

  /** `set_comment`: replaces the comment and nothing else. */
  function SetComment(o: CredentialOffer, comment: string): (r: CredentialOffer)
    ensures r.comment == comment
    ensures r.id == o.id && r.credentialPreview == o.credentialPreview
    ensures r.offersAttach == o.offersAttach && r.thread == o.thread
  {
    o.(comment := comment)
  }

  /**
   * `set_offers_attach`: wraps `offer` as a JSON attachment and appends it to the
   * attachments already present; fails only when the attachment cannot be encoded.
   */
  function SetOffersAttach(o: CredentialOffer, offer: string, ext: Externals): (r: Result<CredentialOffer>)
    ensures r.Ok? <==> ext.encode(offer).Some?
    ensures r.Err? ==> r.error == EncodingError
    ensures r.Ok? ==> && r.value.offersAttach.items == o.offersAttach.items + [Wrapped(ext.encode(offer).value)]
                      && r.value.id == o.id && r.value.comment == o.comment
                      && r.value.credentialPreview == o.credentialPreview && r.value.thread == o.thread
  {
    match ext.encode(offer)
    case None => Err(EncodingError)
    case Some(encoded) => Ok(o.(offersAttach := Attachments.Add(o.offersAttach, Wrapped(encoded))))
  }

  /** `set_credential_preview_data`: replaces the whole preview; never fails. */
  function SetCredentialPreviewData(o: CredentialOffer, preview: Preview.PreviewData): (r: Result<CredentialOffer>)
    ensures r.Ok?
    ensures r.value.credentialPreview == preview
    ensures r.value.id == o.id && r.value.comment == o.comment
    ensures r.value.offersAttach == o.offersAttach && r.value.thread == o.thread
  {
    Ok(o.(credentialPreview := preview))
  }

  /**
   * `add_credential_preview_data`: appends one descriptor to the preview, failing
   * with a validation error when the preview refuses it.
   */
  function AddCredentialPreviewData(o: CredentialOffer, name: string, value: string,
                                    mimeType: Preview.MimeType, ext: Externals): (r: Result<CredentialOffer>)
    ensures r.Ok? <==> ext.accepts(name, value, mimeType)
    ensures r.Err? ==> r.error == ValidationError
    ensures r.Ok? ==> var attrs := r.value.credentialPreview.attributes;
                      && |attrs| == |o.credentialPreview.attributes| + 1
                      && attrs[..|attrs| - 1] == o.credentialPreview.attributes
                      && attrs[|attrs| - 1] == Preview.Attribute(name, value, mimeType)
    ensures r.Ok? ==> && r.value.id == o.id && r.value.comment == o.comment
                      && r.value.offersAttach == o.offersAttach && r.value.thread == o.thread
  {
    match Preview.AddValue(o.credentialPreview, name, value, mimeType, ext.accepts)
    case Err(e) => Err(e)
    case Ok(p) => Ok(o.(credentialPreview := p))
  }

  /** `set_thread`: attaches the thread and nothing else; the thread is always present afterwards. */
  function SetThread(o: CredentialOffer, thread: Thread): (r: CredentialOffer)
    ensures r.thread == Some(thread)
    ensures r.id == o.id && r.comment == o.comment
    ensures r.credentialPreview == o.credentialPreview && r.offersAttach == o.offersAttach
  {
    o.(thread := Some(thread))
  }
}
