/**
 * The collaborators the core calls but does not define, gathered as one value so that
 * every operation depends on them explicitly.
 */
module Externals {
  import opened Wrappers
  import Json
  import Preview
  import Attachments

  datatype Externals = Externals(
    /** `Json::new(Value::String(s), AttachmentEncoding::Base64)`: the encoded body, or nothing on an encoding failure. */
    encode: string -> Option<string>,
    /** `Attachments::content()`: the decoded content of an attachment list, or nothing when it cannot be extracted. */
    content: Attachments.Attachments -> Option<string>,
    /** `serde_json::from_str`: the parsed value, or nothing when the text is not JSON. */
    parse: string -> Option<Json.Value>,
    /** The validation inside `CredentialPreviewData::add_value`. */
    accepts: (string, string, Preview.MimeType) -> bool)

  /** The JSON attachment that wraps `encoded`, as `set_offers_attach` builds it. */
  function Wrapped(encoded: string): Attachments.Attachment
  {
    Attachments.JsonAttachment(Attachments.Base64, encoded)
  }

  /** Extracting the content of a list holding one freshly wrapped string gives that string back. */
  ghost predicate CodecRoundTrips(x: Externals)
  {
    forall s :: x.encode(s).Some? ==> x.content(Attachments.Attachments([Wrapped(x.encode(s).value)])) == Some(s)
  }
}
