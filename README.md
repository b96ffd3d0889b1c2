# Credential Offer message and its legacy adapter

A Dafny model of the current-version "Credential Offer" message of the libvcx issuance
protocol (`vcx/libvcx/src/v3/messages/issuance/credential_offer.rs`). The file has three parts:

- the message record and its builder steps (`create`, `set_id`, `set_comment`,
  `set_offers_attach`, `set_credential_preview_data`, `add_credential_preview_data`,
  `set_thread`);
- the conversion from the legacy `CredentialOfferV1` record to the current message;
- the conversion from the current message back to the legacy record.

The builder steps take the message by value and return the updated message, so they are
pure functions over the `CredentialOffer` datatype. Each of the two conversions builds its
result in a loop, so each is a method.

- `FromLegacy` walks the legacy attribute map. Its attribute loop is `ImportAttributes`.
  The model does not fix the order in which map keys are visited (`:|`). It proves what the
  preview holds regardless of that order (`IsPreviewOf`).
- `ToLegacy` inserts the preview entries into a map in order. It is proved equal to the
  function `ToLegacySpec`, and the round-trip lemmas are stated about that function.

The collaborators the file calls but does not define are the fields of one `Externals`
value, which every operation takes as a parameter:

- `encode` stands for `Json::new` under base64 and may fail.
- `content` stands for `Attachments::content` and may fail.
- `parse` stands for `serde_json::from_str` and may fail.
- `accepts` stands for the validation inside `CredentialPreviewData::add_value`.

The round-trip lemmas need the attachment codec to give back what it wrapped. They take that
as an explicit precondition, `CodecRoundTrips`.

Modules: `Wrappers` (Option, Result, error kinds), `Json` (JSON values, `value[key]`,
`as_str`), `Attachments`, `Preview`, `Externals`, `LegacyOffer` (the legacy record),
`CredentialOfferMessage` (record and builder), `OfferConversions` (both conversions) and
`OfferRoundTrips` (properties that relate them).

Three behaviours of the code are worth stating plainly:

- Legacy → current never fails on an attribute value that is not a string: such a value
  becomes `""` through `as_str().unwrap_or_default()`. The attribute loop fails only through
  `add_value`.
- `serde_json::from_str` accepts any JSON text, not only an object. A payload that is not an
  object gives `cred_def_id == ""`.
- `set_offers_attach` appends to the attachment list; it does not replace earlier attachments.

## Model

| member | source | states |
|---|---|---|
| `CredentialOfferMessage.Create` | vcx/libvcx/src/v3/messages/issuance/credential_offer.rs:25-33 | the new offer has the supplied fresh id, an empty comment, an empty preview, no attachments and no thread |
| `CredentialOfferMessage.SetId` | vcx/libvcx/src/v3/messages/issuance/credential_offer.rs:35-38 | the id is replaced; comment, preview, attachments and thread are unchanged |
| `CredentialOfferMessage.SetComment` | vcx/libvcx/src/v3/messages/issuance/credential_offer.rs:40-43 | the comment is replaced; every other field is unchanged |
| `CredentialOfferMessage.SetOffersAttach` | vcx/libvcx/src/v3/messages/issuance/credential_offer.rs:45-49 | succeeds exactly when the string can be encoded, failing otherwise with an encoding error; on success exactly one JSON attachment wrapping the string is appended after the existing ones, and every other field is unchanged |
| `CredentialOfferMessage.SetCredentialPreviewData` | vcx/libvcx/src/v3/messages/issuance/credential_offer.rs:51-54 | never fails; the preview is replaced and every other field is unchanged |
| `CredentialOfferMessage.AddCredentialPreviewData` | vcx/libvcx/src/v3/messages/issuance/credential_offer.rs:56-59 | succeeds exactly when the preview validation accepts the entry, failing otherwise with a validation error; on success the preview grows by one, the old entries are a prefix, the last entry is (name, value, mime type), and every other field is unchanged |
| `CredentialOfferMessage.SetThread` | vcx/libvcx/src/v3/messages/issuance/credential_offer.rs:61-64 | the thread is always `Some(thread)` afterwards; every other field is unchanged |
| `OfferConversions.Collapse` | vcx/libvcx/src/v3/messages/issuance/credential_offer.rs:96-100 | the attribute map built from a preview has exactly the preview's names as keys, and each name maps to the value of the last entry that carries it |
| `OfferConversions.ToLegacySpec` | vcx/libvcx/src/v3/messages/issuance/credential_offer.rs:88-117 | fails with an attachment error when the content cannot be extracted, and with InvalidJson when it does not parse, and succeeds otherwise. On success: the payload text is copied verbatim; `thread_id == Some(id)`; the attribute keys are the preview names, with the last value winning; `cred_def_id` is the payload's string field or `""`; the legacy-only fields are the fixed defaults (`version "0.1"`, empty DIDs, claim name and claim id, `schema_seq_no 0`, no `msg_ref_id`) |
| `OfferConversions.ToLegacy` | vcx/libvcx/src/v3/messages/issuance/credential_offer.rs:91-116 | the conversion loop yields exactly `ToLegacySpec`, including every error case |
| `OfferConversions.CoversExtend` | vcx/libvcx/src/v3/messages/issuance/credential_offer.rs:77-79 | appending the plain-text entry of a key not yet visited keeps one distinct entry per visited key |
| `OfferConversions.ImportAttributes` | vcx/libvcx/src/v3/messages/issuance/credential_offer.rs:75-79 | succeeds exactly when every attribute is accepted as plain text, failing otherwise with a validation error; on success the preview has one plain-text entry per legacy key, names do not repeat, and each value is the legacy string or `""` |
| `OfferConversions.FromLegacy` | vcx/libvcx/src/v3/messages/issuance/credential_offer.rs:74-85 | succeeds exactly when every attribute is accepted and the payload can be encoded. The error is a validation error if some attribute was refused, and an encoding error otherwise. On success: `id` is the thread id or `""`; the comment is empty; there is no thread; the preview is as above; the only attachment wraps `libindy_offer` |
| `OfferRoundTrips.PreviewCollapse` | vcx/libvcx/src/v3/messages/issuance/credential_offer.rs:96-100 | collapsing an imported preview gives back the legacy map, with every value as a JSON string |
| `OfferRoundTrips.StringifiedIdentity` | vcx/libvcx/src/v3/messages/issuance/credential_offer.rs:78 | a map whose values are all strings passes through the preview unchanged |
| `OfferRoundTrips.PreviewEntries` | vcx/libvcx/src/v3/messages/issuance/credential_offer.rs:77-79 | the entries of an imported preview are exactly the plain-text entries of the legacy keys |
| `OfferRoundTrips.PreviewDeterminedUpToOrder` | vcx/libvcx/src/v3/messages/issuance/credential_offer.rs:77-79 | two previews imported from the same legacy map have the same length, the same entries and equal multisets of entries, so map iteration order only permutes them |
| `OfferRoundTrips.DistinctNamesMultiset` | vcx/libvcx/src/v3/messages/issuance/credential_offer.rs:77-79 | in a preview whose names do not repeat, as an imported one, no entry occurs more than once |
| `OfferRoundTrips.LegacyRoundTrip` | vcx/libvcx/src/v3/messages/issuance/credential_offer.rs:71-117 | legacy → current → legacy succeeds when the codec round-trips and the payload parses. The result has `thread_id == Some(thread id or "")`, the attribute map with values as text, the payload text verbatim, `cred_def_id` read from the payload and default legacy-only fields |
| `OfferRoundTrips.LegacyRoundTripExact` | vcx/libvcx/src/v3/messages/issuance/credential_offer.rs:71-117 | legacy → current → legacy returns the original record when it has a thread id, string-valued attributes, the `cred_def_id` of its own payload and default legacy-only fields |
| `OfferRoundTrips.CurrentRoundTrip` | vcx/libvcx/src/v3/messages/issuance/credential_offer.rs:71-117 | current → legacy → current keeps the id and the collapsed attribute map; comment and thread are reset |
| `OfferRoundTrips.CurrentRoundTripContent` | vcx/libvcx/src/v3/messages/issuance/credential_offer.rs:81-94 | current → legacy → current keeps the attachment content when the codec round-trips |
| `OfferRoundTrips.LastIndexWithName` | vcx/libvcx/src/v3/messages/issuance/credential_offer.rs:98-100 | every preview name has a last entry carrying it, at or after any entry with that name |
| `OfferRoundTrips.AddedAttributeWins` | vcx/libvcx/src/v3/messages/issuance/credential_offer.rs:56-59 | after `add_credential_preview_data`, the legacy key set gains the added name, and that key holds the added value whatever came before |
| `OfferRoundTrips.BuiltOfferToLegacy` | vcx/libvcx/src/v3/messages/issuance/credential_offer.rs:25-49 | an offer built with `create`, `set_id` and `set_offers_attach` converts to a legacy record with that id as thread id, the attached text verbatim, the payload's `cred_def_id` and no attributes |
| `OfferRoundTrips.MissingCredDefIdLenient` | vcx/libvcx/src/v3/messages/issuance/credential_offer.rs:112 | a payload without a string `cred_def_id` gives `cred_def_id == ""`, not an error |
| `OfferRoundTrips.AliceExample` | vcx/libvcx/src/v3/messages/issuance/credential_offer.rs:74-85 | the legacy offer with the single attribute `name = "Alice"` and thread id `t1` converts to offer `t1` whose preview is exactly that attribute as plain text |

## Left out

- `to_a2a_message` (lines 66-68) only wraps a copy of the message in the transport envelope, so it is not modelled.
- `MessageId::new()` is random id generation. It is the `freshId` parameter of `Create`.
- The serde derive and rename attributes (lines 11-21) are not modelled: the wire format belongs to the serialization library.
- Base64 encoding in `Json::new` and decoding in `Attachments::content` are the abstract `encode` and `content` collaborators. The module `v3::messages::attachment` is not part of this model. The round-trip lemmas assume the codec round-trips (`CodecRoundTrips`) rather than proving it.
- JSON text parsing (`serde_json::from_str`) is the abstract `parse` collaborator.
- JSON numbers are integers in the model. Floating point is not modelled.
- The validation inside `CredentialPreviewData::add_value` is the abstract `accepts` predicate. The model assumes it depends only on the entry's name, value and mime type.
- `CredentialPreviewData` (module `v3::messages::issuance`) is not part of this model. The model assumes that on success `add_value` appends the entry unchanged.
- The payload-kind name `PayloadKinds::CredOffer.name()` is the constant `CRED_OFFER`. The module `messages::payload` is not part of this model.
- The thread object (module `messages::thread`) is opaque to this core. It carries only a thread id in the model.
- The model keeps the error kinds apart but not the error messages. The source reports errors of `VcxErrorKind`.
- `schema_seq_no` is a natural number, not a 32-bit one. The model only ever writes 0 to it.
- OfferConversions.FromLegacy: does not state the order of the preview entries, because the legacy map's iteration order belongs to the map implementation. `PreviewDeterminedUpToOrder` shows that order is the only thing left open.
- OfferConversions.ImportAttributes: does not state the order of the preview entries, for the same reason.
- OfferConversions.FromLegacy: the attribute loop is a separate method (`ImportAttributes`), not inline as in the source. This keeps each proof small. The behaviour is the same.
