/** The legacy (version 1) credential offer record. */
module LegacyOffer {
  import opened Wrappers
  import Json

  /** The payload-kind name written into `msg_type`. */
  const CredOfferKindName: string := "CRED_OFFER"

  /** The version written by the current-to-legacy conversion. */
  const LegacyVersion: string := "0.1"

  datatype CredentialOfferV1 = CredentialOfferV1(
    msgType: string,
    version: string,
    toDid: string,
    fromDid: string,
    credentialAttrs: map<string, Json.Value>,
    schemaSeqNo: nat,
    claimName: string,
    claimId: string,
    msgRefId: Option<string>,
    credDefId: string,
    libindyOffer: string,
    threadId: Option<string>)
}
