/** The credential preview: an ordered list of attribute descriptors. */
module Preview {
  import opened Wrappers

  /** How an attribute's value is to be read; only plain text is produced by the core. */
  datatype MimeType = Plain | Other(tag: string)

  datatype Attribute = Attribute(name: string, value: string, mimeType: MimeType)

  datatype PreviewData = PreviewData(attributes: seq<Attribute>)

  /** `CredentialPreviewData::new()`. */
  function New(): PreviewData
  {
    PreviewData([])
  }

  /**
   * `CredentialPreviewData::add_value`: appends one descriptor when the preview's own
   * validation, given here as `accepts`, admits it; fails with a validation error otherwise.
   */
  function AddValue(p: PreviewData, name: string, value: string, mimeType: MimeType,
                    accepts: (string, string, MimeType) -> bool): Result<PreviewData>
  {
    if accepts(name, value, mimeType) then Ok(PreviewData(p.attributes + [Attribute(name, value, mimeType)]))
    else Err(ValidationError)
  }
}
