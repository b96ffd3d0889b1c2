/** The attachment list carried in `offers~attach`. */
module Attachments {

  datatype AttachmentEncoding = Base64

  /** The one attachment variant in scope: JSON content stored under a transfer encoding. */
  datatype Attachment = JsonAttachment(encoding: AttachmentEncoding, data: string)

  datatype Attachments = Attachments(items: seq<Attachment>)

  /** `Attachments::new()`. */
  function New(): Attachments
  {
    Attachments([])
  }

  /** `Attachments::add`: appends one attachment after the ones already there. */
  function Add(list: Attachments, a: Attachment): Attachments
  {
    Attachments(list.items + [a])
  }
}
