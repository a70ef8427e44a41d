/** The vocabulary shared by the frontend and the backend. */
module MailTypes {
  import opened Wrappers

  /** The `type` of an email: a draft or a sent mail. */
  datatype Kind = Draft | Sent

  /** The delivery `status` of a sent mail; a draft has none. */
  datatype Status = Pending | Processed | Failed

  /** An email as the frontend holds it (the `Email` interface of the API client):
      identifiers and dates are strings there. */
  datatype ClientEmail = ClientEmail(
    id: string,
    to: string,
    subject: string,
    body: string,
    kind: Kind,
    status: Option<Status>,
    scheduledAt: Option<string>,
    createdAt: string,
    userId: string)

  /** JavaScript truthiness of an optional string: present and not empty. */
  predicate Truthy(s: Option<string>) {
    s.Some? && s.value != ""
  }
}
