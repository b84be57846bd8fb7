/** The token service the tool drives (upload of metadata, creation of a
    token, transfer of a token), as oracles. Every request carries its call
    ordinal within the batch that issues it, so a stateful remote service
    that answers each call differently (a fresh mint address per creation)
    is still a plain function. */
module Issuance {
  import opened Wrappers
  import opened JsValues
  import opened AuditLog

  /** The arguments of one token creation request; the update authority is
      wallet plumbing and is not modelled. */
  datatype CreateParams = CreateParams(
    uri: string,
    name: JsValue,
    sellerFeeBasisPoints: JsValue,
    symbol: JsValue)

  /** `upload(metadata, j)`: the uri of the j-th upload, or the message it threw.
      `create(params, n)`: the address of the n-th created token, or a message.
      `send(mint, to, n)`: the signature of the n-th transfer, or a message;
      an unparseable recipient address surfaces here as a failure. */
  datatype Service = Service(
    upload: (Metadata, nat) -> Result<string, string>,
    create: (CreateParams, nat) -> Result<Address, string>,
    send: (Address, string, nat) -> Result<string, string>)
}
