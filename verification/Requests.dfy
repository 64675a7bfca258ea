/** Who is being authenticated, for whom, in which transaction (provider/types.go:20-31). */
module Requests {
  import opened Text

  datatype Binding = Binding(relyingPartyId: string, clientId: string, transactionId: string)

  /** The exact identifier, type and binding: also the key a challenge is filed under. */
  datatype Key = Key(identifier: string, identifierType: string, binding: Binding)

  /** One request to the registry: whom it is about, and the fields asked for. */
  datatype Query = Query(identifier: string, fields: seq<string>)

  predicate ValidBinding(b: Binding) {
    ValidText(b.relyingPartyId) && ValidText(b.clientId) && ValidText(b.transactionId)
  }

  predicate ValidKey(k: Key) {
    ValidBinding(k.binding) && ValidText(k.identifier) && ValidText(k.identifierType)
  }
}
