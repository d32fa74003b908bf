/** The errors the wallet API reports, and the reply of a mutating request. */
module Errors {
  /** Request fields a serializer validates. */
  datatype Field = Amount | WalletTo

  /** The API errors; the first three carry the `detail` message quoted beside them. */
  datatype ApiError =
    | WalletNotFound                    // "Wallet not found": a name that resolves to no wallet
    | WrongAmount                       // "Wrong amount": a refused amount or a failed balance constraint
    | WrongDateFormat                   // "Wrong date format": a history bound that is not a timestamp
    | InvalidFields(fields: seq<Field>) // per-field validation errors of a serializer

  /** A mutating request either creates its transaction or is rejected. */
  datatype Reply = Created | Rejected(error: ApiError)
}
