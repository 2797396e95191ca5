/** The results of library calls: success, or one of the error codes (lib/varlink.h). */
module Errors {
  datatype Outcome =
    | Success
    | ReadOnly
    | InvalidType
    | InvalidIndex
    | UnknownField
    | InvalidJson
    | InvalidInterface
    | MethodNotFound
    | InvalidCall
    | InvalidAddress
    | InvalidIdentifier
    | InvalidMessage
    | ConnectionClosed
    | SendingMessage
    | ReceivingMessage
}
