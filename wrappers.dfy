/** Optional values: a missing header, a lookup that found nothing. */
module Wrappers {

  datatype Option<+T> = None | Some(value: T)
}

/** What a handler sends back: an HTTP status code and the `message` of its JSON body. */
module Http {

  /** Handlers whose body is a payload (a token, a document, a list) carry the empty message;
      the payload is returned beside the reply. */
  datatype Reply = Reply(status: nat, message: string)

  const OK: nat := 200
  const Created: nat := 201
  const BadRequest: nat := 400
  const Unauthorized: nat := 401
  const Forbidden: nat := 403
  const NotFound: nat := 404
  const ServerError: nat := 500

  const MsgUnauthorized := "Unauthorized"
  const MsgInvalidToken := "Invalid token"
  const MsgUserExists := "User already exists"
  const MsgInvalidCredentials := "Invalid email or password"
  const MsgInternal := "Internal server error"
  const MsgDocumentNotFound := "Document not found"
  const MsgNotOwner := "You do not own this document"
  const MsgUserNotFound := "User not found"
  const MsgAlreadyShared := "Document already shared with this user"
  const MsgShared := "Document shared successfully"
  const MsgDeleted := "Document deleted successfully"
}
