/** Why the system refuses a message, a target or a session. */
module Errors {
  datatype HttpError =
    | HeadTooLarge
    | TooManyHeaders
    | BadRequestLine
    | BadVersion
    | BadHeader
    | ObsFold
    | BadContentLength
    | BadTransferEncoding
    | ConflictingFraming
    | Upgrade
    | BadChunk
    | BodyTooLarge

  datatype TargetError =
    | NotOriginForm
    | ProtocolRelative
    | NonAscii
    | Fragment
    | DotSegment
    | EmptySegment
    | BadEscape
    | EncodedSeparator
    | QueryNotAllowed
    | TooLong

  datatype Leg = RequestLeg | ResponseLeg

  datatype Denied =
    | Method(name: string)
    | Target(reason: TargetError)
    | Header(name: string)
    | TooLarge(what: Leg, limit: nat)
    | Escape
    | NotFixedRequest
    | ExactResource

  datatype HandshakeError =
    | ClosedChannel
    | NotMethodAndTarget
    | UnexpectedMessage
    | TooManyBoundArgs
    | WrongDescriptorCount(count: nat)
    | ClosedBeforeHead
    | ClosedInBody(got: nat, wanted: nat)
    | NoContentLength

  datatype CoreError =
    | TransportFailed
    | Malformed
    | IoFailed
    | Handshake(handshake: HandshakeError)
    | Http(http: HttpError)
    | Denial(denied: Denied)
    | Upstream
    | Stopped  // not an error that is returned: the program stops at a slice out of range
}
