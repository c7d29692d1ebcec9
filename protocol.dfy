/** vex/protocal.go: the framing constants shared by requests and
    responses. A frame starts with a 6-byte header: the protocol version, a
    command or reply byte, and a 4-byte big-endian count. */
module Protocol {
  import opened Primitives

  const PROTOCOL_VERSION: byte := 1
  const HEADER_LENGTH: nat := 6
  const ARGS_LENGTH: nat := 4
  const ARG_LENGTH: nat := 4
  const BODY_LENGTH: nat := 4

  /** The reply bytes of vex/response.go. */
  const SUCCESS_REPLY: byte := 0
  const ERROR_REPLY: byte := 1
}
