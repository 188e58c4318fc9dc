/** Telnet byte values: the command codes of RFC 854 and RFC 855 and the
    option codes the protocol engine knows about. */
module TelnetCodes {

  type byte = x: int | 0 <= x < 256

  const NUL: byte := 0
  const SGA: byte := 3
  const LF: byte := 10
  const CR: byte := 13
  const TTYPE: byte := 24
  const NAWS: byte := 31
  const MSSP: byte := 70
  const MCCP2: byte := 86
  const MCCP3: byte := 87
  const SE: byte := 240
  const NOP: byte := 241
  const SB: byte := 250
  const WILL: byte := 251
  const WONT: byte := 252
  const DO: byte := 253
  const DONT: byte := 254
  const IAC: byte := 255

  /** One of the four negotiation verbs WILL, WONT, DO, DONT. */
  predicate IsVerb(b: byte) {
    WILL <= b <= DONT
  }
}
