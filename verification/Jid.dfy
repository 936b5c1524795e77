/** WhatsApp identifiers (types/jid.go). */
module Jids {
  import opened Bytes

  const DEFAULT_USER_SERVER: Bytes := Ascii("s.whatsapp.net")
  const HIDDEN_USER_SERVER: Bytes := Ascii("lid")
  const MESSENGER_SERVER: Bytes := Ascii("msgr")
  const INTEROP_SERVER: Bytes := Ascii("interop")
  const HOSTED_SERVER: Bytes := Ascii("hosted")
  const HOSTED_LID_SERVER: Bytes := Ascii("hosted.lid")

  const WHATSAPP_DOMAIN: Byte := 0
  const LID_DOMAIN: Byte := 1
  const HOSTED_DOMAIN: Byte := 128
  const HOSTED_LID_DOMAIN: Byte := 129

  type Uint16 = x: int | 0 <= x < 0x1_0000

  datatype JID = JID(user: Bytes, rawAgent: Byte, device: Uint16, integrator: Uint16, server: Bytes) {
    function ActualAgent(): Byte {
      if server == DEFAULT_USER_SERVER then WHATSAPP_DOMAIN
      else if server == HIDDEN_USER_SERVER then LID_DOMAIN
      else if server == HOSTED_SERVER then HOSTED_DOMAIN
      else if server == HOSTED_LID_SERVER then HOSTED_LID_DOMAIN
      else rawAgent
    }
  }

  function NewJID(user: Bytes, server: Bytes): JID {
    JID(user, 0, 0, 0, server)
  }

  /** An agent that names no domain keeps the agent and leaves the server empty. */
  function NewADJID(user: Bytes, agent: Byte, device: Byte): JID {
    if agent == LID_DOMAIN then JID(user, 0, device, 0, HIDDEN_USER_SERVER)
    else if agent == HOSTED_DOMAIN then JID(user, 0, device, 0, HOSTED_SERVER)
    else if agent == HOSTED_LID_DOMAIN then JID(user, 0, device, 0, HOSTED_LID_SERVER)
    else if agent == WHATSAPP_DOMAIN then JID(user, 0, device, 0, DEFAULT_USER_SERVER)
    else JID(user, agent, device, 0, [])
  }
}
