/**
 * The per-attempt TLS session the module mutates, and the EAP handler that
 * holds it. The TLS engine's classification context `info` is kept as the
 * three fields the acknowledgement handler reads.
 */
module Sessions {
  import opened Octets
  import opened EapTypes
  import opened Wrappers

  // TLS record content types and handshake message type, section 6.2.1
  // and section 7.4 of RFC 2246.
  const CONTENT_ALERT: uint8 := 21
  const CONTENT_HANDSHAKE: uint8 := 22
  const HANDSHAKE_FINISHED: uint8 := 20

  /** What the TLS engine last saw: whether it saw anything, the record content type, the handshake type. */
  datatype Info = Info(origin: uint8, contentType: uint8, handshakeType: uint8)

  /** tls_session_t: inbound and outbound dirty buffers, the fragment size and the engine's info. */
  class Session {
    var dirtyIn: seq<uint8>
    var dirtyOut: seq<uint8>
    var offset: uint32
    var info: Info

    constructor (offset: uint32, info: Info)
      ensures this.dirtyIn == [] && this.dirtyOut == []
      ensures this.offset == offset && this.info == info
    {
      this.dirtyIn := [];
      this.dirtyOut := [];
      this.offset := offset;
      this.info := info;
    }
  }

  /** EAP_HANDLER: the session pointer held as `opaque` (NULL once freed) and the current EAP_DS. */
  class Handler {
    var session: Session?
    const eapDs: EapDs

    constructor (eapDs: EapDs, session: Session?)
      ensures this.eapDs == eapDs && this.session == session
    {
      this.eapDs := eapDs;
      this.session := session;
    }
  }
}
