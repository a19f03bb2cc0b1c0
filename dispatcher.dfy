/**
 * The dispatcher: eaptls_operation feeds a received packet into the
 * session's inbound buffer and either acknowledges a fragment or hands the
 * complete message to the TLS engine and sends the engine's reply;
 * eaptls_ack_handler decides what an acknowledgement from the peer calls
 * for.
 *
 * The TLS engine is a parameter: given the inbound data, the outbound
 * buffer and its info, it yields the new outbound buffer and info.
 */
module Dispatcher {
  import opened Octets
  import opened Wrappers
  import opened EapTypes
  import opened Sessions
  import opened Composer
  import Record

  /** tls_handshake_recv, seen from this layer: inbound data, outbound buffer, info in; outbound buffer, info out. */
  type Engine = (seq<uint8>, seq<uint8>, Info) -> (seq<uint8>, Info)

  /** Run the TLS engine on what the session has received. */
  method HandshakeRecv(ssn: Session, engine: Engine)
    modifies ssn`dirtyOut, ssn`info
    ensures (ssn.dirtyOut, ssn.info) == engine(ssn.dirtyIn, old(ssn.dirtyOut), old(ssn.info))
  {
    var result := engine(ssn.dirtyIn, ssn.dirtyOut, ssn.info);
    ssn.dirtyOut := result.0;
    ssn.info := result.1;
  }

  /**
   * What one packet does to dirty_in: while fragments follow its data is
   * kept after what came before; otherwise everything received so far goes
   * to the engine and dirty_in starts afresh.
   */
  function InboundStep(dirtyIn: seq<uint8>, data: seq<uint8>, status: Status): (r: (seq<uint8>, Option<seq<uint8>>))
    ensures r.1.None? <==> IsFragmentStatus(status)
    ensures r.1.None? ==> |r.0| == |dirtyIn| + |data| && r.0[..|dirtyIn|] == dirtyIn && r.0[|dirtyIn|..] == data
    ensures r.1.Some? ==> r.0 == [] && |r.1.value| == |dirtyIn| + |data| && r.1.value[..|dirtyIn|] == dirtyIn && r.1.value[|dirtyIn|..] == data
  {
    if IsFragmentStatus(status) then (dirtyIn + data, None) else ([], Some(dirtyIn + data))
  }

  /**
   * eaptls_operation. The packet's data always goes to the end of the
   * inbound buffer. While the peer has more fragments to send the reply is
   * an acknowledgement and the buffer keeps growing; otherwise the engine
   * gets everything received, its reply goes out as the next request, and
   * the inbound buffer is emptied.
   */
  method Operation(packet: TlsPacket, status: Status, handler: Handler, engine: Engine, allocOk: bool)
    requires handler.session != null && handler.eapDs.response.Some?
    requires packet.dlen <= |packet.data|
    requires handler.session.offset <= MAX_FRAGMENT_SIZE
    modifies handler.session, handler.eapDs
    ensures handler.eapDs.response == old(handler.eapDs.response)
    ensures handler.session.offset == old(handler.session.offset)
    ensures handler.session.dirtyIn == InboundStep(old(handler.session.dirtyIn), packet.data[..packet.dlen], status).0
    ensures IsFragmentStatus(status) ==>
      && handler.session.dirtyOut == old(handler.session.dirtyOut)
      && handler.session.info == old(handler.session.info)
      && handler.eapDs.request == Composed(old(handler.eapDs.request),
           AckReply(old(handler.eapDs.response).value.id), old(handler.eapDs.response), allocOk)
    ensures !IsFragmentStatus(status) ==>
      var received := InboundStep(old(handler.session.dirtyIn), packet.data[..packet.dlen], status).1.value;
      var answer := engine(received, old(handler.session.dirtyOut), old(handler.session.info));
      var f := NextFragment(answer.0, old(handler.session.offset));
      && handler.session.info == answer.1
      && handler.session.dirtyOut == f.rest
      && handler.eapDs.request == Composed(old(handler.eapDs.request),
           RequestReply(old(handler.eapDs.response).value.id, f), old(handler.eapDs.response), allocOk)
  {
    var ssn := handler.session;
    ssn.dirtyIn := Record.Plus(ssn.dirtyIn, packet.data, packet.dlen);
    if status == MoreFragments || status == MoreFragmentsWithLength || status == FirstFragment {
      var _ := SendAck(handler.eapDs, allocOk);
    } else {
      HandshakeRecv(ssn, engine);
      var _ := SendRequest(handler.eapDs, ssn, allocOk);
      ssn.dirtyIn := Record.Init();
    }
  }

  /** The session was used by the engine: it exists and its info has an origin. */
  predicate Engaged(ssn: Session?)
    reads ssn
  {
    ssn != null && ssn.info.origin != 0
  }

  /**
   * eaptls_ack_handler. Nothing to do without a session the engine has
   * used. After an alert the reply is EAP-Failure, after the Finished
   * handshake message EAP-Success, and in both cases the session is freed;
   * any other handshake message calls for nothing; any other content means
   * the peer acknowledged a fragment, and the next one goes out.
   */
  method AckHandler(handler: Handler, allocOk: bool) returns (s: Status)
    requires handler.eapDs.response.Some?
    requires handler.session != null ==> handler.session.offset <= MAX_FRAGMENT_SIZE
    modifies handler, handler.eapDs, handler.session
    ensures handler.eapDs.response == old(handler.eapDs.response)
    ensures !Engaged(old(handler.session)) ==>
      s == Noop && handler.session == old(handler.session) && unchanged(handler.eapDs)
    ensures Engaged(old(handler.session)) && old(handler.session.info.contentType) == CONTENT_ALERT ==>
      && s == Fail && handler.session == null
      && handler.eapDs.request == Composed(old(handler.eapDs.request),
           FailReply(old(handler.eapDs.response).value.id), old(handler.eapDs.response), allocOk)
    ensures Engaged(old(handler.session)) && old(handler.session.info.contentType) == CONTENT_HANDSHAKE ==>
      if old(handler.session.info.handshakeType) == HANDSHAKE_FINISHED then
        && s == Success && handler.session == null
        && handler.eapDs.request == Composed(old(handler.eapDs.request),
             SuccessReply(old(handler.eapDs.response).value.id), old(handler.eapDs.response), allocOk)
      else
        s == Noop && handler.session == old(handler.session) && unchanged(handler.eapDs)
    ensures Engaged(old(handler.session))
            && old(handler.session.info.contentType) != CONTENT_ALERT
            && old(handler.session.info.contentType) != CONTENT_HANDSHAKE ==>
      && s == Request && handler.session == old(handler.session)
      && handler.session.dirtyOut == NextFragment(old(handler.session.dirtyOut), old(handler.session.offset)).rest
      && handler.eapDs.request == Composed(old(handler.eapDs.request),
           RequestReply(old(handler.eapDs.response).value.id,
                        NextFragment(old(handler.session.dirtyOut), old(handler.session.offset))),
           old(handler.eapDs.response), allocOk)
    ensures old(handler.session) != null ==> unchanged(old(handler.session)`dirtyIn, old(handler.session)`info, old(handler.session)`offset)
    ensures s != Request && old(handler.session) != null ==> unchanged(old(handler.session))
  {
    var ssn := handler.session;
    if ssn == null || ssn.info.origin == 0 {
      return Noop;
    }
    if ssn.info.contentType == CONTENT_ALERT {
      var _ := SendFail(handler.eapDs, allocOk);
      handler.session := null;
      return Fail;
    } else if ssn.info.contentType == CONTENT_HANDSHAKE {
      if ssn.info.handshakeType == HANDSHAKE_FINISHED {
        var _ := SendSuccess(handler.eapDs, allocOk);
        handler.session := null;
        return Success;
      }
      return Noop;
    } else {
      var _ := SendRequest(handler.eapDs, ssn, allocOk);
      return Request;
    }
  }
}
