/**
 * Laws across the components: a response framed by a peer as section 3.1
 * of RFC 5216 prescribes is classified by its flags and extracted back to
 * its TLS data; a request the composer built, echoed back, extracts to the
 * fragment it carried; a message a peer sends in fragments reaches the TLS
 * engine whole; and the literal extraction reads past the received type
 * data on inputs a conforming peer sends.
 */
module Laws {
  import opened Octets
  import opened Wrappers
  import opened EapTypes
  import opened Classifier
  import opened Extractor
  import opened Composer
  import opened Dispatcher
  import Record

  /** EAP-TLS type data: the flag byte, the four-octet TLS Message Length when given, then the TLS data. */
  function TypeData(flags: uint8, tlsLength: Option<uint32>, payload: seq<uint8>): (t: seq<uint8>)
    ensures |t| == (if tlsLength.Some? then 5 else 1) + |payload|
    ensures t[0] == flags && t[|t| - |payload|..] == payload
    ensures tlsLength.Some? ==> FromBigEndian32(t[1..5]) == tlsLength.value
  {
    var t := [flags] + (if tlsLength.Some? then BigEndian32(tlsLength.value) else []) + payload;
    assert t[|t| - |payload|..] == payload;
    if tlsLength.Some? then
      assert t[1..5] == BigEndian32(tlsLength.value);
      BigEndian32RoundTrip(tlsLength.value);
      t
    else
      t
  }

  /** The type data and its EAP header fit the 16-bit EAP Length. */
  predicate FitsEapLength(flags: uint8, tlsLength: Option<uint32>, payload: seq<uint8>) {
    EAP_HEADER_LEN + 1 + |TypeData(flags, tlsLength, payload)| <= 0xFFFF
  }

  /** An EAP-Response carrying EAP-TLS type data, its EAP Length counting header, type octet and type data. */
  function FrameResponse(id: uint8, flags: uint8, tlsLength: Option<uint32>, payload: seq<uint8>): (p: EapPacket)
    requires FitsEapLength(flags, tlsLength, payload)
    ensures p.code == PW_EAP_RESPONSE && p.id == id && p.typ.kind == PW_EAP_TLS
    ensures TypeBytes(p) == TypeData(flags, tlsLength, payload)
    ensures p.length == EAP_HEADER_LEN + 1 + |TypeBytes(p)|
  {
    var t := TypeData(flags, tlsLength, payload);
    EapPacket(PW_EAP_RESPONSE, id, EAP_HEADER_LEN + 1 + |t|, EapTypeData(PW_EAP_TLS, |t|, Some(t)))
  }

  /**
   * A framed response without the S bit, whose L bit says whether the
   * length field is there, is never Invalid nor an acknowledgement; its
   * verdict carries a length exactly when L is set and expects more
   * fragments exactly when M is set; and extraction returns its flag byte
   * and exactly its TLS data.
   */
  lemma ResponseRoundTrip(id: uint8, flags: uint8, tlsLength: Option<uint32>, payload: seq<uint8>, prev: Round)
    requires FitsEapLength(flags, tlsLength, payload)
    requires !StartBit(flags) && (LengthIncludedBit(flags) <==> tlsLength.Some?)
    ensures var p := FrameResponse(id, flags, tlsLength, payload);
      var s := Verify(Some(p), prev);
      && s != Invalid && s != Ack
      && (IsLengthStatus(s) <==> LengthIncludedBit(flags))
      && (IsFragmentStatus(s) <==> MoreFragmentsBit(flags))
      && Extract(Some(p), s, true) == Some(TlsPacket(Wire(PW_EAP_RESPONSE), id, p.length - 1, flags, |payload|, payload))
  {
    var p := FrameResponse(id, flags, tlsLength, payload);
    var t := TypeBytes(p);
    assert !AckShape(p);
    var s := Verify(Some(p), prev);
    assert DataStart(s) == |t| - |payload|;
    assert Extractable(p, s);
    assert t[DataStart(s)..DeclaredTypeLength(p)] == payload;
  }

  /** The response a transport would carry with a composed request's type data. */
  function Echo(request: EapPacket): (p: EapPacket)
    requires request.typ.data.Some? && EAP_HEADER_LEN + 1 + |request.typ.data.value| <= 0xFFFF
    ensures p.code == PW_EAP_RESPONSE && p.id == request.id && p.typ == request.typ
  {
    EapPacket(PW_EAP_RESPONSE, request.id, EAP_HEADER_LEN + 1 + |request.typ.data.value|, request.typ)
  }

  /** The largest fragment whose request still fits the 16-bit EAP Length. */
  const MAX_EAP_FRAGMENT := 0xFFFF - EAP_HEADER_LEN - 1 - 1 - 4

  /**
   * A request carrying the next fragment of the outbound buffer, echoed
   * back, is classified as carrying a length, and extracts to exactly the
   * fragment's bytes.
   */
  lemma ComposedRequestRoundTrip(request: EapPacket, response: EapPacket, out: seq<uint8>, offset: uint32, prev: Round)
    requires offset <= MAX_EAP_FRAGMENT
    ensures var f := NextFragment(out, offset);
      var r := Composed(request, RequestReply(response.id, f), Some(response), true);
      r.typ.data.Some? && EAP_HEADER_LEN + 1 + |r.typ.data.value| <= 0xFFFF
      && var s := Verify(Some(Echo(r)), prev);
      && IsLengthStatus(s) && (IsFragmentStatus(s) <==> MoreFragmentsBit(f.flags))
      && Extract(Some(Echo(r)), s, true).Some?
      && Extract(Some(Echo(r)), s, true).value.data == f.chunk
  {
    var f := NextFragment(out, offset);
    var reply := RequestReply(response.id, f);
    FramedReplyComposesExactly(request, reply, Some(response));
    var r := Composed(request, reply, Some(response), true);
    var t := TypeData(f.flags, Some(|f.chunk|), f.chunk);
    assert r.typ.data.value == [f.flags] + reply.data;
    assert reply.data == BigEndian32(|f.chunk|) + f.chunk;
    assert r.typ.data.value == t;
    assert Echo(r) == FrameResponse(r.id, f.flags, Some(|f.chunk|), f.chunk);
    ResponseRoundTrip(r.id, f.flags, Some(|f.chunk|), f.chunk, prev);
  }

  /**
   * Run responses through classification, extraction and the dispatcher's
   * inbound step, each classified against the one before it; the message
   * the engine receives, if one is completed before a packet is refused.
   */
  function Receive(dirtyIn: seq<uint8>, responses: seq<EapPacket>, prev: Round): Option<seq<uint8>>
    decreases |responses|
  {
    if responses == [] then None
    else
      var p := responses[0];
      var s := Verify(Some(p), prev);
      var tls := Extract(Some(p), s, true);
      if tls.None? then None
      else
        var step := InboundStep(dirtyIn, tls.value.data, s);
        if step.1.Some? then step.1
        else Receive(step.0, responses[1..], Round(prev.request, Some(p)))
  }

  /** The flags a peer puts on a fragment: L on the first only, when it sends the length, and M while more follow. */
  function PeerFlags(withLength: bool, more: bool): (flags: uint8)
    ensures LengthIncludedBit(flags) == withLength && MoreFragmentsBit(flags) == more && !StartBit(flags)
  {
    NoFlagsInZero();
    var l := if withLength then SetFlag(0, FLAG_LENGTH_INCLUDED) else 0;
    SetFlagKeepsOthers(0, FLAG_LENGTH_INCLUDED);
    SetFlagKeepsOthers(l, FLAG_MORE_FRAGMENTS);
    if more then SetFlag(l, FLAG_MORE_FRAGMENTS) else l
  }

  /**
   * The responses a peer sends for the message `out` cut at `offset` bytes,
   * per section 2.1.5 of RFC 5216: the TLS Message Length on the first
   * fragment when `tlsLength` is given, M on all but the last.
   */
  function PeerResponses(id: uint8, out: seq<uint8>, offset: uint32, tlsLength: Option<uint32>): (ps: seq<EapPacket>)
    requires 0 < offset <= MAX_EAP_FRAGMENT
    ensures |ps| >= 1
    decreases |out|
  {
    var f := NextFragment(out, offset);
    var p := FrameResponse(id, PeerFlags(tlsLength.Some?, |f.rest| > 0), tlsLength, f.chunk);
    if |f.rest| == 0 then [p] else [p] + PeerResponses(NextId(id), f.rest, offset, None)
  }

  /**
   * Fragmentation and reassembly: whatever the fragment size, the bytes a
   * peer sends in fragments are appended to dirty_in in order, and once the
   * last fragment arrives the engine receives exactly what was there before
   * followed by the whole message.
   */
  lemma {:induction false} Reassembly(dirtyIn: seq<uint8>, id: uint8, out: seq<uint8>, offset: uint32,
                                      tlsLength: Option<uint32>, prev: Round)
    requires 0 < offset <= MAX_EAP_FRAGMENT
    ensures Receive(dirtyIn, PeerResponses(id, out, offset, tlsLength), prev) == Some(dirtyIn + out)
    decreases |out|
  {
    var f := NextFragment(out, offset);
    var flags := PeerFlags(tlsLength.Some?, |f.rest| > 0);
    var p := FrameResponse(id, flags, tlsLength, f.chunk);
    var ps := PeerResponses(id, out, offset, tlsLength);
    ResponseRoundTrip(id, flags, tlsLength, f.chunk, prev);
    assert ps[0] == p;
    if |f.rest| > 0 {
      Reassembly(dirtyIn + f.chunk, NextId(id), f.rest, offset, None, Round(prev.request, Some(p)));
      assert ps[1..] == PeerResponses(NextId(id), f.rest, offset, None);
      assert dirtyIn + f.chunk + f.rest == dirtyIn + out;
    }
  }

  /** A whole message sent by a conforming peer reaches the engine as it was sent. */
  lemma MessageReachesEngine(id: uint8, message: seq<uint8>, offset: uint32)
    requires 0 < offset <= MAX_EAP_FRAGMENT && |message| < UINT32_MODULUS
    ensures Receive([], PeerResponses(id, message, offset, Some(|message|)), Round(None, None)) == Some(message)
  {
    Reassembly([], id, message, offset, Some(|message|), Round(None, None));
    assert [] + message == message;
  }

  /**
   * A first fragment whose TLS Message Length, as section 2.1.5 of RFC 5216
   * has it, is the whole message's size makes the literal extraction copy
   * that many bytes from a packet that carries fewer.
   */
  lemma TotalLengthFieldOverReads(id: uint8, total: uint32, chunk: seq<uint8>, prev: Round, uninitialised: uint32)
    requires total > |chunk|
    requires FitsEapLength(PeerFlags(true, true), Some(total), chunk)
    ensures var p := FrameResponse(id, PeerFlags(true, true), Some(total), chunk);
      var s := Verify(Some(p), prev);
      && IsLengthStatus(s) && IsFragmentStatus(s)
      && !ExtractReadsSafe(Some(p), s, true, uninitialised)
      && Extract(Some(p), s, true).value.data == chunk
  {
    ResponseRoundTrip(id, PeerFlags(true, true), Some(total), chunk, prev);
  }

  /** When the length field counts exactly the bytes the packet carries, the literal extraction agrees with `Extract`. */
  lemma FragmentLengthFieldAgrees(id: uint8, more: bool, chunk: seq<uint8>, prev: Round, uninitialised: uint32)
    requires |chunk| <= MAX_EAP_FRAGMENT
    ensures var p := FrameResponse(id, PeerFlags(true, more), Some(|chunk|), chunk);
      var s := Verify(Some(p), prev);
      && ExtractReadsSafe(Some(p), s, true, uninitialised)
      && ExtractAsWritten(Some(p), s, true, uninitialised) == Extract(Some(p), s, true)
  {
    var p := FrameResponse(id, PeerFlags(true, more), Some(|chunk|), chunk);
    ResponseRoundTrip(id, PeerFlags(true, more), Some(|chunk|), chunk, prev);
    var t := TypeBytes(p);
    assert t[5..5 + |chunk|] == chunk;
  }

  /**
   * For MoreFragments and Ok the literal extraction copies EAP Length minus
   * 5 bytes starting after the flag byte: one byte more than the packet
   * carries. When the received buffer holds a byte beyond what the EAP
   * Length declares, that byte ends up in the extracted data.
   */
  lemma NoLengthCopyReadsOneMore(id: uint8, more: bool, payload: seq<uint8>, extra: uint8, prev: Round, uninitialised: uint32)
    requires FitsEapLength(PeerFlags(false, more), None, payload)
    ensures var p := FrameResponse(id, PeerFlags(false, more), None, payload);
      var s := Verify(Some(p), prev);
      && (s == MoreFragments || s == Ok)
      && !ExtractReadsSafe(Some(p), s, true, uninitialised)
      && var padded := p.(typ := p.typ.(data := Some(TypeBytes(p) + [extra])));
      && s == Verify(Some(padded), prev)
      && ExtractReadsSafe(Some(padded), s, true, uninitialised)
      && ExtractAsWritten(Some(padded), s, true, uninitialised).value.data == payload + [extra]
      && Extract(Some(padded), s, true).value.data == payload
  {
    var flags := PeerFlags(false, more);
    var p := FrameResponse(id, flags, None, payload);
    ResponseRoundTrip(id, flags, None, payload, prev);
    var t := TypeBytes(p);
    var padded := p.(typ := p.typ.(data := Some(t + [extra])));
    assert TypeBytes(padded) == t + [extra];
    assert FlagsOf(padded) == FlagsOf(p);
    assert !AckShape(padded);
    var s := Verify(Some(p), prev);
    assert t[1..] == payload;
    assert (t + [extra])[1..1 + |t|] == payload + [extra];
    assert (t + [extra])[1..|t|] == payload;
  }

  /**
   * For an acknowledgement the literal extraction leaves `data_len`
   * unset: it copies that many bytes from an absent buffer unless it
   * happens to be 0, in which case it agrees with `Extract`.
   */
  lemma AckDataLengthUnset(ack: EapPacket, prev: Round, uninitialised: uint32)
    requires Verify(Some(ack), prev) == Ack
    ensures uninitialised != 0 ==> !ExtractReadsSafe(Some(ack), Ack, true, uninitialised)
    ensures ExtractReadsSafe(Some(ack), Ack, true, 0)
    ensures ExtractAsWritten(Some(ack), Ack, true, 0) == Extract(Some(ack), Ack, true)
    ensures Extract(Some(ack), Ack, true) == Some(TlsPacket(Wire(PW_EAP_RESPONSE), ack.id, EAP_HEADER_LEN, 0, 0, []))
  {
  }

  /**
   * The fragment acknowledgement of section 3.1 of RFC 5216 carries a zero
   * flag byte and so has EAP Length 6; the classifier takes an
   * acknowledgement to be EAP Length 5, and classifies the former as a
   * complete message with no data.
   */
  lemma RfcAckIsClassifiedOk(id: uint8, prev: Round)
    ensures var p := FrameResponse(id, 0, None, []);
      p.length == 6 && Verify(Some(p), prev) == Ok
      && Extract(Some(p), Ok, true).value.data == []
  {
    NoFlagsInZero();
    ResponseRoundTrip(id, 0, None, [], prev);
  }

  /**
   * A first fragment of 300 bytes of a 1000-byte message, id 5, no previous
   * response: a first fragment; its 300 bytes join dirty_in; the
   * acknowledgement goes out with id 6; the literal extraction would copy
   * 1000 bytes.
   */
  lemma FirstFragmentExample(chunk: seq<uint8>, dirtyIn: seq<uint8>, request: EapPacket, allocOk: bool)
    requires |chunk| == 300
    ensures var p := FrameResponse(5, 0xC0, Some(1000), chunk);
      var s := Verify(Some(p), Round(None, None));
      var tls := Extract(Some(p), s, true);
      && s == FirstFragment
      && tls.Some? && tls.value.dlen == 300 && tls.value.data == chunk
      && Record.Plus(dirtyIn, tls.value.data, tls.value.dlen) == dirtyIn + chunk
      && Composed(request, AckReply(5), Some(p), allocOk).id == 6
      && !ExtractReadsSafe(Some(p), s, true, 0)
  {
    assert PeerFlags(true, true) == 0xC0;
    TotalLengthFieldOverReads(5, 1000, chunk, Round(None, None), 0);
    var p := FrameResponse(5, 0xC0, Some(1000), chunk);
    assert !PreviousHadMore(Round(None, None));
  }
}
