/**
 * eaptls_verify: classify a received EAP response, given the previous
 * round's request and response, into one of the inbound verdicts.
 *
 * `Verify` is the classifier the rest of the model uses; it reads a flag
 * byte only where one is present. `VerifyAsWritten` follows the C code
 * literally; its precondition lists every pointer and byte the code reads,
 * so the verifier exposes the reads that happen before (or without) the
 * NULL test.
 */
module Classifier {
  import opened Octets
  import opened Wrappers
  import opened EapTypes

  /** The checks that reject a packet before anything else is read. */
  predicate HeaderRejected(cur: Option<EapPacket>) {
    cur.None? || cur.value.code != PW_EAP_RESPONSE || cur.value.length < EAP_HEADER_LEN
    || cur.value.typ.kind != PW_EAP_TLS
  }

  /** An acknowledgement: EAP header plus type octet only, type data absent or its flag byte zero. */
  predicate AckShape(p: EapPacket) {
    p.length == EAP_HEADER_LEN + 1 && (FlagsOf(p).None? || FlagsOf(p) == Some(0))
  }

  /** The previous response exists and its flag byte has the M bit. */
  predicate PreviousHadMore(prev: Round) {
    prev.response.Some? && FlagsOf(prev.response.value).Some?
    && MoreFragmentsBit(FlagsOf(prev.response.value).value)
  }

  /**
   * The verdict for a response. The clauses below fix it uniquely: invalid
   * headers, acknowledgements whose id does not match the outstanding
   * request, missing flag bytes and a Start bit from the peer are Invalid;
   * otherwise the L bit decides whether the verdict carries a length and the
   * M bit whether more fragments follow, and the previous response's M bit
   * separates a first fragment from a later one that restates the length.
   */
  function Verify(cur: Option<EapPacket>, prev: Round): (s: Status)
    ensures IsInboundStatus(s)
    ensures HeaderRejected(cur) ==> s == Invalid
    ensures s == Ack <==>
      !HeaderRejected(cur) && AckShape(cur.value)
      && prev.request.Some? && prev.request.value.id == cur.value.id
    ensures !HeaderRejected(cur) && AckShape(cur.value) ==> s == Ack || s == Invalid
    ensures !HeaderRejected(cur) && !AckShape(cur.value) ==>
      (s == Invalid <==> FlagsOf(cur.value).None? || StartBit(FlagsOf(cur.value).value))
    ensures s != Invalid && s != Ack ==>
      FlagsOf(cur.value).Some? && !StartBit(FlagsOf(cur.value).value)
      && (IsLengthStatus(s) <==> LengthIncludedBit(FlagsOf(cur.value).value))
      && (IsFragmentStatus(s) <==> MoreFragmentsBit(FlagsOf(cur.value).value))
    ensures s == FirstFragment ==> !PreviousHadMore(prev)
    ensures s == MoreFragmentsWithLength ==> PreviousHadMore(prev)
  {
    if HeaderRejected(cur) then Invalid
    else
      var p := cur.value;
      if AckShape(p) then
        if prev.request.Some? && prev.request.value.id == p.id then Ack else Invalid
      else if FlagsOf(p).None? then Invalid
      else
        var flags := FlagsOf(p).value;
        if StartBit(flags) then Invalid
        else if LengthIncludedBit(flags) then
          if MoreFragmentsBit(flags) then
            if PreviousHadMore(prev) then MoreFragmentsWithLength else FirstFragment
          else LengthIncluded
        else if MoreFragmentsBit(flags) then MoreFragments
        else Ok
  }

  /**
   * What the C code reads once the header checks pass: the previous
   * response pointer (unconditionally), the current flag byte in the
   * acknowledgement test when type data is present, the previous request
   * for an acknowledgement, the current flag byte otherwise, and the
   * previous response's flag byte for an L+M packet.
   */
  predicate VerifyReadsSafe(cur: Option<EapPacket>, prev: Round) {
    HeaderRejected(cur)
    || (
      && prev.response.Some?
      && var p := cur.value;
      && (p.length == EAP_HEADER_LEN + 1 && p.typ.data.Some? ==> |p.typ.data.value| > 0)
      && (AckShape(p) ==> prev.request.Some?)
      && (!AckShape(p) ==> p.typ.data.Some? && |p.typ.data.value| > 0)
      && (!AckShape(p) && !StartBit(FlagsOf(p).value) && LengthIncludedBit(FlagsOf(p).value)
            && MoreFragmentsBit(FlagsOf(p).value)
          ==> FlagsOf(prev.response.value).Some?))
  }

  /** eaptls_verify exactly as written, including the NULL test that comes after the dereference. */
  function VerifyAsWritten(cur: Option<EapPacket>, prev: Round): (s: Status)
    requires VerifyReadsSafe(cur, prev)
    ensures IsInboundStatus(s)
  {
    if cur.None? then Invalid
    else
      var r := cur.value;
      if r.code != PW_EAP_RESPONSE || r.length < EAP_HEADER_LEN || r.typ.kind != PW_EAP_TLS then Invalid
      else
        var packet := r.typ.data;
        var previous := prev.response.value.typ.data;
        if r.length == EAP_HEADER_LEN + 1 && (packet.None? || packet.value[0] == 0) then
          if prev.request.value.id == r.id then Ack else Invalid
        else if StartBit(packet.value[0]) then Invalid
        else if LengthIncludedBit(packet.value[0]) then
          if MoreFragmentsBit(packet.value[0]) then
            if prev.response.None? || !MoreFragmentsBit(previous.value[0]) then FirstFragment
            else MoreFragmentsWithLength
          else LengthIncluded
        else if MoreFragmentsBit(packet.value[0]) then MoreFragments
        else Ok
  }

  /** Wherever the literal code reads only what exists, it classifies as `Verify` does. */
  lemma VerifyAsWrittenAgrees(cur: Option<EapPacket>, prev: Round)
    requires VerifyReadsSafe(cur, prev)
    ensures VerifyAsWritten(cur, prev) == Verify(cur, prev)
  {
  }

  /**
   * Without a previous response the literal code dereferences a NULL
   * pointer for every response that passes the header checks, so the test
   * for a missing previous response can never be reached; `Verify` takes
   * that branch and classifies an L+M response as the first fragment.
   */
  lemma NoPreviousResponseIsDereferenced(cur: EapPacket, request: Option<EapPacket>)
    requires !HeaderRejected(Some(cur))
    ensures !VerifyReadsSafe(Some(cur), Round(request, None))
    ensures !AckShape(cur) && FlagsOf(cur) == Some(0xC0) ==> Verify(Some(cur), Round(request, None)) == FirstFragment
  {
    if !AckShape(cur) && FlagsOf(cur) == Some(0xC0) {
      assert LengthIncludedBit(0xC0) && MoreFragmentsBit(0xC0) && !StartBit(0xC0);
    }
  }

  /**
   * A response longer than an acknowledgement whose type data is NULL makes
   * the literal code read the flag byte through the NULL pointer; `Verify`
   * rejects it as Invalid.
   */
  lemma MissingTypeDataIsDereferenced(cur: EapPacket, prev: Round)
    requires !HeaderRejected(Some(cur))
    requires cur.length != EAP_HEADER_LEN + 1 && cur.typ.data.None?
    ensures !VerifyReadsSafe(Some(cur), prev)
    ensures Verify(Some(cur), prev) == Invalid
  {
  }

  /** An acknowledgement with identifiers 7 and 7 is accepted; one with 8 against 7 is not. */
  lemma AckIdentifierExample(request: EapPacket, cur: EapPacket)
    requires request.id == 7 && !HeaderRejected(Some(cur)) && AckShape(cur)
    ensures cur.id == 7 ==> Verify(Some(cur), Round(Some(request), None)) == Ack
    ensures cur.id == 8 ==> Verify(Some(cur), Round(Some(request), None)) == Invalid
  {
  }
}
