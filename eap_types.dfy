/**
 * The values EAP-TLS framing works on: the outer EAP packet (section 4 of
 * RFC 3748), the normalised EAP-TLS packet of the module, the verdicts of
 * the classifier, and the flag byte `L M S R R R R R` of section 3.1 of
 * RFC 5216.
 */
module EapTypes {
  import opened Octets
  import opened Wrappers

  // EAP codes, section 4 of RFC 3748.
  const PW_EAP_REQUEST: uint8 := 1
  const PW_EAP_RESPONSE: uint8 := 2
  const PW_EAP_SUCCESS: uint8 := 3
  const PW_EAP_FAILURE: uint8 := 4

  // The EAP method type of EAP-TLS, section 3.1 of RFC 5216.
  const PW_EAP_TLS: uint8 := 13

  // Code, Identifier and Length of the outer EAP header.
  const EAP_HEADER_LEN := 4
  // The same four octets counted in the EAP-TLS packet's own length.
  const TLS_HEADER_LEN := 4

  /** The typed part of an EAP packet: method type, its length, and its data (NULL when absent). */
  datatype EapTypeData = EapTypeData(kind: uint8, length: nat, data: Option<seq<uint8>>)

  /** One EAP packet; `length` is the peer-supplied 16-bit Length field. */
  datatype EapPacket = EapPacket(code: uint8, id: uint8, length: uint16, typ: EapTypeData)

  /** The request and response of the previous round, either of which may be missing. */
  datatype Round = Round(request: Option<EapPacket>, response: Option<EapPacket>)

  /** The module's status values: the classifier's verdicts and the dispatcher's outcomes. */
  datatype Status =
    | Invalid | Request | Success | Fail | Noop | Start
    | Ok | Ack | FirstFragment | MoreFragments | LengthIncluded | MoreFragmentsWithLength

  /**
   * The code of an EAP-TLS packet: built replies carry one of the module's
   * status values, extracted packets carry the EAP code they arrived with.
   */
  datatype TlsCode = Kind(status: Status) | Wire(code: uint8)

  /** The normalised EAP-TLS packet: `length` counts code, id, length, flags and data. */
  datatype TlsPacket = TlsPacket(code: TlsCode, id: uint8, length: uint32, flags: uint8, dlen: uint32, data: seq<uint8>)

  // Flag bits, section 3.1 of RFC 5216.
  const FLAG_LENGTH_INCLUDED: uint8 := 0x80
  const FLAG_MORE_FRAGMENTS: uint8 := 0x40
  const FLAG_START: uint8 := 0x20

  /** One of the three flag bits this layer tests or sets. */
  predicate IsFlagBit(mask: uint8) {
    mask == FLAG_LENGTH_INCLUDED || mask == FLAG_MORE_FRAGMENTS || mask == FLAG_START
  }

  /** `flags & mask` is nonzero. */
  predicate HasFlag(flags: uint8, mask: uint8)
    requires IsFlagBit(mask)
  {
    (flags / mask) % 2 == 1
  }

  /** `flags | mask`. */
  function SetFlag(flags: uint8, mask: uint8): (r: uint8)
    requires IsFlagBit(mask)
    ensures HasFlag(r, mask)
  {
    if HasFlag(flags, mask) then flags else flags + mask
  }

  predicate LengthIncludedBit(flags: uint8) { HasFlag(flags, FLAG_LENGTH_INCLUDED) }
  predicate MoreFragmentsBit(flags: uint8) { HasFlag(flags, FLAG_MORE_FRAGMENTS) }
  predicate StartBit(flags: uint8) { HasFlag(flags, FLAG_START) }

  /** Setting one flag bit keeps the other two as they were. */
  lemma SetFlagKeepsOthers(flags: uint8, mask: uint8)
    requires IsFlagBit(mask)
    ensures LengthIncludedBit(SetFlag(flags, mask)) == (LengthIncludedBit(flags) || mask == FLAG_LENGTH_INCLUDED)
    ensures MoreFragmentsBit(SetFlag(flags, mask)) == (MoreFragmentsBit(flags) || mask == FLAG_MORE_FRAGMENTS)
    ensures StartBit(SetFlag(flags, mask)) == (StartBit(flags) || mask == FLAG_START)
  {
  }

  /** The zero flag byte has none of the three bits. */
  lemma NoFlagsInZero()
    ensures !LengthIncludedBit(0) && !MoreFragmentsBit(0) && !StartBit(0)
  {
  }

  /** The verdicts that carry the four-byte TLS Message Length field. */
  predicate IsLengthStatus(s: Status) {
    s == FirstFragment || s == LengthIncluded || s == MoreFragmentsWithLength
  }

  /** The verdicts the classifier can return for a received response. */
  predicate IsInboundStatus(s: Status) {
    s == Invalid || s == Ack || s == Ok || IsLengthStatus(s) || s == MoreFragments
  }

  /** The verdicts after which the peer still has fragments to send. */
  predicate IsFragmentStatus(s: Status) {
    s == FirstFragment || s == MoreFragments || s == MoreFragmentsWithLength
  }

  /** The EAP Identifier of the next request: one more than the response's, in 8 bits. */
  function NextId(id: uint8): (r: uint8)
    ensures r != id
    ensures id < 0xFF ==> r == id + 1
    ensures id == 0xFF ==> r == 0
  {
    Wrap8(id + 1)
  }

  /** The bytes present in a packet's type data; none when the pointer is NULL. */
  function TypeBytes(p: EapPacket): seq<uint8> {
    if p.typ.data.Some? then p.typ.data.value else []
  }

  /** The flag byte of a packet, when a byte is present to read it from. */
  function FlagsOf(p: EapPacket): (r: Option<uint8>)
    ensures r.Some? <==> |TypeBytes(p)| > 0
    ensures r.Some? ==> r.value == TypeBytes(p)[0]
  {
    if |TypeBytes(p)| > 0 then Some(TypeBytes(p)[0]) else None
  }

  /**
   * The outer EAP_DS of one round: the response just received and the
   * request the module writes its reply into.
   */
  class EapDs {
    var request: EapPacket
    var response: Option<EapPacket>

    constructor (request: EapPacket, response: Option<EapPacket>)
      ensures this.request == request && this.response == response
    {
      this.request := request;
      this.response := response;
    }
  }
}
