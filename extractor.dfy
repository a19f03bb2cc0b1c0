/**
 * eaptls_extract: slice a classified response into a normalised EAP-TLS
 * packet (code, id, length, flags, dlen, data).
 *
 * `Extract` is the extractor the rest of the model uses: it copies exactly
 * the TLS data the EAP Length field says this packet carries.
 * `ExtractAsWritten` follows the C code; its precondition is the condition
 * under which every byte it copies lies inside the received type data.
 */
module Extractor {
  import opened Octets
  import opened Wrappers
  import opened EapTypes

  /** eaptls_alloc: a zeroed packet, or NULL when memory runs out. */
  function Alloc(allocOk: bool): (r: Option<TlsPacket>)
    ensures r.Some? <==> allocOk
    ensures r.Some? ==> r.value.id == 0 && r.value.length == 0 && r.value.flags == 0
                        && r.value.dlen == 0 && r.value.data == []
  {
    if allocOk then Some(TlsPacket(Wire(0), 0, 0, 0, 0, [])) else None
  }

  /** Where the TLS data starts in the type data: after the flag byte, and after the length field when L is set. */
  function DataStart(status: Status): nat {
    if IsLengthStatus(status) then 5 else 1
  }

  /** The number of type-data bytes the EAP Length field declares. */
  function DeclaredTypeLength(p: EapPacket): int {
    p.length - EAP_HEADER_LEN - 1
  }

  /** The packet holds the EAP-TLS header its verdict implies, and the bytes the EAP Length declares. */
  predicate Extractable(p: EapPacket, status: Status) {
    && p.length >= EAP_HEADER_LEN + 1
    && (status != Ack ==> DataStart(status) <= DeclaredTypeLength(p) <= |TypeBytes(p)|)
  }

  /**
   * The normalised packet of a classified response. No packet for Invalid,
   * for a status the classifier never returns, for an allocation failure,
   * or for a packet too short for its header or shorter than its EAP
   * Length; otherwise code and id are copied, length is the EAP Length
   * less the type octet, an acknowledgement carries flags 0 and no data, and
   * any other packet carries its flag byte and exactly the TLS data between
   * its header and the end the EAP Length declares.
   */
  function Extract(cur: Option<EapPacket>, status: Status, allocOk: bool): (r: Option<TlsPacket>)
    ensures status == Invalid ==> r.None?
    ensures r.Some? <==>
      allocOk && cur.Some? && IsInboundStatus(status) && status != Invalid && Extractable(cur.value, status)
    ensures r.Some? ==>
      && r.value.code == Wire(cur.value.code) && r.value.id == cur.value.id
      && r.value.length == cur.value.length - 1
      && r.value.dlen == |r.value.data|
    ensures r.Some? && status == Ack ==> r.value.flags == 0 && r.value.data == []
    ensures r.Some? && status != Ack ==>
      && r.value.flags == TypeBytes(cur.value)[0]
      && DataStart(status) + |r.value.data| == DeclaredTypeLength(cur.value)
      && TypeBytes(cur.value)[DataStart(status)..][..|r.value.data|] == r.value.data
  {
    if status == Invalid || !IsInboundStatus(status) || cur.None? || Alloc(allocOk).None? then None
    else
      var p := cur.value;
      if !Extractable(p, status) then None
      else if status == Ack then
        Some(TlsPacket(Wire(p.code), p.id, p.length - 1, 0, 0, []))
      else
        var bytes := TypeBytes(p);
        var data := bytes[DataStart(status)..DeclaredTypeLength(p)];
        Some(TlsPacket(Wire(p.code), p.id, p.length - 1, bytes[0], |data|, data))
  }

  /**
   * The bytes the C code reads when the verdict is not Invalid and the
   * allocation succeeds: the response, the flag byte unless Ack, the four
   * length octets and then as many data octets as they say for the L
   * verdicts, EAP Length minus 5 octets after the flag byte for
   * MoreFragments and Ok, and for every other verdict (Ack among them) as
   * many octets from NULL as the uninitialised `data_len` happens to hold.
   */
  predicate ExtractReadsSafe(cur: Option<EapPacket>, status: Status, allocOk: bool, uninitialised: uint32) {
    status == Invalid || !allocOk
    || (
      && cur.Some?
      && var bytes := TypeBytes(cur.value);
      && (status != Ack ==> cur.value.typ.data.Some? && |bytes| >= 1)
      && (IsLengthStatus(status) ==> |bytes| >= 5 && 5 + FromBigEndian32(bytes[1..5]) <= |bytes|)
      && (status == MoreFragments || status == Ok ==> 1 + Wrap32(cur.value.length - 5) <= |bytes|)
      && (!IsLengthStatus(status) && status != MoreFragments && status != Ok ==> uninitialised == 0))
  }

  /**
   * eaptls_extract exactly as written. `uninitialised` stands for the value
   * `data_len` holds when the switch takes its default branch.
   */
  function ExtractAsWritten(cur: Option<EapPacket>, status: Status, allocOk: bool, uninitialised: uint32): (r: Option<TlsPacket>)
    requires ExtractReadsSafe(cur, status, allocOk, uninitialised)
    ensures r.Some? ==> r.value.dlen == |r.value.data|
  {
    if status == Invalid then None
    else if Alloc(allocOk).None? then None
    else
      var resp := cur.value;
      var flags := if status == Ack then 0 else resp.typ.data.value[0];
      var dataLen: uint32 :=
        if IsLengthStatus(status) then FromBigEndian32(resp.typ.data.value[1..5])
        else if status == MoreFragments || status == Ok then Wrap32(resp.length - 5)
        else uninitialised;
      var start := if IsLengthStatus(status) then 5 else 1;
      var copied := if dataLen == 0 then [] else resp.typ.data.value[start..start + dataLen];
      Some(TlsPacket(Wire(resp.code), resp.id, Wrap32(resp.length - 1), flags, dataLen, copied))
  }
}
