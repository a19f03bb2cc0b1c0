/**
 * The outbound side: eaptls_compose serialises a reply into the outgoing
 * EAP request; eaptls_start, eaptls_success, eaptls_fail and
 * eaptls_send_ack build replies without data; eaptls_request cuts the next
 * fragment off the session's outbound buffer.
 *
 * A reply is framed when its length is the TLS header, the flag byte and
 * its data, as the layout comment of the source says; only framed replies
 * fit the buffer compose allocates. The replies without data as the source
 * builds them for Success, Fail and Ack are not framed
 * (`HeaderOnlyReplyAsWritten`); the model's builders use the framed length.
 */
module Composer {
  import opened Octets
  import opened Wrappers
  import opened EapTypes
  import opened Sessions
  import Record

  /** The EAP code the reply goes out with. */
  function OuterCode(code: TlsCode): (c: uint8)
    ensures c == PW_EAP_REQUEST <==> code == Kind(Ack) || code == Kind(Start) || code == Kind(Request)
    ensures c == PW_EAP_SUCCESS <==> code == Kind(Success)
    ensures c == PW_EAP_FAILURE <==> !(code == Kind(Ack) || code == Kind(Start) || code == Kind(Request) || code == Kind(Success))
  {
    match code
    case Kind(Ack) => PW_EAP_REQUEST
    case Kind(Start) => PW_EAP_REQUEST
    case Kind(Request) => PW_EAP_REQUEST
    case Kind(Success) => PW_EAP_SUCCESS
    case Kind(Fail) => PW_EAP_FAILURE
    case _ => PW_EAP_FAILURE
  }

  /** The outgoing identifier: the reply's own when nonzero, else one more than the response's. */
  function OutgoingId(replyId: uint8, response: Option<EapPacket>): (id: uint8)
    requires replyId == 0 ==> response.Some?
    ensures id != 0 || replyId == 0
    ensures replyId == 0 ==> id == NextId(response.value.id)
    ensures replyId != 0 ==> id == replyId
  {
    if replyId != 0 then replyId else NextId(response.value.id)
  }

  /** The buffer of `length - 4` octets holds the flag byte and the `dlen` data octets written into it. */
  predicate BufferFits(reply: TlsPacket) {
    reply.length >= 4 && 1 + reply.dlen <= reply.length - 4 && reply.dlen <= |reply.data|
  }

  /** The length counts the TLS header, the flag byte and the data, and `dlen` is the data's size. */
  predicate Framed(reply: TlsPacket) {
    reply.length == TLS_HEADER_LEN + 1 + reply.dlen && reply.dlen == |reply.data|
  }

  /** The request compose leaves behind, given the request before, the reply and the response. */
  function Composed(request: EapPacket, reply: TlsPacket, response: Option<EapPacket>, allocOk: bool): (r: EapPacket)
    requires reply.id == 0 ==> response.Some?
    requires allocOk ==> BufferFits(reply)
    ensures r.typ.kind == PW_EAP_TLS && r.length == request.length
    ensures r.id == OutgoingId(reply.id, response)
    ensures !allocOk ==> r.code == request.code && r.typ.length == request.typ.length && r.typ.data.None?
    ensures allocOk ==> r.code == OuterCode(reply.code) && r.typ.length == reply.length - 4
    ensures allocOk ==> r.typ.data.Some? && r.typ.data.value == [reply.flags] + reply.data[..reply.dlen]
  {
    var typed := request.typ.(kind := PW_EAP_TLS);
    if !allocOk then
      request.(id := OutgoingId(reply.id, response), typ := typed.(data := None))
    else
      request.(id := OutgoingId(reply.id, response), code := OuterCode(reply.code),
               typ := typed.(length := reply.length - 4, data := Some([reply.flags] + reply.data[..reply.dlen])))
  }

  /** eaptls_compose. `allocOk` says whether the type-data allocation succeeds. */
  method Compose(eapDs: EapDs, reply: TlsPacket, allocOk: bool) returns (ok: bool)
    requires reply.id == 0 ==> eapDs.response.Some?
    requires allocOk ==> BufferFits(reply)
    modifies eapDs
    ensures ok == allocOk
    ensures eapDs.response == old(eapDs.response)
    ensures eapDs.request == Composed(old(eapDs.request), reply, old(eapDs.response), allocOk)
  {
    eapDs.request := eapDs.request.(typ := eapDs.request.typ.(kind := PW_EAP_TLS));
    var id := if reply.id != 0 then reply.id else NextId(eapDs.response.value.id);
    eapDs.request := eapDs.request.(id := id);
    if !allocOk {
      eapDs.request := eapDs.request.(typ := eapDs.request.typ.(data := None));
      return false;
    }
    var buffer := [reply.flags] + reply.data[..reply.dlen];
    eapDs.request := eapDs.request.(typ := eapDs.request.typ.(length := reply.length - 4, data := Some(buffer)));
    eapDs.request := eapDs.request.(code := OuterCode(reply.code));
    return true;
  }

  /** A framed reply fits its buffer, and the request then carries exactly its flag byte and data. */
  lemma FramedReplyComposesExactly(request: EapPacket, reply: TlsPacket, response: Option<EapPacket>)
    requires Framed(reply)
    requires reply.id == 0 ==> response.Some?
    ensures BufferFits(reply)
    ensures var r := Composed(request, reply, response, true);
      && r.typ.data.Some? && r.typ.length == |r.typ.data.value| == 1 + |reply.data|
      && r.typ.data.value[0] == reply.flags && r.typ.data.value[1..] == reply.data
  {
    var r := Composed(request, reply, response, true);
    assert reply.data[..reply.dlen] == reply.data;
    assert r.typ.data.value[1..] == reply.data;
  }

  /**
   * A reply whose id is one more than the response's goes out with that id,
   * also when the increment wraps to 0 and compose falls back to computing it.
   */
  lemma ComposedIdFollowsResponse(request: EapPacket, reply: TlsPacket, response: EapPacket, allocOk: bool)
    requires reply.id == NextId(response.id)
    requires allocOk ==> BufferFits(reply)
    ensures Composed(request, reply, Some(response), allocOk).id == NextId(response.id)
  {
  }

  /** A reply without data: id one more than the response's, length counting header and flag byte. */
  function EmptyReply(code: Status, responseId: uint8, flags: uint8): (r: TlsPacket)
    ensures Framed(r) && r.data == [] && r.id == NextId(responseId) && r.code == Kind(code)
  {
    TlsPacket(Kind(code), NextId(responseId), TLS_HEADER_LEN + 1, flags, 0, [])
  }

  /** The EAP-TLS Start: the only reply with the S bit. */
  function StartReply(responseId: uint8): (r: TlsPacket)
    ensures Framed(r) && r.data == [] && r.id == NextId(responseId) && r.code == Kind(Start)
    ensures StartBit(r.flags) && !LengthIncludedBit(r.flags) && !MoreFragmentsBit(r.flags)
  {
    SetFlagKeepsOthers(0, FLAG_START);
    EmptyReply(Start, responseId, SetFlag(0, FLAG_START))
  }

  function SuccessReply(responseId: uint8): (r: TlsPacket)
    ensures Framed(r) && r.data == [] && r.id == NextId(responseId) && r.code == Kind(Success) && r.flags == 0
  {
    EmptyReply(Success, responseId, 0)
  }

  function FailReply(responseId: uint8): (r: TlsPacket)
    ensures Framed(r) && r.data == [] && r.id == NextId(responseId) && r.code == Kind(Fail) && r.flags == 0
  {
    EmptyReply(Fail, responseId, 0)
  }

  /** The fragment acknowledgement: an EAP-Request carrying only a zero flag byte. */
  function AckReply(responseId: uint8): (r: TlsPacket)
    ensures Framed(r) && r.data == [] && r.id == NextId(responseId) && r.code == Kind(Ack) && r.flags == 0
  {
    EmptyReply(Ack, responseId, 0)
  }

  /** Success, Fail and Ack as the source builds them: length is the TLS header alone. */
  function HeaderOnlyReplyAsWritten(code: Status, responseId: uint8): (r: TlsPacket)
    ensures r.length == TLS_HEADER_LEN && r.dlen == 0
  {
    TlsPacket(Kind(code), NextId(responseId), TLS_HEADER_LEN, 0, 0, [])
  }

  /**
   * With a four-octet TLS header the source's Success, Fail and Ack replies
   * get a buffer of no octets, into which compose still writes the flag byte.
   */
  lemma HeaderOnlyRepliesOverflow(code: Status, responseId: uint8)
    ensures var r := HeaderOnlyReplyAsWritten(code, responseId);
      r.length - 4 == 0 && !BufferFits(r)
    ensures BufferFits(EmptyReply(code, responseId, 0))
  {
  }

  /** The largest fragment for which the reply's dlen and length (4 + size, 5 + TLS header + size) fit 32 bits. */
  const MAX_FRAGMENT_SIZE := 0xFFFF_FFFF - TLS_HEADER_LEN - 1 - 4

  /** One fragment cut off the outbound buffer: its flag byte, its bytes, and what stays behind. */
  datatype Fragment = Fragment(flags: uint8, chunk: seq<uint8>, rest: seq<uint8>)

  /**
   * The next fragment of `out` for fragment size `offset`: at most `offset`
   * bytes from the front, in order, the rest kept; L always set, S never,
   * and M set exactly when bytes stay behind.
   */
  function NextFragment(out: seq<uint8>, offset: uint32): (f: Fragment)
    ensures f.chunk + f.rest == out
    ensures |f.chunk| == if |out| > offset then offset else |out|
    ensures LengthIncludedBit(f.flags) && !StartBit(f.flags)
    ensures MoreFragmentsBit(f.flags) <==> |out| > offset
    ensures MoreFragmentsBit(f.flags) <==> |f.rest| > 0
  {
    var flags := SetFlag(0, FLAG_LENGTH_INCLUDED);
    SetFlagKeepsOthers(0, FLAG_LENGTH_INCLUDED);
    if |out| > offset then
      SetFlagKeepsOthers(flags, FLAG_MORE_FRAGMENTS);
      Fragment(SetFlag(flags, FLAG_MORE_FRAGMENTS), out[..offset], out[offset..])
    else
      Fragment(flags, out, [])
  }

  /** The request carrying a fragment: its data is the 4-octet size of the fragment, then the fragment. */
  function RequestReply(responseId: uint8, f: Fragment): (r: TlsPacket)
    requires |f.chunk| <= MAX_FRAGMENT_SIZE
    ensures Framed(r) && r.code == Kind(Request) && r.id == NextId(responseId) && r.flags == f.flags
    ensures |r.data| == 4 + |f.chunk| && r.data[..4] == BigEndian32(|f.chunk|) && r.data[4..] == f.chunk
  {
    TlsPacket(Kind(Request), NextId(responseId), TLS_HEADER_LEN + 1 + 4 + |f.chunk|, f.flags,
              4 + |f.chunk|, BigEndian32(|f.chunk|) + f.chunk)
  }

  /** eaptls_start. */
  method SendStart(eapDs: EapDs, allocOk: bool) returns (r: int)
    requires eapDs.response.Some?
    modifies eapDs
    ensures r == 1 && eapDs.response == old(eapDs.response)
    ensures eapDs.request == Composed(old(eapDs.request), StartReply(old(eapDs.response).value.id), old(eapDs.response), allocOk)
  {
    var reply := StartReply(eapDs.response.value.id);
    var _ := Compose(eapDs, reply, allocOk);
    r := 1;
  }

  /** eaptls_success. */
  method SendSuccess(eapDs: EapDs, allocOk: bool) returns (r: int)
    requires eapDs.response.Some?
    modifies eapDs
    ensures r == 1 && eapDs.response == old(eapDs.response)
    ensures eapDs.request == Composed(old(eapDs.request), SuccessReply(old(eapDs.response).value.id), old(eapDs.response), allocOk)
  {
    var reply := SuccessReply(eapDs.response.value.id);
    var _ := Compose(eapDs, reply, allocOk);
    r := 1;
  }

  /** eaptls_fail. */
  method SendFail(eapDs: EapDs, allocOk: bool) returns (r: int)
    requires eapDs.response.Some?
    modifies eapDs
    ensures r == 1 && eapDs.response == old(eapDs.response)
    ensures eapDs.request == Composed(old(eapDs.request), FailReply(old(eapDs.response).value.id), old(eapDs.response), allocOk)
  {
    var reply := FailReply(eapDs.response.value.id);
    var _ := Compose(eapDs, reply, allocOk);
    r := 1;
  }

  /** eaptls_send_ack. */
  method SendAck(eapDs: EapDs, allocOk: bool) returns (r: int)
    requires eapDs.response.Some?
    modifies eapDs
    ensures r == 1 && eapDs.response == old(eapDs.response)
    ensures eapDs.request == Composed(old(eapDs.request), AckReply(old(eapDs.response).value.id), old(eapDs.response), allocOk)
  {
    var reply := AckReply(eapDs.response.value.id);
    var _ := Compose(eapDs, reply, allocOk);
    r := 1;
  }

  /**
   * eaptls_request: take `min(|dirtyOut|, offset)` bytes off the front of
   * the outbound buffer and send them, after their 4-octet size, as the next
   * request.
   */
  method SendRequest(eapDs: EapDs, ssn: Session, allocOk: bool) returns (r: int)
    requires eapDs.response.Some?
    requires ssn.offset <= MAX_FRAGMENT_SIZE
    modifies eapDs, ssn`dirtyOut
    ensures r == 1 && eapDs.response == old(eapDs.response)
    ensures ssn.dirtyOut == NextFragment(old(ssn.dirtyOut), ssn.offset).rest
    ensures eapDs.request == Composed(old(eapDs.request),
      RequestReply(old(eapDs.response).value.id, NextFragment(old(ssn.dirtyOut), ssn.offset)),
      old(eapDs.response), allocOk)
  {
    var flags := SetFlag(0, FLAG_LENGTH_INCLUDED);
    var size: nat;
    if |ssn.dirtyOut| > ssn.offset {
      size := ssn.offset;
      flags := SetFlag(flags, FLAG_MORE_FRAGMENTS);
    } else {
      size := |ssn.dirtyOut|;
    }
    var dlen := 4 + size;
    var taken, rest := Record.Minus(ssn.dirtyOut, size).0, Record.Minus(ssn.dirtyOut, size).1;
    ssn.dirtyOut := rest;
    var reply := TlsPacket(Kind(Request), NextId(eapDs.response.value.id), TLS_HEADER_LEN + 1 + dlen,
                           flags, dlen, BigEndian32(size) + taken);
    assert reply == RequestReply(eapDs.response.value.id, NextFragment(old(ssn.dirtyOut), ssn.offset));
    var _ := Compose(eapDs, reply, allocOk);
    r := 1;
  }

  /**
   * The fragments a whole outbound message leaves in, one per request, for
   * fragment size `offset`: the next fragment, then those of what it leaves
   * behind while anything does.
   */
  function Fragments(out: seq<uint8>, offset: uint32): (fs: seq<Fragment>)
    requires offset > 0
    ensures |fs| >= 1 && fs[0] == NextFragment(out, offset)
    decreases |out|
  {
    var f := NextFragment(out, offset);
    if |f.rest| == 0 then [f] else [f] + Fragments(f.rest, offset)
  }

  /** The bytes a sequence of fragments carries, in order. */
  function Chunks(fs: seq<Fragment>): seq<uint8> {
    if fs == [] then [] else fs[0].chunk + Chunks(fs[1..])
  }

  /** Sending a message fragment by fragment delivers exactly its bytes, in order. */
  lemma {:induction false} FragmentsDeliverMessage(out: seq<uint8>, offset: uint32)
    requires offset > 0
    ensures Chunks(Fragments(out, offset)) == out
    decreases |out|
  {
    var fs := Fragments(out, offset);
    var f := NextFragment(out, offset);
    if |f.rest| == 0 {
      assert fs == [f];
      assert Chunks(fs) == f.chunk + Chunks([]);
    } else {
      FragmentsDeliverMessage(f.rest, offset);
      assert fs[1..] == Fragments(f.rest, offset);
    }
  }

  /** Every fragment has L and not S; all but the last carry M and exactly `offset` bytes, and none more. */
  predicate WellFlagged(fs: seq<Fragment>, offset: nat) {
    forall i :: 0 <= i < |fs| ==>
      && LengthIncludedBit(fs[i].flags) && !StartBit(fs[i].flags)
      && (MoreFragmentsBit(fs[i].flags) <==> i < |fs| - 1)
      && (i < |fs| - 1 ==> |fs[i].chunk| == offset) && |fs[i].chunk| <= offset
  }

  /** The requests of a whole message are flagged as section 2.1.5 of RFC 5216 describes. */
  lemma {:induction false} FragmentsFlags(out: seq<uint8>, offset: uint32)
    requires offset > 0
    ensures WellFlagged(Fragments(out, offset), offset)
    decreases |out|
  {
    var fs := Fragments(out, offset);
    var f := NextFragment(out, offset);
    if |f.rest| > 0 {
      var tail := Fragments(f.rest, offset);
      FragmentsFlags(f.rest, offset);
      assert fs == [f] + tail;
      forall i | 0 <= i < |fs|
        ensures LengthIncludedBit(fs[i].flags) && !StartBit(fs[i].flags)
        ensures MoreFragmentsBit(fs[i].flags) <==> i < |fs| - 1
        ensures (i < |fs| - 1 ==> |fs[i].chunk| == offset) && |fs[i].chunk| <= offset
      {
        if i > 0 {
          assert fs[i] == tail[i - 1];
        }
      }
    }
  }

  /**
   * The number of fragments is the message size divided by `offset`,
   * rounded up; an empty message still goes out as one empty fragment.
   */
  lemma {:induction false} FragmentsCount(out: seq<uint8>, offset: uint32)
    requires offset > 0
    ensures |out| <= |Fragments(out, offset)| * offset
    ensures |out| > 0 ==> (|Fragments(out, offset)| - 1) * offset < |out|
    ensures |out| == 0 ==> |Fragments(out, offset)| == 1
    decreases |out|
  {
    var f := NextFragment(out, offset);
    if |f.rest| > 0 {
      var n := |Fragments(f.rest, offset)|;
      FragmentsCount(f.rest, offset);
      assert |Fragments(out, offset)| == n + 1;
      assert |f.rest| == |out| - offset;
      assert (n + 1) * offset == n * offset + offset;
      assert n * offset == (n - 1) * offset + offset;
    }
  }

  /** A 5000-byte message with fragment size 1000 goes out in five requests. */
  lemma FiveFragmentsExample(out: seq<uint8>)
    requires |out| == 5000
    ensures |Fragments(out, 1000)| == 5
  {
    FragmentsCount(out, 1000);
  }

  /**
   * With fragment size 0 every request carries no bytes and says more
   * follow: a nonempty outbound buffer never drains.
   */
  lemma ZeroOffsetNeverDrains(out: seq<uint8>)
    requires |out| > 0
    ensures var f := NextFragment(out, 0);
      f.chunk == [] && f.rest == out && MoreFragmentsBit(f.flags)
  {
  }
}
