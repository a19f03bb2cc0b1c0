# EAP-TLS framing layer of the FreeRADIUS `rlm_eap_tls` module, in Dafny

This project models the EAP-TLS framing layer of the FreeRADIUS EAP-TLS
module (`eap_tls.c`). That layer carries a TLS handshake in EAP packets, as
set out in RFC 2716, which RFC 5216 supersedes. The model covers its four
parts:

- **Classifier** (`eaptls_verify`, module `Classifier`). It reads a
  received EAP-Response together with the previous round's request and
  response, and gives one verdict: Invalid, Ack, FirstFragment,
  MoreFragmentsWithLength, LengthIncluded, MoreFragments or Ok.
- **Extractor** (`eaptls_extract`, module `Extractor`). It slices the
  response's type data into a normalised EAP-TLS packet with code, id,
  length, flags, `dlen` and data.
- **Composer and fragmenter** (module `Composer`).
  - `eaptls_start`, `eaptls_success`, `eaptls_fail` and `eaptls_send_ack`
    build replies that carry no data.
  - `eaptls_request` takes the next fragment off the session's outbound
    buffer `dirty_out`.
  - `eaptls_compose` writes a reply into the outgoing EAP request.
- **Dispatcher** (module `Dispatcher`).
  - `eaptls_operation` appends received data to the inbound buffer
    `dirty_in`. It then either acknowledges a fragment, or passes the
    complete message to the TLS engine and sends the engine's answer.
  - `eaptls_ack_handler` answers a peer's acknowledgement with Failure,
    Success, nothing, or the next fragment.

The model takes the form of the code. The classifier and extractor are
pure, so they are functions. Compose, request, operation and the ack
handler change state, so they are methods over three classes:

- `EapDs`: the round's request and response.
- `Session`: `dirty_in`, `dirty_out`, the fragment size `offset` and the
  TLS engine's `info`.
- `Handler`: the session pointer, `null` once freed, and the `EapDs`.

Each method's `ensures` gives its whole new state in terms of the
specification functions `Composed`, `NextFragment`, `InboundStep` and the
reply builders. The lemmas state the laws about those functions:

- the fragment sequence of a message, its flags and its count;
- a framed response survives classification and extraction unchanged;
- an echoed request extracts to the fragment it carried;
- a fragmented message reaches the engine whole, in order. This is
  stated over `Laws.Receive`, which runs a sequence of responses through
  `Verify`, `Extract` and `InboundStep`, each classified against the one
  before it. It gives the message handed to the engine, or nothing when a
  packet is refused first.

Constants:

- Flag bits: L = 0x80, M = 0x40, S = 0x20, from section 3.1 of RFC 5216.
- EAP codes 1 to 4, from section 4 of RFC 3748; method type 13.
- TLS content types alert (21) and handshake (22), and handshake type
  finished (20), from sections 6.2.1 and 7.4 of RFC 2246.
- `EAP_HEADER_LEN` and `TLS_HEADER_LEN`, both 4. `eap_tls.h` is not part
  of this model. The value 4 follows from the layout comment at
  eap_tls.c:343-348 and from the `reply->length - 4` in `eaptls_compose`.

Flags are `uint8` values. "Bit set" means `(flags / mask) % 2 == 1`, and
`SET_*` adds the mask when the bit is clear. The flag tests
`TLS_LENGTH_INCLUDED`, `TLS_MORE_FRAGMENTS` and `TLS_START` are defined in
`eap_tls.h`, which is not part of this model. They are taken to give 1
when the bit is set and 0 otherwise. This matters at eap_tls.c:293, which
compares `TLS_START(...)` with 1: if the macro were a bare `& 0x20`, that
comparison would never hold and the S check would never fire.

Wrap-around is written out where the source relies on it:

- `id + 1` is stored in an 8-bit identifier (`NextId`, `Wrap8`).
- `response->length - 5` is unsigned 32-bit arithmetic (`Wrap32`).

Where the code and the RFCs disagree, the model follows the code:

- **Fragment length field.** A request's TLS Message Length field holds
  the size of that one fragment, not the total size (`RequestReply`).
- **Acknowledgement size.** An acknowledgement is a response of EAP Length
  `EAP_HEADER_LEN + 1`, which is 5, with no flag byte. A response of
  Length 6 with flag byte 0, the fragment ACK of RFC 5216, is classified
  Ok (`Laws.RfcAckIsClassifiedOk`).

Two behaviours of the code that the model keeps:

- **Unfinished handshake.** For a handshake message that is not Finished,
  the ack handler returns Noop and sends nothing.
- **Failed compose.** When the allocation fails, compose has already set
  the request's type and id, and it leaves the request's type data NULL.

Where the code reads memory it may not own, the model keeps two
definitions:

- a literal one (`*AsWritten`), whose precondition states exactly what the
  code reads;
- a corrected one, which the rest of the model uses.

See "## Findings".

## Model

| member | source | states |
|---|---|---|
| Octets.Wrap32 | src/modules/rlm_eap/types/rlm_eap_tls/eap_tls.c:424 | unsigned 32-bit arithmetic: a value in range is kept, a negative one wraps to 2^32 + x |
| Octets.Wrap8 | src/modules/rlm_eap/types/rlm_eap_tls/eap_tls.c:470 | an 8-bit identifier keeps values below 256, and 256 becomes 0 |
| Octets.BigEndian32 | src/modules/rlm_eap/types/rlm_eap_tls/eap_tls.c:165-167 | `htonl` of the fragment size is four octets |
| Octets.FromBigEndian32 | src/modules/rlm_eap/types/rlm_eap_tls/eap_tls.c:417-418 | `ntohl` of four octets: the top octet is the first, the low octet is the last |
| Octets.BigEndian32RoundTrip | src/modules/rlm_eap/types/rlm_eap_tls/eap_tls.c:417-418 | decoding an encoded 32-bit length gives the length back |
| Octets.FromBigEndian32Inverse | src/modules/rlm_eap/types/rlm_eap_tls/eap_tls.c:165-167 | encoding a decoded four-octet field gives the octets back |
| Octets.BigEndian32Injective | src/modules/rlm_eap/types/rlm_eap_tls/eap_tls.c:165-167 | distinct lengths have distinct encodings |
| EapTypes.SetFlag | src/modules/rlm_eap/types/rlm_eap_tls/eap_tls.c:152 | after `SET_*` the bit is set |
| EapTypes.SetFlagKeepsOthers | src/modules/rlm_eap/types/rlm_eap_tls/eap_tls.c:152-157 | setting one of L, M, S leaves the other two as they were |
| EapTypes.NoFlagsInZero | src/modules/rlm_eap/types/rlm_eap_tls/eap_tls.c:151 | the flag byte 0x00 has none of L, M, S |
| EapTypes.NextId | src/modules/rlm_eap/types/rlm_eap_tls/eap_tls.c:150 | the next identifier always differs from the response's: one more below 255, and 0 after 255 |
| EapTypes.FlagsOf | src/modules/rlm_eap/types/rlm_eap_tls/eap_tls.c:390 | a flag byte exists exactly when the type data holds at least one octet, and it is the first |
| Record.Plus | src/modules/rlm_eap/types/rlm_eap_tls/eap_tls.c:540 | `record_plus`: the old contents, then exactly the first n bytes given |
| Record.Minus | src/modules/rlm_eap/types/rlm_eap_tls/eap_tls.c:168 | `record_minus`: the bytes taken plus the bytes left are the old contents in order; min(n, size) bytes are taken |
| Record.Init | src/modules/rlm_eap/types/rlm_eap_tls/eap_tls.c:568 | `record_init`: the buffer is empty |
| Classifier.Verify | src/modules/rlm_eap/types/rlm_eap_tls/eap_tls.c:261-339 | Invalid for a failed header check. Ack iff the response is ack-shaped and the previous request's id matches; an ack-shaped response is otherwise Invalid. A non-ack is Invalid iff its flag byte is missing or has S. Otherwise the verdict carries a length iff L, and expects more fragments iff M. FirstFragment only when the previous response did not have M; MoreFragmentsWithLength only when it did |
| Classifier.VerifyAsWritten | src/modules/rlm_eap/types/rlm_eap_tls/eap_tls.c:261-339 | the literal classifier. It requires every pointer it reads to exist, including the previous response before its NULL test; it returns only inbound verdicts |
| Classifier.VerifyAsWrittenAgrees | src/modules/rlm_eap/types/rlm_eap_tls/eap_tls.c:271-317 | wherever the literal classifier's reads are safe, it gives the corrected verdict |
| Classifier.NoPreviousResponseIsDereferenced | src/modules/rlm_eap/types/rlm_eap_tls/eap_tls.c:273 | with no previous response, every response that passes the header checks makes the code read through NULL. The corrected classifier gives FirstFragment for flags 0xC0 |
| Classifier.MissingTypeDataIsDereferenced | src/modules/rlm_eap/types/rlm_eap_tls/eap_tls.c:293 | a non-ack response with NULL type data makes the code read the flag byte through NULL; the corrected classifier says Invalid |
| Classifier.AckIdentifierExample | src/modules/rlm_eap/types/rlm_eap_tls/eap_tls.c:280-290 | an ack with id 7 against request id 7 is Ack; one with id 8 is Invalid |
| Extractor.Alloc | src/modules/rlm_eap/types/rlm_eap_tls/eap_tls.c:44-54 | `eaptls_alloc`: a zeroed packet exactly when memory is available |
| Extractor.Extract | src/modules/rlm_eap/types/rlm_eap_tls/eap_tls.c:366-446 | no packet for Invalid, for an allocation failure, or for a packet shorter than its header or its EAP Length. Otherwise code and id are copied and length is EAP Length − 1. Ack gives flags 0 and no data. Any other verdict gives the flag byte, with data starting at offset 5 (L verdicts) or 1 (MoreFragments, Ok) and running to the end the EAP Length declares, with `dlen` its size |
| Extractor.ExtractAsWritten | src/modules/rlm_eap/types/rlm_eap_tls/eap_tls.c:366-446 | the literal extractor. It requires every byte it copies to lie in the type data: the peer's 32-bit length for L verdicts; EAP Length − 5 (wrapped to 32 bits) for MoreFragments and Ok; an unset `data_len` for Ack. `dlen` is the size of the data |
| Composer.OuterCode | src/modules/rlm_eap/types/rlm_eap_tls/eap_tls.c:487-503 | EAP-Request iff Ack, Start or Request; EAP-Success iff Success; EAP-Failure for everything else |
| Composer.OutgoingId | src/modules/rlm_eap/types/rlm_eap_tls/eap_tls.c:470 | the reply's id when nonzero, else the response's id + 1 in 8 bits |
| Composer.Composed | src/modules/rlm_eap/types/rlm_eap_tls/eap_tls.c:456-503 | type is TLS and the id is set in every case. After an allocation failure, code and type length are unchanged and type data is NULL. Otherwise the type length is reply length − 4, the type data is the flag byte then the first `dlen` data bytes, and the code is mapped |
| Composer.Compose | src/modules/rlm_eap/types/rlm_eap_tls/eap_tls.c:452-506 | `eaptls_compose`: returns whether the allocation succeeded; the request becomes `Composed`, and the response is untouched |
| Composer.FramedReplyComposesExactly | src/modules/rlm_eap/types/rlm_eap_tls/eap_tls.c:472-485 | a reply whose length is header + flag byte + data fits its buffer. The request's type length then equals the size of its type data, which is the flag byte followed by exactly the reply's data |
| Composer.ComposedIdFollowsResponse | src/modules/rlm_eap/types/rlm_eap_tls/eap_tls.c:470 | a reply built with response id + 1 goes out with that id, including when it wraps to 0 |
| Composer.EmptyReply | src/modules/rlm_eap/types/rlm_eap_tls/eap_tls.c:83-91 | a reply without data: id response id + 1, length header + flag byte |
| Composer.StartReply | src/modules/rlm_eap/types/rlm_eap_tls/eap_tls.c:78-96 | `eaptls_start`'s reply: Start, no data, id response id + 1, only the S bit set |
| Composer.SuccessReply | src/modules/rlm_eap/types/rlm_eap_tls/eap_tls.c:98-113 | `eaptls_success`'s reply (length corrected): Success, no data, flags 0, id response id + 1 |
| Composer.FailReply | src/modules/rlm_eap/types/rlm_eap_tls/eap_tls.c:115-130 | `eaptls_fail`'s reply (length corrected): Fail, no data, flags 0, id response id + 1 |
| Composer.AckReply | src/modules/rlm_eap/types/rlm_eap_tls/eap_tls.c:233-247 | `eaptls_send_ack`'s reply (length corrected): Ack, no data, flags 0, id response id + 1 |
| Composer.HeaderOnlyReplyAsWritten | src/modules/rlm_eap/types/rlm_eap_tls/eap_tls.c:105 | Success, Fail and Ack as the code builds them: length is the TLS header alone, with no data |
| Composer.HeaderOnlyRepliesOverflow | src/modules/rlm_eap/types/rlm_eap_tls/eap_tls.c:472-485 | such a reply gets a buffer of 0 octets, which cannot hold the flag byte compose writes; the corrected reply fits |
| Composer.NextFragment | src/modules/rlm_eap/types/rlm_eap_tls/eap_tls.c:149-168 | the fragment is min(size, offset) bytes off the front and the rest keeps its order. L is always set and S never. M is set iff the buffer holds more than `offset`, iff bytes remain |
| Composer.RequestReply | src/modules/rlm_eap/types/rlm_eap_tls/eap_tls.c:149-168 | the request's data is the 4-octet big-endian fragment size followed by the fragment. `dlen` is 4 + size and length is header + 1 + `dlen`; id is response id + 1 |
| Composer.SendStart | src/modules/rlm_eap/types/rlm_eap_tls/eap_tls.c:78-96 | returns 1; the request becomes the composed Start |
| Composer.SendSuccess | src/modules/rlm_eap/types/rlm_eap_tls/eap_tls.c:98-113 | returns 1; the request becomes the composed Success |
| Composer.SendFail | src/modules/rlm_eap/types/rlm_eap_tls/eap_tls.c:115-130 | returns 1; the request becomes the composed Failure |
| Composer.SendAck | src/modules/rlm_eap/types/rlm_eap_tls/eap_tls.c:233-247 | returns 1; the request becomes the composed fragment ACK |
| Composer.SendRequest | src/modules/rlm_eap/types/rlm_eap_tls/eap_tls.c:143-174 | `eaptls_request`: returns 1. `dirty_out` keeps exactly what follows the fragment, and the request becomes the composed `RequestReply` of `NextFragment` |
| Composer.Fragments | src/modules/rlm_eap/types/rlm_eap_tls/eap_tls.c:155-168 | the successive `eaptls_request` fragments of one message; the first is `NextFragment` of the whole message |
| Composer.FragmentsDeliverMessage | src/modules/rlm_eap/types/rlm_eap_tls/eap_tls.c:155-168 | the fragments of a message, concatenated in order, are the message |
| Composer.FragmentsFlags | src/modules/rlm_eap/types/rlm_eap_tls/eap_tls.c:151-160 | every fragment has L and no S. All but the last have M and exactly `offset` bytes; the last has no M; none is larger than `offset` |
| Composer.FragmentsCount | src/modules/rlm_eap/types/rlm_eap_tls/eap_tls.c:155-160 | the fragment count is the size divided by `offset`, rounded up; an empty message gives one fragment |
| Composer.FiveFragmentsExample | src/modules/rlm_eap/types/rlm_eap_tls/eap_tls.c:155-160 | 5000 bytes with offset 1000 go out in 5 requests |
| Composer.ZeroOffsetNeverDrains | src/modules/rlm_eap/types/rlm_eap_tls/eap_tls.c:155-157 | with offset 0, a nonempty buffer yields an empty fragment with M and keeps all its bytes |
| Dispatcher.HandshakeRecv | src/modules/rlm_eap/types/rlm_eap_tls/eap_tls.c:566 | the engine's outbound buffer and info replace the session's, given what was received |
| Dispatcher.InboundStep | src/modules/rlm_eap/types/rlm_eap_tls/eap_tls.c:540-568 | while fragments follow, dirty_in becomes the old contents then the data, and nothing goes to the engine. Otherwise the engine gets the old contents then the data, and dirty_in becomes empty |
| Dispatcher.Operation | src/modules/rlm_eap/types/rlm_eap_tls/eap_tls.c:528-571 | `eaptls_operation`: dirty_in follows `InboundStep` of the first `dlen` data bytes. For a fragment verdict, the ACK is composed and `dirty_out`/`info` are unchanged. Otherwise the engine receives everything, and its output's first fragment goes out as a request |
| Dispatcher.AckHandler | src/modules/rlm_eap/types/rlm_eap_tls/eap_tls.c:184-217 | Noop with nothing changed when there is no session or `info.origin` is 0. Alert: Failure composed, session freed, Fail. Handshake Finished: Success composed, session freed, Success. Any other handshake type: Noop, nothing changed. Any other content: the next fragment is sent, Request. In every outcome but Request, no field of the session changes; `dirty_in`, `info` and `offset` never change |
| Laws.TypeData | src/modules/rlm_eap/types/rlm_eap_tls/eap_tls.c:343-354 | type data is the flag byte, then the 4-octet length when present (decoding to that length), then the TLS data |
| Laws.FrameResponse | src/modules/rlm_eap/types/rlm_eap_tls/eap_tls.c:343-354 | a peer's response: code Response, type TLS, EAP Length = header + type octet + type data |
| Laws.ResponseRoundTrip | src/modules/rlm_eap/types/rlm_eap_tls/eap_tls.c:308-427 | a framed response without S, with L iff a length is sent: never Invalid or Ack. It carries a length iff L and expects more iff M, and extracts to its flag byte and exactly its TLS data |
| Laws.Echo | src/modules/rlm_eap/types/rlm_eap_tls/eap_tls.c:479 | a composed request's type data carried back as a response, with EAP Length = header + type octet + type data |
| Laws.ComposedRequestRoundTrip | src/modules/rlm_eap/types/rlm_eap_tls/eap_tls.c:149-168 | a composed request, echoed, is classified with a length (with more fragments iff M) and extracts exactly the fragment it carried |
| Laws.PeerFlags | src/modules/rlm_eap/types/rlm_eap_tls/eap_tls.c:299-307 | a peer's fragment flags: L as asked, M as asked, never S |
| Laws.PeerResponses | src/modules/rlm_eap/types/rlm_eap_tls/eap_tls.c:299-307 | a message sent by a peer in fragments: at least one response |
| Laws.Reassembly | src/modules/rlm_eap/types/rlm_eap_tls/eap_tls.c:540-568 | for any fragment size, feeding a fragmented message through classify, extract and the inbound step hands the engine the previous dirty_in followed by the whole message |
| Laws.MessageReachesEngine | src/modules/rlm_eap/types/rlm_eap_tls/eap_tls.c:540-568 | starting from an empty dirty_in, the engine receives exactly the message the peer sent |
| Laws.TotalLengthFieldOverReads | src/modules/rlm_eap/types/rlm_eap_tls/eap_tls.c:417-443 | if a first fragment's TLS Message Length exceeds the bytes it carries, the literal extraction reads past the type data; `Extract` yields exactly the bytes carried |
| Laws.FragmentLengthFieldAgrees | src/modules/rlm_eap/types/rlm_eap_tls/eap_tls.c:417-443 | when the length field counts exactly the bytes carried, the literal extraction is safe and equals `Extract` |
| Laws.NoLengthCopyReadsOneMore | src/modules/rlm_eap/types/rlm_eap_tls/eap_tls.c:422-427 | for MoreFragments and Ok, the literal extraction reads one byte past the type data. From a buffer with one extra byte it returns the data plus that byte; `Extract` returns the data |
| Laws.AckDataLengthUnset | src/modules/rlm_eap/types/rlm_eap_tls/eap_tls.c:429-436 | for an Ack, an unset nonzero `data_len` makes the literal extraction read through NULL. When it is 0, the literal extraction equals `Extract`: length 4, flags 0, no data |
| Laws.RfcAckIsClassifiedOk | src/modules/rlm_eap/types/rlm_eap_tls/eap_tls.c:280-281 | a response of EAP Length 6 with flag byte 0 is classified Ok and extracts to no data |
| Laws.FirstFragmentExample | src/modules/rlm_eap/types/rlm_eap_tls/eap_tls.c:410-443 | id 5, flags 0xC0, length field 1000, 300 bytes, no previous response: FirstFragment; the 300 bytes join dirty_in; the ACK has id 6; the literal extraction over-reads |

## Left out

- `src/lib/bio/fd_read.h`: input plumbing outside the framing layer. It is not part of this model.
- The TLS engine (`tls_handshake_recv`): a foreign call. It is the function parameter `Engine`, which may replace `dirty_out` and `info` with anything.
- `session_free`: its internals are not part of this model. Freeing is modelled only as the handler's session pointer becoming `null`.
- The record module: not part of this model. `record_plus`, `record_minus` and `record_init` are modelled as append, take-from-front and clear over unbounded sequences. Any capacity limit of the real buffers is not modelled.
- Logging: `radlog` and the `printf` calls, including the `handler->opaque` tests at eap_tls.c:198 and 206 that only print, are left out.
- Memory management: `malloc` and `free` are not modelled. Allocation failure is a boolean parameter.
  - `Extract` uses one flag for both of `eaptls_extract`'s allocations, the packet and its data.
  - The unchecked `malloc` in `eaptls_request` (eap_tls.c:166) is taken to succeed.
  - `eaptls_free` (eap_tls.c:59-72) only releases memory, so it has no counterpart. Its leak of the packet struct is out of scope.
- TLS record contents: opaque bytes to this layer.
- Retransmission and timers: the EAP transport's concern, not this file's.
- Uninitialised memory:
  - Compose's buffer, when larger than what it writes, is modelled as holding only what is written.
  - Extract's uninitialised `data_len` is the parameter `uninitialised`.
- Composer.SendRequest: requires `offset <= MAX_FRAGMENT_SIZE` so that `4 + size` and `TLS_HEADER_LEN + 1 + dlen` fit in 32 bits. The unsigned wrap-around of eap_tls.c:162-163 for larger offsets is not modelled.
- Dispatcher.Operation: requires the same bound on `offset`, and `dlen` no larger than the packet's data. A packet from `Extract` always meets the second.
- Dispatcher.AckHandler: requires the same bound on `offset` when a session exists.
- Extractor.Extract: this is the corrected extractor, not the code's; the code's is `ExtractAsWritten`. Extract differs from the code in these ways:
  - For every verdict but Ack, Extract copies exactly the bytes between the end of the EAP-TLS header and the end the EAP Length declares. It yields no packet when the EAP Length is below 5, when the type data it declares is shorter than that header, or when it declares more bytes than the type data holds. The code makes none of these checks.
  - For the L verdicts, Extract ignores the TLS Message Length field. When the field exceeds the bytes carried, the code over-reads and Extract returns the carried bytes (`Laws.TotalLengthFieldOverReads`). When the field is smaller, the code copies only the field's count and Extract copies up to the declared end.
  - For MoreFragments and Ok, Extract copies EAP Length − 6 octets and the code copies EAP Length − 5. Over a buffer holding one byte more than declared, the code's data ends with that byte and Extract's does not (`Laws.NoLengthCopyReadsOneMore`).
  - For an Ack, Extract copies nothing and the code copies an unset `data_len` (`Laws.AckDataLengthUnset`).
  - For a status the classifier never returns, Extract yields no packet. The code yields one with an unset `data_len`.

## Findings

| source | as written | input that shows it | evidently intended | confidence | as-written member | corrected member |
|---|---|---|---|---|---|---|
| src/modules/rlm_eap/types/rlm_eap_tls/eap_tls.c:273 | the previous response's type data is read before the test for a missing previous response at line 316, so that test can never help | any response passing the header checks when the previous round has no response, e.g. flags 0xC0 (`Classifier.NoPreviousResponseIsDereferenced`) | test for the previous response before reading it; the first fragment of a session is FirstFragment | not executed | Classifier.VerifyAsWritten | Classifier.Verify |
| src/modules/rlm_eap/types/rlm_eap_tls/eap_tls.c:293 | the flag byte is read through the type-data pointer without a NULL test | a TLS response whose EAP Length is not 5 and whose type data is NULL (`Classifier.MissingTypeDataIsDereferenced`) | classify such a response as Invalid | not executed; depends on whether the transport can deliver NULL type data | Classifier.VerifyAsWritten | Classifier.Verify |
| src/modules/rlm_eap/types/rlm_eap_tls/eap_tls.c:417-418 | for L verdicts the copy length is the peer's 32-bit TLS Message Length, copied at lines 435-443 with no bound by the EAP Length | a first fragment sent as section 2.1.5 of RFC 5216 describes: length field 1000, 300 bytes carried (`Laws.TotalLengthFieldOverReads`, `Laws.FirstFragmentExample`) | copy the bytes between offset 5 and the end the EAP Length declares | not executed | Extractor.ExtractAsWritten | Extractor.Extract |
| src/modules/rlm_eap/types/rlm_eap_tls/eap_tls.c:424 | for MoreFragments and Ok, `data_len` is EAP Length − 5, but the data starts after the flag byte, one octet later | any such packet, e.g. EAP Length 7 with flags 0 and one data byte, copies two bytes (`Laws.NoLengthCopyReadsOneMore`); EAP Length 4 wraps to 2^32 − 1 | EAP Length − 6, which is the packet length − 5 of the comment at lines 348-351 | not executed | Extractor.ExtractAsWritten | Extractor.Extract |
| src/modules/rlm_eap/types/rlm_eap_tls/eap_tls.c:429-431 | an Ack takes the default branch, so `data_len` is never set and is then used to copy from a NULL pointer | any acknowledgement whose stack slot holds a nonzero value (`Laws.AckDataLengthUnset`) | `data_len` 0 for an Ack | not executed | Extractor.ExtractAsWritten | Extractor.Extract |
| src/modules/rlm_eap/types/rlm_eap_tls/eap_tls.c:105 | Success, Fail (line 122) and Ack (line 239) set length to `TLS_HEADER_LEN`, so compose allocates `length − 4` = 0 octets and writes the flag byte into them (lines 472-485) | any Success, Failure or fragment ACK (`Composer.HeaderOnlyRepliesOverflow`) | `TLS_HEADER_LEN + 1`, as `eaptls_start` has at line 85 | not executed; assumes `TLS_HEADER_LEN` is 4 | Composer.HeaderOnlyReplyAsWritten | Composer.SuccessReply |
