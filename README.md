# Broadcaster-to-subscriber message codec of the websocket pub/sub protocol

This project is a Dafny model of the core of the websocket side of
httppubsubprotocol, a pub/sub protocol in which subscribers talk to a
broadcaster. Every websocket frame has the same layout:

- a flags byte, whose bit 0 is `MINIMAL_HEADERS`;
- a message-type byte;
- a headers section;
- an optional body.

Each header name and value travels as one field: a 2-byte big-endian length
followed by the bytes. In minimal mode only the values are written, in an
order both sides agree on. In explicit mode each header is a name field
followed by a value field.

The model covers:

- **The message registry** (`Constants`):
  - the flag bit;
  - the two message-type enumerations, whose codes `auto()` assigns from 1 in declaration order;
  - the ordered header names and the body policy of every message type;
  - the branch that the NOTIFY_STREAM and RECEIVE_STREAM layouts take on part id 0;
  - the byte ceilings (65535 per header, 64 per identifier, 8 per unsigned integer);
  - the ranges of the compressor identifiers.
- **The authorization counter** (`Authorization`):
  - the text of `websocket:<nonce>:<ctr>`, with the counter in hex, no `0x` and no padding;
  - the rule that the subscriber counts down from -1 and the broadcaster counts up from 1, one step per header.
- **The header helpers** that the message files call (`HeaderCodec`, `IntCodec`):
  - `parse_simple_headers`, `serialize_simple_message` and `int_to_minimal_unsigned`;
  - `int.from_bytes(b, "big")`;
  - `str.encode` / `bytes.decode("utf-8")`, as a strict UTF-8 codec (`Utf8`) whose round trips are proved rather than assumed.
- **The six parse/serialize pairs**:
  - CONFIRM_SUBSCRIBE_EXACT and CONFIRM_SUBSCRIBE_GLOB (`ConfirmSubscribe`);
  - CONFIRM_UNSUBSCRIBE_EXACT and CONFIRM_UNSUBSCRIBE_GLOB (`ConfirmUnsubscribe`);
  - CONFIRM_NOTIFY (`ConfirmNotify`);
  - CONTINUE_NOTIFY (`ContinueNotify`);
  - how these six fit the registry (`Registry`).

All of the core is pure code, so it is modelled with datatypes, functions and lemmas. There are no classes and no loops.

A parser's `assert type == ...` becomes a `requires` on the type. The failures a parser raises (`ValueError`, `UnicodeDecodeError`, a truncated stream) become `Err` values of `Wire.Result`. A payload stream becomes the bytes it holds, and every parser returns the bytes it did not consume.

**Assumption about type codes.** `src/lonelypsp/stateful/constants.py` is not part of this model. The two stateful messages are given the codes of the same-named members of `BroadcasterToSubscriberWSMessageType`: CONFIRM_NOTIFY = 6 and CONTINUE_NOTIFY = 7.

**The serializers do not enforce the parser's ceilings.**
- The serializers of CONFIRM_NOTIFY and CONTINUE_NOTIFY check only the 65535-byte header ceiling.
- Their parsers also refuse an identifier over 64 bytes and an integer over 8 bytes.
- So a record with a 65-byte identifier serializes without error, and the parser then refuses the resulting frame.
- The same is stated for a count or part id of 2^64 or more, under an assumption: `int_to_minimal_unsigned` is taken to accept every non-negative integer and write as many bytes as it needs. Its source is not part of this model, and its documented output is 1 to 8 bytes, so the real helper may instead raise on such a value before the serializer returns.
- `ConfirmNotify.SerializerOutrunsParser` and `ContinueNotify.SerializerOutrunsParser` state both cases.
- The round trips therefore carry the parser's ceilings as their preconditions.

## Model

| member | source | states |
|---|---|---|
| Constants.FlagsFor | src/httppubsubprotocol/ws/constants.py:4-15 | the flags byte a sender writes has the MINIMAL_HEADERS bit set exactly when minimal mode is chosen |
| Constants.MinimalHeadersIsBitZero | src/httppubsubprotocol/ws/constants.py:5 | MINIMAL_HEADERS is 1, and a flags byte selects minimal mode exactly when its lowest bit is set |
| Constants.S2BCode | src/httppubsubprotocol/ws/constants.py:26-180 | each subscriber-to-broadcaster type's code lies in 1..9 and is its position in declaration order plus one |
| Constants.B2SCode | src/httppubsubprotocol/ws/constants.py:183-388 | each broadcaster-to-subscriber type's code lies in 1..10 and is its position in declaration order plus one |
| Constants.S2BFromCode | src/httppubsubprotocol/ws/constants.py:26-180 | a code names a subscriber-to-broadcaster type exactly when it is in 1..9, and that type's code is the code |
| Constants.B2SFromCode | src/httppubsubprotocol/ws/constants.py:183-388 | a code names a broadcaster-to-subscriber type exactly when it is in 1..10, and that type's code is the code |
| Constants.S2BCodesDistinct | src/httppubsubprotocol/ws/constants.py:26-180 | subscriber-to-broadcaster codes are pairwise distinct, and each code maps back to its type |
| Constants.B2SCodesDistinct | src/httppubsubprotocol/ws/constants.py:183-388 | broadcaster-to-subscriber codes are pairwise distinct, and each code maps back to its type |
| Constants.CodesOverlapAcrossDirections | src/httppubsubprotocol/ws/constants.py:31-188 | codes are unique only within a direction: code 1 is CONFIGURE one way and CONFIRM_CONFIGURE the other, and every subscriber code is also a broadcaster code |
| Constants.StreamLayout | src/httppubsubprotocol/ws/constants.py:139-154 | NOTIFY_STREAM and RECEIVE_STREAM share one layout: authorization, x-identifier and x-part-id first, then the five part-0 headers in their stated order exactly when the part id is 0; both stream messages carry a body |
| Constants.S2BHeaderNamesDistinct | src/httppubsubprotocol/ws/constants.py:36-180 | no subscriber-to-broadcaster message repeats a header name, for any part id |
| Constants.B2SHeaderNamesDistinct | src/httppubsubprotocol/ws/constants.py:188-388 | no broadcaster-to-subscriber message repeats a header name, for any part id |
| Constants.StreamHeaderNamesDistinct | src/httppubsubprotocol/ws/constants.py:311-326 | the stream layout has no repeated header name |
| Constants.CompressorIdentifierRanges | src/httppubsubprotocol/ws/constants.py:343-347 | a preset identifier (at least 1, at most 2 bytes) is one in 1..65535; a custom identifier (at least 65536, at most 8 bytes) is one in 65536..2^64-1 |
| Constants.CompressorIdsPartition | src/httppubsubprotocol/ws/constants.py:374-378 | every compressor id below 2^64 is exactly one of: no compression (0), a preset, or a custom dictionary |
| Constants.StreamHeaderLimit | src/httppubsubprotocol/ws/constants.py:143-154 | the stream headers' stated sizes: identifier at most 64 bytes, part id and the three part-0 integers at most 8, the SHA-512 hash exactly 64, and each within the 65535-byte ceiling |
| Constants.S2BHeaderLimit | src/httppubsubprotocol/ws/constants.py:41-49 | every stated size of a subscriber-to-broadcaster header (32-byte nonce, 1-byte switches, 2-byte dictionary id, 8-byte lengths, 64-byte hash, 8-byte part id), exact or maximal, is within the 65535-byte ceiling |
| Constants.B2SHeaderLimit | src/httppubsubprotocol/ws/constants.py:194-296 | every stated size of a broadcaster-to-subscriber header (32-byte nonce, 64-byte identifier, 8-byte count and part id, the stream sizes, the ENABLE_ZSTD sizes) is within the 65535-byte ceiling |
| Constants.ZstdHeaderLimit | src/httppubsubprotocol/ws/constants.py:343-384 | the ENABLE_ZSTD sizes: compression level at most 2 bytes, x-min-size exactly 4, x-max-size exactly 8, and the identifier's own size, all within the ceiling |
| Constants.StreamLimitsAgree | src/httppubsubprotocol/ws/constants.py:311-326 | NOTIFY_STREAM and RECEIVE_STREAM state the same size for every header, and a size is stated exactly for the listed headers after authorization |
| Constants.CompressionLevelRange | src/httppubsubprotocol/ws/constants.py:345-347 | levels from -32768 to 22 are valid and 23 and -32769 are not; the level header is at most 2 bytes in both ENABLE_ZSTD messages |
| Constants.NoMaxSizeFillsItsField | src/httppubsubprotocol/ws/constants.py:351-353 | x-max-size's "no upper bound" value 2^64-1, and every value from 2^56 to 2^64-1, encodes in exactly the 8 bytes x-max-size requires, in both ENABLE_ZSTD messages |
| Authorization.CounterText | src/httppubsubprotocol/ws/constants.py:202-210 | the counter text is lower-case hex digits with no leading zero, preceded by '-' exactly when the counter is negative |
| Authorization.CounterRoundTrip | src/httppubsubprotocol/ws/constants.py:202-210 | reading the text of any counter gives the counter back |
| Authorization.CounterCanonical | src/httppubsubprotocol/ws/constants.py:208-210 | the only text accepted for a counter is the one written for it: no padding, no "-0" |
| Authorization.CounterTextInjective | src/httppubsubprotocol/ws/constants.py:202-210 | distinct counters are written as distinct texts |
| Authorization.CounterTextExamples | src/httppubsubprotocol/ws/constants.py:209-210 | -0x1a is written "-1a", as the documented example shows, and 0 is written "0" |
| Authorization.AuthorizationUrl | src/httppubsubprotocol/ws/constants.py:199-210 | the header value is "websocket:", the nonce, ":" and the counter text, in that order |
| Authorization.AuthorizationUrlInjective | src/httppubsubprotocol/ws/constants.py:199-213 | on one nonce, different counters give different header values |
| Authorization.SubscriberCountersDecrease | src/httppubsubprotocol/ws/constants.py:203-206 | the subscriber's n-th counter is -1-n: always negative and strictly decreasing |
| Authorization.BroadcasterCountersIncrease | src/httppubsubprotocol/ws/constants.py:203-208 | the broadcaster's n-th counter is 1+n: always positive and strictly increasing |
| Authorization.TokensSingleUse | src/httppubsubprotocol/ws/constants.py:211-213 | with a non-zero step, no two of a sender's headers carry the same value, and after n headers the counter has moved n steps |
| IntCodec.ToMinimalUnsigned | src/lonelypsp/stateful/messages/confirm_notify.py:86 | the minimal unsigned encoding is never empty, is [0] for 0, has no leading zero byte otherwise, and reads back to the number |
| IntCodec.FromBigEndianBound | src/lonelypsp/stateful/messages/confirm_notify.py:60-64 | k big-endian bytes hold a value below 256^k, so at most 8 bytes give a value below 2^64 |
| IntCodec.MinimalUnsignedLength | src/lonelypsp/stateful/messages/continue_notify.py:84 | the minimal encoding fits in k bytes exactly when the number is below 256^k |
| IntCodec.MinimalUnsignedFitsU64 | src/lonelypsp/stateful/messages/confirm_notify.py:60-64 | the minimal encoding is at most 8 bytes exactly for the numbers below 2^64 |
| IntCodec.MinimalUnsignedIsShortest | src/lonelypsp/stateful/messages/confirm_notify.py:86 | no non-empty byte string with the same value is shorter than the minimal encoding |
| IntCodec.MinimalUnsignedOfCanonical | src/lonelypsp/stateful/messages/continue_notify.py:64 | a byte string without a leading zero byte is the minimal encoding of its own value |
| Utf8.DecodeEncode | src/httppubsubprotocol/ws/messages/confirm_subscribe.py:120-140 | decoding the UTF-8 encoding of any string gives the string back |
| Utf8.EncodeDecode | src/httppubsubprotocol/ws/messages/confirm_subscribe.py:120-140 | bytes that decode are exactly the encoding of what they decode to |
| Utf8.EncodeInjective | src/httppubsubprotocol/ws/messages/confirm_subscribe.py:140 | distinct strings have distinct encodings |
| Utf8.EncodeLength | src/httppubsubprotocol/ws/messages/confirm_subscribe.py:140 | a string of n characters encodes to between n and 4n bytes |
| HeaderCodec.LengthPrefix | src/httppubsubprotocol/ws/constants.py:21-22 | a length up to 65535 is written as two bytes, high byte first |
| HeaderCodec.ReadField | src/httppubsubprotocol/ws/constants.py:21-22 | reading one field either fails with Truncated or splits the input into a field of at most 65535 bytes and the rest |
| HeaderCodec.ReadFields | src/httppubsubprotocol/ws/constants.py:21-22 | reading k fields either fails with Truncated or yields k fitting items whose fields, followed by the rest, are the input |
| HeaderCodec.ReadFieldsOfFields | src/httppubsubprotocol/ws/constants.py:21-22 | reading back as many fields as were written gives the items and the bytes after them |
| HeaderCodec.InterleaveAt | src/httppubsubprotocol/ws/constants.py:13-15 | the explicit field list has the i-th name at position 2i and the i-th value at 2i+1 |
| HeaderCodec.ExplicitMap | src/httppubsubprotocol/ws/constants.py:13-15 | explicit mode keys exactly the expected names, each with its last value in the fields, and reports MissingHeader exactly when some expected name is absent |
| HeaderCodec.MinimalMapValues | src/httppubsubprotocol/ws/constants.py:10-11 | with distinct names, minimal mode files the i-th value under the i-th expected name |
| HeaderCodec.ParseSimpleHeaders | src/httppubsubprotocol/ws/messages/confirm_subscribe.py:67 | the headers map has exactly the expected names as keys, the rest is a suffix of the input, in minimal mode the input is the values' fields plus the rest, in explicit mode each expected name maps to the last value read after that name among the fields read, the only errors are Truncated or an explicit-mode MissingHeader, and it succeeds whenever the fields can be read and, in explicit mode, every expected name occurs among them |
| HeaderCodec.SerializeSimpleMessage | src/httppubsubprotocol/ws/messages/confirm_subscribe.py:85-91 | the frame is written exactly when every value (and in explicit mode every name) fits in 65535 bytes, otherwise HeaderTooLong; the frame is the mode flag, the type code, the headers section and the body |
| HeaderCodec.SplitFrame | src/httppubsubprotocol/ws/constants.py:183-388 | a frame splits into flags, type and the rest exactly when it has two bytes and the second is a broadcaster-to-subscriber code; a frame under two bytes gives Truncated, an unknown code UnknownMessageType |
| HeaderCodec.ParseSerializedHeaders | src/httppubsubprotocol/ws/constants.py:10-15 | in either mode, parsing a written headers section with the same distinct names gives each name its value and stops where the section ends |
| HeaderCodec.ModesAgree | src/httppubsubprotocol/ws/constants.py:10-15 | minimal and explicit sections for the same headers decode to the same map |
| HeaderCodec.ExplicitAcceptsAnyOrder | src/httppubsubprotocol/ws/constants.py:13-15 | an explicit section that names each expected header once, in any order, parses, ends where it was written, and gives each expected name the value written after it |
| HeaderCodec.BothModesCarryValuesInOrder | src/httppubsubprotocol/ws/constants.py:10-15 | the minimal section reads back as exactly the values, in order, leaving the rest; the explicit one reads back as fields in which position 2i holds name i and position 2i+1 holds value i |
| HeaderCodec.NamesBytesDistinct | src/httppubsubprotocol/ws/constants.py:13-15 | distinct header names have distinct UTF-8 bytes, so explicit-mode lookup cannot confuse them |
| HeaderCodec.HeaderCeiling | src/httppubsubprotocol/ws/constants.py:21-22 | a 65535-byte value is written; a 65536-byte value is refused with HeaderTooLong |
| HeaderCodec.SplitSerialized | src/httppubsubprotocol/ws/messages/confirm_subscribe.py:85-91 | a frame the serializer wrote splits back into its mode flag, its type and its headers section plus body |
| ConfirmSubscribe.ParseExact | src/httppubsubprotocol/ws/messages/confirm_subscribe.py:58-72 | only CONFIRM_SUBSCRIBE_EXACT is accepted; the header errors pass through; the topic is the x-topic bytes unchanged; the record's type is the given one |
| ConfirmSubscribe.SerializeExact | src/httppubsubprotocol/ws/messages/confirm_subscribe.py:81-91 | succeeds exactly when the topic fits in 65535 bytes; the frame carries the mode flag, CONFIRM_SUBSCRIBE_EXACT, the single header x-topic = topic and no body |
| ConfirmSubscribe.ParseGlob | src/httppubsubprotocol/ws/messages/confirm_subscribe.py:110-124 | only CONFIRM_SUBSCRIBE_GLOB is accepted; x-glob bytes that are not UTF-8 give InvalidUtf8; otherwise the glob's encoding is the x-glob bytes |
| ConfirmSubscribe.SerializeGlob | src/httppubsubprotocol/ws/messages/confirm_subscribe.py:133-143 | succeeds exactly when the glob's UTF-8 encoding fits in 65535 bytes; the frame carries the single header x-glob = that encoding and no body |
| ConfirmSubscribe.ExactRoundTrip | src/httppubsubprotocol/ws/messages/confirm_subscribe.py:58-91 | in either header mode, the frame written for a record splits to CONFIRM_SUBSCRIBE_EXACT and parses back to the same record with nothing left over |
| ConfirmSubscribe.GlobRoundTrip | src/httppubsubprotocol/ws/messages/confirm_subscribe.py:110-143 | in either header mode, the frame written for a glob record parses back to the same glob |
| ConfirmSubscribe.ExactReserializes | src/httppubsubprotocol/ws/messages/confirm_subscribe.py:58-91 | in minimal mode, a parsed payload is the serializer's section for the parsed record followed by the rest |
| ConfirmSubscribe.GlobReserializes | src/httppubsubprotocol/ws/messages/confirm_subscribe.py:110-143 | in minimal mode, a parsed glob payload is the serializer's section for the parsed record followed by the rest |
| ConfirmSubscribe.GlobRejectsInvalidUtf8 | src/httppubsubprotocol/ws/messages/confirm_subscribe.py:120 | in either mode, an x-glob value that is not valid UTF-8 is refused with InvalidUtf8 |
| ConfirmUnsubscribe.ParseExact | src/httppubsubprotocol/ws/messages/confirm_unsubscribe.py:41-55 | only CONFIRM_UNSUBSCRIBE_EXACT is accepted; the header errors pass through; the topic is the x-topic bytes unchanged |
| ConfirmUnsubscribe.SerializeExact | src/httppubsubprotocol/ws/messages/confirm_unsubscribe.py:64-74 | succeeds exactly when the topic fits; the frame carries CONFIRM_UNSUBSCRIBE_EXACT, the single header x-topic and no body |
| ConfirmUnsubscribe.ParseGlob | src/httppubsubprotocol/ws/messages/confirm_unsubscribe.py:107-121 | only CONFIRM_UNSUBSCRIBE_GLOB is accepted; invalid UTF-8 gives InvalidUtf8; otherwise the glob's encoding is the x-glob bytes |
| ConfirmUnsubscribe.SerializeGlob | src/httppubsubprotocol/ws/messages/confirm_unsubscribe.py:130-140 | succeeds exactly when the encoded glob fits; the frame carries the single header x-glob and no body |
| ConfirmUnsubscribe.ExactRoundTrip | src/httppubsubprotocol/ws/messages/confirm_unsubscribe.py:41-74 | in either header mode, the written frame parses back to the same record with nothing left over |
| ConfirmUnsubscribe.GlobRoundTrip | src/httppubsubprotocol/ws/messages/confirm_unsubscribe.py:107-140 | in either header mode, the written frame parses back to the same glob |
| ConfirmUnsubscribe.ExactReserializes | src/httppubsubprotocol/ws/messages/confirm_unsubscribe.py:41-74 | in minimal mode, a parsed payload is the serializer's section for the parsed record followed by the rest |
| ConfirmUnsubscribe.GlobReserializes | src/httppubsubprotocol/ws/messages/confirm_unsubscribe.py:107-140 | in minimal mode, a parsed glob payload is the serializer's section for the parsed record followed by the rest |
| ConfirmUnsubscribe.GlobRejectsInvalidUtf8 | src/httppubsubprotocol/ws/messages/confirm_unsubscribe.py:117 | in either mode, an x-glob value that is not valid UTF-8 is refused with InvalidUtf8 |
| ConfirmNotify.Parse | src/lonelypsp/stateful/messages/confirm_notify.py:46-70 | only CONFIRM_NOTIFY is accepted; the header errors pass through; an identifier over 64 bytes is refused first, then a count over 8 bytes; otherwise the count is the big-endian value of its bytes, so it stays below 2^64 |
| ConfirmNotify.Serialize | src/lonelypsp/stateful/messages/confirm_notify.py:77-90 | succeeds exactly when the identifier and the minimal count encoding fit in 65535 bytes; the frame carries CONFIRM_NOTIFY, x-identifier then x-subscribers (minimally encoded), and no body |
| ConfirmNotify.RoundTrip | src/lonelypsp/stateful/messages/confirm_notify.py:46-90 | for an identifier of at most 64 bytes and a count below 2^64, the written frame, in either mode, parses back to the same record with nothing left over |
| ConfirmNotify.ParsedSection | src/lonelypsp/stateful/messages/confirm_notify.py:55-62 | a written two-header section parses back to its identifier and raw count bytes in either mode |
| ConfirmNotify.ParsedRoundTrips | src/lonelypsp/stateful/messages/confirm_notify.py:46-90 | every record the parser produces serializes in either mode and parses back to itself |
| ConfirmNotify.AcceptsSwappedHeaders | src/lonelypsp/stateful/messages/confirm_notify.py:55-70 | in explicit mode a section sending x-subscribers before x-identifier parses to the same record as the serializer's order |
| ConfirmNotify.RejectsLongIdentifier | src/lonelypsp/stateful/messages/confirm_notify.py:56-58 | an identifier over 64 bytes is refused, in either mode, whatever the count |
| ConfirmNotify.RejectsLongCount | src/lonelypsp/stateful/messages/confirm_notify.py:60-62 | a count field over 8 bytes is refused, in either mode, once the identifier fits |
| ConfirmNotify.SerializerOutrunsParser | src/lonelypsp/stateful/messages/confirm_notify.py:56-62 | a record over the parser's ceilings is still written, and its frame is then refused by the parser |
| ContinueNotify.Parse | src/lonelypsp/stateful/messages/continue_notify.py:46-70 | only CONTINUE_NOTIFY is accepted; an identifier over 64 bytes is refused first, then a part id over 8 bytes; otherwise the part id is the big-endian value of its bytes, below 2^64 |
| ContinueNotify.Serialize | src/lonelypsp/stateful/messages/continue_notify.py:77-87 | succeeds exactly when both values fit; the frame carries CONTINUE_NOTIFY, x-identifier then x-part-id (minimally encoded), and no body |
| ContinueNotify.RoundTrip | src/lonelypsp/stateful/messages/continue_notify.py:46-87 | for an identifier of at most 64 bytes and a part id below 2^64, the written frame, in either mode, parses back to the same record |
| ContinueNotify.ParsedSection | src/lonelypsp/stateful/messages/continue_notify.py:55-62 | a written two-header section parses back to its identifier and raw part-id bytes in either mode |
| ContinueNotify.ParsedRoundTrips | src/lonelypsp/stateful/messages/continue_notify.py:46-87 | every record the parser produces serializes in either mode and parses back to itself |
| ContinueNotify.RejectsLongIdentifier | src/lonelypsp/stateful/messages/continue_notify.py:56-58 | an identifier over 64 bytes is refused, in either mode |
| ContinueNotify.RejectsLongPartId | src/lonelypsp/stateful/messages/continue_notify.py:60-62 | a part-id field over 8 bytes is refused, in either mode, once the identifier fits |
| ContinueNotify.SerializerOutrunsParser | src/lonelypsp/stateful/messages/continue_notify.py:56-62 | a record over the parser's ceilings is still written, and its frame is then refused by the parser |
| Registry.ParsersClaimDistinctTypes | src/httppubsubprotocol/ws/messages/confirm_subscribe.py:54-56 | each of the six parsers claims exactly one type code, and no two parsers claim the same code |
| Registry.LayoutsMatchRegistry | src/lonelypsp/stateful/messages/confirm_notify.py:36 | each codec's header list is the registry's list for its type, and none of the six types carries a body |
| Registry.ConfirmNotifyEnforcesStatedSizes | src/lonelypsp/stateful/messages/confirm_notify.py:56-62 | the registry's sizes for CONFIRM_NOTIFY are 64 and 8 bytes; once headers parse, the parser succeeds exactly when each value is within its stated size, and a parsed record re-encodes within them |
| Registry.ContinueNotifyEnforcesStatedSizes | src/lonelypsp/stateful/messages/continue_notify.py:56-62 | the same for CONTINUE_NOTIFY: 64-byte identifier and 8-byte part id, enforced exactly and kept by the parsed record |

## Left out

- Stream reading (`SyncReadableBytesIO`) is not modelled. A payload is the bytes it holds, and a parser returns the bytes after what it consumed.
- The generic dispatcher (`generic_parser`) and its parser table are not part of this model. Only the frame split (`HeaderCodec.SplitFrame`) and the lemma that the six parsers claim distinct codes are modelled.
- The stream reassembler, the per-connection nonce and counter state, and compression-dictionary retention are described only in the enumeration's documentation. Only their stateless rules are modelled: the stream header layout, the counter text and counter sequences, and the compressor identifier ranges.
- SHA-256 and SHA-512 hashing, the base64url encoding of the nonce, and zstd compression and dictionary training are foreign library calls. `Authorization.AuthorizationUrl` takes the nonce as already-encoded text.
- `src/httppubsubprotocol/ws/parser_helpers.py` and `serializer_helpers.py` are not part of this model. `HeaderCodec` models them from the documented layout, with these choices:
  - explicit mode reads exactly twice as many fields as expected names;
  - when a name repeats, the later value wins;
  - names are matched by their UTF-8 bytes;
  - an expected name that is absent gives MissingHeader;
  - header names that are not UTF-8 are not modelled.
- `src/lonelypsp/stateful/constants.py` is not part of this model. The CONFIRM_NOTIFY and CONTINUE_NOTIFY codes are taken to be 6 and 7, as in the websocket enumeration.
- The CONFIRM_NOTIFY and CONTINUE_NOTIFY files import `parse_simple_headers`, `serialize_simple_message`, `int_to_minimal_unsigned` and `PubSubStatefulMessageFlags` from `lonelypsp.stateful`, whose helper and constant files are not part of this model. They are taken to behave as the websocket helpers and flags do, so one `HeaderCodec` and one MINIMAL_HEADERS bit serve both packages.
- `fast_dataclass` and the `TYPE_CHECKING` conformance blocks are static typing only. A record's `type` field is the member function `Type()` returning the literal type.
- ConfirmNotify.Serialize: `subscribers` is a natural number. A negative count, which `int_to_minimal_unsigned` would be handed by a caller, is not modelled. A count of 2^64 or more is assumed to encode in more than 8 bytes rather than raise.
- ContinueNotify.Serialize: `part_id` is a natural number, so negative part ids are not modelled. A part id of 2^64 or more is assumed to encode rather than raise, as for the count.
- Authorization.CounterText: the counter is an unbounded integer. The documented signed 8-byte range of the counter is not enforced.
- ConfirmSubscribe.ExactReserializes: stated for minimal mode only. In explicit mode a payload may repeat a name, so it need not equal the serializer's output. The same holds for `ConfirmSubscribe.GlobReserializes` and the two `ConfirmUnsubscribe` counterparts.
- The codecs of the other message types (CONFIGURE, SUBSCRIBE, NOTIFY, the streams, ENABLE_ZSTD) are not part of this model. `Constants` records their header lists, body policy and stated value sizes, but nothing parses or writes them, so no lemma shows those sizes enforced.
- ConfirmNotify.SerializerOutrunsParser: the count half assumes that `int_to_minimal_unsigned`, whose source is not part of this model, accepts any non-negative integer with no 8-byte limit. If the helper raises above 2^64-1, a count that large makes the serializer fail instead, and only the identifier half holds.
- ContinueNotify.SerializerOutrunsParser: the part-id half rests on the same assumption about `int_to_minimal_unsigned`. Only the identifier half follows from the message file alone.
- ConfirmSubscribe.SerializeGlob: a Python `str` can hold a lone surrogate, on which `glob.encode("utf-8")` raises `UnicodeEncodeError`. A Dafny `char` is a Unicode scalar value and cannot hold one, so that error path is not modelled.
- ConfirmUnsubscribe.SerializeGlob: the same lone-surrogate `UnicodeEncodeError` is not modelled, for the same reason.
