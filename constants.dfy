/**
 * The message registry of the websocket protocol: the flag bits, the two
 * message-type enumerations and their codes, the ordered header names and body
 * policy of every message type, and the byte ceilings stated for its headers.
 */
module Constants {
  import opened Wire
  import IntCodec
  import Positional

  // ---------------------------------------------------------------- flags

  /** PubSubWSMessageFlags.MINIMAL_HEADERS, bit 0 of the flags byte. */
  const MINIMAL_HEADERS: byte := 1

  /** The flags byte has the MINIMAL_HEADERS bit (bit 0) set; other bits are ignored. */
  predicate HasMinimalHeaders(flags: byte)
  {
    (flags / MINIMAL_HEADERS) % 2 == 1
  }

  /** The flags byte a sender writes for the chosen header mode. */
  function FlagsFor(minimal: bool): (flags: byte)
    ensures HasMinimalHeaders(flags) == minimal
  {
    if minimal then MINIMAL_HEADERS else 0
  }

  /** MINIMAL_HEADERS is `1 << 0`: the flag is exactly the lowest bit. */
  lemma MinimalHeadersIsBitZero(flags: byte)
    ensures MINIMAL_HEADERS == 1
    ensures HasMinimalHeaders(flags) <==> flags % 2 == 1
    ensures HasMinimalHeaders(flags) <==> HasMinimalHeaders(flags % 2)
  {
  }

  // ------------------------------------------- header ceilings and sizes

  /** Every header name and every header value is at most this many bytes. */
  const MAX_HEADER_BYTES: nat := 65535

  /** x-identifier of notifications: an arbitrary blob of at most 64 bytes. */
  const MAX_IDENTIFIER_BYTES: nat := 64

  /** Unsigned big-endian integer headers (part ids, lengths, counts): at most 8 bytes. */
  const MAX_UNSIGNED_BYTES: nat := 8

  /** x-subscriber-nonce and x-broadcaster-nonce: 32 random bytes each. */
  const NONCE_BYTES: nat := 32

  /** x-compressed-sha512: a SHA-512 digest. */
  const SHA512_BYTES: nat := 64

  // --------------------------------------------------- message types

  /** SubscriberToBroadcasterWSMessageType, in declaration order. */
  datatype SubscriberToBroadcasterType =
    | CONFIGURE
    | SUBSCRIBE_EXACT
    | SUBSCRIBE_GLOB
    | UNSUBSCRIBE_EXACT
    | UNSUBSCRIBE_GLOB
    | NOTIFY
    | NOTIFY_STREAM
    | CONTINUE_RECEIVE
    | CONFIRM_RECEIVE

  /** BroadcasterToSubscriberWSMessageType, in declaration order. */
  datatype BroadcasterToSubscriberType =
    | CONFIRM_CONFIGURE
    | CONFIRM_SUBSCRIBE_EXACT
    | CONFIRM_SUBSCRIBE_GLOB
    | CONFIRM_UNSUBSCRIBE_EXACT
    | CONFIRM_UNSUBSCRIBE_GLOB
    | CONFIRM_NOTIFY
    | CONTINUE_NOTIFY
    | RECEIVE_STREAM
    | ENABLE_ZSTD_PRESET
    | ENABLE_ZSTD_CUSTOM

  const S2B_DECLARED: seq<SubscriberToBroadcasterType> := [
    CONFIGURE, SUBSCRIBE_EXACT, SUBSCRIBE_GLOB, UNSUBSCRIBE_EXACT, UNSUBSCRIBE_GLOB,
    NOTIFY, NOTIFY_STREAM, CONTINUE_RECEIVE, CONFIRM_RECEIVE]

  const B2S_DECLARED: seq<BroadcasterToSubscriberType> := [
    CONFIRM_CONFIGURE, CONFIRM_SUBSCRIBE_EXACT, CONFIRM_SUBSCRIBE_GLOB,
    CONFIRM_UNSUBSCRIBE_EXACT, CONFIRM_UNSUBSCRIBE_GLOB, CONFIRM_NOTIFY,
    CONTINUE_NOTIFY, RECEIVE_STREAM, ENABLE_ZSTD_PRESET, ENABLE_ZSTD_CUSTOM]

  /**
   * The wire code of a subscriber-to-broadcaster type. `auto()` numbers an
   * IntEnum from 1 in declaration order, so the code is the position plus one.
   */
  function S2BCode(t: SubscriberToBroadcasterType): (c: nat)
    ensures 1 <= c <= |S2B_DECLARED| && S2B_DECLARED[c - 1] == t
  {
    match t
    case CONFIGURE => 1
    case SUBSCRIBE_EXACT => 2
    case SUBSCRIBE_GLOB => 3
    case UNSUBSCRIBE_EXACT => 4
    case UNSUBSCRIBE_GLOB => 5
    case NOTIFY => 6
    case NOTIFY_STREAM => 7
    case CONTINUE_RECEIVE => 8
    case CONFIRM_RECEIVE => 9
  }

  /** The wire code of a broadcaster-to-subscriber type: its position plus one. */
  function B2SCode(t: BroadcasterToSubscriberType): (c: nat)
    ensures 1 <= c <= |B2S_DECLARED| && B2S_DECLARED[c - 1] == t
  {
    match t
    case CONFIRM_CONFIGURE => 1
    case CONFIRM_SUBSCRIBE_EXACT => 2
    case CONFIRM_SUBSCRIBE_GLOB => 3
    case CONFIRM_UNSUBSCRIBE_EXACT => 4
    case CONFIRM_UNSUBSCRIBE_GLOB => 5
    case CONFIRM_NOTIFY => 6
    case CONTINUE_NOTIFY => 7
    case RECEIVE_STREAM => 8
    case ENABLE_ZSTD_PRESET => 9
    case ENABLE_ZSTD_CUSTOM => 10
  }

  /** The subscriber-to-broadcaster type a code byte names, if any. */
  function S2BFromCode(c: int): (r: Option<SubscriberToBroadcasterType>)
    ensures r.Some? <==> 1 <= c <= 9
    ensures r.Some? ==> S2BCode(r.value) == c
  {
    if 1 <= c <= |S2B_DECLARED| then Some(S2B_DECLARED[c - 1]) else None
  }

  /** The broadcaster-to-subscriber type a code byte names, if any. */
  function B2SFromCode(c: int): (r: Option<BroadcasterToSubscriberType>)
    ensures r.Some? <==> 1 <= c <= 10
    ensures r.Some? ==> B2SCode(r.value) == c
  {
    if 1 <= c <= |B2S_DECLARED| then Some(B2S_DECLARED[c - 1]) else None
  }

  /** Codes are pairwise distinct within a direction, and each maps back to its type. */
  lemma S2BCodesDistinct(t: SubscriberToBroadcasterType, u: SubscriberToBroadcasterType)
    ensures S2BCode(t) == S2BCode(u) ==> t == u
    ensures S2BFromCode(S2BCode(t)) == Some(t)
  {
  }

  lemma B2SCodesDistinct(t: BroadcasterToSubscriberType, u: BroadcasterToSubscriberType)
    ensures B2SCode(t) == B2SCode(u) ==> t == u
    ensures B2SFromCode(B2SCode(t)) == Some(t)
  {
  }

  /** Codes are unique only per direction: code 1 is CONFIGURE one way and CONFIRM_CONFIGURE the other. */
  lemma CodesOverlapAcrossDirections()
    ensures S2BCode(CONFIGURE) == B2SCode(CONFIRM_CONFIGURE) == 1
    ensures forall t :: S2BFromCode(S2BCode(t)).Some? && B2SFromCode(S2BCode(t)).Some?
  {
  }

  // --------------------------------------------------- header layouts

  /** The three headers every NOTIFY_STREAM / RECEIVE_STREAM part starts with. */
  const STREAM_LEADING_HEADERS: seq<string> := ["authorization", "x-identifier", "x-part-id"]

  /** The headers that follow them on part 0 only. */
  const STREAM_FIRST_PART_HEADERS: seq<string> := [
    "x-topic", "x-compressor", "x-compressed-length", "x-decompressed-length", "x-compressed-sha512"]

  /** The ordered header names of a stream part, which depend on its part id. */
  function StreamHeaders(partId: nat): seq<string>
  {
    STREAM_LEADING_HEADERS + (if partId == 0 then STREAM_FIRST_PART_HEADERS else [])
  }

  /**
   * The ordered header names a subscriber-to-broadcaster message carries; in
   * minimal mode exactly these values are sent, in this order. `partId` is
   * consulted only for NOTIFY_STREAM.
   */
  function S2BHeaders(t: SubscriberToBroadcasterType, partId: nat): seq<string>
  {
    match t
    case CONFIGURE => ["x-subscriber-nonce", "x-enable-zstd", "x-enable-training", "x-initial-dict"]
    case SUBSCRIBE_EXACT => ["authorization", "x-topic"]
    case SUBSCRIBE_GLOB => ["authorization", "x-glob"]
    case UNSUBSCRIBE_EXACT => ["authorization", "x-topic"]
    case UNSUBSCRIBE_GLOB => ["authorization", "x-glob"]
    case NOTIFY => [
      "authorization", "x-identifier", "x-topic", "x-compressor",
      "x-compressed-length", "x-decompressed-length", "x-compressed-sha512"]
    case NOTIFY_STREAM => StreamHeaders(partId)
    case CONTINUE_RECEIVE => ["x-identifier", "x-part-id"]
    case CONFIRM_RECEIVE => ["x-identifier"]
  }

  /** The ordered header names a broadcaster-to-subscriber message carries. */
  function B2SHeaders(t: BroadcasterToSubscriberType, partId: nat): seq<string>
  {
    match t
    case CONFIRM_CONFIGURE => ["x-broadcaster-nonce"]
    case CONFIRM_SUBSCRIBE_EXACT => ["x-topic"]
    case CONFIRM_SUBSCRIBE_GLOB => ["x-glob"]
    case CONFIRM_UNSUBSCRIBE_EXACT => ["x-topic"]
    case CONFIRM_UNSUBSCRIBE_GLOB => ["x-glob"]
    case CONFIRM_NOTIFY => ["x-identifier", "x-subscribers"]
    case CONTINUE_NOTIFY => ["x-identifier", "x-part-id"]
    case RECEIVE_STREAM => StreamHeaders(partId)
    case ENABLE_ZSTD_PRESET => ["x-identifier", "x-compression-level", "x-min-size", "x-max-size"]
    case ENABLE_ZSTD_CUSTOM => ["x-identifier", "x-compression-level", "x-min-size", "x-max-size"]
  }

  /** Only the notification payload and the custom dictionary travel as a body. */
  predicate S2BHasBody(t: SubscriberToBroadcasterType)
  {
    t == NOTIFY || t == NOTIFY_STREAM
  }

  predicate B2SHasBody(t: BroadcasterToSubscriberType)
  {
    t == RECEIVE_STREAM || t == ENABLE_ZSTD_CUSTOM
  }

  predicate Distinct<T(==)>(s: seq<T>)
  {
    forall i, j :: 0 <= i < j < |s| ==> s[i] != s[j]
  }

  /**
   * NOTIFY_STREAM and RECEIVE_STREAM share one layout: authorization,
   * x-identifier and x-part-id always come first, and the five part-0 headers
   * follow, in their stated order, exactly when the part id is 0.
   */
  lemma StreamLayout(partId: nat)
    ensures S2BHeaders(NOTIFY_STREAM, partId) == B2SHeaders(RECEIVE_STREAM, partId)
    ensures StreamHeaders(partId)[..3] == ["authorization", "x-identifier", "x-part-id"]
    ensures |StreamHeaders(partId)| == 8 <==> partId == 0
    ensures |StreamHeaders(partId)| == 3 <==> partId != 0
    ensures partId == 0 ==> StreamHeaders(partId)[3..] == STREAM_FIRST_PART_HEADERS
    ensures STREAM_FIRST_PART_HEADERS ==
      ["x-topic", "x-compressor", "x-compressed-length", "x-decompressed-length", "x-compressed-sha512"]
    ensures S2BHasBody(NOTIFY_STREAM) && B2SHasBody(RECEIVE_STREAM)
  {
  }

  /** Within one message no header name repeats, so minimal mode is unambiguous. */
  lemma S2BHeaderNamesDistinct(t: SubscriberToBroadcasterType, partId: nat)
    ensures Distinct(S2BHeaders(t, partId))
  {
    if t == NOTIFY_STREAM {
      StreamHeaderNamesDistinct(partId);
    }
  }

  lemma B2SHeaderNamesDistinct(t: BroadcasterToSubscriberType, partId: nat)
    ensures Distinct(B2SHeaders(t, partId))
  {
    if t == RECEIVE_STREAM {
      StreamHeaderNamesDistinct(partId);
    }
  }

  lemma StreamHeaderNamesDistinct(partId: nat)
    ensures Distinct(StreamHeaders(partId))
  {
  }

  // ---------------------------------------------- header value sizes

  /** The size rule of one header value: a fixed width, or a ceiling. */
  datatype ByteLimit = Exactly(size: nat) | AtMost(size: nat)
  {
    predicate Admits(n: nat)
    {
      match this
      case Exactly(k) => n == k
      case AtMost(k) => n <= k
    }
  }

  /** A header whose size is not stated has only the ceiling every header has. */
  const ANY_SIZE: ByteLimit := AtMost(MAX_HEADER_BYTES)

  /** x-enable-zstd and x-enable-training: one unsigned byte each. */
  const SWITCH_BYTES: nat := 1

  /** x-initial-dict, a preset compressor id and x-compression-level: at most two bytes. */
  const SHORT_INT_BYTES: nat := 2

  /** x-min-size: exactly four bytes. */
  const MIN_SIZE_BYTES: nat := 4

  /** x-max-size: exactly eight bytes. */
  const MAX_SIZE_BYTES: nat := 8

  /** The stated sizes of the NOTIFY_STREAM / RECEIVE_STREAM header values. */
  function StreamHeaderLimit(name: string): (l: ByteLimit)
    ensures l.size <= MAX_HEADER_BYTES
  {
    if name == "x-identifier" then AtMost(MAX_IDENTIFIER_BYTES)
    else if name == "x-part-id" || name == "x-compressor" then AtMost(MAX_UNSIGNED_BYTES)
    else if name == "x-compressed-length" || name == "x-decompressed-length" then AtMost(MAX_UNSIGNED_BYTES)
    else if name == "x-compressed-sha512" then Exactly(SHA512_BYTES)
    else ANY_SIZE
  }

  /** The stated size of each header value of a subscriber-to-broadcaster message. */
  function S2BHeaderLimit(t: SubscriberToBroadcasterType, name: string): (l: ByteLimit)
    ensures l.size <= MAX_HEADER_BYTES
  {
    match t
    case CONFIGURE =>
      if name == "x-subscriber-nonce" then Exactly(NONCE_BYTES)
      else if name == "x-enable-zstd" || name == "x-enable-training" then Exactly(SWITCH_BYTES)
      else if name == "x-initial-dict" then Exactly(SHORT_INT_BYTES)
      else ANY_SIZE
    case NOTIFY =>
      if name == "x-compressed-length" || name == "x-decompressed-length" then AtMost(MAX_UNSIGNED_BYTES)
      else if name == "x-compressed-sha512" then Exactly(SHA512_BYTES)
      else ANY_SIZE
    case NOTIFY_STREAM => StreamHeaderLimit(name)
    case CONTINUE_RECEIVE => if name == "x-part-id" then AtMost(MAX_UNSIGNED_BYTES) else ANY_SIZE
    case _ => ANY_SIZE
  }

  /**
   * The stated size of each header value of a broadcaster-to-subscriber
   * message. The 64-byte identifier of CONFIRM_NOTIFY and CONTINUE_NOTIFY is
   * the one their record types state and their parsers enforce.
   */
  function B2SHeaderLimit(t: BroadcasterToSubscriberType, name: string): (l: ByteLimit)
    ensures l.size <= MAX_HEADER_BYTES
  {
    match t
    case CONFIRM_CONFIGURE => if name == "x-broadcaster-nonce" then Exactly(NONCE_BYTES) else ANY_SIZE
    case CONFIRM_NOTIFY =>
      if name == "x-identifier" then AtMost(MAX_IDENTIFIER_BYTES)
      else if name == "x-subscribers" then AtMost(MAX_UNSIGNED_BYTES)
      else ANY_SIZE
    case CONTINUE_NOTIFY =>
      if name == "x-identifier" then AtMost(MAX_IDENTIFIER_BYTES)
      else if name == "x-part-id" then AtMost(MAX_UNSIGNED_BYTES)
      else ANY_SIZE
    case RECEIVE_STREAM => StreamHeaderLimit(name)
    case ENABLE_ZSTD_PRESET => ZstdHeaderLimit(name, AtMost(SHORT_INT_BYTES))
    case ENABLE_ZSTD_CUSTOM => ZstdHeaderLimit(name, AtMost(MAX_UNSIGNED_BYTES))
    case _ => ANY_SIZE
  }

  /** The two ENABLE_ZSTD messages differ only in the size of their x-identifier. */
  function ZstdHeaderLimit(name: string, identifier: ByteLimit): (l: ByteLimit)
    requires identifier.size <= MAX_HEADER_BYTES
    ensures l.size <= MAX_HEADER_BYTES
  {
    if name == "x-identifier" then identifier
    else if name == "x-compression-level" then AtMost(SHORT_INT_BYTES)
    else if name == "x-min-size" then Exactly(MIN_SIZE_BYTES)
    else if name == "x-max-size" then Exactly(MAX_SIZE_BYTES)
    else ANY_SIZE
  }

  /** The two stream directions state the same size for every header. */
  lemma StreamLimitsAgree(name: string)
    ensures S2BHeaderLimit(NOTIFY_STREAM, name) == B2SHeaderLimit(RECEIVE_STREAM, name)
    ensures name in STREAM_LEADING_HEADERS[1..] || name in STREAM_FIRST_PART_HEADERS[1..] <==>
      S2BHeaderLimit(NOTIFY_STREAM, name) != ANY_SIZE
  {
  }

  // ------------------------------------------------- compression rules

  /** Compressor id 0 means no compression and is never announced. */
  const NO_COMPRESSION_ID: nat := 0

  /** The smallest id of a custom (trained, sent inline) dictionary. */
  const MIN_CUSTOM_IDENTIFIER: nat := 65536

  /** The highest compression level either ENABLE_ZSTD message may announce. */
  const MAX_COMPRESSION_LEVEL: int := 22

  /** x-max-size of 2^64 - 1 means no upper bound. */
  const NO_MAX_SIZE: nat := IntCodec.U64_LIMIT - 1

  /** ENABLE_ZSTD_PRESET x-identifier: unsigned, at least 1, within its stated size. */
  predicate ValidPresetIdentifier(id: nat)
  {
    1 <= id && B2SHeaderLimit(ENABLE_ZSTD_PRESET, "x-identifier").Admits(|IntCodec.ToMinimalUnsigned(id)|)
  }

  /** ENABLE_ZSTD_CUSTOM x-identifier: unsigned, at least 65536, within its stated size. */
  predicate ValidCustomIdentifier(id: nat)
  {
    MIN_CUSTOM_IDENTIFIER <= id && B2SHeaderLimit(ENABLE_ZSTD_CUSTOM, "x-identifier").Admits(|IntCodec.ToMinimalUnsigned(id)|)
  }

  /** x-compression-level: signed, at most 2 bytes, at most 22. */
  predicate ValidCompressionLevel(level: int)
  {
    -0x8000 <= level <= MAX_COMPRESSION_LEVEL
  }

  /**
   * The compression-level rule: every level from the smallest two-byte signed
   * value up to 22 is allowed, 23 is not, and the header is at most two bytes.
   */
  lemma CompressionLevelRange()
    ensures ValidCompressionLevel(-0x8000) && ValidCompressionLevel(MAX_COMPRESSION_LEVEL)
    ensures !ValidCompressionLevel(MAX_COMPRESSION_LEVEL + 1) && !ValidCompressionLevel(-0x8001)
    ensures B2SHeaderLimit(ENABLE_ZSTD_PRESET, "x-compression-level") == AtMost(2)
    ensures B2SHeaderLimit(ENABLE_ZSTD_CUSTOM, "x-compression-level") == AtMost(2)
  {
  }

  /**
   * x-max-size of 2^64 - 1, the "no upper bound" value, takes all eight bytes
   * its size rule demands, as does every value from 2^56 to 2^64 - 1.
   */
  lemma NoMaxSizeFillsItsField()
    ensures B2SHeaderLimit(ENABLE_ZSTD_PRESET, "x-max-size").Admits(|IntCodec.ToMinimalUnsigned(NO_MAX_SIZE)|)
    ensures B2SHeaderLimit(ENABLE_ZSTD_CUSTOM, "x-max-size").Admits(|IntCodec.ToMinimalUnsigned(NO_MAX_SIZE)|)
    ensures forall n: nat :: 0x100_0000_0000_0000 <= n < IntCodec.U64_LIMIT ==>
      && B2SHeaderLimit(ENABLE_ZSTD_PRESET, "x-max-size").Admits(|IntCodec.ToMinimalUnsigned(n)|)
      && B2SHeaderLimit(ENABLE_ZSTD_CUSTOM, "x-max-size").Admits(|IntCodec.ToMinimalUnsigned(n)|)
  {
    assert Positional.Pow(256, 7) == 0x100_0000_0000_0000;
    forall n: nat | 0x100_0000_0000_0000 <= n < IntCodec.U64_LIMIT
      ensures |IntCodec.ToMinimalUnsigned(n)| == MAX_SIZE_BYTES
    {
      IntCodec.MinimalUnsignedFitsU64(n);
      IntCodec.MinimalUnsignedLength(n, 7);
    }
  }

  /** The byte ceilings of the identifiers, as plain ranges. */
  lemma CompressorIdentifierRanges(id: nat)
    ensures ValidPresetIdentifier(id) <==> 1 <= id < 0x1_0000
    ensures ValidCustomIdentifier(id) <==> 0x1_0000 <= id < IntCodec.U64_LIMIT
  {
    IntCodec.MinimalUnsignedLength(id, 2);
    assert Positional.Pow(256, 2) == 0x1_0000;
    IntCodec.MinimalUnsignedFitsU64(id);
  }

  /**
   * Every compressor id that fits in 8 bytes is exactly one of: no
   * compression (0), a preset (1 to 65535) or a custom dictionary (65536 up).
   */
  lemma CompressorIdsPartition(id: nat)
    requires id < IntCodec.U64_LIMIT
    ensures id == NO_COMPRESSION_ID || ValidPresetIdentifier(id) || ValidCustomIdentifier(id)
    ensures !(ValidPresetIdentifier(id) && ValidCustomIdentifier(id))
    ensures id == NO_COMPRESSION_ID ==> !ValidPresetIdentifier(id) && !ValidCustomIdentifier(id)
  {
    CompressorIdentifierRanges(id);
  }
}
