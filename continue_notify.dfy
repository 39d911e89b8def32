/**
 * CONTINUE_NOTIFY: the broadcaster tells the subscriber that it received the
 * given part of a streamed notification and expects the next one. Two headers,
 * x-identifier and x-part-id, and no body.
 */
module ContinueNotify {
  import opened Wire
  import Constants
  import IntCodec
  import HeaderCodec

  /** B2S_ContinueNotify. The part id is a Python int, so it has no upper bound here. */
  datatype ContinueNotify = ContinueNotify(identifier: bytes, partId: nat)
  {
    function Type(): Constants.BroadcasterToSubscriberType
    {
      Constants.CONTINUE_NOTIFY
    }
  }

  const HEADERS: seq<string> := ["x-identifier", "x-part-id"]

  const RELEVANT_TYPES: seq<Constants.BroadcasterToSubscriberType> := [Constants.CONTINUE_NOTIFY]

  lemma HeadersFit()
    ensures HeaderCodec.NamesFit(HEADERS) && Constants.Distinct(HEADERS)
  {
    HeaderCodec.ShortNameFits(HEADERS[0]);
    HeaderCodec.ShortNameFits(HEADERS[1]);
    assert |HEADERS[0]| != |HEADERS[1]|;
  }

  /**
   * B2S_ContinueNotifyParser.parse: an identifier over 64 bytes is refused,
   * then a part id over 8 bytes; the part id is the unsigned big-endian value of
   * its bytes.
   */
  function Parse(flags: byte, t: Constants.BroadcasterToSubscriberType, payload: bytes)
    : (r: Result<(ContinueNotify, bytes)>)
    requires t in RELEVANT_TYPES
    ensures var h := HeaderCodec.ParseSimpleHeaders(flags, payload, HEADERS);
      && (h.Err? ==> r == Err(h.error))
      && (h.Ok? ==>
            var id := h.value.0["x-identifier"];
            var raw := h.value.0["x-part-id"];
            && (|id| > Constants.MAX_IDENTIFIER_BYTES ==>
                  r == Err(ValueTooLong("x-identifier", Constants.MAX_IDENTIFIER_BYTES)))
            && (|id| <= Constants.MAX_IDENTIFIER_BYTES && |raw| > Constants.MAX_UNSIGNED_BYTES ==>
                  r == Err(ValueTooLong("x-part-id", Constants.MAX_UNSIGNED_BYTES)))
            && (|id| <= Constants.MAX_IDENTIFIER_BYTES && |raw| <= Constants.MAX_UNSIGNED_BYTES ==>
                  r == Ok((ContinueNotify(id, IntCodec.FromBigEndian(raw)), h.value.1))))
    ensures r.Ok? ==>
      && r.value.0.Type() == t
      && |r.value.0.identifier| <= Constants.MAX_IDENTIFIER_BYTES
      && r.value.0.partId < IntCodec.U64_LIMIT
  {
    var headers :- HeaderCodec.ParseSimpleHeaders(flags, payload, HEADERS);
    var identifier := headers.0["x-identifier"];
    if |identifier| > Constants.MAX_IDENTIFIER_BYTES then
      Err(ValueTooLong("x-identifier", Constants.MAX_IDENTIFIER_BYTES))
    else
      var partIdBytes := headers.0["x-part-id"];
      if |partIdBytes| > Constants.MAX_UNSIGNED_BYTES then
        Err(ValueTooLong("x-part-id", Constants.MAX_UNSIGNED_BYTES))
      else
        IntCodec.FromBigEndianBound(partIdBytes);
        Ok((ContinueNotify(identifier, IntCodec.FromBigEndian(partIdBytes)), headers.1))
  }

  /** The two header values the serializer writes, in header order. */
  function Values(msg: ContinueNotify): seq<bytes>
  {
    [msg.identifier, IntCodec.ToMinimalUnsigned(msg.partId)]
  }

  /**
   * serialize_b2s_continue_notify: x-identifier, then x-part-id as the
   * minimal unsigned encoding of the part id, and an empty body. Neither the
   * 64-byte nor the 8-byte ceiling is checked here, only the 65535-byte one.
   */
  function Serialize(msg: ContinueNotify, minimal: bool): (r: Result<bytes>)
    ensures r.Ok? <==>
      |msg.identifier| <= Constants.MAX_HEADER_BYTES && |IntCodec.ToMinimalUnsigned(msg.partId)| <= Constants.MAX_HEADER_BYTES
    ensures r.Err? ==> r.error == HeaderTooLong
    ensures r.Ok? ==>
      && HeaderCodec.AllFit(Values(msg)) && HeaderCodec.NamesFit(HEADERS)
      && HeaderCodec.SplitFrame(r.value) == Ok((Constants.FlagsFor(minimal), msg.Type(),
        HeaderCodec.HeaderSection(minimal, HEADERS, Values(msg))))
  {
    HeadersFit();
    var vs := Values(msg);
    assert HeaderCodec.AllFit(vs) <==> |vs[0]| <= Constants.MAX_HEADER_BYTES && |vs[1]| <= Constants.MAX_HEADER_BYTES;
    var r := HeaderCodec.SerializeSimpleMessage(msg.Type(), HEADERS, vs, minimal, []);
    if r.Ok? then
      HeaderCodec.SplitSerialized(msg.Type(), HEADERS, vs, minimal, []);
      assert HeaderCodec.HeaderSection(minimal, HEADERS, vs) + [] == HeaderCodec.HeaderSection(minimal, HEADERS, vs);
      r
    else r
  }

  /**
   * Round trip: for an identifier of at most 64 bytes and a part id below 2^64,
   * the frame the serializer writes, in either header mode, parses back to
   * the same record with nothing left over.
   */
  lemma RoundTrip(m: ContinueNotify, minimal: bool)
    requires |m.identifier| <= Constants.MAX_IDENTIFIER_BYTES && m.partId < IntCodec.U64_LIMIT
    ensures var f := Serialize(m, minimal);
      && f.Ok?
      && var s := HeaderCodec.SplitFrame(f.value);
      && s.Ok? && s.value.1 == m.Type() && s.value.1 in RELEVANT_TYPES
      && Parse(s.value.0, s.value.1, s.value.2) == Ok((m, []))
  {
    var vs := Values(m);
    IntCodec.MinimalUnsignedFitsU64(m.partId);
    var f := Serialize(m, minimal);
    assert f.Ok?;
    ParsedSection(minimal, m.identifier, vs[1], []);
    var section := HeaderCodec.HeaderSection(minimal, HEADERS, vs);
    assert section + [] == section;
  }

  /** The parser sees exactly the two values a headers section was written with. */
  lemma ParsedSection(minimal: bool, identifier: bytes, raw: bytes, rest: bytes)
    requires |identifier| <= Constants.MAX_HEADER_BYTES && |raw| <= Constants.MAX_HEADER_BYTES
    ensures HeaderCodec.NamesFit(HEADERS)
    ensures var h := HeaderCodec.ParseSimpleHeaders(Constants.FlagsFor(minimal),
        HeaderCodec.HeaderSection(minimal, HEADERS, [identifier, raw]) + rest, HEADERS);
      && h.Ok? && h.value.1 == rest
      && "x-identifier" in h.value.0 && h.value.0["x-identifier"] == identifier
      && "x-part-id" in h.value.0 && h.value.0["x-part-id"] == raw
  {
    HeadersFit();
    HeaderCodec.ParseSerializedHeaders(minimal, HEADERS, [identifier, raw], rest);
    var h := HeaderCodec.ParseSimpleHeaders(Constants.FlagsFor(minimal),
        HeaderCodec.HeaderSection(minimal, HEADERS, [identifier, raw]) + rest, HEADERS);
    assert h.value.0[HEADERS[0]] == identifier && h.value.0[HEADERS[1]] == raw;
  }

  /** Every record the parser produces can be sent again and survives the trip. */
  lemma ParsedRoundTrips(flags: byte, payload: bytes, minimal: bool)
    requires Parse(flags, Constants.CONTINUE_NOTIFY, payload).Ok?
    ensures var m := Parse(flags, Constants.CONTINUE_NOTIFY, payload).value.0;
      && Serialize(m, minimal).Ok?
      && Parse(Constants.FlagsFor(minimal), Constants.CONTINUE_NOTIFY, HeaderCodec.SplitFrame(Serialize(m, minimal).value).value.2)
         == Ok((m, []))
  {
    RoundTrip(Parse(flags, Constants.CONTINUE_NOTIFY, payload).value.0, minimal);
  }

  /** An identifier over 64 bytes is refused, in either mode, whatever the part id. */
  lemma RejectsLongIdentifier(minimal: bool, identifier: bytes, raw: bytes, rest: bytes)
    requires Constants.MAX_IDENTIFIER_BYTES < |identifier| <= Constants.MAX_HEADER_BYTES
    requires |raw| <= Constants.MAX_HEADER_BYTES
    ensures HeaderCodec.NamesFit(HEADERS)
    ensures Parse(Constants.FlagsFor(minimal), Constants.CONTINUE_NOTIFY,
      HeaderCodec.HeaderSection(minimal, HEADERS, [identifier, raw]) + rest)
      == Err(ValueTooLong("x-identifier", Constants.MAX_IDENTIFIER_BYTES))
  {
    ParsedSection(minimal, identifier, raw, rest);
  }

  /** A part id over 8 bytes is refused, in either mode, once the identifier fits. */
  lemma RejectsLongPartId(minimal: bool, identifier: bytes, raw: bytes, rest: bytes)
    requires |identifier| <= Constants.MAX_IDENTIFIER_BYTES
    requires Constants.MAX_UNSIGNED_BYTES < |raw| <= Constants.MAX_HEADER_BYTES
    ensures HeaderCodec.NamesFit(HEADERS)
    ensures Parse(Constants.FlagsFor(minimal), Constants.CONTINUE_NOTIFY,
      HeaderCodec.HeaderSection(minimal, HEADERS, [identifier, raw]) + rest)
      == Err(ValueTooLong("x-part-id", Constants.MAX_UNSIGNED_BYTES))
  {
    ParsedSection(minimal, identifier, raw, rest);
  }

  /**
   * The serializer does not enforce the parser's ceilings: a record with an
   * identifier of 65 to 65535 bytes is written without complaint, and its
   * frame is then refused by the parser. The same is stated for a part id of
   * 2^64 or more, on the assumption that `int_to_minimal_unsigned` encodes
   * any non-negative integer rather than raising above eight bytes.
   */
  lemma SerializerOutrunsParser(m: ContinueNotify, minimal: bool)
    requires |m.identifier| <= Constants.MAX_HEADER_BYTES
    requires |IntCodec.ToMinimalUnsigned(m.partId)| <= Constants.MAX_HEADER_BYTES
    requires |m.identifier| > Constants.MAX_IDENTIFIER_BYTES || m.partId >= IntCodec.U64_LIMIT
    ensures var f := Serialize(m, minimal);
      && f.Ok?
      && Parse(Constants.FlagsFor(minimal), Constants.CONTINUE_NOTIFY, HeaderCodec.SplitFrame(f.value).value.2).Err?
  {
    var vs := Values(m);
    IntCodec.MinimalUnsignedFitsU64(m.partId);
    ParsedSection(minimal, m.identifier, vs[1], []);
    var section := HeaderCodec.HeaderSection(minimal, HEADERS, vs);
    assert section + [] == section;
  }
}
