/**
 * CONFIRM_NOTIFY: the broadcaster tells the subscriber that the notification
 * with the given identifier reached this many subscribers. Two headers,
 * x-identifier and x-subscribers, and no body.
 */
module ConfirmNotify {
  import opened Wire
  import Constants
  import IntCodec
  import HeaderCodec

  /** B2S_ConfirmNotify. The count is a Python int, so it has no upper bound here. */
  datatype ConfirmNotify = ConfirmNotify(identifier: bytes, subscribers: nat)
  {
    function Type(): Constants.BroadcasterToSubscriberType
    {
      Constants.CONFIRM_NOTIFY
    }
  }

  const HEADERS: seq<string> := ["x-identifier", "x-subscribers"]

  const RELEVANT_TYPES: seq<Constants.BroadcasterToSubscriberType> := [Constants.CONFIRM_NOTIFY]

  lemma HeadersFit()
    ensures HeaderCodec.NamesFit(HEADERS) && Constants.Distinct(HEADERS)
  {
    HeaderCodec.ShortNameFits(HEADERS[0]);
    HeaderCodec.ShortNameFits(HEADERS[1]);
    assert |HEADERS[0]| != |HEADERS[1]|;
  }

  /**
   * B2S_ConfirmNotifyParser.parse: an identifier over 64 bytes is refused,
   * then a count over 8 bytes; the count is the unsigned big-endian value of
   * its bytes.
   */
  function Parse(flags: byte, t: Constants.BroadcasterToSubscriberType, payload: bytes)
    : (r: Result<(ConfirmNotify, bytes)>)
    requires t in RELEVANT_TYPES
    ensures var h := HeaderCodec.ParseSimpleHeaders(flags, payload, HEADERS);
      && (h.Err? ==> r == Err(h.error))
      && (h.Ok? ==>
            var id := h.value.0["x-identifier"];
            var raw := h.value.0["x-subscribers"];
            && (|id| > Constants.MAX_IDENTIFIER_BYTES ==>
                  r == Err(ValueTooLong("x-identifier", Constants.MAX_IDENTIFIER_BYTES)))
            && (|id| <= Constants.MAX_IDENTIFIER_BYTES && |raw| > Constants.MAX_UNSIGNED_BYTES ==>
                  r == Err(ValueTooLong("x-subscribers", Constants.MAX_UNSIGNED_BYTES)))
            && (|id| <= Constants.MAX_IDENTIFIER_BYTES && |raw| <= Constants.MAX_UNSIGNED_BYTES ==>
                  r == Ok((ConfirmNotify(id, IntCodec.FromBigEndian(raw)), h.value.1))))
    ensures r.Ok? ==>
      && r.value.0.Type() == t
      && |r.value.0.identifier| <= Constants.MAX_IDENTIFIER_BYTES
      && r.value.0.subscribers < IntCodec.U64_LIMIT
  {
    var headers :- HeaderCodec.ParseSimpleHeaders(flags, payload, HEADERS);
    var identifier := headers.0["x-identifier"];
    if |identifier| > Constants.MAX_IDENTIFIER_BYTES then
      Err(ValueTooLong("x-identifier", Constants.MAX_IDENTIFIER_BYTES))
    else
      var subscriberBytes := headers.0["x-subscribers"];
      if |subscriberBytes| > Constants.MAX_UNSIGNED_BYTES then
        Err(ValueTooLong("x-subscribers", Constants.MAX_UNSIGNED_BYTES))
      else
        IntCodec.FromBigEndianBound(subscriberBytes);
        Ok((ConfirmNotify(identifier, IntCodec.FromBigEndian(subscriberBytes)), headers.1))
  }

  /** The two header values the serializer writes, in header order. */
  function Values(msg: ConfirmNotify): seq<bytes>
  {
    [msg.identifier, IntCodec.ToMinimalUnsigned(msg.subscribers)]
  }

  /**
   * serialize_b2s_confirm_notify: x-identifier, then x-subscribers as the
   * minimal unsigned encoding of the count, and an empty body. Neither the
   * 64-byte nor the 8-byte ceiling is checked here, only the 65535-byte one.
   */
  function Serialize(msg: ConfirmNotify, minimal: bool): (r: Result<bytes>)
    ensures r.Ok? <==>
      |msg.identifier| <= Constants.MAX_HEADER_BYTES && |IntCodec.ToMinimalUnsigned(msg.subscribers)| <= Constants.MAX_HEADER_BYTES
    ensures r.Err? ==> r.error == HeaderTooLong
    ensures r.Ok? ==>
      && HeaderCodec.AllFit(Values(msg)) && HeaderCodec.NamesFit(HEADERS)
      && HeaderCodec.SplitFrame(r.value) == Ok((Constants.FlagsFor(minimal), msg.Type(),
        HeaderCodec.HeaderSection(minimal, HEADERS, Values(msg))))
  {
    HeadersFit();
    var vs := Values(msg);
    assert HeaderCodec.AllFit(vs) <==> |vs[0]| <= Constants.MAX_HEADER_BYTES && |vs[1]| <= Constants.MAX_HEADER_BYTES;
    var r := HeaderCodec.SerializeSimpleMessage(msg.Type(), HEADERS, vs, minimal, []);
    if r.Ok? then
      HeaderCodec.SplitSerialized(msg.Type(), HEADERS, vs, minimal, []);
      assert HeaderCodec.HeaderSection(minimal, HEADERS, vs) + [] == HeaderCodec.HeaderSection(minimal, HEADERS, vs);
      r
    else r
  }

  /**
   * Round trip: for an identifier of at most 64 bytes and a count below 2^64,
   * the frame the serializer writes, in either header mode, parses back to
   * the same record with nothing left over.
   */
  lemma RoundTrip(m: ConfirmNotify, minimal: bool)
    requires |m.identifier| <= Constants.MAX_IDENTIFIER_BYTES && m.subscribers < IntCodec.U64_LIMIT
    ensures var f := Serialize(m, minimal);
      && f.Ok?
      && var s := HeaderCodec.SplitFrame(f.value);
      && s.Ok? && s.value.1 == m.Type() && s.value.1 in RELEVANT_TYPES
      && Parse(s.value.0, s.value.1, s.value.2) == Ok((m, []))
  {
    var vs := Values(m);
    IntCodec.MinimalUnsignedFitsU64(m.subscribers);
    var f := Serialize(m, minimal);
    assert f.Ok?;
    ParsedSection(minimal, m.identifier, vs[1], []);
    var section := HeaderCodec.HeaderSection(minimal, HEADERS, vs);
    assert section + [] == section;
  }

  /** The parser sees exactly the two values a headers section was written with. */
  lemma ParsedSection(minimal: bool, identifier: bytes, raw: bytes, rest: bytes)
    requires |identifier| <= Constants.MAX_HEADER_BYTES && |raw| <= Constants.MAX_HEADER_BYTES
    ensures HeaderCodec.NamesFit(HEADERS)
    ensures var h := HeaderCodec.ParseSimpleHeaders(Constants.FlagsFor(minimal),
        HeaderCodec.HeaderSection(minimal, HEADERS, [identifier, raw]) + rest, HEADERS);
      && h.Ok? && h.value.1 == rest
      && "x-identifier" in h.value.0 && h.value.0["x-identifier"] == identifier
      && "x-subscribers" in h.value.0 && h.value.0["x-subscribers"] == raw
  {
    HeadersFit();
    HeaderCodec.ParseSerializedHeaders(minimal, HEADERS, [identifier, raw], rest);
    var h := HeaderCodec.ParseSimpleHeaders(Constants.FlagsFor(minimal),
        HeaderCodec.HeaderSection(minimal, HEADERS, [identifier, raw]) + rest, HEADERS);
    assert h.value.0[HEADERS[0]] == identifier && h.value.0[HEADERS[1]] == raw;
  }

  /** Every record the parser produces can be sent again and survives the trip. */
  lemma ParsedRoundTrips(flags: byte, payload: bytes, minimal: bool)
    requires Parse(flags, Constants.CONFIRM_NOTIFY, payload).Ok?
    ensures var m := Parse(flags, Constants.CONFIRM_NOTIFY, payload).value.0;
      && Serialize(m, minimal).Ok?
      && Parse(Constants.FlagsFor(minimal), Constants.CONFIRM_NOTIFY, HeaderCodec.SplitFrame(Serialize(m, minimal).value).value.2)
         == Ok((m, []))
  {
    RoundTrip(Parse(flags, Constants.CONFIRM_NOTIFY, payload).value.0, minimal);
  }

  /** An identifier over 64 bytes is refused, in either mode, whatever the count. */
  lemma RejectsLongIdentifier(minimal: bool, identifier: bytes, raw: bytes, rest: bytes)
    requires Constants.MAX_IDENTIFIER_BYTES < |identifier| <= Constants.MAX_HEADER_BYTES
    requires |raw| <= Constants.MAX_HEADER_BYTES
    ensures HeaderCodec.NamesFit(HEADERS)
    ensures Parse(Constants.FlagsFor(minimal), Constants.CONFIRM_NOTIFY,
      HeaderCodec.HeaderSection(minimal, HEADERS, [identifier, raw]) + rest)
      == Err(ValueTooLong("x-identifier", Constants.MAX_IDENTIFIER_BYTES))
  {
    ParsedSection(minimal, identifier, raw, rest);
  }

  /** A count over 8 bytes is refused, in either mode, once the identifier fits. */
  lemma RejectsLongCount(minimal: bool, identifier: bytes, raw: bytes, rest: bytes)
    requires |identifier| <= Constants.MAX_IDENTIFIER_BYTES
    requires Constants.MAX_UNSIGNED_BYTES < |raw| <= Constants.MAX_HEADER_BYTES
    ensures HeaderCodec.NamesFit(HEADERS)
    ensures Parse(Constants.FlagsFor(minimal), Constants.CONFIRM_NOTIFY,
      HeaderCodec.HeaderSection(minimal, HEADERS, [identifier, raw]) + rest)
      == Err(ValueTooLong("x-subscribers", Constants.MAX_UNSIGNED_BYTES))
  {
    ParsedSection(minimal, identifier, raw, rest);
  }

  /**
   * In explicit mode the two headers may come in either order: a section that
   * sends x-subscribers before x-identifier parses to the same record.
   */
  lemma AcceptsSwappedHeaders(identifier: bytes, raw: bytes, rest: bytes)
    requires |identifier| <= Constants.MAX_IDENTIFIER_BYTES && |raw| <= Constants.MAX_UNSIGNED_BYTES
    ensures var swapped := [HEADERS[1], HEADERS[0]];
      && HeaderCodec.NamesFit(swapped)
      && Parse(Constants.FlagsFor(false), Constants.CONFIRM_NOTIFY,
           HeaderCodec.HeaderSection(false, swapped, [raw, identifier]) + rest)
         == Ok((ConfirmNotify(identifier, IntCodec.FromBigEndian(raw)), rest))
  {
    var swapped := [HEADERS[1], HEADERS[0]];
    HeaderCodec.ShortNameFits(HEADERS[0]);
    HeaderCodec.ShortNameFits(HEADERS[1]);
    assert |HEADERS[0]| != |HEADERS[1]|;
    HeaderCodec.ExplicitAcceptsAnyOrder(HEADERS, swapped, [raw, identifier], rest);
    assert swapped[0] == HEADERS[1] && swapped[1] == HEADERS[0];
  }

  /**
   * The serializer does not enforce the parser's ceilings: a record with an
   * identifier of 65 to 65535 bytes is written without complaint, and its
   * frame is then refused by the parser. The same is stated for a count of
   * 2^64 or more, on the assumption that `int_to_minimal_unsigned` encodes
   * any non-negative integer rather than raising above eight bytes.
   */
  lemma SerializerOutrunsParser(m: ConfirmNotify, minimal: bool)
    requires |m.identifier| <= Constants.MAX_HEADER_BYTES
    requires |IntCodec.ToMinimalUnsigned(m.subscribers)| <= Constants.MAX_HEADER_BYTES
    requires |m.identifier| > Constants.MAX_IDENTIFIER_BYTES || m.subscribers >= IntCodec.U64_LIMIT
    ensures var f := Serialize(m, minimal);
      && f.Ok?
      && Parse(Constants.FlagsFor(minimal), Constants.CONFIRM_NOTIFY, HeaderCodec.SplitFrame(f.value).value.2).Err?
  {
    var vs := Values(m);
    IntCodec.MinimalUnsignedFitsU64(m.subscribers);
    ParsedSection(minimal, m.identifier, vs[1], []);
    var section := HeaderCodec.HeaderSection(minimal, HEADERS, vs);
    assert section + [] == section;
  }
}
