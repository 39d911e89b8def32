/**
 * CONFIRM_UNSUBSCRIBE_EXACT and CONFIRM_UNSUBSCRIBE_GLOB: the broadcaster
 * tells the subscriber which topic, or which glob pattern, it is no longer
 * subscribed to. Each carries one header and no body.
 */
module ConfirmUnsubscribe {
  import opened Wire
  import Utf8
  import Constants
  import HeaderCodec

  /** B2S_ConfirmUnsubscribeExact: the topic, as raw bytes. */
  datatype ConfirmUnsubscribeExact = ConfirmUnsubscribeExact(topic: bytes)
  {
    /** The record's `type` discriminator, which has one possible value. */
    function Type(): Constants.BroadcasterToSubscriberType
    {
      Constants.CONFIRM_UNSUBSCRIBE_EXACT
    }
  }

  /** B2S_ConfirmUnsubscribeGlob: the glob pattern, as text. */
  datatype ConfirmUnsubscribeGlob = ConfirmUnsubscribeGlob(glob: string)
  {
    function Type(): Constants.BroadcasterToSubscriberType
    {
      Constants.CONFIRM_UNSUBSCRIBE_GLOB
    }
  }

  const EXACT_HEADERS: seq<string> := ["x-topic"]
  const GLOB_HEADERS: seq<string> := ["x-glob"]

  /** The type codes each parser accepts: `relevant_types`. */
  const EXACT_RELEVANT_TYPES: seq<Constants.BroadcasterToSubscriberType> := [Constants.CONFIRM_UNSUBSCRIBE_EXACT]
  const GLOB_RELEVANT_TYPES: seq<Constants.BroadcasterToSubscriberType> := [Constants.CONFIRM_UNSUBSCRIBE_GLOB]

  lemma HeadersFit()
    ensures HeaderCodec.NamesFit(EXACT_HEADERS) && HeaderCodec.NamesFit(GLOB_HEADERS)
    ensures Constants.Distinct(EXACT_HEADERS) && Constants.Distinct(GLOB_HEADERS)
  {
    HeaderCodec.ShortNameFits(EXACT_HEADERS[0]);
    HeaderCodec.ShortNameFits(GLOB_HEADERS[0]);
  }

  /**
   * B2S_ConfirmUnsubscribeExactParser.parse: the topic is the x-topic header,
   * unchanged; the bytes after the headers are returned unread.
   */
  function ParseExact(flags: byte, t: Constants.BroadcasterToSubscriberType, payload: bytes)
    : (r: Result<(ConfirmUnsubscribeExact, bytes)>)
    requires t in EXACT_RELEVANT_TYPES
    ensures var h := HeaderCodec.ParseSimpleHeaders(flags, payload, EXACT_HEADERS);
      && (h.Err? ==> r == Err(h.error))
      && (h.Ok? ==> r.Ok? && r.value.0.topic == h.value.0["x-topic"] && r.value.1 == h.value.1)
    ensures r.Ok? ==> r.value.0.Type() == t
    ensures r.Ok? && Constants.HasMinimalHeaders(flags) ==>
      HeaderCodec.AllFit([r.value.0.topic]) && payload == HeaderCodec.Fields([r.value.0.topic]) + r.value.1
  {
    var headers :- HeaderCodec.ParseSimpleHeaders(flags, payload, EXACT_HEADERS);
    assert HeaderCodec.ValuesOf(headers.0, EXACT_HEADERS) == [headers.0["x-topic"]];
    Ok((ConfirmUnsubscribeExact(headers.0["x-topic"]), headers.1))
  }

  /**
   * serialize_b2s_confirm_unsubscribe_exact: one header, x-topic, holding the
   * topic, and an empty body; refused only when the topic is over 65535 bytes.
   */
  function SerializeExact(msg: ConfirmUnsubscribeExact, minimal: bool): (r: Result<bytes>)
    ensures r.Ok? <==> |msg.topic| <= Constants.MAX_HEADER_BYTES
    ensures r.Err? ==> r.error == HeaderTooLong
    ensures r.Ok? ==>
      && HeaderCodec.NamesFit(EXACT_HEADERS)
      && HeaderCodec.SplitFrame(r.value) == Ok((Constants.FlagsFor(minimal), msg.Type(),
        HeaderCodec.HeaderSection(minimal, EXACT_HEADERS, [msg.topic])))
  {
    HeadersFit();
    var r := HeaderCodec.SerializeSimpleMessage(msg.Type(), EXACT_HEADERS, [msg.topic], minimal, []);
    if r.Ok? then
      HeaderCodec.SplitSerialized(msg.Type(), EXACT_HEADERS, [msg.topic], minimal, []);
      assert HeaderCodec.HeaderSection(minimal, EXACT_HEADERS, [msg.topic]) + [] == HeaderCodec.HeaderSection(minimal, EXACT_HEADERS, [msg.topic]);
      r
    else r
  }

  /**
   * B2S_ConfirmUnsubscribeGlobParser.parse: the glob is the x-glob header
   * decoded as UTF-8; bytes that are not well-formed UTF-8 are refused.
   */
  function ParseGlob(flags: byte, t: Constants.BroadcasterToSubscriberType, payload: bytes)
    : (r: Result<(ConfirmUnsubscribeGlob, bytes)>)
    requires t in GLOB_RELEVANT_TYPES
    ensures var h := HeaderCodec.ParseSimpleHeaders(flags, payload, GLOB_HEADERS);
      && (h.Err? ==> r == Err(h.error))
      && (h.Ok? && Utf8.Decode(h.value.0["x-glob"]).None? ==> r == Err(InvalidUtf8("x-glob")))
      && (h.Ok? && Utf8.Decode(h.value.0["x-glob"]).Some? ==>
            r.Ok? && Utf8.Encode(r.value.0.glob) == h.value.0["x-glob"] && r.value.1 == h.value.1)
    ensures r.Ok? ==> r.value.0.Type() == t
    ensures r.Ok? && Constants.HasMinimalHeaders(flags) ==>
      var raw := Utf8.Encode(r.value.0.glob);
      HeaderCodec.AllFit([raw]) && payload == HeaderCodec.Fields([raw]) + r.value.1
  {
    var headers :- HeaderCodec.ParseSimpleHeaders(flags, payload, GLOB_HEADERS);
    var raw := headers.0["x-glob"];
    assert HeaderCodec.ValuesOf(headers.0, GLOB_HEADERS) == [raw];
    match Utf8.Decode(raw)
    case None => Err(InvalidUtf8("x-glob"))
    case Some(glob) =>
      Utf8.EncodeDecode(raw);
      Ok((ConfirmUnsubscribeGlob(glob), headers.1))
  }

  /**
   * serialize_b2s_confirm_unsubscribe_glob: one header, x-glob, holding the
   * UTF-8 bytes of the glob, and an empty body.
   */
  function SerializeGlob(msg: ConfirmUnsubscribeGlob, minimal: bool): (r: Result<bytes>)
    ensures r.Ok? <==> |Utf8.Encode(msg.glob)| <= Constants.MAX_HEADER_BYTES
    ensures r.Err? ==> r.error == HeaderTooLong
    ensures r.Ok? ==>
      && HeaderCodec.NamesFit(GLOB_HEADERS)
      && HeaderCodec.SplitFrame(r.value) == Ok((Constants.FlagsFor(minimal), msg.Type(),
        HeaderCodec.HeaderSection(minimal, GLOB_HEADERS, [Utf8.Encode(msg.glob)])))
  {
    HeadersFit();
    var raw := Utf8.Encode(msg.glob);
    var r := HeaderCodec.SerializeSimpleMessage(msg.Type(), GLOB_HEADERS, [raw], minimal, []);
    if r.Ok? then
      HeaderCodec.SplitSerialized(msg.Type(), GLOB_HEADERS, [raw], minimal, []);
      assert HeaderCodec.HeaderSection(minimal, GLOB_HEADERS, [raw]) + [] == HeaderCodec.HeaderSection(minimal, GLOB_HEADERS, [raw]);
      r
    else r
  }

  /**
   * Round trip: the frame the serializer writes, in either header mode, splits
   * into a type the exact parser accepts, and parsing it gives the record back
   * with nothing left over.
   */
  lemma ExactRoundTrip(m: ConfirmUnsubscribeExact, minimal: bool)
    requires |m.topic| <= Constants.MAX_HEADER_BYTES
    ensures var f := SerializeExact(m, minimal);
      && f.Ok?
      && var s := HeaderCodec.SplitFrame(f.value);
      && s.Ok? && s.value.1 == m.Type() && s.value.1 in EXACT_RELEVANT_TYPES
      && ParseExact(s.value.0, s.value.1, s.value.2) == Ok((m, []))
  {
    HeadersFit();
    HeaderCodec.ParseSerializedHeaders(minimal, EXACT_HEADERS, [m.topic], []);
    assert HeaderCodec.HeaderSection(minimal, EXACT_HEADERS, [m.topic]) + [] ==
      HeaderCodec.HeaderSection(minimal, EXACT_HEADERS, [m.topic]);
  }

  /** Round trip for the glob record: the glob survives UTF-8 encoding and decoding. */
  lemma GlobRoundTrip(m: ConfirmUnsubscribeGlob, minimal: bool)
    requires |Utf8.Encode(m.glob)| <= Constants.MAX_HEADER_BYTES
    ensures var f := SerializeGlob(m, minimal);
      && f.Ok?
      && var s := HeaderCodec.SplitFrame(f.value);
      && s.Ok? && s.value.1 == m.Type() && s.value.1 in GLOB_RELEVANT_TYPES
      && ParseGlob(s.value.0, s.value.1, s.value.2) == Ok((m, []))
  {
    HeadersFit();
    var raw := Utf8.Encode(m.glob);
    HeaderCodec.ParseSerializedHeaders(minimal, GLOB_HEADERS, [raw], []);
    assert HeaderCodec.HeaderSection(minimal, GLOB_HEADERS, [raw]) + [] ==
      HeaderCodec.HeaderSection(minimal, GLOB_HEADERS, [raw]);
    Utf8.DecodeEncode(m.glob);
  }

  /**
   * In minimal mode the converse holds too: whatever the exact parser accepts
   * is, up to the flags byte, exactly what the serializer writes for the result.
   */
  lemma ExactReserializes(flags: byte, payload: bytes)
    requires Constants.HasMinimalHeaders(flags)
    requires ParseExact(flags, Constants.CONFIRM_UNSUBSCRIBE_EXACT, payload).Ok?
    ensures var (m, rest) := ParseExact(flags, Constants.CONFIRM_UNSUBSCRIBE_EXACT, payload).value;
      && SerializeExact(m, true).Ok?
      && SerializeExact(m, true).value[2..] == payload[..|payload| - |rest|]
  {
    var (m, rest) := ParseExact(flags, Constants.CONFIRM_UNSUBSCRIBE_EXACT, payload).value;
    var f := SerializeExact(m, true);
    assert f.value[2..] == HeaderCodec.HeaderSection(true, EXACT_HEADERS, [m.topic]);
    assert payload[..|payload| - |rest|] == HeaderCodec.Fields([m.topic]);
  }

  /** The glob parser's converse in minimal mode. */
  lemma GlobReserializes(flags: byte, payload: bytes)
    requires Constants.HasMinimalHeaders(flags)
    requires ParseGlob(flags, Constants.CONFIRM_UNSUBSCRIBE_GLOB, payload).Ok?
    ensures var (m, rest) := ParseGlob(flags, Constants.CONFIRM_UNSUBSCRIBE_GLOB, payload).value;
      && SerializeGlob(m, true).Ok?
      && SerializeGlob(m, true).value[2..] == payload[..|payload| - |rest|]
  {
    var (m, rest) := ParseGlob(flags, Constants.CONFIRM_UNSUBSCRIBE_GLOB, payload).value;
    var f := SerializeGlob(m, true);
    var raw := Utf8.Encode(m.glob);
    assert f.value[2..] == HeaderCodec.HeaderSection(true, GLOB_HEADERS, [raw]);
    assert payload[..|payload| - |rest|] == HeaderCodec.Fields([raw]);
  }

  /** An x-glob header that is not well-formed UTF-8 is refused, in either mode. */
  lemma GlobRejectsInvalidUtf8(minimal: bool, raw: bytes, rest: bytes)
    requires |raw| <= Constants.MAX_HEADER_BYTES && Utf8.Decode(raw).None?
    ensures HeaderCodec.NamesFit(GLOB_HEADERS)
    ensures ParseGlob(Constants.FlagsFor(minimal), Constants.CONFIRM_UNSUBSCRIBE_GLOB,
      HeaderCodec.HeaderSection(minimal, GLOB_HEADERS, [raw]) + rest) == Err(InvalidUtf8("x-glob"))
  {
    HeadersFit();
    HeaderCodec.ParseSerializedHeaders(minimal, GLOB_HEADERS, [raw], rest);
  }
}
