/**
 * How the six broadcaster-to-subscriber codecs sit in the message registry:
 * each parser claims exactly one type code, no two claim the same one, and
 * each writes the header list and body policy the registry states for it.
 */
module Registry {
  import Constants
  import ConfirmSubscribe
  import ConfirmUnsubscribe
  import ConfirmNotify
  import ContinueNotify
  import IntCodec
  import HeaderCodec
  import Wire

  /** The `relevant_types` of the six parsers, in the order their files declare them. */
  const PARSER_TYPES: seq<seq<Constants.BroadcasterToSubscriberType>> := [
    ConfirmSubscribe.EXACT_RELEVANT_TYPES, ConfirmSubscribe.GLOB_RELEVANT_TYPES,
    ConfirmUnsubscribe.EXACT_RELEVANT_TYPES, ConfirmUnsubscribe.GLOB_RELEVANT_TYPES,
    ConfirmNotify.RELEVANT_TYPES, ContinueNotify.RELEVANT_TYPES]

  /** The header names each of the six serializers writes, in the same order. */
  const PARSER_HEADERS: seq<seq<string>> := [
    ConfirmSubscribe.EXACT_HEADERS, ConfirmSubscribe.GLOB_HEADERS,
    ConfirmUnsubscribe.EXACT_HEADERS, ConfirmUnsubscribe.GLOB_HEADERS,
    ConfirmNotify.HEADERS, ContinueNotify.HEADERS]

  /**
   * Every parser accepts a single type code, and no two parsers accept the
   * same one, so a dispatcher keyed by type code is well defined.
   */
  lemma ParsersClaimDistinctTypes()
    ensures |PARSER_TYPES| == 6
    ensures forall i :: 0 <= i < |PARSER_TYPES| ==> |PARSER_TYPES[i]| == 1
    ensures forall i, j :: 0 <= i < j < |PARSER_TYPES| ==>
      Constants.B2SCode(PARSER_TYPES[i][0]) != Constants.B2SCode(PARSER_TYPES[j][0])
  {
  }

  /**
   * Each codec's header list is the registry's list for its type, and none of
   * the six types carries a body.
   */
  lemma LayoutsMatchRegistry()
    ensures |PARSER_HEADERS| == |PARSER_TYPES|
    ensures forall i :: 0 <= i < |PARSER_TYPES| ==>
      PARSER_HEADERS[i] == Constants.B2SHeaders(PARSER_TYPES[i][0], 0)
      && !Constants.B2SHasBody(PARSER_TYPES[i][0])
  {
  }

  /**
   * The CONFIRM_NOTIFY parser accepts headers exactly when every value is
   * within the size the registry states for it, and what it returns encodes
   * back within those sizes.
   */
  lemma ConfirmNotifyEnforcesStatedSizes(flags: Wire.byte, payload: Wire.bytes)
    ensures Constants.B2SHeaderLimit(Constants.CONFIRM_NOTIFY, "x-identifier")
      == Constants.AtMost(Constants.MAX_IDENTIFIER_BYTES)
    ensures Constants.B2SHeaderLimit(Constants.CONFIRM_NOTIFY, "x-subscribers")
      == Constants.AtMost(Constants.MAX_UNSIGNED_BYTES)
    ensures var h := HeaderCodec.ParseSimpleHeaders(flags, payload, ConfirmNotify.HEADERS);
      h.Ok? ==>
        (ConfirmNotify.Parse(flags, Constants.CONFIRM_NOTIFY, payload).Ok? <==>
          forall n :: n in ConfirmNotify.HEADERS ==>
            Constants.B2SHeaderLimit(Constants.CONFIRM_NOTIFY, n).Admits(|h.value.0[n]|))
    ensures var r := ConfirmNotify.Parse(flags, Constants.CONFIRM_NOTIFY, payload);
      r.Ok? ==>
        && Constants.B2SHeaderLimit(Constants.CONFIRM_NOTIFY, "x-identifier").Admits(|r.value.0.identifier|)
        && Constants.B2SHeaderLimit(Constants.CONFIRM_NOTIFY, "x-subscribers")
             .Admits(|IntCodec.ToMinimalUnsigned(r.value.0.subscribers)|)
  {
    var r := ConfirmNotify.Parse(flags, Constants.CONFIRM_NOTIFY, payload);
    if r.Ok? {
      IntCodec.MinimalUnsignedFitsU64(r.value.0.subscribers);
    }
  }

  /** The same correspondence for CONTINUE_NOTIFY and its x-part-id. */
  lemma ContinueNotifyEnforcesStatedSizes(flags: Wire.byte, payload: Wire.bytes)
    ensures Constants.B2SHeaderLimit(Constants.CONTINUE_NOTIFY, "x-identifier")
      == Constants.AtMost(Constants.MAX_IDENTIFIER_BYTES)
    ensures Constants.B2SHeaderLimit(Constants.CONTINUE_NOTIFY, "x-part-id")
      == Constants.AtMost(Constants.MAX_UNSIGNED_BYTES)
    ensures var h := HeaderCodec.ParseSimpleHeaders(flags, payload, ContinueNotify.HEADERS);
      h.Ok? ==>
        (ContinueNotify.Parse(flags, Constants.CONTINUE_NOTIFY, payload).Ok? <==>
          forall n :: n in ContinueNotify.HEADERS ==>
            Constants.B2SHeaderLimit(Constants.CONTINUE_NOTIFY, n).Admits(|h.value.0[n]|))
    ensures var r := ContinueNotify.Parse(flags, Constants.CONTINUE_NOTIFY, payload);
      r.Ok? ==>
        && Constants.B2SHeaderLimit(Constants.CONTINUE_NOTIFY, "x-identifier").Admits(|r.value.0.identifier|)
        && Constants.B2SHeaderLimit(Constants.CONTINUE_NOTIFY, "x-part-id")
             .Admits(|IntCodec.ToMinimalUnsigned(r.value.0.partId)|)
  {
    var r := ContinueNotify.Parse(flags, Constants.CONTINUE_NOTIFY, payload);
    if r.Ok? {
      IntCodec.MinimalUnsignedFitsU64(r.value.0.partId);
    }
  }
}
