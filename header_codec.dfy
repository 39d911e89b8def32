/**
 * The headers section of a websocket frame and the frame around it: the
 * behaviour of `parse_simple_headers`, `serialize_simple_message` and the
 * `[flags][type][headers][body]` framing they share.
 *
 * Every header name and value travels as one field: a 2-byte big-endian
 * length, then that many bytes. With MINIMAL_HEADERS set only the values are
 * written, in the order both sides agree on; without it every header is a
 * name field followed by a value field.
 */
module HeaderCodec {
  import opened Wire
  import Utf8
  import Constants

  /** The 2-byte big-endian length in front of every field. */
  function LengthPrefix(n: nat): (p: bytes)
    requires n <= Constants.MAX_HEADER_BYTES
    ensures |p| == 2 && p[0] as int * 256 + p[1] == n
  {
    [n / 256, n % 256]
  }

  /** One header name or value on the wire. */
  function Field(b: bytes): (f: bytes)
    requires |b| <= Constants.MAX_HEADER_BYTES
    ensures |f| == 2 + |b| && f[2..] == b
  {
    LengthPrefix(|b|) + b
  }

  /** Every item fits behind a 2-byte length. */
  predicate AllFit(items: seq<bytes>)
  {
    forall i :: 0 <= i < |items| ==> |items[i]| <= Constants.MAX_HEADER_BYTES
  }

  function Fields(items: seq<bytes>): (out: bytes)
    requires AllFit(items)
  {
    if items == [] then [] else Field(items[0]) + Fields(items[1..])
  }

  /** The bytes of a header name, as `str.encode("utf-8")` gives them. */
  function NameBytes(name: string): bytes
  {
    Utf8.Encode(name)
  }

  function NamesBytes(names: seq<string>): (nbs: seq<bytes>)
    ensures |nbs| == |names| && forall i :: 0 <= i < |names| ==> nbs[i] == NameBytes(names[i])
  {
    seq(|names|, i requires 0 <= i < |names| => NameBytes(names[i]))
  }

  predicate NamesFit(names: seq<string>)
  {
    forall i :: 0 <= i < |names| ==> |NameBytes(names[i])| <= Constants.MAX_HEADER_BYTES
  }

  /** Explicit mode's field list: name 0, value 0, name 1, value 1, ... */
  function Interleave(names: seq<bytes>, values: seq<bytes>): (fs: seq<bytes>)
    requires |names| == |values|
    ensures |fs| == 2 * |names|
    ensures AllFit(names) && AllFit(values) ==> AllFit(fs)
  {
    if names == [] then []
    else
      var tail := Interleave(names[1..], values[1..]);
      var fs := [names[0], values[0]] + tail;
      assert AllFit(names) && AllFit(values) ==> AllFit(fs) by {
        if AllFit(names) && AllFit(values) {
          assert AllFit(names[1..]) && AllFit(values[1..]);
          forall j | 2 <= j < |fs| ensures |fs[j]| <= Constants.MAX_HEADER_BYTES {
            assert fs[j] == tail[j - 2];
          }
        }
      }
      fs
  }

  /** The headers section a sender writes for the given names and values. */
  function HeaderSection(minimal: bool, names: seq<string>, values: seq<bytes>): bytes
    requires |names| == |values| && AllFit(values) && (minimal || NamesFit(names))
  {
    if minimal then Fields(values)
    else
      var fs := Interleave(NamesBytes(names), values);
      assert AllFit(NamesBytes(names));
      assert AllFit(fs);
      Fields(fs)
  }

  // ------------------------------------------------------------- reading

  /** Reads one field off the front; Truncated when the data ends inside it. */
  function ReadField(data: bytes): (r: Result<(bytes, bytes)>)
    ensures r.Ok? ==> |r.value.0| <= Constants.MAX_HEADER_BYTES && data == Field(r.value.0) + r.value.1
    ensures r.Err? ==> r.error == Truncated
  {
    if |data| < 2 then Err(Truncated)
    else
      var n := data[0] as int * 256 + data[1];
      if |data| < 2 + n then Err(Truncated)
      else
        assert data == data[..2] + data[2..2 + n] + data[2 + n..];
        Ok((data[2..2 + n], data[2 + n..]))
  }

  /** Reads exactly `count` fields off the front. */
  function ReadFields(data: bytes, count: nat): (r: Result<(seq<bytes>, bytes)>)
    ensures r.Ok? ==> |r.value.0| == count && AllFit(r.value.0) && data == Fields(r.value.0) + r.value.1
    ensures r.Err? ==> r.error == Truncated
    decreases count
  {
    if count == 0 then Ok(([], data))
    else
      var first :- ReadField(data);
      var more :- ReadFields(first.1, count - 1);
      var items := [first.0] + more.0;
      assert items[1..] == more.0;
      Ok((items, more.1))
  }

  /**
   * The value that goes with `key` in a name/value field list; when the name
   * appears more than once the later value wins, as a dict built in order does.
   */
  function LastValue(fs: seq<bytes>, key: bytes): Option<bytes>
    decreases |fs|
  {
    if |fs| < 2 then None
    else match LastValue(fs[2..], key)
      case Some(v) => Some(v)
      case None => if fs[0] == key then Some(fs[1]) else None
  }

  /** The headers read in minimal mode: the i-th value under the i-th expected name. */
  function MinimalMap(names: seq<string>, values: seq<bytes>): (m: map<string, bytes>)
    requires |names| == |values|
    ensures m.Keys == set n | n in names
  {
    if names == [] then map[]
    else map[names[0] := values[0]] + MinimalMap(names[1..], values[1..])
  }

  /**
   * The headers read in explicit mode: each expected name looked up in the
   * name/value field list; the first expected name that is absent is reported.
   */
  function ExplicitMap(expected: seq<string>, fs: seq<bytes>): (r: Result<map<string, bytes>>)
    ensures r.Ok? ==> r.value.Keys == set n | n in expected
    ensures r.Ok? ==> forall n :: n in expected ==> LastValue(fs, NameBytes(n)) == Some(r.value[n])
    ensures r.Err? ==>
      r.error.MissingHeader? && r.error.name in expected && LastValue(fs, NameBytes(r.error.name)).None?
    ensures r.Err? <==> exists n :: n in expected && LastValue(fs, NameBytes(n)).None?
    decreases |expected|
  {
    if expected == [] then Ok(map[])
    else
      var last := expected[|expected| - 1];
      var init := expected[..|expected| - 1];
      assert forall n :: n in expected <==> n in init || n == last;
      var m :- ExplicitMap(init, fs);
      match LastValue(fs, NameBytes(last))
      case None => Err(MissingHeader(last))
      case Some(v) => Ok(m[last := v])
  }

  /** The values of the given names in a header map, in that order. */
  function ValuesOf(m: map<string, bytes>, names: seq<string>): (vs: seq<bytes>)
    requires forall n :: n in names ==> n in m
    ensures |vs| == |names| && forall i :: 0 <= i < |names| ==> vs[i] == m[names[i]]
  {
    seq(|names|, i requires 0 <= i < |names| => m[names[i]])
  }

  /**
   * `parse_simple_headers`: reads the headers section of a frame for the
   * expected header names, in the mode the flags byte selects, and returns the
   * name-to-value map and the bytes after the section.
   */
  function ParseSimpleHeaders(flags: byte, data: bytes, expected: seq<string>): (r: Result<(map<string, bytes>, bytes)>)
    ensures r.Ok? ==> r.value.0.Keys == set n | n in expected
    ensures r.Ok? ==> |r.value.1| <= |data| && data[|data| - |r.value.1|..] == r.value.1
    ensures r.Ok? && Constants.HasMinimalHeaders(flags) && Constants.Distinct(expected) ==>
      AllFit(ValuesOf(r.value.0, expected)) && data == Fields(ValuesOf(r.value.0, expected)) + r.value.1
    ensures r.Ok? && !Constants.HasMinimalHeaders(flags) ==>
      var read := ReadFields(data, 2 * |expected|);
      && read.Ok? && read.value.1 == r.value.1
      && forall n :: n in expected ==> LastValue(read.value.0, NameBytes(n)) == Some(r.value.0[n])
    ensures r.Err? ==>
      r.error == Truncated || (!Constants.HasMinimalHeaders(flags) && r.error.MissingHeader? && r.error.name in expected)
    ensures Constants.HasMinimalHeaders(flags) && ReadFields(data, |expected|).Ok? ==> r.Ok?
    ensures !Constants.HasMinimalHeaders(flags) ==>
      var read := ReadFields(data, 2 * |expected|);
      read.Ok? && (forall n :: n in expected ==> LastValue(read.value.0, NameBytes(n)).Some?) ==> r.Ok?
  {
    if Constants.HasMinimalHeaders(flags) then
      var read :- ReadFields(data, |expected|);
      var m := MinimalMap(expected, read.0);
      if Constants.Distinct(expected) then
        MinimalMapValues(expected, read.0);
        Ok((m, read.1))
      else Ok((m, read.1))
    else
      var read :- ReadFields(data, 2 * |expected|);
      var m :- ExplicitMap(expected, read.0);
      Ok((m, read.1))
  }

  // ------------------------------------------------------------- frames

  /**
   * `serialize_simple_message` for a broadcaster-to-subscriber type: the flags
   * byte, the type code, the headers section and the body. Fails when a value,
   * or in explicit mode a name, does not fit behind a 2-byte length.
   */
  function SerializeSimpleMessage(t: Constants.BroadcasterToSubscriberType, names: seq<string>, values: seq<bytes>,
                                  minimal: bool, payload: bytes): (r: Result<bytes>)
    requires |names| == |values|
    ensures r.Ok? <==> AllFit(values) && (minimal || NamesFit(names))
    ensures r.Err? ==> r.error == HeaderTooLong
    ensures r.Ok? ==>
      && |r.value| >= 2 && Constants.HasMinimalHeaders(r.value[0]) == minimal
      && Constants.B2SFromCode(r.value[1]) == Some(t)
      && r.value[2..] == HeaderSection(minimal, names, values) + payload
  {
    if !AllFit(values) || (!minimal && !NamesFit(names)) then Err(HeaderTooLong)
    else
      Constants.B2SCodesDistinct(t, t);
      var code: byte := Constants.B2SCode(t);
      Ok([Constants.FlagsFor(minimal), code] + HeaderSection(minimal, names, values) + payload)
  }

  /**
   * Splits a received frame into its flags byte, its message type and the
   * bytes after them; the type byte must name a broadcaster-to-subscriber type.
   */
  function SplitFrame(frame: bytes): (r: Result<(byte, Constants.BroadcasterToSubscriberType, bytes)>)
    ensures r.Ok? ==>
      && |frame| >= 2 && frame[0] == r.value.0 && Constants.B2SCode(r.value.1) == frame[1]
      && frame[2..] == r.value.2
    ensures r.Err? <==> |frame| < 2 || Constants.B2SFromCode(frame[1]).None?
    ensures |frame| < 2 ==> r == Err(Truncated)
    ensures r.Err? && |frame| >= 2 ==> r.error == UnknownMessageType(frame[1])
  {
    if |frame| < 2 then Err(Truncated)
    else match Constants.B2SFromCode(frame[1])
      case None => Err(UnknownMessageType(frame[1]))
      case Some(t) => Ok((frame[0], t, frame[2..]))
  }

  // ------------------------------------------------------------- lemmas

  /** Reading a field back gives the field's bytes and leaves what followed. */
  lemma ReadFieldOfField(b: bytes, rest: bytes)
    requires |b| <= Constants.MAX_HEADER_BYTES
    ensures ReadField(Field(b) + rest) == Ok((b, rest))
  {
    var data := Field(b) + rest;
    assert data[0] as int * 256 + data[1] == |b|;
    assert data[2..2 + |b|] == b;
    assert data[2 + |b|..] == rest;
  }

  /** Reading as many fields as were written gives them all back, and the rest. */
  lemma {:induction false} ReadFieldsOfFields(items: seq<bytes>, rest: bytes)
    requires AllFit(items)
    ensures ReadFields(Fields(items) + rest, |items|) == Ok((items, rest))
  {
    if items != [] {
      var tail := Fields(items[1..]) + rest;
      assert Fields(items) + rest == Field(items[0]) + tail;
      ReadFieldOfField(items[0], tail);
      ReadFieldsOfFields(items[1..], rest);
      assert [items[0]] + items[1..] == items;
      var data := Field(items[0]) + tail;
      assert ReadField(data) == Ok((items[0], tail));
      assert ReadFields(tail, |items| - 1) == Ok((items[1..], rest));
      assert ReadFields(data, |items|) == Ok((items, rest));
    } else {
      assert Fields(items) + rest == rest;
    }
  }

  /** With distinct names, minimal mode files each value under its own name. */
  lemma {:induction false} MinimalMapAt(names: seq<string>, values: seq<bytes>, i: nat)
    requires |names| == |values| && Constants.Distinct(names) && i < |names|
    ensures MinimalMap(names, values)[names[i]] == values[i]
  {
    if i > 0 {
      MinimalMapAt(names[1..], values[1..], i - 1);
    } else if |names| > 1 {
      assert names[0] !in names[1..];
    }
  }

  lemma MinimalMapValues(names: seq<string>, values: seq<bytes>)
    requires |names| == |values| && Constants.Distinct(names)
    ensures ValuesOf(MinimalMap(names, values), names) == values
  {
    forall i | 0 <= i < |names|
      ensures MinimalMap(names, values)[names[i]] == values[i]
    {
      MinimalMapAt(names, values, i);
    }
  }

  /** A name that is not in the list is not found in the interleaved fields. */
  lemma {:induction false} LastValueAbsent(nbs: seq<bytes>, values: seq<bytes>, key: bytes)
    requires |nbs| == |values| && key !in nbs
    ensures LastValue(Interleave(nbs, values), key).None?
  {
    if nbs != [] {
      var fs := Interleave(nbs, values);
      assert fs[2..] == Interleave(nbs[1..], values[1..]);
      LastValueAbsent(nbs[1..], values[1..], key);
    }
  }

  /** With distinct names, explicit mode finds each value under its own name. */
  lemma {:induction false} LastValueInterleave(nbs: seq<bytes>, values: seq<bytes>, i: nat)
    requires |nbs| == |values| && Constants.Distinct(nbs) && i < |nbs|
    ensures LastValue(Interleave(nbs, values), nbs[i]) == Some(values[i])
  {
    var fs := Interleave(nbs, values);
    assert fs[2..] == Interleave(nbs[1..], values[1..]);
    if i > 0 {
      LastValueInterleave(nbs[1..], values[1..], i - 1);
    } else {
      assert nbs[0] !in nbs[1..];
      LastValueAbsent(nbs[1..], values[1..], nbs[0]);
    }
  }

  /** A name of at most 16383 characters always fits behind a 2-byte length. */
  lemma ShortNameFits(name: string)
    requires 4 * |name| <= Constants.MAX_HEADER_BYTES
    ensures |NameBytes(name)| <= Constants.MAX_HEADER_BYTES
  {
    Utf8.EncodeLength(name);
  }

  /** Distinct names have distinct UTF-8 bytes. */
  lemma NamesBytesDistinct(names: seq<string>)
    requires Constants.Distinct(names)
    ensures Constants.Distinct(NamesBytes(names))
  {
    forall i, j | 0 <= i < j < |names|
      ensures NameBytes(names[i]) != NameBytes(names[j])
    {
      if NameBytes(names[i]) == NameBytes(names[j]) {
        Utf8.EncodeInjective(names[i], names[j]);
      }
    }
  }

  /**
   * Parsing a headers section the sender wrote, in either mode, with the same
   * distinct names, gives every name its value and stops where the section ends.
   */
  lemma ParseSerializedHeaders(minimal: bool, names: seq<string>, values: seq<bytes>, rest: bytes)
    requires |names| == |values| && Constants.Distinct(names) && AllFit(values) && (minimal || NamesFit(names))
    ensures var r := ParseSimpleHeaders(Constants.FlagsFor(minimal), HeaderSection(minimal, names, values) + rest, names);
      r.Ok? && r.value.1 == rest
      && (forall i :: 0 <= i < |names| ==> names[i] in r.value.0 && r.value.0[names[i]] == values[i])
  {
    var flags := Constants.FlagsFor(minimal);
    var r := ParseSimpleHeaders(flags, HeaderSection(minimal, names, values) + rest, names);
    if minimal {
      ReadFieldsOfFields(values, rest);
      MinimalMapValues(names, values);
    } else {
      var nbs := NamesBytes(names);
      var fs := Interleave(nbs, values);
      assert AllFit(NamesBytes(names));
      assert AllFit(fs);
      ReadFieldsOfFields(fs, rest);
      NamesBytesDistinct(names);
      forall i | 0 <= i < |names|
        ensures LastValue(fs, NameBytes(names[i])) == Some(values[i])
      {
        LastValueInterleave(nbs, values, i);
      }
      assert forall n :: n in names ==> exists i :: 0 <= i < |names| && names[i] == n;
      var e := ExplicitMap(names, fs);
      assert e.Ok?;
    }
  }

  /**
   * Explicit mode does not depend on the order the sender chose: a section
   * that names every expected header once, in any order, parses, and each
   * expected name gets the value written after it.
   */
  lemma ExplicitAcceptsAnyOrder(expected: seq<string>, sent: seq<string>, values: seq<bytes>, rest: bytes)
    requires |sent| == |values| && Constants.Distinct(sent) && NamesFit(sent) && AllFit(values)
    requires |expected| == |sent| && forall n :: n in expected ==> n in sent
    ensures var r := ParseSimpleHeaders(Constants.FlagsFor(false), HeaderSection(false, sent, values) + rest, expected);
      && r.Ok? && r.value.1 == rest
      && (forall i :: 0 <= i < |sent| && sent[i] in expected ==> r.value.0[sent[i]] == values[i])
  {
    var nbs := NamesBytes(sent);
    var fs := Interleave(nbs, values);
    assert AllFit(nbs);
    assert AllFit(fs);
    ReadFieldsOfFields(fs, rest);
    NamesBytesDistinct(sent);
    forall i | 0 <= i < |sent|
      ensures LastValue(fs, NameBytes(sent[i])) == Some(values[i])
    {
      LastValueInterleave(nbs, values, i);
    }
    assert forall n :: n in expected ==> exists i :: 0 <= i < |sent| && sent[i] == n;
  }

  /** Both header modes decode a sender's section to the same name-to-value map. */
  lemma ModesAgree(names: seq<string>, values: seq<bytes>, rest: bytes)
    requires |names| == |values| && Constants.Distinct(names) && AllFit(values) && NamesFit(names)
    ensures ParseSimpleHeaders(Constants.FlagsFor(true), HeaderSection(true, names, values) + rest, names)
         == ParseSimpleHeaders(Constants.FlagsFor(false), HeaderSection(false, names, values) + rest, names)
  {
    ParseSerializedHeaders(true, names, values, rest);
    ParseSerializedHeaders(false, names, values, rest);
    var ra := ParseSimpleHeaders(Constants.FlagsFor(true), HeaderSection(true, names, values) + rest, names);
    var rb := ParseSimpleHeaders(Constants.FlagsFor(false), HeaderSection(false, names, values) + rest, names);
    SameMaps(names, ra.value.0, rb.value.0);
  }

  /** Two maps keyed by the same names that agree on each of them are equal. */
  lemma SameMaps(names: seq<string>, a: map<string, bytes>, b: map<string, bytes>)
    requires a.Keys == (set n | n in names) && b.Keys == (set n | n in names)
    requires forall i :: 0 <= i < |names| ==> names[i] in a && names[i] in b && a[names[i]] == b[names[i]]
    ensures a == b
  {
    forall k | k in a
      ensures a[k] == b[k]
    {
      var i :| 0 <= i < |names| && names[i] == k;
    }
  }

  /** The i-th name sits at position 2i of the explicit field list, its value right after it. */
  lemma {:induction false} InterleaveAt(names: seq<bytes>, values: seq<bytes>, i: nat)
    requires |names| == |values| && i < |names|
    ensures Interleave(names, values)[2 * i] == names[i]
    ensures Interleave(names, values)[2 * i + 1] == values[i]
  {
    if i > 0 {
      var tail := Interleave(names[1..], values[1..]);
      assert Interleave(names, values) == [names[0], values[0]] + tail;
      InterleaveAt(names[1..], values[1..], i - 1);
      assert 2 * i == 2 * (i - 1) + 2;
    }
  }

  /**
   * Both modes carry the same values in the same order: the minimal section
   * reads back as the values themselves, and the explicit section as the
   * interleaving of the names' bytes with those values, each name directly
   * followed by the value at the same position.
   */
  lemma BothModesCarryValuesInOrder(names: seq<string>, values: seq<bytes>, rest: bytes)
    requires |names| == |values| && AllFit(values) && NamesFit(names)
    ensures ReadFields(HeaderSection(true, names, values) + rest, |names|) == Ok((values, rest))
    ensures ReadFields(HeaderSection(false, names, values) + rest, 2 * |names|)
         == Ok((Interleave(NamesBytes(names), values), rest))
    ensures var fs := Interleave(NamesBytes(names), values);
      forall i :: 0 <= i < |names| ==> fs[2 * i] == NameBytes(names[i]) && fs[2 * i + 1] == values[i]
  {
    ReadFieldsOfFields(values, rest);
    var nbs := NamesBytes(names);
    var fs := Interleave(nbs, values);
    assert AllFit(nbs);
    assert AllFit(fs);
    ReadFieldsOfFields(fs, rest);
    assert HeaderSection(false, names, values) == Fields(fs);
    forall i | 0 <= i < |names|
      ensures fs[2 * i] == NameBytes(names[i]) && fs[2 * i + 1] == values[i]
    {
      InterleaveAt(nbs, values, i);
    }
  }

  /**
   * The 65535-byte ceiling: a value of exactly 65535 bytes is written, one of
   * 65536 bytes is refused with HeaderTooLong.
   */
  lemma HeaderCeiling(t: Constants.BroadcasterToSubscriberType, name: string, v: bytes, minimal: bool)
    requires minimal || |NameBytes(name)| <= Constants.MAX_HEADER_BYTES
    ensures |v| == 65535 ==> SerializeSimpleMessage(t, [name], [v], minimal, []).Ok?
    ensures |v| == 65536 ==> SerializeSimpleMessage(t, [name], [v], minimal, []) == Err(HeaderTooLong)
  {
  }

  /** A frame the serializer wrote splits back into its flags, type and headers. */
  lemma SplitSerialized(t: Constants.BroadcasterToSubscriberType, names: seq<string>, values: seq<bytes>,
                        minimal: bool, payload: bytes)
    requires |names| == |values| && AllFit(values) && (minimal || NamesFit(names))
    ensures var f := SerializeSimpleMessage(t, names, values, minimal, payload);
      f.Ok? && SplitFrame(f.value) == Ok((Constants.FlagsFor(minimal), t, HeaderSection(minimal, names, values) + payload))
  {
    Constants.B2SCodesDistinct(t, t);
  }
}
