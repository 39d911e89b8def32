/**
 * The authorization header of the websocket protocol, `websocket:<nonce>:<ctr>`:
 * the text form of the counter and the rule by which the two counters move.
 * The nonce itself (SHA-256 of both contributions, base64url-encoded) is taken
 * as an already-encoded string.
 */
module Authorization {
  import opened Wire
  import Positional

  /** The subscriber's counter starts at -1 and moves down by one per header. */
  const SUBSCRIBER_COUNTER_START: int := -1
  const SUBSCRIBER_COUNTER_STEP: int := -1

  /** The broadcaster's counter starts at 1 and moves up by one per header. */
  const BROADCASTER_COUNTER_START: int := 1
  const BROADCASTER_COUNTER_STEP: int := 1

  const URL_PREFIX: string := "websocket:"

  predicate IsHexDigit(c: char)
  {
    '0' <= c <= '9' || 'a' <= c <= 'f'
  }

  /** The lower-case hex digit of a value below 16. */
  function HexDigit(d: nat): (c: char)
    requires d < 16
    ensures IsHexDigit(c) && HexValue(c) == d
  {
    if d < 10 then ('0' as int + d) as char else ('a' as int + d - 10) as char
  }

  function HexValue(c: char): (d: nat)
    requires IsHexDigit(c)
    ensures d < 16
  {
    if c <= '9' then c as int - '0' as int else c as int - 'a' as int + 10
  }

  lemma HexDigitOfValue(c: char)
    requires IsHexDigit(c)
    ensures HexDigit(HexValue(c)) == c
  {
  }

  /** Digit values to hex text. */
  function HexText(ds: seq<nat>): (s: string)
    requires Positional.AllBelow(ds, 16)
    ensures |s| == |ds|
  {
    seq(|ds|, i requires 0 <= i < |ds| => HexDigit(ds[i]))
  }

  /** Hex text to digit values. */
  function HexDigits(s: string): (ds: seq<nat>)
    requires forall i :: 0 <= i < |s| ==> IsHexDigit(s[i])
    ensures |ds| == |s| && Positional.AllBelow(ds, 16)
  {
    seq(|s|, i requires 0 <= i < |s| => HexValue(s[i]))
  }

  /** The magnitude of a counter in hex: lower-case, no "0x", no leading zeros. */
  function Magnitude(n: nat): (s: string)
    ensures |s| >= 1 && forall i :: 0 <= i < |s| ==> IsHexDigit(s[i])
    ensures s[0] == '0' <==> n == 0
  {
    HexText(Positional.ToDigits(n, 16))
  }

  /**
   * The counter as the header carries it: hex without a leading 0x and
   * without padding, with a leading '-' exactly when it is negative.
   */
  function CounterText(ctr: int): (s: string)
    ensures |s| >= 1
    ensures s[0] == '-' <==> ctr < 0
    ensures forall i :: (if ctr < 0 then 1 else 0) <= i < |s| ==> IsHexDigit(s[i])
    ensures ctr < 0 ==> |s| >= 2 && s[1] != '0'
    ensures ctr > 0 ==> s[0] != '0'
  {
    var m := Magnitude(if ctr < 0 then -ctr else ctr);
    if ctr < 0 then "-" + m else m
  }

  /** Reads hex digits without padding; "0" is the only text that starts with '0'. */
  function ParseMagnitude(s: string): Option<nat>
  {
    if |s| == 0 || (s[0] == '0' && |s| > 1) then None
    else if forall i :: 0 <= i < |s| ==> IsHexDigit(s[i]) then Some(Positional.FromDigits(HexDigits(s), 16))
    else None
  }

  /** Reads a counter back from its text; "-0" and padded forms are refused. */
  function ParseCounter(s: string): Option<int>
  {
    if |s| >= 1 && s[0] == '-' then
      match ParseMagnitude(s[1..])
      case Some(m) =>
        if m == 0 then None else Some(0 - m as int)
      case None => None
    else ParseMagnitude(s)
  }

  lemma HexRoundTrip(ds: seq<nat>)
    requires Positional.AllBelow(ds, 16)
    ensures HexDigits(HexText(ds)) == ds
  {
  }

  lemma HexTextOfDigits(s: string)
    requires forall i :: 0 <= i < |s| ==> IsHexDigit(s[i])
    ensures HexText(HexDigits(s)) == s
  {
    forall i | 0 <= i < |s|
      ensures HexText(HexDigits(s))[i] == s[i]
    {
      HexDigitOfValue(s[i]);
    }
  }

  lemma ParseMagnitudeOf(n: nat)
    ensures ParseMagnitude(Magnitude(n)) == Some(n)
  {
    var ds := Positional.ToDigits(n, 16);
    HexRoundTrip(ds);
    var s := Magnitude(n);
    assert s[0] == '0' ==> ds[0] == 0 by {
      if s[0] == '0' {
        assert HexValue(s[0]) == 0;
      }
    }
  }

  /** Reading the text of any counter gives the counter back. */
  lemma CounterRoundTrip(ctr: int)
    ensures ParseCounter(CounterText(ctr)) == Some(ctr)
  {
    if ctr < 0 {
      ParseMagnitudeOf(-ctr);
      assert CounterText(ctr)[1..] == Magnitude(-ctr);
    } else {
      ParseMagnitudeOf(ctr);
    }
  }

  lemma MagnitudeOfParsed(s: string)
    requires ParseMagnitude(s).Some?
    ensures Magnitude(ParseMagnitude(s).value) == s
  {
    var ds := HexDigits(s);
    assert ds[0] == 0 ==> |ds| == 1 by {
      if ds[0] == 0 {
        HexDigitOfValue(s[0]);
      }
    }
    Positional.ToFromDigits(ds, 16);
    HexTextOfDigits(s);
  }

  /** Only the canonical text of a counter is accepted: reading then writing is the identity. */
  lemma CounterCanonical(s: string)
    requires ParseCounter(s).Some?
    ensures CounterText(ParseCounter(s).value) == s
  {
    if |s| >= 1 && s[0] == '-' {
      MagnitudeOfParsed(s[1..]);
      assert "-" + s[1..] == s;
    } else {
      MagnitudeOfParsed(s);
    }
  }

  /** Distinct counters are written differently. */
  lemma CounterTextInjective(a: int, b: int)
    requires CounterText(a) == CounterText(b)
    ensures a == b
  {
    CounterRoundTrip(a);
    CounterRoundTrip(b);
  }

  /** The authorization header value; `nonce` is the base64url text of the connection nonce. */
  function AuthorizationUrl(nonce: string, ctr: int): (url: string)
    ensures |url| > |URL_PREFIX| + |nonce| && url[..|URL_PREFIX|] == URL_PREFIX
    ensures url[|URL_PREFIX|..|URL_PREFIX| + |nonce|] == nonce && url[|URL_PREFIX| + |nonce|] == ':'
    ensures url[|URL_PREFIX| + |nonce| + 1..] == CounterText(ctr)
  {
    URL_PREFIX + nonce + ":" + CounterText(ctr)
  }

  /** On one connection, two headers with different counters never carry the same value. */
  lemma AuthorizationUrlInjective(nonce: string, a: int, b: int)
    requires AuthorizationUrl(nonce, a) == AuthorizationUrl(nonce, b)
    ensures a == b
  {
    CounterTextInjective(a, b);
  }

  /**
   * The counters carried by n successive authorization headers from one
   * sender: the counter changes once per header, even within one multi-part
   * operation.
   */
  function Counters(start: int, step: int, n: nat): (cs: seq<int>)
    ensures |cs| == n
    decreases n
  {
    if n == 0 then [] else [start] + Counters(start + step, step, n - 1)
  }

  lemma {:induction false} CountersAt(start: int, step: int, n: nat, i: nat)
    requires i < n
    ensures Counters(start, step, n)[i] == start + i * step
    decreases n
  {
    if i > 0 {
      CountersAt(start + step, step, n - 1, i - 1);
    }
  }

  /** The subscriber's counters: -1, -2, -3, ..., always negative and strictly decreasing. */
  lemma SubscriberCountersDecrease(n: nat)
    ensures forall i :: 0 <= i < n ==> Counters(SUBSCRIBER_COUNTER_START, SUBSCRIBER_COUNTER_STEP, n)[i] == -1 - i
    ensures forall i, j :: 0 <= i < j < n ==>
      Counters(SUBSCRIBER_COUNTER_START, SUBSCRIBER_COUNTER_STEP, n)[j] < Counters(SUBSCRIBER_COUNTER_START, SUBSCRIBER_COUNTER_STEP, n)[i] < 0
  {
    forall i | 0 <= i < n {
      CountersAt(SUBSCRIBER_COUNTER_START, SUBSCRIBER_COUNTER_STEP, n, i);
    }
  }

  /** The broadcaster's counters: 1, 2, 3, ..., always positive and strictly increasing. */
  lemma BroadcasterCountersIncrease(n: nat)
    ensures forall i :: 0 <= i < n ==> Counters(BROADCASTER_COUNTER_START, BROADCASTER_COUNTER_STEP, n)[i] == 1 + i
    ensures forall i, j :: 0 <= i < j < n ==>
      0 < Counters(BROADCASTER_COUNTER_START, BROADCASTER_COUNTER_STEP, n)[i] < Counters(BROADCASTER_COUNTER_START, BROADCASTER_COUNTER_STEP, n)[j]
  {
    forall i | 0 <= i < n {
      CountersAt(BROADCASTER_COUNTER_START, BROADCASTER_COUNTER_STEP, n, i);
    }
  }

  /**
   * Every authorization header a sender emits carries a value it never emits
   * again; a stream of 6 parts uses 6 counters and leaves the next at start + 6 * step.
   */
  lemma TokensSingleUse(nonce: string, start: int, step: int, n: nat)
    requires step != 0
    ensures forall i, j :: 0 <= i < j < n ==>
      AuthorizationUrl(nonce, Counters(start, step, n)[i]) != AuthorizationUrl(nonce, Counters(start, step, n)[j])
    ensures Counters(start, step, n + 1)[n] == start + n * step
  {
    var cs := Counters(start, step, n);
    forall i, j | 0 <= i < j < n
      ensures AuthorizationUrl(nonce, cs[i]) != AuthorizationUrl(nonce, cs[j])
    {
      CountersAt(start, step, n, i);
      CountersAt(start, step, n, j);
      assert (j - i) * step != 0;
      if AuthorizationUrl(nonce, cs[i]) == AuthorizationUrl(nonce, cs[j]) {
        AuthorizationUrlInjective(nonce, cs[i], cs[j]);
      }
    }
    CountersAt(start, step, n + 1, n);
  }

  /** The counter texts the protocol documents as examples. */
  lemma CounterTextExamples()
    ensures CounterText(-0x1a) == "-1a"
    ensures CounterText(0) == "0"
  {
    assert Positional.ToDigits(0x1a, 16) == [1, 10];
  }
}
