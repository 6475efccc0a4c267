/**
 * The keep-alive strategy HttpClientUtil installs on its pooled client: how
 * long an idle connection may be reused, read from the response's
 * `Keep-Alive` header, in milliseconds.
 *
 * The header has already been split into elements (`timeout=5, max=100` is
 * two elements); an element has a name and a value that may be absent
 * (`max` alone has none).
 */
module KeepAlive {
  import opened Wrappers
  import opened JavaNumbers
  import opened JavaStrings

  datatype HeaderElement = HeaderElement(name: string, value: Option<string>)

  /** The NumberFormatException Long.parseLong throws out of the strategy, with the text it rejected. */
  datatype NumberFormatError = NumberFormatError(text: string)

  /** Duration used when no element names a timeout: one minute. */
  const DefaultMillis: int := 60 * 1000

  /** An element the strategy acts on: it has a value and is named `timeout` in any case. */
  predicate Qualifies(e: HeaderElement)
  {
    e.value.Some? && EqualsIgnoreCase(e.name, "timeout")
  }

  /** The value of the first qualifying element, if any. */
  function FirstTimeout(elements: seq<HeaderElement>): (v: Option<string>)
    ensures v.Some? ==> exists e :: e in elements && Qualifies(e) && e.value == v
    ensures v.None? ==> forall e :: e in elements ==> !Qualifies(e)
    decreases |elements|
  {
    if elements == [] then None
    else if Qualifies(elements[0]) then elements[0].value
    else FirstTimeout(elements[1..])
  }

  /** The strategy's outcome: seconds to milliseconds on a long, the default, or the escaping exception. */
  function KeepAliveMillis(elements: seq<HeaderElement>): (r: Result<int, NumberFormatError>)
    ensures r.Ok? ==> LongMin <= r.value <= LongMax
    ensures FirstTimeout(elements).None? ==> r == Ok(DefaultMillis)
    ensures r.Err? ==> FirstTimeout(elements) == Some(r.error.text) && ParseLong(r.error.text).None?
  {
    match FirstTimeout(elements)
    case None => Ok(DefaultMillis)
    case Some(text) =>
      match ParseLong(text)
      case Some(seconds) => Ok(Wrap64(seconds * 1000))
      case None => Err(NumberFormatError(text))
  }

  /**
   * The strategy as the source runs it: walk the elements and return on the
   * first one with a value whose name is `timeout`.
   */
  method GetKeepAliveDuration(elements: seq<HeaderElement>) returns (r: Result<int, NumberFormatError>)
    ensures r == KeepAliveMillis(elements)
  {
    var i := 0;
    while i < |elements|
      invariant 0 <= i <= |elements|
      invariant FirstTimeout(elements) == FirstTimeout(elements[i..])
    {
      var he := elements[i];
      var param := he.name;
      var value := he.value;
      if value.Some? && EqualsIgnoreCase(param, "timeout") {
        assert elements[i..][0] == he;
        match ParseLong(value.value)
        case Some(seconds) =>
          return Ok(Wrap64(seconds * 1000));
        case None =>
          return Err(NumberFormatError(value.value));
      }
      assert elements[i..][1..] == elements[i + 1..];
      i := i + 1;
    }
    return Ok(60 * 1000);
  }

  /** FirstTimeout finds a value exactly when some element qualifies, and then it is the first such element's. */
  lemma {:induction false} FirstTimeoutIsFirstMatch(elements: seq<HeaderElement>)
    ensures FirstTimeout(elements).None? <==> forall k :: 0 <= k < |elements| ==> !Qualifies(elements[k])
    ensures FirstTimeout(elements).Some? ==>
      exists k :: 0 <= k < |elements| && Qualifies(elements[k]) && elements[k].value == FirstTimeout(elements)
                  && forall j :: 0 <= j < k ==> !Qualifies(elements[j])
    decreases |elements|
  {
    if elements != [] && !Qualifies(elements[0]) {
      var rest := elements[1..];
      FirstTimeoutIsFirstMatch(rest);
      assert forall k :: 0 < k < |elements| ==> elements[k] == rest[k - 1];
      if FirstTimeout(rest).Some? {
        var k :| 0 <= k < |rest| && Qualifies(rest[k]) && rest[k].value == FirstTimeout(rest)
                 && forall j :: 0 <= j < k ==> !Qualifies(rest[j]);
        assert elements[k + 1] == rest[k];
        assert forall j :: 0 < j < k + 1 ==> elements[j] == rest[j - 1];
      }
    } else if elements != [] {
      assert Qualifies(elements[0]);
    }
  }

  /** No qualifying element, and in particular no Keep-Alive header at all: sixty seconds. */
  lemma DefaultWithoutTimeout(elements: seq<HeaderElement>)
    requires forall k :: 0 <= k < |elements| ==> !Qualifies(elements[k])
    ensures KeepAliveMillis(elements) == Ok(60000)
  {
    FirstTimeoutIsFirstMatch(elements);
  }

  /** The first qualifying element decides; whatever follows it is never looked at. */
  lemma {:induction false} FirstQualifyingWins(before: seq<HeaderElement>, e: HeaderElement, after: seq<HeaderElement>)
    requires forall k :: 0 <= k < |before| ==> !Qualifies(before[k])
    requires Qualifies(e)
    ensures KeepAliveMillis(before + [e] + after) == KeepAliveMillis([e])
    ensures FirstTimeout(before + [e] + after) == e.value
    decreases |before|
  {
    var all := before + [e] + after;
    if before == [] {
      assert all[0] == e;
    } else {
      assert all[0] == before[0];
      assert all[1..] == before[1..] + [e] + after;
      FirstQualifyingWins(before[1..], e, after);
    }
  }

  /** A `timeout` element without a value is passed over and the scan goes on. */
  lemma NullValueSkipped(name: string, rest: seq<HeaderElement>)
    ensures KeepAliveMillis([HeaderElement(name, None)] + rest) == KeepAliveMillis(rest)
  {
    var all := [HeaderElement(name, None)] + rest;
    assert all[1..] == rest;
  }

  /** A numeric timeout whose millisecond count fits a long is converted exactly. */
  lemma TimeoutInSeconds(before: seq<HeaderElement>, name: string, seconds: int, after: seq<HeaderElement>)
    requires forall k :: 0 <= k < |before| ==> !Qualifies(before[k])
    requires EqualsIgnoreCase(name, "timeout")
    requires LongMin <= seconds * 1000 <= LongMax
    ensures KeepAliveMillis(before + [HeaderElement(name, Some(IntToString(seconds)))] + after) == Ok(seconds * 1000)
  {
    FirstQualifyingWins(before, HeaderElement(name, Some(IntToString(seconds))), after);
    assert LongMin <= seconds <= LongMax;
    ParseLongRoundTrip(seconds);
  }

  /** A timeout whose milliseconds overflow a long (but stay below 2^64) wraps around to a negative duration. */
  lemma OversizedTimeoutWraps(name: string, seconds: int)
    requires EqualsIgnoreCase(name, "timeout")
    requires LongMax < seconds * 1000 < 0x1_0000_0000_0000_0000
    ensures KeepAliveMillis([HeaderElement(name, Some(IntToString(seconds)))]) == Ok(seconds * 1000 - 0x1_0000_0000_0000_0000)
    ensures seconds * 1000 - 0x1_0000_0000_0000_0000 < 0
  {
    assert 0 < seconds <= LongMax;
    ParseLongRoundTrip(seconds);
    var x := seconds * 1000;
    assert (x - LongMin) % 0x1_0000_0000_0000_0000 == x - LongMin - 0x1_0000_0000_0000_0000;
  }

  /**
   * Any timeout that is a long, however large, gives its milliseconds as
   * 64-bit arithmetic leaves them: exact when they fit, wrapped otherwise.
   */
  lemma AnyLongTimeout(before: seq<HeaderElement>, name: string, seconds: int, after: seq<HeaderElement>)
    requires forall k :: 0 <= k < |before| ==> !Qualifies(before[k])
    requires EqualsIgnoreCase(name, "timeout")
    requires LongMin <= seconds <= LongMax
    ensures KeepAliveMillis(before + [HeaderElement(name, Some(IntToString(seconds)))] + after) == Ok(Wrap64(seconds * 1000))
  {
    FirstQualifyingWins(before, HeaderElement(name, Some(IntToString(seconds))), after);
    ParseLongRoundTrip(seconds);
  }

  /** A non-numeric timeout is not replaced by the default: the NumberFormatException escapes. */
  lemma MalformedTimeoutEscapes(before: seq<HeaderElement>, e: HeaderElement, after: seq<HeaderElement>)
    requires forall k :: 0 <= k < |before| ==> !Qualifies(before[k])
    requires Qualifies(e) && ParseLong(e.value.value).None?
    ensures KeepAliveMillis(before + [e] + after) == Err(NumberFormatError(e.value.value))
  {
    FirstQualifyingWins(before, e, after);
  }

  /** The name is matched without regard to case: `Timeout` and `TIMEOUT` qualify, `timeouts` does not. */
  lemma NameMatchIgnoresCase()
    ensures EqualsIgnoreCase("Timeout", "timeout") && EqualsIgnoreCase("TIMEOUT", "timeout")
    ensures !EqualsIgnoreCase("timeouts", "timeout") && !EqualsIgnoreCase("max", "timeout")
  {
  }
}
