/** The description stage: one rate-limited request to the text model per
    script line, with a single retry when the service reports an exhausted
    quota together with a retry interval. The process-wide time of the last
    request lives in a `GeminiClient` object; the clock, the API key and what
    each `generateContent` call gives back are inputs. */
module Gemini {
  import opened Wrappers
  import opened Text

  /** Minimum spacing, in milliseconds, between two granted requests. */
  const RateLimitDelayMs: int := 6500

  const ApiKeyMissing: string := "GOOGLE_AI_API_KEY is not set"
  const EmptyResponse: string := "Gemini API returned empty response"
  const EmptyRetryResponse: string := "Gemini API returned empty response on retry"
  const ErrorPrefix: string := "Gemini API error: "
  const DefaultErrorDetail: string := "Failed to generate image description"

  // ---------------------------------------------------------------------------
  // The rate limiter

  /** How long the limiter waits before a request made at `now`, given the time
      `last` of the previous one (0 when there was none): never for the first
      request, otherwise just long enough to be 6500 ms after `last`. */
  function WaitTime(now: int, last: int): (w: int)
    ensures w >= 0
    ensures last <= 0 ==> w == 0
    ensures last > 0 ==> now + w >= last + RateLimitDelayMs
    ensures w == 0 || now + w == last + RateLimitDelayMs
  {
    if now - last < RateLimitDelayMs && last > 0 then RateLimitDelayMs - (now - last) else 0
  }

  /** `Math.ceil(a / b)` for whole numbers. */
  function CeilDiv(a: nat, b: nat): (q: nat)
    requires b > 0
    ensures (q - 1) * b < a <= q * b
  {
    if a % b == 0 then a / b else a / b + 1
  }

  /** The progress notice before a limiter wait of `w` ms, in whole seconds rounded up. */
  function LimiterNotice(w: nat): string {
    "Rate limiting: waiting " + NatToString(CeilDiv(w, 1000)) + "s before next Gemini API call..."
  }

  /** The limiter's notice shows the wait in whole seconds rounded up: the
      one number `secs` with `(secs - 1) * 1000 < w <= secs * 1000`, so a
      wait of 2500 ms reads "3s". */
  lemma LimiterNoticeSeconds(w: nat, secs: nat)
    requires (secs - 1) * 1000 < w <= secs * 1000
    ensures LimiterNotice(w)
         == "Rate limiting: waiting " + NatToString(secs) + "s before next Gemini API call..."
  {
    var q := CeilDiv(w, 1000);
    assert (q - 1) * 1000 < secs * 1000 && (secs - 1) * 1000 < q * 1000;
  }

  // ---------------------------------------------------------------------------
  // Classifying a failure and extracting the retry interval

  /** A quota failure is recognised by either marker in the error message. */
  predicate IsQuotaMessage(message: string)
    ensures IsQuotaMessage(message) <==>
      exists i :: OccursAt(message, "RESOURCE_EXHAUSTED", i) || OccursAt(message, "Quota exceeded", i)
  {
    Contains(message, "RESOURCE_EXHAUSTED") || Contains(message, "Quota exceeded")
  }

  /** Either marker, wherever it sits in the message, makes it a quota failure. */
  lemma QuotaMarkerAnywhere(before: string, after: string)
    ensures IsQuotaMessage(before + "RESOURCE_EXHAUSTED" + after)
    ensures IsQuotaMessage(before + "Quota exceeded" + after)
  {
    var a, b := "RESOURCE_EXHAUSTED", "Quota exceeded";
    assert (before + a + after)[|before|..|before| + |a|] == a;
    assert OccursAt(before + a + after, a, |before|);
    assert (before + b + after)[|before|..|before| + |b|] == b;
    assert OccursAt(before + b + after, b, |before|);
  }

  const RetryPrefix: string := "retry in "

  /** The character class `[\d.]`. */
  predicate IsRetryChar(c: char) {
    IsDigit(c) || c == '.'
  }

  /** The regular expression `retry in ([\d.]+)s` matches `m` at offset `p`, its
      group capturing the `k` characters after the prefix. */
  ghost predicate MatchesAt(m: string, p: int, k: int) {
    0 <= p && 1 <= k && p + |RetryPrefix| + k < |m|
    && m[p..p + |RetryPrefix|] == RetryPrefix
    && (forall j :: p + |RetryPrefix| <= j < p + |RetryPrefix| + k ==> IsRetryChar(m[j]))
    && m[p + |RetryPrefix| + k] == 's'
  }

  /** The length of the longest run of `[\d.]` characters starting at `i`. */
  function RunLength(m: string, i: nat): (n: nat)
    requires i <= |m|
    ensures i + n <= |m|
    ensures forall j :: i <= j < i + n ==> IsRetryChar(m[j])
    ensures i + n == |m| || !IsRetryChar(m[i + n])
    decreases |m| - i
  {
    if i < |m| && IsRetryChar(m[i]) then 1 + RunLength(m, i + 1) else 0
  }

  /** At a given offset the group can only capture the whole run, since `s` is
      not in `[\d.]`. */
  lemma CaptureIsRun(m: string, p: nat, k: int)
    requires MatchesAt(m, p, k)
    ensures k == RunLength(m, p + |RetryPrefix|)
  {
    var i := p + |RetryPrefix|;
    var n := RunLength(m, i);
    assert !IsRetryChar(m[i + k]);
    assert i + n < |m| ==> !IsRetryChar(m[i + n]);
  }

  /** The leftmost match of `retry in ([\d.]+)s` at offset `from` or later, as
      its offset and the length of its capture. */
  function FindRetryFrom(m: string, from: nat): (r: Option<(nat, nat)>)
    ensures r.Some? ==> from <= r.value.0 && MatchesAt(m, r.value.0, r.value.1)
    ensures r.Some? ==> forall q, k :: from <= q < r.value.0 ==> !MatchesAt(m, q, k)
    ensures r.None? ==> forall q, k :: from <= q ==> !MatchesAt(m, q, k)
    decreases |m| - from
  {
    var i := from + |RetryPrefix|;
    if i >= |m| then None
    else
      var n := RunLength(m, i);
      if m[from..i] == RetryPrefix && n >= 1 && i + n < |m| && m[i + n] == 's' then
        Some((from, n))
      else
        assert forall k :: !MatchesAt(m, from, k) by {
          forall k | MatchesAt(m, from, k) ensures false {
            CaptureIsRun(m, from, k);
          }
        }
        FindRetryFrom(m, from + 1)
  }

  /** The text captured by the leftmost match, if any. */
  function RetryCapture(m: string): (c: Option<string>)
    ensures c.Some? <==> exists p, k :: MatchesAt(m, p, k)
    ensures c.Some? ==> c.value != [] && forall j :: 0 <= j < |c.value| ==> IsRetryChar(c.value[j])
    ensures c.Some? ==> exists p, k ::
      && MatchesAt(m, p, k)
      && (forall q, j :: 0 <= q < p ==> !MatchesAt(m, q, j))
      && c.value == m[p + |RetryPrefix|..p + |RetryPrefix| + k]
  {
    match FindRetryFrom(m, 0)
    case None => None
    case Some((p, k)) => Some(m[p + |RetryPrefix|..p + |RetryPrefix| + k])
  }

  /** The longest prefix of `s` made of decimal digits. */
  function DigitPrefix(s: string): (w: string)
    ensures |w| <= |s|
    ensures forall j :: 0 <= j < |w| ==> IsDigit(w[j])
    ensures w == [] <==> s == [] || !IsDigit(s[0])
  {
    if s != [] && IsDigit(s[0]) then [s[0]] + DigitPrefix(s[1..]) else []
  }

  /** The value of a string of decimal digits. */
  function DigitsValue(d: string): nat
    requires forall j :: 0 <= j < |d| ==> IsDigit(d[j])
  {
    if d == [] then 0
    else
      var last := d[|d| - 1];
      assert IsDigit(last);
      10 * DigitsValue(d[..|d| - 1]) + (last as int - '0' as int)
  }

  /** Ten to the power `n`. */
  function Pow10(n: nat): (p: nat)
    ensures p >= 1
  {
    if n == 0 then 1 else 10 * Pow10(n - 1)
  }

  /** The value of the digits after a decimal point, read from the left:
      `FractionValue("25")` is (2 + 5 / 10) / 10 = 0.25. */
  function FractionValue(d: string): (f: real)
    requires forall j :: 0 <= j < |d| ==> IsDigit(d[j])
    ensures 0.0 <= f < 1.0
  {
    if d == [] then 0.0
    else
      assert IsDigit(d[0]);
      ((d[0] as int - '0' as int) as real + FractionValue(d[1..])) / 10.0
  }

  /** Read as a whole number, a digit string is its first digit times the
      matching power of ten plus the rest. */
  lemma {:induction false} DigitsValueFront(d: string)
    requires d != [] && forall j :: 0 <= j < |d| ==> IsDigit(d[j])
    ensures DigitsValue(d) == (d[0] as int - '0' as int) * Pow10(|d[1..]|) + DigitsValue(d[1..])
    decreases |d|
  {
    var v := d[0] as int - '0' as int;
    var init := d[..|d| - 1];
    var last := d[|d| - 1] as int - '0' as int;
    if |d| == 1 {
      assert d[1..] == [] && init == [];
    } else {
      DigitsValueFront(init);
      var k := Pow10(|init| - 1);
      assert init[0] == d[0] && init[1..] == d[1..][..|d| - 2];
      assert d[1..][|d| - 2] == d[|d| - 1];
      assert DigitsValue(d[1..]) == 10 * DigitsValue(init[1..]) + last;
      assert DigitsValue(init) == v * k + DigitsValue(init[1..]);
      assert 10 * (v * k) == v * (10 * k);
    }
  }

  /** The value of a fraction is the value of its digits over the matching
      power of ten: `FractionValue("25")` is 25 / 100. */
  lemma {:induction false} FractionDigits(d: string)
    requires forall j :: 0 <= j < |d| ==> IsDigit(d[j])
    ensures FractionValue(d) == DigitsValue(d) as real / Pow10(|d|) as real
  {
    FractionScaled(d);
    Unscale(FractionValue(d), Pow10(|d|), DigitsValue(d) as real);
  }

  /** The same without division, by induction on the digits. */
  lemma {:induction false} FractionScaled(d: string)
    requires forall j :: 0 <= j < |d| ==> IsDigit(d[j])
    ensures Scaled(FractionValue(d), Pow10(|d|)) == DigitsValue(d) as real
    decreases |d|, 1
  {
    if d != [] {
      FractionScaledCons(d);
    } else {
      ScaleZero(FractionValue(d), Pow10(|d|), DigitsValue(d));
    }
  }

  lemma {:induction false} FractionScaledCons(d: string)
    requires d != [] && forall j :: 0 <= j < |d| ==> IsDigit(d[j])
    ensures Scaled(FractionValue(d), Pow10(|d|)) == DigitsValue(d) as real
    decreases |d|, 0
  {
    var t := d[1..];
    FractionScaled(t);
    DigitsValueFront(d);
    ScaleStep(FractionValue(d), FractionValue(t), d[0] as int - '0' as int,
              Pow10(|t|), DigitsValue(t), DigitsValue(d), Pow10(|d|));
  }

  /** `f` scaled up by `p`. */
  function Scaled(f: real, p: nat): real {
    f * p as real
  }

  lemma ScaleZero(f: real, p: nat, v: nat)
    requires f == 0.0 && v == 0
    ensures Scaled(f, p) == v as real
  {
  }

  lemma ScaleStep(f: real, ft: real, c: nat, q: nat, vt: nat, v: nat, p: nat)
    requires f == (c as real + ft) / 10.0 && Scaled(ft, q) == vt as real
    requires v == c * q + vt && p == 10 * q
    ensures Scaled(f, p) == v as real
  {
    assert (c * q) as real == c as real * q as real;
    assert f * 10.0 == c as real + ft;
    calc {
      f * p as real;
      f * (10.0 * q as real);
      (f * 10.0) * q as real;
      (c as real + ft) * q as real;
      c as real * q as real + ft * q as real;
    }
  }

  lemma Unscale(f: real, p: nat, x: real)
    requires p > 0 && Scaled(f, p) == x
    ensures f == x / p as real
  {
  }

  /** `parseFloat` of a string of digits and dots: the value of its longest
      prefix of the form `digits[.digits]` holding at least one digit; `None`
      stands for NaN, which is what a capture with no such prefix gives. */
  function ParseFloat(s: string): (r: Option<real>)
    ensures r.None? <==> s == [] || (!IsDigit(s[0]) && (s[0] != '.' || |s| < 2 || !IsDigit(s[1])))
    ensures r.Some? ==> r.value >= 0.0
  {
    var whole := DigitPrefix(s);
    var after := s[|whole|..];
    if after != [] && after[0] == '.' then Decimal(whole, DigitPrefix(after[1..]))
    else if whole == [] then None
    else Some(DigitsValue(whole) as real)
  }

  /** The number written `whole.fraction`, where either part may be empty
      but not both. */
  function Decimal(whole: string, fraction: string): (r: Option<real>)
    requires forall j :: 0 <= j < |whole| ==> IsDigit(whole[j])
    requires forall j :: 0 <= j < |fraction| ==> IsDigit(fraction[j])
    ensures r.None? <==> whole == [] && fraction == []
    ensures r.Some? ==> r.value >= 0.0
  {
    if whole == [] && fraction == [] then None
    else Some(DigitsValue(whole) as real + FractionValue(fraction))
  }

  /** `Math.ceil`. */
  function Ceil(x: real): (c: int)
    ensures x <= c as real < x + 1.0
  {
    if x.Floor as real == x then x.Floor else x.Floor + 1
  }

  /** The value of a whole number's decimal digits is that number. */
  lemma {:induction false} DigitsValueOfNat(n: nat)
    ensures DigitsValue(NatToString(n)) == n
  {
    var d := NatToString(n);
    if n >= 10 {
      DigitsValueOfNat(n / 10);
      assert d[..|d| - 1] == NatToString(n / 10);
    } else {
      assert d[..|d| - 1] == [];
    }
  }

  /** A whole number of seconds parses to itself. */
  lemma {:induction false} ParseWhole(n: nat)
    ensures ParseFloat(NatToString(n)) == Some(n as real)
  {
    var s := NatToString(n);
    assert s + [] == s;
    DigitPrefixOf(s, []);
    assert s[|s|..] == [];
    DigitsValueOfNat(n);
  }

  /** The digits `w` are the whole digit prefix of `w + q` when `q` does not
      start with a digit. */
  lemma {:induction false} DigitPrefixOf(w: string, q: string)
    requires forall j :: 0 <= j < |w| ==> IsDigit(w[j])
    requires q == [] || !IsDigit(q[0])
    ensures DigitPrefix(w + q) == w
    decreases |w|
  {
    if w == [] {
      assert w + q == q;
    } else {
      DigitPrefixOf(w[1..], q);
      ConsConcat(w, q);
      assert [w[0]] + w[1..] == w;
    }
  }

  /** `whole.fraction` followed by anything that does not continue the
      fraction parses to the whole part plus the value of the fraction's
      digits: `parseFloat("1.5")` is 1.5 and `parseFloat("1.2.3")` is 1.2. */
  lemma {:induction false} ParseDecimal(whole: nat, fraction: string, rest: string)
    requires forall j :: 0 <= j < |fraction| ==> IsDigit(fraction[j])
    requires rest == [] || !IsDigit(rest[0])
    ensures ParseFloat(NatToString(whole) + "." + fraction + rest)
         == Some(whole as real + FractionValue(fraction))
  {
    ParseWithFraction(NatToString(whole), fraction, rest);
    DecimalOfWhole(whole, fraction);
  }

  /** The same with the fraction written out: the digits after the point
      over ten to the number of digits. */
  lemma {:induction false} ParseDecimalValue(whole: nat, fraction: string, rest: string)
    requires forall j :: 0 <= j < |fraction| ==> IsDigit(fraction[j])
    requires rest == [] || !IsDigit(rest[0])
    ensures ParseFloat(NatToString(whole) + "." + fraction + rest)
         == Some(whole as real + DigitsValue(fraction) as real / Pow10(|fraction|) as real)
  {
    ParseDecimal(whole, fraction, rest);
    FractionScaled(fraction);
    OverPower(ParseFloat(NatToString(whole) + "." + fraction + rest), whole as real,
              FractionValue(fraction), DigitsValue(fraction), Pow10(|fraction|));
  }

  lemma OverPower(r: Option<real>, a: real, f: real, v: nat, p: nat)
    requires p > 0 && r == Some(a + f) && Scaled(f, p) == v as real
    ensures r == Some(a + v as real / p as real)
  {
    Unscale(f, p, v as real);
  }

  lemma {:induction false} DecimalOfWhole(whole: nat, fraction: string)
    requires forall j :: 0 <= j < |fraction| ==> IsDigit(fraction[j])
    ensures Decimal(NatToString(whole), fraction) == Some(whole as real + FractionValue(fraction))
  {
    DigitsValueOfNat(whole);
  }

  /** Digits, a point, digits and a non-digit parse as that decimal. */
  lemma {:induction false} ParseWithFraction(w: string, fraction: string, rest: string)
    requires forall j :: 0 <= j < |w| ==> IsDigit(w[j])
    requires forall j :: 0 <= j < |fraction| ==> IsDigit(fraction[j])
    requires rest == [] || !IsDigit(rest[0])
    ensures ParseFloat(w + "." + fraction + rest) == Decimal(w, fraction)
  {
    var s := w + "." + fraction + rest;
    var after := "." + fraction + rest;
    assert s == w + after;
    DigitPrefixOf(w, after);
    assert s[|w|..] == after && after[1..] == fraction + rest;
    DigitPrefixOf(fraction, rest);
  }

  /** An interval of n whole seconds is a wait of 1000 n ms. */
  lemma {:induction false} RetryDelayWhole(n: nat)
    ensures RetryDelay(NatToString(n)) == Millis(1000 * n)
  {
    ParseWhole(n);
  }

  /** `retry in 2s` waits 2000 ms and `retry in 1.5s` waits 1500 ms. */
  lemma RetryDelayExamples()
    ensures RetryDelay("2") == Millis(2000)
    ensures RetryDelay("1.5") == Millis(1500)
  {
    assert NatToString(2) == "2";
    RetryDelayWhole(2);
    assert NatToString(1) + "." + "5" + "" == "1.5";
    ParseDecimal(1, "5", "");
    assert FractionValue("5") == 0.5 by {
      assert "5"[1..] == [];
    }
  }

  /** A wait passed to `delay`: whole milliseconds, or NaN. */
  datatype Delay = Millis(ms: nat) | NotANumber

  /** `Math.ceil(parseFloat(capture) * 1000)`: the interval in whole
      milliseconds, rounded up. */
  function RetryDelay(capture: string): (d: Delay)
    ensures d.NotANumber? <==> ParseFloat(capture).None?
    ensures d.Millis? ==> var seconds := ParseFloat(capture).value;
      seconds * 1000.0 <= d.ms as real < seconds * 1000.0 + 1.0
  {
    match ParseFloat(capture)
    case None => NotANumber
    case Some(seconds) => Millis(Ceil(seconds * 1000.0))
  }

  /** What the handler does with a failure message: retry once after a delay,
      or throw the wrapped error. */
  datatype Recovery = RetryAfter(delay: Delay) | Rethrow(message: string)

  /** `Gemini API error: <message>`, with a fixed detail when the message is empty. */
  function WrapError(message: string): (wrapped: string)
    ensures |ErrorPrefix| < |wrapped| && wrapped[..|ErrorPrefix|] == ErrorPrefix
    ensures message != "" ==> wrapped[|ErrorPrefix|..] == message
    ensures message == "" ==> wrapped[|ErrorPrefix|..] == DefaultErrorDetail
  {
    ErrorPrefix + (if message == "" then DefaultErrorDetail else message)
  }

  /** A failure is retried exactly when its message names an exhausted quota and
      carries a retry interval; the delay is that of the leftmost interval. Any
      other failure is rethrown, wrapped. */
  function Recover(message: string): (r: Recovery)
    ensures r.RetryAfter? <==> IsQuotaMessage(message) && exists p, k :: MatchesAt(message, p, k)
    ensures r.RetryAfter? ==> r.delay == RetryDelay(RetryCapture(message).value)
    ensures r.Rethrow? ==> r.message == WrapError(message)
  {
    if IsQuotaMessage(message) && RetryCapture(message).Some? then
      RetryAfter(RetryDelay(RetryCapture(message).value))
    else
      Rethrow(WrapError(message))
  }

  /** The progress notice before the retry wait, in whole seconds rounded up. */
  function RetryNotice(d: Delay): string {
    "Hit rate limit. Waiting "
    + (match d case Millis(ms) => NatToString(CeilDiv(ms, 1000)) case NotANumber => "NaN")
    + "s before retry..."
  }

  /** The retry notice shows a wait of whole milliseconds in whole seconds
      rounded up, like the limiter's. */
  lemma RetryNoticeSeconds(ms: nat, secs: nat)
    requires (secs - 1) * 1000 < ms <= secs * 1000
    ensures RetryNotice(Millis(ms)) == "Hit rate limit. Waiting " + NatToString(secs) + "s before retry..."
  {
    var q := CeilDiv(ms, 1000);
    assert (q - 1) * 1000 < secs * 1000 && (secs - 1) * 1000 < q * 1000;
  }

  // ---------------------------------------------------------------------------
  // One call of generateStickmanPrompt

  /** What one `generateContent` call gives back: a response whose text may be
      missing, or a thrown error with its message. */
  datatype ContentOutcome = Response(text: Option<string>) | Thrown(message: string)

  /** The three readings of the clock a call can take: on entry, after the
      limiter's wait, and after the retry wait. */
  datatype Clock = Clock(atStart: int, afterWait: int, afterRetryWait: int)

  /** The externally visible steps of a call, in order. */
  datatype Step = Wait(delay: Delay) | GenerateContent(scriptLine: string)

  /** Everything a call produces: its result or error message, its steps, the
      progress notices it sends, and the new value of `lastRequestTime`. */
  datatype Call = Call(result: Result<string, string>, steps: seq<Step>, notices: seq<string>, lastRequestTime: int)

  predicate HasText(response: ContentOutcome) {
    response.Response? && response.text.Some? && response.text.value != ""
  }

  /** The call as a function of the stored time `last` and of its inputs. */
  function Invoke(last: int, scriptLine: string, apiKey: Option<string>, notify: bool,
                  clock: Clock, first: ContentOutcome, retry: ContentOutcome): Call
  {
    if apiKey.None? || apiKey.value == "" then Call(Failure(ApiKeyMissing), [], [], last)
    else
      var w := WaitTime(clock.atStart, last);
      var steps := (if w > 0 then [Wait(Millis(w))] else []) + [GenerateContent(scriptLine)];
      var notices := if w > 0 && notify then [LimiterNotice(w)] else [];
      if HasText(first) then Call(Success(Trim(first.text.value)), steps, notices, clock.afterWait)
      else
        var message := if first.Response? then EmptyResponse else first.message;
        match Recover(message)
        case Rethrow(wrapped) => Call(Failure(wrapped), steps, notices, clock.afterWait)
        case RetryAfter(d) =>
          var steps' := steps + [Wait(d), GenerateContent(scriptLine)];
          var notices' := notices + (if notify then [RetryNotice(d)] else []);
          var result :=
            if HasText(retry) then Success(Trim(retry.text.value))
            else if retry.Response? then Failure(EmptyRetryResponse)
            else Failure(retry.message);
          Call(result, steps', notices', clock.afterRetryWait)
  }

  /** The module-level state of the description stage. */
  class GeminiClient {
    /** Time of the last granted request, in ms; 0 before the first one. */
    var lastRequestTime: int

    constructor ()
      ensures lastRequestTime == 0
    {
      lastRequestTime := 0;
    }

    /** `generateStickmanPrompt(scriptLine, onProgress)`; `notify` says whether
        a progress handler was passed. */
    method GenerateStickmanPrompt(scriptLine: string, apiKey: Option<string>, notify: bool,
                                  clock: Clock, first: ContentOutcome, retry: ContentOutcome)
      returns (result: Result<string, string>, steps: seq<Step>, notices: seq<string>)
      modifies this
      ensures Call(result, steps, notices, lastRequestTime)
        == Invoke(old(lastRequestTime), scriptLine, apiKey, notify, clock, first, retry)
    {
      steps, notices := [], [];
      if apiKey.None? || apiKey.value == "" {
        result := Failure(ApiKeyMissing);
        return;
      }
      var now := clock.atStart;
      var timeSinceLastRequest := now - lastRequestTime;
      if timeSinceLastRequest < RateLimitDelayMs && lastRequestTime > 0 {
        var waitTime := RateLimitDelayMs - timeSinceLastRequest;
        if notify {
          notices := notices + [LimiterNotice(waitTime)];
        }
        steps := steps + [Wait(Millis(waitTime))];
      }
      lastRequestTime := clock.afterWait;
      ghost var w := WaitTime(clock.atStart, old(lastRequestTime));
      assert steps == (if w > 0 then [Wait(Millis(w))] else []);
      assert notices == (if w > 0 && notify then [LimiterNotice(w)] else []);

      steps := steps + [GenerateContent(scriptLine)];
      ghost var firstSteps := steps;
      var message: string;
      if first.Response? {
        if first.text.Some? && first.text.value != "" {
          result := Success(Trim(first.text.value));
          return;
        }
        message := EmptyResponse;
      } else {
        message := first.message;
      }

      var recovery := Recover(message);
      if recovery.RetryAfter? {
        var retryDelay := recovery.delay;
        if notify {
          notices := notices + [RetryNotice(retryDelay)];
        }
        steps := steps + [Wait(retryDelay)];
        lastRequestTime := clock.afterRetryWait;
        steps := steps + [GenerateContent(scriptLine)];
        assert steps == firstSteps + [Wait(retryDelay), GenerateContent(scriptLine)];
        if retry.Response? {
          if retry.text.None? || retry.text.value == "" {
            result := Failure(EmptyRetryResponse);
            return;
          }
          result := Success(Trim(retry.text.value));
          return;
        }
        result := Failure(retry.message);
        return;
      }
      result := Failure(recovery.message);
    }
  }

  // ---------------------------------------------------------------------------
  // Properties of a call

  function Requests(steps: seq<Step>): nat
    decreases |steps|
  {
    if steps == [] then 0
    else (if steps[0].GenerateContent? then 1 else 0) + Requests(steps[1..])
  }

  lemma {:induction false} RequestsAppend(a: seq<Step>, b: seq<Step>)
    ensures Requests(a + b) == Requests(a) + Requests(b)
    decreases |a|
  {
    if a == [] {
      assert a + b == b;
    } else {
      RequestsAppend(a[1..], b);
      assert (a + b)[0] == a[0];
      assert (a + b)[1..] == a[1..] + b;
    }
  }

  predicate KeyPresent(apiKey: Option<string>) {
    apiKey.Some? && apiKey.value != ""
  }

  /** Without an API key the call fails before it reads or updates the stored
      time, and makes no request. */
  lemma MissingKeyTouchesNothing(last: int, scriptLine: string, apiKey: Option<string>, notify: bool,
                                 clock: Clock, first: ContentOutcome, retry: ContentOutcome)
    requires !KeyPresent(apiKey)
    ensures var c := Invoke(last, scriptLine, apiKey, notify, clock, first, retry);
      c.result == Failure(ApiKeyMissing) && c.steps == [] && c.notices == []
      && c.lastRequestTime == last
  {
  }

  /** With a key, the call first waits `WaitTime` (if positive) and then makes
      its first request; it makes at most two requests, and two exactly when the
      first failure is a quota error with a retry interval. The stored time
      becomes the clock after the limiter, or after the retry wait when it retries. */
  lemma {:induction false} AtMostTwoRequests(last: int, scriptLine: string, apiKey: Option<string>, notify: bool,
                                             clock: Clock, first: ContentOutcome, retry: ContentOutcome)
    requires KeyPresent(apiKey)
    ensures var c := Invoke(last, scriptLine, apiKey, notify, clock, first, retry);
      var w := WaitTime(clock.atStart, last);
      var retried := !HasText(first) && Recover(if first.Response? then EmptyResponse else first.message).RetryAfter?;
      && c.steps[..(if w > 0 then 2 else 1)] == (if w > 0 then [Wait(Millis(w)), GenerateContent(scriptLine)] else [GenerateContent(scriptLine)])
      && Requests(c.steps) == (if retried then 2 else 1)
      && c.lastRequestTime == (if retried then clock.afterRetryWait else clock.afterWait)
  {
    var c := Invoke(last, scriptLine, apiKey, notify, clock, first, retry);
    var w := WaitTime(clock.atStart, last);
    var limit: seq<Step> := if w > 0 then [Wait(Millis(w))] else [];
    var steps := limit + [GenerateContent(scriptLine)];
    if HasText(first) {
      assert c.steps == steps + [];
      StepsShape(w, scriptLine, []);
    } else {
      var message := if first.Response? then EmptyResponse else first.message;
      var recovery := Recover(message);
      if recovery.RetryAfter? {
        var tail := [Wait(recovery.delay), GenerateContent(scriptLine)];
        assert c.steps == steps + tail;
        StepsShape(w, scriptLine, tail);
        RetryTailRequests(recovery.delay, scriptLine);
      } else {
        assert c.steps == steps + [];
        StepsShape(w, scriptLine, []);
      }
    }
  }

  /** With a key, a call given a progress handler sends the limiter's notice
      exactly when it waits, and then the retry notice exactly when it
      retries; without a handler it sends none. */
  lemma {:induction false} ProgressNotices(last: int, scriptLine: string, apiKey: Option<string>, notify: bool,
                                           clock: Clock, first: ContentOutcome, retry: ContentOutcome)
    requires KeyPresent(apiKey)
    ensures var c := Invoke(last, scriptLine, apiKey, notify, clock, first, retry);
      var w := WaitTime(clock.atStart, last);
      var recovery := Recover(if first.Response? then EmptyResponse else first.message);
      var retried := !HasText(first) && recovery.RetryAfter?;
      c.notices == if !notify then [] else
        (if w > 0 then [LimiterNotice(w)] else []) + (if retried then [RetryNotice(recovery.delay)] else [])
  {
    var w := WaitTime(clock.atStart, last);
    var limit: seq<string> := if w > 0 && notify then [LimiterNotice(w)] else [];
    if HasText(first) || Recover(if first.Response? then EmptyResponse else first.message).Rethrow? {
      assert limit + [] == limit;
    }
  }

  lemma RetryTailRequests(d: Delay, scriptLine: string)
    ensures Requests([Wait(d), GenerateContent(scriptLine)]) == 1
  {
    var tail := [Wait(d), GenerateContent(scriptLine)];
    var last := [GenerateContent(scriptLine)];
    assert last[1..] == [];
    assert Requests(last) == 1;
    assert tail[1..] == last;
  }

  /** The steps of a keyed call: the limiter's wait if any, the first request,
      then whatever the handler adds. */
  lemma StepsShape(w: int, scriptLine: string, tail: seq<Step>)
    ensures var limit: seq<Step> := if w > 0 then [Wait(Millis(w))] else [];
      var steps := limit + [GenerateContent(scriptLine)] + tail;
      && steps[..(if w > 0 then 2 else 1)] == limit + [GenerateContent(scriptLine)]
      && Requests(steps) == 1 + Requests(tail)
  {
    var limit: seq<Step> := if w > 0 then [Wait(Millis(w))] else [];
    var head := limit + [GenerateContent(scriptLine)];
    RequestsAppend(limit, [GenerateContent(scriptLine)]);
    RequestsAppend(head, tail);
    assert Requests([GenerateContent(scriptLine)]) == 1 by {
      assert [GenerateContent(scriptLine)][1..] == [];
    }
    assert (head + tail)[..|head|] == head;
  }

  lemma NotContainedWithoutFirstChar(s: string, sub: string)
    requires sub != [] && sub[0] !in s
    ensures !Contains(s, sub)
  {
    forall i | 0 <= i && i + |sub| <= |s| ensures !OccursAt(s, sub, i) {
      assert s[i..i + |sub|][0] == s[i] && s[i] in s;
    }
  }

  lemma EmptyResponseIsNotQuota()
    ensures !IsQuotaMessage(EmptyResponse)
  {
    var a, b, c, d := "Gemini ", "API ", "returned ", "empty response";
    assert EmptyResponse == a + b + c + d;
    assert 'R' !in a && 'R' !in b && 'R' !in c && 'R' !in d;
    assert 'Q' !in a && 'Q' !in b && 'Q' !in c && 'Q' !in d;
    NotContainedWithoutFirstChar(EmptyResponse, "RESOURCE_EXHAUSTED");
    NotContainedWithoutFirstChar(EmptyResponse, "Quota exceeded");
  }

  /** An empty first response is an error that the handler wraps and does not retry. */
  lemma EmptyResponseIsWrapped(last: int, scriptLine: string, apiKey: Option<string>, notify: bool,
                               clock: Clock, first: ContentOutcome, retry: ContentOutcome)
    requires KeyPresent(apiKey)
    requires first.Response? && !HasText(first)
    ensures var c := Invoke(last, scriptLine, apiKey, notify, clock, first, retry);
      c.result == Failure(ErrorPrefix + EmptyResponse)
      && Requests(c.steps) == 1
  {
    EmptyResponseIsNotQuota();
    assert Recover(EmptyResponse) == Rethrow(ErrorPrefix + EmptyResponse);
    AtMostTwoRequests(last, scriptLine, apiKey, notify, clock, first, retry);
  }

  /** A first response with text is returned trimmed after exactly one request. */
  lemma TextIsReturnedTrimmed(last: int, scriptLine: string, apiKey: Option<string>, notify: bool,
                              clock: Clock, first: ContentOutcome, retry: ContentOutcome)
    requires KeyPresent(apiKey) && HasText(first)
    ensures var c := Invoke(last, scriptLine, apiKey, notify, clock, first, retry);
      c.result == Success(Trim(first.text.value)) && Requests(c.steps) == 1
  {
    AtMostTwoRequests(last, scriptLine, apiKey, notify, clock, first, retry);
  }

  /** After a quota error with an interval the call waits that interval, asks
      once more, and reports the retry's outcome without the wrapper. */
  lemma QuotaErrorRetriedOnce(last: int, scriptLine: string, apiKey: Option<string>, notify: bool,
                              clock: Clock, message: string, retry: ContentOutcome)
    requires KeyPresent(apiKey)
    requires IsQuotaMessage(message) && RetryCapture(message).Some?
    ensures var c := Invoke(last, scriptLine, apiKey, notify, clock, Thrown(message), retry);
      var d := RetryDelay(RetryCapture(message).value);
      && |c.steps| >= 3
      && c.steps[|c.steps| - 2..] == [Wait(d), GenerateContent(scriptLine)]
      && Requests(c.steps) == 2
      && c.lastRequestTime == clock.afterRetryWait
      && c.result == (if HasText(retry) then Success(Trim(retry.text.value))
                      else if retry.Response? then Failure(EmptyRetryResponse)
                      else Failure(retry.message))
  {
    AtMostTwoRequests(last, scriptLine, apiKey, notify, clock, Thrown(message), retry);
  }

  /** Any other thrown error, including a quota error without an interval, is
      rethrown as `Gemini API error: <message>` after a single request. */
  lemma OtherErrorRethrown(last: int, scriptLine: string, apiKey: Option<string>, notify: bool,
                           clock: Clock, message: string, retry: ContentOutcome)
    requires KeyPresent(apiKey)
    requires !IsQuotaMessage(message) || RetryCapture(message).None?
    ensures var c := Invoke(last, scriptLine, apiKey, notify, clock, Thrown(message), retry);
      c.result == Failure(WrapError(message)) && Requests(c.steps) == 1
      && c.lastRequestTime == clock.afterWait
  {
    AtMostTwoRequests(last, scriptLine, apiKey, notify, clock, Thrown(message), retry);
  }

  // ---------------------------------------------------------------------------
  // Spacing of a serial caller's requests

  /** One call's inputs. */
  datatype Invocation = Invocation(scriptLine: string, apiKey: Option<string>, clock: Clock,
                                   first: ContentOutcome, retry: ContentOutcome)

  function After(last: int, call: Invocation): int {
    Invoke(last, call.scriptLine, call.apiKey, false, call.clock, call.first, call.retry).lastRequestTime
  }

  /** The times at which a serial caller's calls, issued one after another from
      stored time `last`, are let through by the limiter. */
  function Grants(last: int, calls: seq<Invocation>): seq<int>
    decreases |calls|
  {
    if calls == [] then []
    else
      (if KeyPresent(calls[0].apiKey) then [calls[0].clock.afterWait] else [])
      + Grants(After(last, calls[0]), calls[1..])
  }

  /** The clock never runs backwards, reads a positive time, and `delay(w)`
      lasts at least `w` ms. */
  ghost predicate MonotoneClock(last: int, c: Clock) {
    c.atStart >= last && c.afterWait >= c.atStart + WaitTime(c.atStart, last)
    && c.afterWait > 0 && c.afterRetryWait >= c.afterWait
  }

  ghost predicate SerialRun(last: int, calls: seq<Invocation>)
    decreases |calls|
  {
    calls != [] ==> MonotoneClock(last, calls[0].clock) && SerialRun(After(last, calls[0]), calls[1..])
  }

  /** For a single serial caller on a monotone clock, consecutive grants are at
      least 6500 ms apart, and so is the first one from an earlier request. */
  lemma {:induction false} GrantsAreSpaced(last: int, calls: seq<Invocation>)
    requires SerialRun(last, calls)
    ensures var g := Grants(last, calls);
      (last > 0 && g != [] ==> g[0] >= last + RateLimitDelayMs)
      && forall k :: 0 <= k < |g| - 1 ==> g[k + 1] >= g[k] + RateLimitDelayMs
    decreases |calls|
  {
    if calls != [] {
      var c := calls[0];
      var next := After(last, c);
      GrantsAreSpaced(next, calls[1..]);
      var rest := Grants(next, calls[1..]);
      if KeyPresent(c.apiKey) {
        assert next >= c.clock.afterWait > 0;
        var g := [c.clock.afterWait] + rest;
        assert Grants(last, calls) == g;
        forall k | 0 <= k < |g| - 1 ensures g[k + 1] >= g[k] + RateLimitDelayMs {
          if k > 0 {
            assert g[k] == rest[k - 1] && g[k + 1] == rest[k];
          }
        }
      } else {
        assert next == last;
        assert Grants(last, calls) == rest;
      }
    }
  }
}
