/** Package size from the two probe responses of `fetch_ipa_metadata`
    (update_movieboxpro.py:52-62): the total length in the `Content-Range`
    answer to the range request `bytes=0-0` (sections 2.1 and 4.2 of RFC 7233),
    else the `Content-Length` of a HEAD answer (section 3.3.2 of RFC 7230),
    else unknown. Header values are ISO-8859-1 text. */
module SizeProbe {
  import opened Wrappers
  import opened Digits

  const RangeUnit := "bytes "

  /** A non-empty digit run ended by `sep`: the run and the text after `sep`. */
  function DigitsThen(t: string, sep: char): Option<(string, string)>
  {
    var a := LeadingDigits(t);
    if a == 0 || a == |t| || t[a] != sep then None else Some((t[..a], t[a + 1..]))
  }

  lemma DigitsThenComplete(d: string, sep: char, rest: string)
    requires d != [] && AllDigits(d) && !IsDigit(sep)
    ensures DigitsThen(d + [sep] + rest, sep) == Some((d, rest))
  {
    var t := d + [sep] + rest;
    assert t == d + ([sep] + rest);
    LeadingDigitsOfRun(d, [sep] + rest);
    assert t[..|d|] == d;
    assert t[|d| + 1..] == rest;
  }

  lemma DigitsThenSound(t: string, sep: char)
    requires DigitsThen(t, sep).Some?
    ensures var (d, rest) := DigitsThen(t, sep).value;
      d != [] && AllDigits(d) && t == d + [sep] + rest
  {
    var a := LeadingDigits(t);
    assert t == t[..a] + [sep] + t[a + 1..];
  }

  /** The greedy last `(\d+)`: the value of the leading digit run, if any. */
  function TotalField(w: string): Option<nat>
  {
    var c := LeadingDigits(w);
    if c == 0 then None else Some(Value(w[..c]))
  }

  /** The pattern after `bytes `: `\d+-\d+/(\d+)`. */
  function RangeTail(t: string): Option<nat>
  {
    match DigitsThen(t, '-')
    case None => None
    case Some((_, u)) =>
      match DigitsThen(u, '/')
      case None => None
      case Some((_, w)) => TotalField(w)
  }

  /** `re.match(r"bytes \d+-\d+/(\d+)", s)` followed by `int(m.group(1))`.
      The match is anchored at the start only, so text after the last digit
      run is ignored; the greedy last `\d+` takes the whole digit run. */
  function RangeTotal(s: string): (r: Option<nat>)
    ensures r.Some? ==> |s| > |RangeUnit| && s[..|RangeUnit|] == RangeUnit && IsDigit(s[|RangeUnit|])
  {
    if |s| < |RangeUnit| || s[..|RangeUnit|] != RangeUnit then None
    else RangeTail(s[|RangeUnit|..])
  }

  /** The text `bytes <first>-<last>/<total><rest>`. */
  function RangeText(first: string, last: string, total: string, rest: string): string
  {
    RangeUnit + (first + ['-'] + (last + ['/'] + (total + rest)))
  }

  /** The three numbers are non-empty digit runs and the total is not
      followed by another digit. */
  predicate RangeFields(first: string, last: string, total: string, rest: string)
  {
    && first != [] && AllDigits(first)
    && last != [] && AllDigits(last)
    && total != [] && AllDigits(total)
    && (rest == [] || !IsDigit(rest[0]))
  }

  lemma RangeTailComplete(first: string, last: string, total: string, rest: string)
    requires RangeFields(first, last, total, rest)
    ensures RangeTail(first + ['-'] + (last + ['/'] + (total + rest))) == Some(Value(total))
  {
    var w := total + rest;
    DigitsThenComplete(first, '-', last + ['/'] + w);
    DigitsThenComplete(last, '/', w);
    LeadingDigitsOfRun(total, rest);
    assert w[..|total|] == total;
  }

  /** Every well-formed range answer yields its total. */
  lemma RangeTotalComplete(first: string, last: string, total: string, rest: string)
    requires RangeFields(first, last, total, rest)
    ensures RangeTotal(RangeText(first, last, total, rest)) == Some(Value(total))
  {
    var t := first + ['-'] + (last + ['/'] + (total + rest));
    var s := RangeText(first, last, total, rest);
    assert s[..|RangeUnit|] == RangeUnit;
    assert s[|RangeUnit|..] == t;
    RangeTailComplete(first, last, total, rest);
  }

  lemma TotalFieldSound(w: string) returns (total: string, rest: string)
    requires TotalField(w).Some?
    ensures total != [] && AllDigits(total) && (rest == [] || !IsDigit(rest[0]))
    ensures w == total + rest && TotalField(w) == Some(Value(total))
  {
    var c := LeadingDigits(w);
    total, rest := w[..c], w[c..];
    assert w == total + rest;
  }

  lemma RangeTailSound(t: string) returns (first: string, last: string, total: string, rest: string)
    requires RangeTail(t).Some?
    ensures RangeFields(first, last, total, rest)
    ensures t == first + ['-'] + (last + ['/'] + (total + rest))
    ensures RangeTail(t) == Some(Value(total))
  {
    DigitsThenSound(t, '-');
    var u;
    first, u := DigitsThen(t, '-').value.0, DigitsThen(t, '-').value.1;
    DigitsThenSound(u, '/');
    var w;
    last, w := DigitsThen(u, '/').value.0, DigitsThen(u, '/').value.1;
    total, rest := TotalFieldSound(w);
  }

  /** Whatever `RangeTotal` accepts is a well-formed range answer, and the
      size it reports is that answer's total. */
  lemma RangeTotalSound(s: string) returns (first: string, last: string, total: string, rest: string)
    requires RangeTotal(s).Some?
    ensures RangeFields(first, last, total, rest) && s == RangeText(first, last, total, rest)
    ensures RangeTotal(s) == Some(Value(total))
  {
    var t := s[|RangeUnit|..];
    assert s == RangeUnit + t;
    first, last, total, rest := RangeTailSound(t);
  }

  /** The range rule in both directions: a size is read from `Content-Range`
      exactly when the value has the form `bytes <digits>-<digits>/<digits>…`,
      and the size is the total. */
  lemma RangeTotalExactly(s: string, n: nat)
    ensures RangeTotal(s) == Some(n) <==>
      exists first, last, total, rest ::
        RangeFields(first, last, total, rest) && s == RangeText(first, last, total, rest)
        && Value(total) == n
  {
    if RangeTotal(s) == Some(n) {
      var first, last, total, rest := RangeTotalSound(s);
    }
    if exists first, last, total, rest ::
        RangeFields(first, last, total, rest) && s == RangeText(first, last, total, rest)
        && Value(total) == n
    {
      var first, last, total, rest :|
        RangeFields(first, last, total, rest) && s == RangeText(first, last, total, rest)
        && Value(total) == n;
      RangeTotalComplete(first, last, total, rest);
    }
  }

  /** The answer to the `bytes=0-0` probe of a package of `n` bytes is read back as `n`. */
  lemma ProbeAnswerRoundTrip(n: nat)
    ensures RangeTotal(RangeText("0", "0", Decimal(n), "")) == Some(n)
  {
    DecimalRoundTrip(n);
    assert AllDigits("0");
    RangeTotalComplete("0", "0", Decimal(n), "");
  }

  // Missing headers, the unsatisfied-range form `bytes */N` and an unknown
  // total `bytes 0-0/*` give no size from `Content-Range`.
  lemma RangeTotalRejects()
    ensures RangeTotal("") == None
    ensures RangeTotal("bytes */1024") == None
    ensures RangeTotal("bytes 0-0/*") == None
  {
    assert "bytes 0-0/*"[6..] == "0-0/*";
    assert "0-0/*"[2..] == "0/*";
    assert "0/*"[2..] == "*";
    assert "bytes */1024"[6..] == "*/1024";
  }

  /** The ISO-8859-1 superscripts ¹ ² ³: `str.isdigit()` accepts them, which
      is why the corrected rule tests for ASCII digits instead. */
  predicate IsSuperscriptDigit(c: char) {
    c == '\U{B9}' || c == '\U{B2}' || c == '\U{B3}'
  }

  predicate PyIsDigit(c: char) {
    IsDigit(c) || IsSuperscriptDigit(c)
  }

  datatype SizeError = IntValueError(text: string)

  /** The `Content-Length` fallback as written (update_movieboxpro.py:61-62):
      `int(cl) if cl and cl.isdigit() else None`. `int()` raises `ValueError`
      on a superscript digit that `isdigit()` let through. */
  function ContentLengthAsWritten(cl: Option<string>): (r: Result<Option<nat>, SizeError>)
    ensures r.Failure? ==> cl.Some? && exists i :: 0 <= i < |cl.value| && IsSuperscriptDigit(cl.value[i])
    ensures r.Success? ==> r.value == ContentLengthSize(cl)
  {
    match cl
    case None => Success(None)
    case Some(s) =>
      if s != [] && (forall i :: 0 <= i < |s| ==> PyIsDigit(s[i])) then
        if AllDigits(s) then Success(Some(Value(s))) else Failure(IntValueError(s))
      else Success(None)
  }

  /** The `Content-Length` fallback as intended: a size exactly when the
      header is present, non-empty and all ASCII digits. */
  function ContentLengthSize(cl: Option<string>): (r: Option<nat>)
    ensures r.Some? <==> cl.Some? && cl.value != [] && AllDigits(cl.value)
  {
    if cl.Some? && cl.value != [] && AllDigits(cl.value) then Some(Value(cl.value)) else None
  }

  /** A `Content-Length` of `n` bytes is read back as `n`. */
  lemma ContentLengthRoundTrip(n: nat)
    ensures ContentLengthSize(Some(Decimal(n))) == Some(n)
  {
    DecimalRoundTrip(n);
  }

  /** Counterexample: `Content-Length: ²` makes the code as written raise,
      aborting the run, where the intended rule reports an unknown size. */
  lemma SuperscriptLengthRaises()
    ensures ContentLengthAsWritten(Some("\U{B2}")).Failure?
    ensures ContentLengthSize(Some("\U{B2}")) == None
  {
    assert PyIsDigit("\U{B2}"[0]);
    assert !IsDigit("\U{B2}"[0]);
  }

  /** On every value without a superscript digit the code as written and the
      intended rule agree. */
  lemma ContentLengthAgreesWithoutSuperscripts(cl: Option<string>)
    requires cl.Some? ==> forall i :: 0 <= i < |cl.value| ==> PyIsDigit(cl.value[i]) ==> IsDigit(cl.value[i])
    ensures ContentLengthAsWritten(cl) == Success(ContentLengthSize(cl))
  {
  }

  /** The whole size rule: the `Content-Range` total when it parses (a missing
      header reads as `""`), otherwise the `Content-Length` fallback. */
  function ProbeSize(contentRange: Option<string>, contentLength: Option<string>): (r: Option<nat>)
    ensures r == RangeTotal(contentRange.GetOr("")) || r == ContentLengthSize(contentLength)
    ensures r.None? <==> RangeTotal(contentRange.GetOr("")).None? && ContentLengthSize(contentLength).None?
  {
    var total := RangeTotal(contentRange.GetOr(""));
    if total.Some? then total else ContentLengthSize(contentLength)
  }

  /** Fallback precedence: a parsed `Content-Range` always wins and the
      `Content-Length` value is then never consulted; only when it does not
      parse does the size come from `Content-Length`, and it is unknown when
      neither yields a number. */
  lemma ProbeSizePrecedence(contentRange: Option<string>, contentLength: Option<string>, other: Option<string>)
    ensures RangeTotal(contentRange.GetOr("")).Some? ==>
      ProbeSize(contentRange, contentLength) == ProbeSize(contentRange, other)
    ensures RangeTotal(contentRange.GetOr("")).None? ==>
      ProbeSize(contentRange, contentLength) == ContentLengthSize(contentLength)
    ensures ProbeSize(contentRange, contentLength).None? <==>
      RangeTotal(contentRange.GetOr("")).None? &&
      (contentLength.None? || contentLength.value == [] || !AllDigits(contentLength.value))
  {
  }

  /** Without a parseable `Content-Range`, a HEAD answer with
      `Content-Length: n` gives size `n`. */
  lemma SizeFromContentLength(contentRange: Option<string>, n: nat)
    requires RangeTotal(contentRange.GetOr("")).None?
    ensures ProbeSize(contentRange, Some(Decimal(n))) == Some(n)
  {
    ContentLengthRoundTrip(n);
  }
}
