/** `text_processing.py`: reading the language model's three replies (tags,
    location, date) into a query, scoring stored photo records against the
    query and ranking them, and the readable form of an Exif timestamp. */
module TextProcessing {
  import opened Wrappers
  import opened Text
  import opened Decimal
  import opened Ranking

  const LocationFactor: real := 10.0
  const MetadataStrictness: nat := 5
  const YearFactor: real := 7.0
  const MonthFactor: real := 7.0
  const DayFactor: real := 7.0
  const MatchFactor: real := 7.0


  /*** Reading the replies ***/

  /** The reply with CR and LF deleted, cut down to the span from its first
      `[` to its last `]`. */
  function Bracketed(reply: string): (r: Option<string>)
    ensures r.Some? ==> Occurs(r.value, StripLineBreaks(reply))
  {
    var s := StripLineBreaks(reply);
    var r := BracketText(s);
    assert r.Some? ==> OccursAt(r.value, s, BracketSpan(s).value.start);
    r
  }

  lemma OccursNoUpper(t: string, s: string)
    requires Occurs(t, s) && NoUpper(s)
    ensures NoUpper(t)
  {
    var k :| OccursAt(t, s, k);
    assert forall i :: 0 <= i < |t| ==> t[i] == s[k + i];
  }

  lemma OccursTransitive(t: string, u: string, s: string)
    requires Occurs(t, u) && Occurs(u, s)
    ensures Occurs(t, s)
  {
    var i :| OccursAt(t, u, i);
    var j :| OccursAt(u, s, j);
    forall k | 0 <= k < |t| ensures s[j + i + k] == t[k] {
      assert t[k] == u[i + k] == s[j + i + k];
    }
    assert s[j + i..j + i + |t|] == t;
    assert OccursAt(t, s, j + i);
  }

  /** The tag part of `process_input`: lower-case the reply, delete CR and
      LF, take the bracketed span and find the tags in it. Without a
      bracketed span the tags stay `None`. */
  function ParseTags(reply: string): (r: Option<seq<string>>)
    ensures r.None? <==> Bracketed(Lower(reply)).None?
    ensures r.Some? ==> forall t :: t in r.value ==>
      && ValidTag(t) && NoUpper(t)
      && Occurs(t, Bracketed(Lower(reply)).value)
      && Occurs(t, StripLineBreaks(Lower(reply)))
  {
    match Bracketed(Lower(reply))
    case None => None
    case Some(b) =>
      var cleaned := StripLineBreaks(Lower(reply));
      WordTagsValid(b);
      WordTagsOccur(b);
      StripLineBreaksNoUpper(Lower(reply));
      OccursNoUpper(b, cleaned);
      assert forall t :: t in WordTags(b) ==> Occurs(t, b);
      forall t | t in WordTags(b)
        ensures NoUpper(t) && Occurs(t, cleaned)
      {
        OccursNoUpper(t, b);
        OccursTransitive(t, b, cleaned);
      }
      Some(WordTags(b))
  }

  /** A rendered list of lower-case tags has no upper-case letter and no
      line break. */
  lemma RenderListClean(ts: seq<string>)
    requires forall t :: t in ts ==> ValidTag(t) && NoUpper(t)
    ensures NoUpper(RenderList(ts)) && NoLineBreak(RenderList(ts))
  {
    var body := RenderList(ts);
    var p := c => !IsUpper(c) && !IsLineBreak(c);
    forall t | t in ts ensures forall k :: 0 <= k < |t| ==> p(t[k]) {
      assert ValidTag(t) && NoUpper(t);
    }
    JoinKeeps(ts, p);
    forall k | 0 <= k < |body| ensures !IsUpper(body[k]) && !IsLineBreak(body[k]) {
      if 0 < k < |body| - 1 {
        assert body[k] == Join(ts)[k - 1];
      }
    }
  }

  /** Whatever prose surrounds it, a bracketed, comma-separated list of
      lower-case tags is read back as exactly that list. */
  lemma ParseTagsRoundTrip(pre: string, ts: seq<string>, post: string)
    requires forall t :: t in ts ==> ValidTag(t) && NoUpper(t)
    requires Lacks(pre, '[') && Lacks(post, ']')
    ensures ParseTags(pre + RenderList(ts) + post) == Some(ts)
  {
    var body := RenderList(ts);
    RenderListClean(ts);
    LowerFramed(pre, body, post);
    StripLineBreaksFramed(Lower(pre), body, Lower(post));
    LowerLacks(pre, '[');
    LowerLacks(post, ']');
    StripLineBreaksLacks(Lower(pre), '[');
    StripLineBreaksLacks(Lower(post), ']');
    BracketTextFramed(StripLineBreaks(Lower(pre)), body, StripLineBreaks(Lower(post)));
    WordTagsRenderList(ts);
  }

  /** `[float(n) for n in tokens]`: every token read with `parse`, or
      `None` as soon as one of them cannot be read. */
  function ParseEach(tokens: seq<string>, parse: string -> Option<real>): (r: Option<seq<real>>)
    ensures r.Some? <==> forall i :: 0 <= i < |tokens| ==> parse(tokens[i]).Some?
    ensures r.Some? ==> |r.value| == |tokens| && forall i :: 0 <= i < |tokens| ==> parse(tokens[i]) == Some(r.value[i])
  {
    if tokens == [] then Some([])
    else
      match parse(tokens[0])
      case None => None
      case Some(x) =>
        match ParseEach(tokens[1..], parse)
        case None =>
          assert forall i :: 0 <= i < |tokens[1..]| ==> tokens[1..][i] == tokens[i + 1];
          None
        case Some(xs) => Some([x] + xs)
  }

  /** The numbers of the location reply: the maximal runs of digits and
      dots inside the bracketed span. */
  function LocationTokens(b: string): (r: seq<string>)
    ensures forall t :: t in r ==> t != [] && forall k :: 0 <= k < |t| ==> IsDigitOrDot(t[k])
  {
    Runs(b, IsDigitOrDot)
  }

  /** The location part of `process_input`. Every token is converted with
      `float()` before the count is checked, so a token such as `.` or
      `1.2.3` raises; a count other than two, or no bracketed span, gives
      `None`. The tokens never hold a minus sign, so a coordinate read here
      is never negative. */
  function ParseLocation(reply: string): (r: Result<Option<(real, real)>, Raised>)
    ensures r.Err? ==> r.error == ValueError
    ensures r.Ok? && r.value.Some? ==> r.value.value.0 >= 0.0 && r.value.value.1 >= 0.0
  {
    match Bracketed(reply)
    case None => Ok(None)
    case Some(b) =>
      match ParseEach(LocationTokens(b), UnsignedDecimal)
      case None => Err(ValueError)
      case Some(xs) => if |xs| != 2 then Ok(None) else Ok(Some((xs[0], xs[1])))
  }

  /** When the location reply fails, when it gives `None` and when a pair. */
  lemma ParseLocationOutcome(reply: string)
    ensures ParseLocation(reply).Err? <==>
      Bracketed(reply).Some? && exists t :: t in LocationTokens(Bracketed(reply).value) && !IsDecimalNumeral(t)
    ensures ParseLocation(reply) == Ok(None) <==> (Bracketed(reply).None? ||
      ((forall t :: t in LocationTokens(Bracketed(reply).value) ==> IsDecimalNumeral(t)) && |LocationTokens(Bracketed(reply).value)| != 2))
    ensures ParseLocation(reply).Ok? && ParseLocation(reply).value.Some? ==>
      var ts := LocationTokens(Bracketed(reply).value);
      |ts| == 2 && ParseLocation(reply).value.value == (UnsignedDecimal(ts[0]).value, UnsignedDecimal(ts[1]).value)
  {
    match Bracketed(reply)
    case None =>
    case Some(b) =>
      var tokens := LocationTokens(b);
      forall t | t in tokens ensures UnsignedDecimal(t).Some? <==> IsDecimalNumeral(t) {
        UnsignedDecimalAccepts(t);
      }
      match ParseEach(tokens, UnsignedDecimal)
      case None =>
        var i :| 0 <= i < |tokens| && UnsignedDecimal(tokens[i]).None?;
        assert tokens[i] in tokens;
      case Some(xs) =>
        assert forall t :: t in tokens ==> IsDecimalNumeral(t);
  }

  /** A bracketed span with no line break, framed by prose that opens no
      bracket before it and closes none after it, is the span found. */
  lemma BracketedFramed(pre: string, body: string, post: string)
    requires |body| >= 2 && body[0] == '[' && body[|body| - 1] == ']' && NoLineBreak(body)
    requires Lacks(pre, '[') && Lacks(post, ']')
    ensures Bracketed(pre + body + post) == Some(body)
  {
    StripLineBreaksFramed(pre, body, post);
    StripLineBreaksLacks(pre, '[');
    StripLineBreaksLacks(post, ']');
    BracketTextFramed(StripLineBreaks(pre), body, StripLineBreaks(post));
  }

  lemma RunsOfFormatted(k: int)
    ensures LocationTokens(FormatFourPlaces(k)) == [UnsignedFourPlaces(Abs(k))]
  {
    if k < 0 {
      RunsSkip('-', UnsignedFourPlaces(Abs(k)), IsDigitOrDot);
      RunsWhole(UnsignedFourPlaces(Abs(k)), IsDigitOrDot);
    } else {
      RunsWhole(UnsignedFourPlaces(Abs(k)), IsDigitOrDot);
    }
  }

  /** The runs of `[a, b]` for a class without brackets, comma or space. */
  lemma RunsOfPair(a: string, b: string, p: char -> bool)
    requires !p('[') && !p(',') && !p(' ') && !p(']')
    ensures Runs("[" + a + ", " + b + "]", p) == Runs(a, p) + Runs(b, p)
  {
    var tail := b + [']'] + [];
    var mid := [' '] + tail;
    var x := a + [','] + mid;
    assert "[" + a + ", " + b + "]" == ['['] + x;
    calc {
      Runs(['['] + x, p);
      { RunsSkip('[', x, p); }
      Runs(x, p);
      { RunsConcat(a, ',', mid, p); }
      Runs(a, p) + Runs(mid, p);
      { RunsSkip(' ', tail, p); }
      Runs(a, p) + Runs(tail, p);
      { RunsConcat(b, ']', [], p); }
      Runs(a, p) + (Runs(b, p) + Runs([], p));
    }
  }

  lemma NoLineBreakPair(a: string, b: string)
    requires NoLineBreak(a) && NoLineBreak(b)
    ensures NoLineBreak("[" + a + ", " + b + "]")
  {
    var s := "[" + a + ", " + b + "]";
    forall i | 0 <= i < |s| ensures !IsLineBreak(s[i]) {
      if 1 <= i < 1 + |a| {
        assert s[i] == a[i - 1];
      } else if 3 + |a| <= i < |s| - 1 {
        assert s[i] == b[i - 3 - |a|];
      }
    }
  }

  lemma ParseLocationOfPair(reply: string, b: string, u1: string, u2: string, x1: real, x2: real)
    requires Bracketed(reply) == Some(b) && LocationTokens(b) == [u1, u2]
    requires UnsignedDecimal(u1) == Some(x1) && UnsignedDecimal(u2) == Some(x2)
    ensures ParseLocation(reply) == Ok(Some((x1, x2)))
  {
    var xs := ParseEach([u1, u2], UnsignedDecimal);
    assert xs.Some?;
    assert xs.value == [x1, x2];
  }

  lemma BracketedPair(pre: string, f1: string, f2: string, post: string)
    requires Lacks(pre, '[') && Lacks(post, ']') && NoLineBreak(f1) && NoLineBreak(f2)
    ensures Bracketed(pre + "[" + f1 + ", " + f2 + "]" + post) == Some("[" + f1 + ", " + f2 + "]")
  {
    var body := "[" + f1 + ", " + f2 + "]";
    assert pre + "[" + f1 + ", " + f2 + "]" + post == pre + body + post;
    NoLineBreakPair(f1, f2);
    BracketedFramed(pre, body, post);
  }

  lemma LocationTokensPair(f1: string, f2: string, u1: string, u2: string)
    requires LocationTokens(f1) == [u1] && LocationTokens(f2) == [u2]
    ensures LocationTokens("[" + f1 + ", " + f2 + "]") == [u1, u2]
  {
    RunsOfPair(f1, f2, IsDigitOrDot);
    assert [u1] + [u2] == [u1, u2];
  }

  lemma ParseLocationFramedPair(pre: string, f1: string, f2: string, post: string, u1: string, u2: string, x1: real, x2: real)
    requires Lacks(pre, '[') && Lacks(post, ']') && NoLineBreak(f1) && NoLineBreak(f2)
    requires LocationTokens(f1) == [u1] && UnsignedDecimal(u1) == Some(x1)
    requires LocationTokens(f2) == [u2] && UnsignedDecimal(u2) == Some(x2)
    ensures ParseLocation(pre + "[" + f1 + ", " + f2 + "]" + post) == Ok(Some((x1, x2)))
  {
    BracketedPair(pre, f1, f2, post);
    LocationTokensPair(f1, f2, u1, u2);
    ParseLocationOfPair(pre + "[" + f1 + ", " + f2 + "]" + post, "[" + f1 + ", " + f2 + "]", u1, u2, x1, x2);
  }

  lemma ParseLocationRoundTrip(pre: string, k1: int, k2: int, post: string)
    requires Lacks(pre, '[') && Lacks(post, ']')
    ensures ParseLocation(pre + "[" + FormatFourPlaces(k1) + ", " + FormatFourPlaces(k2) + "]" + post)
      == Ok(Some((Magnitude(k1), Magnitude(k2))))
  {
    var u1, x1 := FormattedToken(k1);
    var u2, x2 := FormattedToken(k2);
    ParseLocationFramedPair(pre, FormatFourPlaces(k1), FormatFourPlaces(k2), post, u1, u2, x1, x2);
  }

  /** The value of `abs(k / 10000)`. */
  function Magnitude(k: int): (x: real)
    ensures x >= 0.0
  {
    Abs(k) as real / 10000.0
  }

  /** The one token of a formatted coordinate, and the value `float()`
      gives it: the magnitude. */
  lemma FormattedToken(k: int) returns (u: string, x: real)
    ensures NoLineBreak(FormatFourPlaces(k))
    ensures LocationTokens(FormatFourPlaces(k)) == [u] && UnsignedDecimal(u) == Some(x)
    ensures x == Magnitude(k)
  {
    var a := Abs(k);
    u, x := UnsignedFourPlaces(a), a as real / 10000.0;
    FormatFourPlacesChars(k);
    RunsOfFormatted(k);
    UnsignedFourPlacesValue(a);
  }

  /** The maximal digit runs of the date reply's bracketed span. */
  function DateTokens(b: string): (r: seq<string>)
    ensures forall t :: t in r ==> t != [] && AllDigits(t)
  {
    Runs(b, IsDigit)
  }

  /** The date part of `process_input`: exactly three digit runs in the
      bracketed span give `(year, month, day)`; any other count, or no
      bracketed span, gives `None`. */
  function ParseDate(reply: string): (r: Option<(nat, nat, nat)>)
    ensures r.Some? <==> Bracketed(reply).Some? && |DateTokens(Bracketed(reply).value)| == 3
    ensures r.Some? ==> var ds := DateTokens(Bracketed(reply).value);
      r.value == (DigitsValue(ds[0]), DigitsValue(ds[1]), DigitsValue(ds[2]))
  {
    match Bracketed(reply)
    case None => None
    case Some(b) =>
      var ds := DateTokens(b);
      if |ds| != 3 then None
      else
        assert ds[0] in ds && ds[1] in ds && ds[2] in ds;
        Some((DigitsValue(ds[0]), DigitsValue(ds[1]), DigitsValue(ds[2])))
  }

  /** A non-empty string of decimal digits. */
  predicate IsDigitString(s: string) { s != [] && AllDigits(s) }

  /** `[Y:M:D]`, the date form the prompt asks for. */
  function DateList(y: string, m: string, d: string): string {
    "[" + y + ":" + m + ":" + d + "]"
  }

  lemma DateTokensOfList(y: string, m: string, d: string)
    requires IsDigitString(y) && IsDigitString(m) && IsDigitString(d)
    ensures DateTokens(DateList(y, m, d)) == [y, m, d]
  {
    var tail := d + [']'] + [];
    var x := y + [':'] + (m + [':'] + tail);
    assert DateList(y, m, d) == ['['] + x;
    calc {
      Runs(['['] + x, IsDigit);
      { RunsSkip('[', x, IsDigit); }
      Runs(x, IsDigit);
      { RunsLead(y, ':', m + [':'] + tail, IsDigit); }
      [y] + Runs(m + [':'] + tail, IsDigit);
      { RunsLead(m, ':', tail, IsDigit); }
      [y] + ([m] + Runs(tail, IsDigit));
      { RunsLead(d, ']', [], IsDigit); }
      [y] + ([m] + ([d] + Runs([], IsDigit)));
    }
  }

  lemma DateListClean(y: string, m: string, d: string)
    requires IsDigitString(y) && IsDigitString(m) && IsDigitString(d)
    ensures NoLineBreak(DateList(y, m, d))
  {
    var s := DateList(y, m, d);
    forall i | 0 <= i < |s| ensures !IsLineBreak(s[i]) {
      if 1 <= i < 1 + |y| {
        assert s[i] == y[i - 1];
      } else if 2 + |y| <= i < 2 + |y| + |m| {
        assert s[i] == m[i - 2 - |y|];
      } else if 3 + |y| + |m| <= i < |s| - 1 {
        assert s[i] == d[i - 3 - |y| - |m|];
      }
    }
  }

  /** A date written as the prompt asks, `[YYYY:MM:DD]` (zero padding
      allowed), is read back as its three numbers, whatever prose
      surrounds it. */
  lemma ParseDateRoundTrip(pre: string, y: string, m: string, d: string, post: string)
    requires IsDigitString(y) && IsDigitString(m) && IsDigitString(d)
    requires Lacks(pre, '[') && Lacks(post, ']')
    ensures ParseDate(pre + DateList(y, m, d) + post) == Some((DigitsValue(y), DigitsValue(m), DigitsValue(d)))
  {
    var body := DateList(y, m, d);
    DateListClean(y, m, d);
    BracketedFramed(pre, body, post);
    DateTokensOfList(y, m, d);
  }

  /** What `process_input` returns: the tags, and the location and date
      when metadata is in use. */
  datatype Query = Query(tags: Option<seq<string>>, location: Option<(real, real)>, date: Option<(nat, nat, nat)>)

  /** `process_input` with the three replies of the language model as
      inputs. Without metadata the result is `(tags, None, None)`; with it,
      the only failure is a location token `float()` cannot read. */
  function ProcessInput(tagReply: string, locationReply: string, dateReply: string, useMetadata: bool): (r: Result<Query, Raised>)
    ensures !useMetadata ==> r == Ok(Query(ParseTags(tagReply), None, None))
    ensures r.Err? <==> useMetadata && ParseLocation(locationReply).Err?
    ensures r.Ok? && useMetadata ==> r.value == Query(ParseTags(tagReply), ParseLocation(locationReply).value, ParseDate(dateReply))
  {
    var tags := ParseTags(tagReply);
    if useMetadata then
      var location :- ParseLocation(locationReply);
      Ok(Query(tags, location, ParseDate(dateReply)))
    else
      Ok(Query(tags, None, None))
  }

  /*** Scoring ***/

  /** `5 ** n` */
  function Pow5(n: nat): (r: nat)
    ensures r >= 1 && (n > 0 ==> r >= MetadataStrictness)
  {
    if n == 0 then 1 else MetadataStrictness * Pow5(n - 1)
  }

  lemma {:induction false} Pow5Increasing(a: nat, b: nat)
    requires a < b
    ensures Pow5(a) < Pow5(b)
    decreases b
  {
    if a + 1 < b {
      Pow5Increasing(a, b - 1);
    }
  }

  /** `factor * 5 ** -abs(photo - request)` for whole-number values: the
      year, month and day axes. */
  function DateAxisScore(factor: real, photo: int, request: int): real {
    factor / Pow5(Abs(photo - request)) as real
  }

  lemma DivideByLarger(f: real, p: real, q: real)
    requires f > 0.0 && 1.0 <= p < q
    ensures 0.0 < f / q < f / p
  {
    assert f / q * q == f;
    assert f / p * p == f;
  }

  /** An exact match scores the full factor; any other value scores
      something positive and at most a fifth of it. */
  lemma DateAxisScoreRange(factor: real, photo: int, request: int)
    requires factor > 0.0
    ensures photo == request ==> DateAxisScore(factor, photo, request) == factor
    ensures photo != request ==> 0.0 < DateAxisScore(factor, photo, request) <= factor / 5.0
  {
    var n := Abs(photo - request);
    if n > 0 {
      if Pow5(n) > 5 {
        DivideByLarger(factor, 5.0, Pow5(n) as real);
      }
    }
  }

  /** The farther the value, the lower the score. */
  lemma DateAxisScoreDecreasing(factor: real, request: int, near: int, far: int)
    requires factor > 0.0 && Abs(near - request) < Abs(far - request)
    ensures 0.0 < DateAxisScore(factor, far, request) < DateAxisScore(factor, near, request)
  {
    Pow5Increasing(Abs(near - request), Abs(far - request));
    DivideByLarger(factor, Pow5(Abs(near - request)) as real, Pow5(Abs(far - request)) as real);
  }

  /** The properties of `x => 5 ** -x` on the non-negative reals that the
      location score relies on: 1 at 0, within (0, 1], strictly
      decreasing. */
  ghost predicate IsDecay(decay: real -> real) {
    && decay(0.0) == 1.0
    && (forall x :: x >= 0.0 ==> 0.0 < decay(x) <= 1.0)
    && (forall x, y :: 0.0 <= x < y ==> decay(y) < decay(x))
  }

  /** Such functions exist; `x => 1 / (1 + x)` is one. */
  lemma DecayExists()
    ensures IsDecay(x => if x >= 0.0 then 1.0 / (1.0 + x) else 1.0)
  {
    var f := x => if x >= 0.0 then 1.0 / (1.0 + x) else 1.0;
    forall x, y | 0.0 <= x < y ensures f(y) < f(x) {
      DivideByLarger(1.0, 1.0 + x, 1.0 + y);
    }
    forall x | x >= 0.0 ensures 0.0 < f(x) <= 1.0 {
      if x > 0.0 {
        DivideByLarger(1.0, 1.0, 1.0 + x);
      }
    }
  }

  function AbsReal(x: real): real { if x < 0.0 then -x else x }

  /** `LOCATION_FACTOR * 5 ** -abs(photo - request)` with the power written
      as `decay`: the latitude and longitude axes. */
  function LocationAxisScore(decay: real -> real, photo: real, request: real): real {
    LocationFactor * decay(AbsReal(photo - request))
  }

  lemma LocationAxisScoreRange(decay: real -> real, photo: real, request: real)
    requires IsDecay(decay)
    ensures photo == request ==> LocationAxisScore(decay, photo, request) == LocationFactor
    ensures photo != request ==> 0.0 < LocationAxisScore(decay, photo, request) < LocationFactor
  {
    if photo != request {
      assert decay(AbsReal(photo - request)) < decay(0.0);
    }
  }

  lemma LocationAxisScoreDecreasing(decay: real -> real, request: real, near: real, far: real)
    requires IsDecay(decay) && AbsReal(near - request) < AbsReal(far - request)
    ensures 0.0 < LocationAxisScore(decay, far, request) < LocationAxisScore(decay, near, request)
  {
    assert decay(AbsReal(far - request)) < decay(AbsReal(near - request));
  }

  /** `sum([tag in request_tags for tag in photo_tags])`: how many entries of
      the photo's tag list occur in the request. */
  function MatchCount(photoTags: seq<string>, requestTags: seq<string>): (n: nat)
    ensures n <= |photoTags|
  {
    if photoTags == [] then 0
    else (if photoTags[0] in requestTags then 1 else 0) + MatchCount(photoTags[1..], requestTags)
  }

  /** No tag in common, no count; and conversely. */
  lemma {:induction false} MatchCountZero(photoTags: seq<string>, requestTags: seq<string>)
    ensures MatchCount(photoTags, requestTags) == 0 <==> forall t :: t in photoTags ==> t !in requestTags
  {
    if photoTags != [] {
      MatchCountZero(photoTags[1..], requestTags);
      assert photoTags == [photoTags[0]] + photoTags[1..];
    }
  }

  /** Every photo tag requested, full count; and conversely. */
  lemma {:induction false} MatchCountFull(photoTags: seq<string>, requestTags: seq<string>)
    ensures MatchCount(photoTags, requestTags) == |photoTags| <==> forall t :: t in photoTags ==> t in requestTags
  {
    if photoTags != [] {
      MatchCountFull(photoTags[1..], requestTags);
      assert photoTags == [photoTags[0]] + photoTags[1..];
    }
  }

  /** Only which tags are requested matters, not their order or repeats. */
  lemma {:induction false} MatchCountSameTags(photoTags: seq<string>, r1: seq<string>, r2: seq<string>)
    requires forall t :: t in r1 <==> t in r2
    ensures MatchCount(photoTags, r1) == MatchCount(photoTags, r2)
  {
    if photoTags != [] {
      MatchCountSameTags(photoTags[1..], r1, r2);
    }
  }

  /** For a photo whose tags are distinct, the count is the number of tags
      the photo and the request share. */
  lemma {:induction false} MatchCountShared(photoTags: seq<string>, requestTags: seq<string>)
    requires forall i, j :: 0 <= i < j < |photoTags| ==> photoTags[i] != photoTags[j]
    ensures MatchCount(photoTags, requestTags) == |set t | t in photoTags && t in requestTags|
  {
    if photoTags != [] {
      var h, rest := photoTags[0], photoTags[1..];
      MatchCountShared(rest, requestTags);
      var all := set t | t in photoTags && t in requestTags;
      var tail := set t | t in rest && t in requestTags;
      assert h !in rest;
      if h in requestTags {
        assert all == {h} + tail;
      } else {
        assert all == tail;
      }
    }
  }

  /** A stored photo as `search` reads it: filepath, location string,
      timestamp string and tag list. */
  datatype Photo = Photo(path: string, location: Option<string>, timestamp: Option<string>, tags: seq<string>)

  /** Python truthiness of an optional string: present and non-empty. */
  predicate Truthy(s: Option<string>) { s.Some? && s.value != [] }

  /** `[float(n) for n in re.split(r',', location)]` unpacked into two
      values: a `ValueError` unless there are exactly two pieces, each a
      number. */
  function PhotoLocation(location: string): (r: Result<(real, real), Raised>)
    ensures r.Err? ==> r.error == ValueError
    ensures r.Ok? <==> |Split(location, ',')| == 2 && ParseFloat(Split(location, ',')[0]).Some? && ParseFloat(Split(location, ',')[1]).Some?
    ensures r.Ok? ==> r.value == (ParseFloat(Split(location, ',')[0]).value, ParseFloat(Split(location, ',')[1]).value)
  {
    var pieces := Split(location, ',');
    match ParseEach(pieces, ParseFloat)
    case None => Err(ValueError)
    case Some(xs) => if |xs| != 2 then Err(ValueError) else Ok((xs[0], xs[1]))
  }

  /** What the metadata reader stores, `lat,lon` with each coordinate
      rounded to four places, is read back exactly. */
  lemma PhotoLocationRoundTrip(k1: int, k2: int)
    ensures PhotoLocation(FormatFourPlaces(k1) + "," + FormatFourPlaces(k2)) == Ok((k1 as real / 10000.0, k2 as real / 10000.0))
  {
    var f1, f2 := FormatFourPlaces(k1), FormatFourPlaces(k2);
    FormatFourPlacesChars(k1);
    FormatFourPlacesChars(k2);
    assert Lacks(f1, ',') && Lacks(f2, ',');
    SplitTwo(f1, ',', f2);
    FormatFourPlacesRoundTrip(k1);
    FormatFourPlacesRoundTrip(k2);
  }

  /** `re.search(r'[^ ]+', timestamp)[0]` split into its digit runs and
      unpacked as year, month, day: a `TypeError` when the string is only
      spaces, a `ValueError` unless there are exactly three runs. */
  function PhotoDate(timestamp: string): (r: Result<(nat, nat, nat), Raised>)
    ensures r.Err? <==> Runs(timestamp, IsNotSpace) == [] || |DateTokens(Runs(timestamp, IsNotSpace)[0])| != 3
    ensures r.Err? ==> r.error == (if Runs(timestamp, IsNotSpace) == [] then TypeError else ValueError)
  {
    var words := Runs(timestamp, IsNotSpace);
    if words == [] then Err(TypeError)
    else
      var ds := DateTokens(words[0]);
      if |ds| != 3 then Err(ValueError)
      else
        assert ds[0] in ds && ds[1] in ds && ds[2] in ds;
        Ok((DigitsValue(ds[0]), DigitsValue(ds[1]), DigitsValue(ds[2])))
  }

  /** The location part of a photo's score: the two axis scores when both
      the photo and the request have a location, else nothing. */
  function LocationScore(photo: Photo, query: Query, decay: real -> real): (r: Result<real, Raised>)
    ensures !(Truthy(photo.location) && query.location.Some?) ==> r == Ok(0.0)
    ensures r.Err? <==> Truthy(photo.location) && query.location.Some? && PhotoLocation(photo.location.value).Err?
  {
    if Truthy(photo.location) && query.location.Some? then
      var ll :- PhotoLocation(photo.location.value);
      var (lat, lon) := query.location.value;
      Ok(LocationAxisScore(decay, ll.0, lat) + LocationAxisScore(decay, ll.1, lon))
    else Ok(0.0)
  }

  /** The date part: the three axis scores when both the photo and the
      request have a date, else nothing. */
  function DateScore(photo: Photo, query: Query): (r: Result<real, Raised>)
    ensures !(Truthy(photo.timestamp) && query.date.Some?) ==> r == Ok(0.0)
    ensures r.Err? <==> Truthy(photo.timestamp) && query.date.Some? && PhotoDate(photo.timestamp.value).Err?
  {
    if Truthy(photo.timestamp) && query.date.Some? then
      var ymd :- PhotoDate(photo.timestamp.value);
      var (y, m, d) := query.date.value;
      Ok(DateAxisScore(YearFactor, ymd.0, y) + DateAxisScore(MonthFactor, ymd.1, m) + DateAxisScore(DayFactor, ymd.2, d))
    else Ok(0.0)
  }

  /** The tag part: `MATCH_FACTOR` per photo tag found in the request. With
      the request's tags `None`, `tag in None` raises for the first tag. */
  function TagScore(photoTags: seq<string>, requestTags: Option<seq<string>>): (r: Result<real, Raised>)
    ensures r.Err? <==> requestTags.None? && photoTags != []
    ensures r.Err? ==> r.error == TypeError
    ensures r.Ok? && requestTags.Some? ==> r.value == MatchFactor * MatchCount(photoTags, requestTags.value) as real
    ensures r.Ok? && requestTags.None? ==> r.value == 0.0
  {
    match requestTags
    case None => if photoTags == [] then Ok(0.0) else Err(TypeError)
    case Some(ts) => Ok(MatchFactor * MatchCount(photoTags, ts) as real)
  }

  /** `total_score` of one photo: location, then date, then tags, the first
      exception ending the search. */
  function PhotoScore(photo: Photo, query: Query, decay: real -> real): (r: Result<real, Raised>)
    ensures r.Err? <==> LocationScore(photo, query, decay).Err? || DateScore(photo, query).Err? || TagScore(photo.tags, query.tags).Err?
    ensures r.Ok? ==> r.value == LocationScore(photo, query, decay).value + DateScore(photo, query).value + TagScore(photo.tags, query.tags).value
  {
    var l :- LocationScore(photo, query, decay);
    var d :- DateScore(photo, query);
    var t :- TagScore(photo.tags, query.tags);
    Ok(l + d + t)
  }

  lemma AxisScoresBounded(decay: real -> real, photo: Photo, query: Query)
    requires IsDecay(decay)
    ensures LocationScore(photo, query, decay).Ok? ==> 0.0 <= LocationScore(photo, query, decay).value <= 2.0 * LocationFactor
    ensures DateScore(photo, query).Ok? ==> 0.0 <= DateScore(photo, query).value <= YearFactor + MonthFactor + DayFactor
  {
    if Truthy(photo.location) && query.location.Some? && PhotoLocation(photo.location.value).Ok? {
      var ll := PhotoLocation(photo.location.value).value;
      LocationAxisScoreRange(decay, ll.0, query.location.value.0);
      LocationAxisScoreRange(decay, ll.1, query.location.value.1);
    }
    if Truthy(photo.timestamp) && query.date.Some? && PhotoDate(photo.timestamp.value).Ok? {
      var ymd := PhotoDate(photo.timestamp.value).value;
      DateAxisScoreRange(YearFactor, ymd.0, query.date.value.0);
      DateAxisScoreRange(MonthFactor, ymd.1, query.date.value.1);
      DateAxisScoreRange(DayFactor, ymd.2, query.date.value.2);
    }
  }

  /** A photo's score is never negative and never more than the two
      location factors, the three date factors and `MATCH_FACTOR` per tag. */
  lemma PhotoScoreBounds(photo: Photo, query: Query, decay: real -> real)
    requires IsDecay(decay) && PhotoScore(photo, query, decay).Ok?
    ensures 0.0 <= PhotoScore(photo, query, decay).value
    ensures PhotoScore(photo, query, decay).value <= 2.0 * LocationFactor + YearFactor + MonthFactor + DayFactor + MatchFactor * |photo.tags| as real
  {
    AxisScoresBounded(decay, photo, query);
  }

  /** A photo at exactly the requested place and date, all of whose tags
      were requested, reaches that maximum. */
  lemma LocationScoreExact(photo: Photo, query: Query, decay: real -> real)
    requires IsDecay(decay) && Truthy(photo.location) && query.location.Some?
    requires PhotoLocation(photo.location.value) == Ok(query.location.value)
    ensures LocationScore(photo, query, decay) == Ok(2.0 * LocationFactor)
  {
    LocationAxisScoreRange(decay, query.location.value.0, query.location.value.0);
    LocationAxisScoreRange(decay, query.location.value.1, query.location.value.1);
  }

  lemma DateScoreExact(photo: Photo, query: Query)
    requires Truthy(photo.timestamp) && query.date.Some?
    requires PhotoDate(photo.timestamp.value) == Ok(query.date.value)
    ensures DateScore(photo, query) == Ok(YearFactor + MonthFactor + DayFactor)
  {
    var (y, m, d) := query.date.value;
    DateAxisScoreRange(YearFactor, y, y);
    DateAxisScoreRange(MonthFactor, m, m);
    DateAxisScoreRange(DayFactor, d, d);
  }

  /** A photo at exactly the requested place and date, all of whose tags
      were requested, reaches that maximum. */
  lemma PhotoScorePerfect(photo: Photo, query: Query, decay: real -> real)
    requires IsDecay(decay) && Truthy(photo.location) && Truthy(photo.timestamp)
    requires query.location.Some? && PhotoLocation(photo.location.value) == Ok(query.location.value)
    requires query.date.Some? && PhotoDate(photo.timestamp.value) == Ok(query.date.value)
    requires query.tags.Some? && forall t :: t in photo.tags ==> t in query.tags.value
    ensures PhotoScore(photo, query, decay).Ok?
    ensures PhotoScore(photo, query, decay).value == 2.0 * LocationFactor + YearFactor + MonthFactor + DayFactor + MatchFactor * |photo.tags| as real
  {
    LocationScoreExact(photo, query, decay);
    DateScoreExact(photo, query);
    MatchCountFull(photo.tags, query.tags.value);
    assert MatchCount(photo.tags, query.tags.value) == |photo.tags|;
    PhotoScoreOfParts(photo, query, decay, 2.0 * LocationFactor, YearFactor + MonthFactor + DayFactor, TagScore(photo.tags, query.tags).value);
  }

  lemma PhotoScoreOfParts(photo: Photo, query: Query, decay: real -> real, l: real, d: real, t: real)
    requires LocationScore(photo, query, decay) == Ok(l) && DateScore(photo, query) == Ok(d)
    requires TagScore(photo.tags, query.tags) == Ok(t)
    ensures PhotoScore(photo, query, decay) == Ok(l + d + t)
  {
  }

  /** Without metadata the score is `MATCH_FACTOR` times the tag count. */
  lemma PhotoScoreTagsOnly(photo: Photo, tags: seq<string>, decay: real -> real)
    ensures PhotoScore(photo, Query(Some(tags), None, None), decay) == Ok(MatchFactor * MatchCount(photo.tags, tags) as real)
  {
  }

  /** `photo_scores` after the loop: one `(score, filepath)` pair per photo,
      in order, or the exception of the first photo whose score raises. */
  function ScoreAll(photos: seq<Photo>, query: Query, decay: real -> real): (r: Result<seq<Candidate>, Raised>)
    ensures r.Ok? <==> forall i :: 0 <= i < |photos| ==> PhotoScore(photos[i], query, decay).Ok?
    ensures r.Ok? ==> |r.value| == |photos| && forall i :: 0 <= i < |photos| ==>
      r.value[i] == Candidate(PhotoScore(photos[i], query, decay).value, photos[i].path)
  {
    var scores := seq(|photos|, i requires 0 <= i < |photos| => PhotoScore(photos[i], query, decay));
    assert forall i :: 0 <= i < |photos| ==> scores[i] == PhotoScore(photos[i], query, decay);
    var k := FirstFailure(scores);
    if k < |photos| then Err(scores[k].error)
    else Ok(seq(|photos|, i requires 0 <= i < |photos| => Candidate(scores[i].value, photos[i].path)))
  }

  /** The position of the first result that is an exception, or the
      number of results when none is. */
  function FirstFailure<T>(results: seq<Result<T, Raised>>): (k: nat)
    ensures k <= |results|
    ensures forall j :: 0 <= j < k ==> results[j].Ok?
    ensures k < |results| ==> results[k].Err?
    decreases |results|
  {
    if results == [] || results[0].Err? then 0
    else 1 + FirstFailure(results[1..])
  }

  /** The exception `search` raises is that of the first photo whose score
      raises. */
  lemma ScoreAllFirstError(photos: seq<Photo>, query: Query, decay: real -> real, i: nat)
    requires i < |photos| && PhotoScore(photos[i], query, decay).Err?
    requires forall j :: 0 <= j < i ==> PhotoScore(photos[j], query, decay).Ok?
    ensures ScoreAll(photos, query, decay) == Err(PhotoScore(photos[i], query, decay).error)
  {
    var scores := seq(|photos|, j requires 0 <= j < |photos| => PhotoScore(photos[j], query, decay));
    var k := FirstFailure(scores);
    assert scores[i].Err?;
    assert k == i;
  }

  /** One `(score, filepath)` pair per photo, each photo scoring without
      an exception, is what the loop produces. */
  lemma ScoreAllOfScores(photos: seq<Photo>, query: Query, decay: real -> real, cs: seq<Candidate>)
    requires |cs| == |photos|
    requires forall j :: 0 <= j < |photos| ==> (PhotoScore(photos[j], query, decay).Ok? &&
      cs[j] == Candidate(PhotoScore(photos[j], query, decay).value, photos[j].path))
    ensures ScoreAll(photos, query, decay) == Ok(cs)
  {
    var all := ScoreAll(photos, query, decay);
    assert all.Ok?;
    assert forall j :: 0 <= j < |cs| ==> all.value[j] == cs[j];
    assert all.value == cs;
  }

  /** What `search` returns: the filepaths of the best photos, or the
      exception the scoring loop raised. */
  function SearchResult(photos: seq<Photo>, query: Query, maxPhotos: int, decay: real -> real): Result<seq<string>, Raised> {
    match ScoreAll(photos, query, decay)
    case Err(e) => Err(e)
    case Ok(cs) => Ok(Paths(Top(cs, maxPhotos)))
  }

  /** `search(photos, request_output, max_photos)`: score every photo in a
      loop, keep the positive scores, sort them by score (stable, highest
      first), keep the first `max_photos`, and return their filepaths. The
      power `5 ** -x` on real distances is the parameter `decay`. */
  method Search(photos: seq<Photo>, query: Query, maxPhotos: int, decay: real -> real) returns (r: Result<seq<string>, Raised>)
    ensures r == SearchResult(photos, query, maxPhotos, decay)
  {
    var photoScores: seq<Candidate> := [];
    var i := 0;
    while i < |photos|
      invariant 0 <= i <= |photos| && |photoScores| == i
      invariant forall j :: 0 <= j < i ==> (PhotoScore(photos[j], query, decay).Ok? &&
        photoScores[j] == Candidate(PhotoScore(photos[j], query, decay).value, photos[j].path))
    {
      var photo := photos[i];
      var totalScore := PhotoScore(photo, query, decay);
      if totalScore.Err? {
        ScoreAllFirstError(photos, query, decay, i);
        return Err(totalScore.error);
      }
      photoScores := photoScores + [Candidate(totalScore.value, photo.path)];
      i := i + 1;
    }
    ScoreAllOfScores(photos, query, decay, photoScores);
    photoScores := Positive(photoScores);
    photoScores := SortByScore(photoScores);
    var bestPhotos := Slice(photoScores, maxPhotos);
    r := Ok(Paths(bestPhotos));
  }

  /** `search` raises exactly when scoring some photo raises. */
  lemma SearchRaises(photos: seq<Photo>, query: Query, maxPhotos: int, decay: real -> real)
    ensures SearchResult(photos, query, maxPhotos, decay).Err? <==> exists i :: 0 <= i < |photos| && PhotoScore(photos[i], query, decay).Err?
  {
  }

  /** A reply without a bracketed tag list makes `search` raise as soon as
      the photos include one that has tags. */
  lemma SearchWithoutTagsRaises(photos: seq<Photo>, query: Query, maxPhotos: int, decay: real -> real, k: nat)
    requires query.tags.None? && k < |photos| && photos[k].tags != []
    ensures SearchResult(photos, query, maxPhotos, decay).Err?
  {
    assert TagScore(photos[k].tags, query.tags).Err?;
    assert PhotoScore(photos[k], query, decay).Err?;
  }

  /** At most `max_photos` paths come back, each the path of a photo that
      scored above zero. */
  lemma SearchReturnsScoringPhotos(photos: seq<Photo>, query: Query, maxPhotos: int, decay: real -> real)
    requires SearchResult(photos, query, maxPhotos, decay).Ok?
    ensures maxPhotos >= 0 ==> |SearchResult(photos, query, maxPhotos, decay).value| <= maxPhotos
    ensures forall p :: p in SearchResult(photos, query, maxPhotos, decay).value ==>
      exists i :: 0 <= i < |photos| && photos[i].path == p && PhotoScore(photos[i], query, decay).Ok? && PhotoScore(photos[i], query, decay).value > 0.0
  {
    var cs := ScoreAll(photos, query, decay).value;
    forall p | p in Paths(Top(cs, maxPhotos))
      ensures exists i :: 0 <= i < |photos| && photos[i].path == p && PhotoScore(photos[i], query, decay).Ok? && PhotoScore(photos[i], query, decay).value > 0.0
    {
      ScoringPhotoOfPath(photos, query, maxPhotos, decay, p);
    }
  }

  lemma ScoringPhotoOfPath(photos: seq<Photo>, query: Query, maxPhotos: int, decay: real -> real, p: string)
    requires ScoreAll(photos, query, decay).Ok?
    requires p in Paths(Top(ScoreAll(photos, query, decay).value, maxPhotos))
    ensures exists i :: 0 <= i < |photos| && photos[i].path == p && PhotoScore(photos[i], query, decay).Ok? && PhotoScore(photos[i], query, decay).value > 0.0
  {
    var cs := ScoreAll(photos, query, decay).value;
    PathInTop(cs, maxPhotos, p);
    var i :| 0 <= i < |cs| && cs[i].path == p && cs[i].score > 0.0;
    assert cs[i] == Candidate(PhotoScore(photos[i], query, decay).value, photos[i].path);
  }

  lemma PathsOfMember(cs: seq<Candidate>, c: Candidate)
    requires c in cs
    ensures c.path in Paths(cs)
  {
    var j :| 0 <= j < |cs| && cs[j] == c;
    assert Paths(cs)[j] == c.path;
  }

  /** A photo that scored above zero is left out only when `max_photos`
      paths were already returned, all of photos that scored at least as
      much. */
  lemma SearchOmitsOnlyWhenFull(photos: seq<Photo>, query: Query, maxPhotos: int, decay: real -> real, k: nat)
    requires SearchResult(photos, query, maxPhotos, decay).Ok? && maxPhotos >= 0
    requires k < |photos| && PhotoScore(photos[k], query, decay).value > 0.0
    requires photos[k].path !in SearchResult(photos, query, maxPhotos, decay).value
    ensures |SearchResult(photos, query, maxPhotos, decay).value| == maxPhotos
    ensures forall c :: c in Top(ScoreAll(photos, query, decay).value, maxPhotos) ==> c.score >= PhotoScore(photos[k], query, decay).value
  {
    var cs := ScoreAll(photos, query, decay).value;
    var c := cs[k];
    var top := Top(cs, maxPhotos);
    assert c in cs && c.score > 0.0;
    if c in top {
      PathsOfMember(top, c);
    }
    TopKeepsBest(cs, maxPhotos, c);
    if |top| < maxPhotos {
      TopUnderFull(cs, maxPhotos);
    }
  }

  /** Nothing comes back exactly when no photo scores above zero, when
      `max_photos` is zero, or when a negative `max_photos` cuts off all the
      scoring photos. */
  lemma SearchEmpty(photos: seq<Photo>, query: Query, maxPhotos: int, decay: real -> real)
    requires SearchResult(photos, query, maxPhotos, decay).Ok?
    ensures SearchResult(photos, query, maxPhotos, decay).value == [] <==>
      (forall i :: 0 <= i < |photos| ==> PhotoScore(photos[i], query, decay).value <= 0.0) || maxPhotos == 0 ||
      maxPhotos + |Positive(ScoreAll(photos, query, decay).value)| <= 0
  {
    var cs := ScoreAll(photos, query, decay).value;
    TopEmpty(cs, maxPhotos);
    NoneScoring(photos, query, decay);
    assert Paths(Top(cs, maxPhotos)) == [] <==> Top(cs, maxPhotos) == [];
  }

  lemma NoneScoring(photos: seq<Photo>, query: Query, decay: real -> real)
    requires ScoreAll(photos, query, decay).Ok?
    ensures (forall c :: c in ScoreAll(photos, query, decay).value ==> c.score <= 0.0) <==>
      (forall i :: 0 <= i < |photos| ==> PhotoScore(photos[i], query, decay).value <= 0.0)
  {
    var cs := ScoreAll(photos, query, decay).value;
    if forall c :: c in cs ==> c.score <= 0.0 {
      forall i | 0 <= i < |photos| ensures PhotoScore(photos[i], query, decay).value <= 0.0 {
        assert cs[i] in cs;
      }
    }
  }

  /** The `months` list of `timestamp_to_readable`. */
  const MonthNames: seq<string> := ["January", "February", "March", "April", "May", "June", "July",
    "August", "September", "October", "November", "December"]

  /** Python's `s[i]` on a list: negative indices count from the end, and
      an index outside `-len(s) .. len(s) - 1` raises `IndexError`. */
  function PyIndex<T>(s: seq<T>, i: int): (r: Result<T, Raised>)
    ensures r.Ok? <==> -|s| <= i < |s|
    ensures r.Err? ==> r.error == IndexError
    ensures 0 <= i < |s| ==> r == Ok(s[i])
    ensures -|s| <= i < 0 ==> r == Ok(s[|s| + i])
  {
    if 0 <= i < |s| then Ok(s[i])
    else if -|s| <= i < 0 then Ok(s[|s| + i])
    else Err(IndexError)
  }

  /** `months[int(month) - 1]`: months 1 to 12 give their names, month 0
      wraps round to the last entry, and any larger month raises. */
  function MonthName(month: nat): (r: Result<string, Raised>)
    ensures r.Ok? <==> month <= 12
    ensures r.Err? ==> r.error == IndexError
    ensures 1 <= month <= 12 ==> r == Ok(MonthNames[month - 1])
    ensures month == 0 ==> r == Ok("December")
  {
    PyIndex(MonthNames, month - 1)
  }

  /** The 24-hour clock read as a 12-hour one: the hour shown and whether
      it is PM. Hours past 12 lose 12 and are PM, 12 is PM, 0 shows as 12
      AM. */
  function Clock12(hours: nat): (nat, bool) {
    if hours > 12 then (hours - 12, true)
    else if hours == 12 then (12, true)
    else if hours == 0 then (12, false)
    else (hours, false)
  }

  /** The reading of a 12-hour time back on the 24-hour clock. */
  function To24(hours: nat, pm: bool): nat {
    if pm then (if hours == 12 then 12 else hours + 12)
    else (if hours == 12 then 0 else hours)
  }

  /** Every hour of the day is shown as an hour from 1 to 12 with AM or PM
      that reads back as that hour. */
  lemma Clock12RoundTrip(hours: nat)
    requires hours < 24
    ensures 1 <= Clock12(hours).0 <= 12
    ensures To24(Clock12(hours).0, Clock12(hours).1) == hours
  {
  }

  /** And every hour from 1 to 12, AM or PM, is shown for exactly one hour
      of the day. */
  lemma To24RoundTrip(hours: nat, pm: bool)
    requires 1 <= hours <= 12
    ensures To24(hours, pm) < 24
    ensures Clock12(To24(hours, pm)) == (hours, pm)
  {
  }

  /** `timestamp_to_readable`: `year:month:day hours:minutes:seconds` as
      `Month day, year  hours:minutes AM`, day and year as written,
      hours on the 12-hour clock, minutes without leading zeros, seconds
      dropped. Unpacking the wrong number of runs raises `ValueError`, an
      out-of-range month `IndexError`. */
  function TimestampToReadable(timestamp: string): (r: Result<string, Raised>)
    ensures r.Err? ==> r.error in {ValueError, IndexError}
  {
    var parts := Runs(timestamp, IsNotSpace);
    if |parts| != 2 then Err(ValueError)
    else ReadableOfTokens(DateTokens(parts[0]), DateTokens(parts[1]))
  }

  /** The rest of `timestamp_to_readable` once the date and time parts are
      split into their digit runs. */
  function ReadableOfTokens(ymd: seq<string>, hms: seq<string>): (r: Result<string, Raised>)
    requires forall t :: t in ymd ==> AllDigits(t)
    requires forall t :: t in hms ==> AllDigits(t)
    ensures r.Err? ==> r.error in {ValueError, IndexError}
  {
    if |ymd| != 3 then Err(ValueError)
    else
      assert ymd[1] in ymd;
      match MonthName(DigitsValue(ymd[1]))
      case Err(e) => Err(e)
      case Ok(month) =>
        if |hms| != 3 then Err(ValueError)
        else
          assert hms[0] in hms && hms[1] in hms;
          Ok(Readable(month, ymd[2], ymd[0], DigitsValue(hms[0]), DigitsValue(hms[1])))
  }

  /** `f'{month} {day}, {year}  {hours}:{minutes} {AM or PM}'` with the
      hours turned to the 12-hour clock. */
  function Readable(month: string, day: string, year: string, hours: nat, minutes: nat): string {
    var (h, pm) := Clock12(hours);
    month + " " + day + ", " + year + "  " + NatToString(h) + ":" + NatToString(minutes) + " " + (if pm then "PM" else "AM")
  }

  /** The three digit runs of `a:b:c`. */
  lemma RunsOfColonTriple(a: string, b: string, c: string)
    requires IsDigitString(a) && IsDigitString(b) && IsDigitString(c)
    ensures DateTokens(a + ":" + b + ":" + c) == [a, b, c]
  {
    var tail := b + [':'] + c;
    assert a + ":" + b + ":" + c == a + [':'] + tail;
    calc {
      Runs(a + [':'] + tail, IsDigit);
      { RunsLead(a, ':', tail, IsDigit); }
      [a] + Runs(tail, IsDigit);
      { RunsLead(b, ':', c, IsDigit); RunsWhole(c, IsDigit); }
      [a] + ([b] + [c]);
    }
  }

  /** The date and time parts of `date time`. */
  lemma WordsOfPair(date: string, time: string)
    requires date != [] && time != []
    requires forall k :: 0 <= k < |date| ==> IsNotSpace(date[k])
    requires forall k :: 0 <= k < |time| ==> IsNotSpace(time[k])
    ensures Runs(date + " " + time, IsNotSpace) == [date, time]
  {
    RunsLead(date, ' ', time, IsNotSpace);
    RunsWhole(time, IsNotSpace);
  }

  lemma ColonTripleNoSpace(a: string, b: string, c: string)
    requires IsDigitString(a) && IsDigitString(b) && IsDigitString(c)
    ensures forall k :: 0 <= k < |a + ":" + b + ":" + c| ==> IsNotSpace((a + ":" + b + ":" + c)[k])
  {
    var s := a + ":" + b + ":" + c;
    forall k | 0 <= k < |s| ensures IsNotSpace(s[k]) {
      if k < |a| {
        assert s[k] == a[k];
      } else if |a| < k < |a| + 1 + |b| {
        assert s[k] == b[k - |a| - 1];
      } else if |a| + 1 + |b| < k {
        assert s[k] == c[k - |a| - |b| - 2];
      }
    }
  }

  /** An EXIF timestamp `Y:M:D h:m:s` of digit strings, with a month up to
      12, reads as the month's name, the day and year as written, the
      12-hour clock and the minutes' value. */
  lemma TimestampToReadableOfFields(y: string, mo: string, d: string, h: string, mi: string, sec: string)
    requires IsDigitString(y) && IsDigitString(mo) && IsDigitString(d)
    requires IsDigitString(h) && IsDigitString(mi) && IsDigitString(sec)
    requires 1 <= DigitsValue(mo) <= 12
    ensures TimestampToReadable((y + ":" + mo + ":" + d) + " " + (h + ":" + mi + ":" + sec)) ==
      Ok(Readable(MonthNames[DigitsValue(mo) - 1], d, y, DigitsValue(h), DigitsValue(mi)))
  {
    var date, time := y + ":" + mo + ":" + d, h + ":" + mi + ":" + sec;
    ColonTripleNoSpace(y, mo, d);
    ColonTripleNoSpace(h, mi, sec);
    WordsOfPair(date, time);
    RunsOfColonTriple(y, mo, d);
    RunsOfColonTriple(h, mi, sec);
    TimestampToReadableOfTokens(date + " " + time, date, time, y, mo, d, h, mi, sec);
  }

  lemma ReadableOfDigitTokens(y: string, mo: string, d: string, h: string, mi: string, sec: string)
    requires AllDigits(y) && AllDigits(mo) && AllDigits(d) && AllDigits(h) && AllDigits(mi) && AllDigits(sec)
    requires 1 <= DigitsValue(mo) <= 12
    ensures ReadableOfTokens([y, mo, d], [h, mi, sec]) == Ok(Readable(MonthNames[DigitsValue(mo) - 1], d, y, DigitsValue(h), DigitsValue(mi)))
  {
    var ymd, hms := [y, mo, d], [h, mi, sec];
    assert ymd[0] == y && ymd[1] == mo && ymd[2] == d;
    assert hms[0] == h && hms[1] == mi;
    var month := MonthNames[DigitsValue(mo) - 1];
    assert MonthName(DigitsValue(mo)) == Ok(month);
  }

  lemma TimestampToReadableOfTokens(timestamp: string, date: string, time: string,
                                    y: string, mo: string, d: string, h: string, mi: string, sec: string)
    requires Runs(timestamp, IsNotSpace) == [date, time]
    requires DateTokens(date) == [y, mo, d] && DateTokens(time) == [h, mi, sec]
    requires IsDigitString(mo) && IsDigitString(h) && IsDigitString(mi)
    requires 1 <= DigitsValue(mo) <= 12
    ensures TimestampToReadable(timestamp) ==
      Ok(Readable(MonthNames[DigitsValue(mo) - 1], d, y, DigitsValue(h), DigitsValue(mi)))
  {
    ReadableOfDigitTokens(y, mo, d, h, mi, sec);
  }

  /** A month past 12 raises `IndexError` once the date has its three runs. */
  lemma TimestampToReadableBadMonth(y: string, mo: string, d: string, time: string)
    requires IsDigitString(y) && IsDigitString(mo) && IsDigitString(d) && DigitsValue(mo) > 12
    requires time != [] && forall k :: 0 <= k < |time| ==> IsNotSpace(time[k])
    ensures TimestampToReadable((y + ":" + mo + ":" + d) + " " + time) == Err(IndexError)
  {
    var date := y + ":" + mo + ":" + d;
    ColonTripleNoSpace(y, mo, d);
    WordsOfPair(date, time);
    RunsOfColonTriple(y, mo, d);
    ReadableOfBadMonth(y, mo, d, DateTokens(time));
  }

  lemma ReadableOfBadMonth(y: string, mo: string, d: string, hms: seq<string>)
    requires AllDigits(y) && AllDigits(mo) && AllDigits(d) && DigitsValue(mo) > 12
    requires forall t :: t in hms ==> AllDigits(t)
    ensures ReadableOfTokens([y, mo, d], hms) == Err(IndexError)
  {
  }
}
