/** Query diagnostics: the slow-query logger with its literal-stripping
    sanitiser, and the query-duration histogram. Durations are whole
    nanoseconds; the `f64` seconds the histogram observes are exact
    rationals. */
module QueryDiagnostics {
  import opened Wrappers
  import opened Histograms

  /** The default slow-query threshold, 100 ms. */
  const DEFAULT_THRESHOLD: Duration := 100 * NANOS_PER_MILLI

  datatype SlowQueryLogger = SlowQueryLogger(threshold: Duration, enabled: bool)

  /** `SlowQueryLogger::default`. */
  const DEFAULT_LOGGER := SlowQueryLogger(DEFAULT_THRESHOLD, true)

  /** `SlowQueryLogger::new`: enabled, with the given threshold. */
  function NewLogger(threshold: Duration): SlowQueryLogger {
    SlowQueryLogger(threshold, true)
  }

  /** `SlowQueryLogger::disabled`: the largest threshold, switched off. */
  const DISABLED_LOGGER := SlowQueryLogger(DURATION_MAX, false)

  /** `set_threshold`. */
  function SetThreshold(logger: SlowQueryLogger, threshold: Duration): SlowQueryLogger {
    logger.(threshold := threshold)
  }

  /** `is_slow`: enabled, and the duration reaches the threshold. */
  predicate IsSlow(logger: SlowQueryLogger, d: Duration) {
    logger.enabled && d >= logger.threshold
  }

  /** The disabled logger calls nothing slow; an enabled logger calls a
      duration slow from its threshold on, the default one from 100 ms;
      a longer duration is slow whenever a shorter one is. */
  lemma IsSlowSpec(logger: SlowQueryLogger, d: Duration, e: Duration)
    ensures !IsSlow(DISABLED_LOGGER, d)
    ensures IsSlow(NewLogger(logger.threshold), d) <==> d >= logger.threshold
    ensures IsSlow(DEFAULT_LOGGER, d) <==> d >= 100_000_000
    ensures IsSlow(logger, d) && d <= e ==> IsSlow(logger, e)
    ensures IsSlow(SetThreshold(logger, e), d) <==> logger.enabled && d >= e
  {
  }

  /** The sanitiser's state: inside a quoted literal, and whether the
      previous character was an unconsumed backslash. */
  datatype ScanState = ScanState(inString: bool, escapeNext: bool)

  const OUTSIDE := ScanState(false, false)
  const INSIDE := ScanState(true, false)

  predicate IsQuote(c: char) { c == '"' || c == '\'' }

  /** A character that is neither a quote nor a backslash. */
  predicate Plain(c: char) { !IsQuote(c) && c != '\\' }

  /** One character of `sanitize_query`: an escaped character is kept
      only outside a literal; a backslash is dropped and escapes the next
      character; either quote opens a literal or closes one, writing `?`;
      any other character is kept only outside a literal. */
  function Step(st: ScanState, c: char): (ScanState, string) {
    if st.escapeNext then (ScanState(st.inString, false), if st.inString then "" else [c])
    else if c == '\\' then (ScanState(st.inString, true), "")
    else if IsQuote(c) then (if st.inString then (OUTSIDE, "?") else (INSIDE, ""))
    else (st, if st.inString then "" else [c])
  }

  /** The state and output after scanning a text from a state. */
  function Scan(st: ScanState, q: string): (r: (ScanState, string))
    ensures |r.1| <= |q|
    decreases |q|
  {
    if |q| == 0 then (st, "")
    else
      var first := Step(st, q[0]);
      var rest := Scan(first.0, q[1..]);
      (rest.0, first.1 + rest.1)
  }

  /** The sanitised form of a query, scanning from outside any literal. */
  function Sanitize(q: string): (r: string)
    ensures |r| <= |q|
  {
    Scan(OUTSIDE, q).1
  }

  /** Scanning a concatenation scans the second part from the state the
      first part ends in. */
  lemma {:induction false} ScanAppend(st: ScanState, a: string, b: string)
    ensures Scan(st, a + b) == (Scan(Scan(st, a).0, b).0, Scan(st, a).1 + Scan(Scan(st, a).0, b).1)
    decreases |a|
  {
    if |a| > 0 {
      assert (a + b)[0] == a[0];
      assert (a + b)[1..] == a[1..] + b;
      var first := Step(st, a[0]);
      var mid := Scan(first.0, a[1..]);
      ScanAppend(first.0, a[1..], b);
      assert first.1 + (mid.1 + Scan(mid.0, b).1) == (first.1 + mid.1) + Scan(mid.0, b).1;
    } else {
      assert a + b == b;
      assert Scan(st, a) == (st, "");
      assert "" + Scan(st, b).1 == Scan(st, b).1;
    }
  }

  /** Scanning one character is one step. */
  lemma ScanOne(st: ScanState, c: char)
    ensures Scan(st, [c]) == Step(st, c)
  {
    var q := [c];
    assert q[1..] == [];
    var first := Step(st, c);
    assert Scan(first.0, q[1..]) == (first.0, "");
    assert first.1 + "" == first.1;
  }

  /** Plain text outside a literal is copied unchanged. */
  lemma {:induction false} ScanPlainOutside(a: string)
    requires forall i | 0 <= i < |a| :: Plain(a[i])
    ensures Scan(OUTSIDE, a) == (OUTSIDE, a)
  {
    if |a| > 0 {
      ScanPlainOutside(a[1..]);
      assert [a[0]] + a[1..] == a;
    }
  }

  /** Plain text inside a literal is dropped. */
  lemma {:induction false} ScanPlainInside(s: string)
    requires forall i | 0 <= i < |s| :: Plain(s[i])
    ensures Scan(INSIDE, s) == (INSIDE, "")
  {
    if |s| > 0 {
      ScanPlainInside(s[1..]);
    }
  }

  /** A query with no quote and no backslash is left as it is. */
  lemma SanitizeKeepsPlain(q: string)
    requires forall i | 0 <= i < |q| :: Plain(q[i])
    ensures Sanitize(q) == q
  {
    ScanPlainOutside(q);
  }

  /** A closed literal, with either quote at either end, becomes a single
      `?`; the text before it is kept and the text after it is sanitised
      in turn. */
  lemma SanitizeHidesLiteral(before: string, open: char, literal: string, close: char, after: string)
    requires forall i | 0 <= i < |before| :: Plain(before[i])
    requires forall i | 0 <= i < |literal| :: Plain(literal[i])
    requires IsQuote(open) && IsQuote(close)
    ensures Sanitize(before + [open] + literal + [close] + after) == before + "?" + Sanitize(after)
  {
    var tail := [close] + after;
    var mid := literal + tail;
    var rest := [open] + mid;
    var hidden := "?" + Sanitize(after);
    ScanCons(INSIDE, close, after);
    assert Scan(INSIDE, tail).1 == hidden;
    ScanAppend(INSIDE, literal, tail);
    ScanPlainInside(literal);
    assert Scan(INSIDE, mid).1 == hidden;
    ScanCons(OUTSIDE, open, mid);
    assert Scan(OUTSIDE, rest).1 == hidden;
    ScanAppend(OUTSIDE, before, rest);
    ScanPlainOutside(before);
    assert Sanitize(before + rest) == before + hidden;
    RegroupFive(before, [open], literal, [close], after);
  }

  lemma RegroupFive(a: string, b: string, c: string, d: string, e: string)
    ensures a + b + c + d + e == a + (b + (c + (d + e)))
  {
  }

  /** Scanning a text that starts with `c` takes the step on `c` first. */
  lemma ScanCons(st: ScanState, c: char, t: string)
    ensures var first := Step(st, c);
      Scan(st, [c] + t) == (Scan(first.0, t).0, first.1 + Scan(first.0, t).1)
  {
    assert ([c] + t)[0] == c && ([c] + t)[1..] == t;
  }

  /** A literal that is never closed hides everything after its quote. */
  lemma SanitizeDropsUnclosed(before: string, open: char, literal: string)
    requires forall i | 0 <= i < |before| :: Plain(before[i])
    requires forall i | 0 <= i < |literal| :: Plain(literal[i])
    requires IsQuote(open)
    ensures Sanitize(before + [open] + literal) == before
  {
    assert before + [open] + literal == before + ([open] + literal);
    ScanPlainOutside(before);
    ScanAppend(OUTSIDE, before, [open] + literal);
    ScanPlainInside(literal);
  }

  /** `sanitize_query`: the character loop with its two flags. */
  method SanitizeQuery(query: string) returns (result: string)
    ensures result == Sanitize(query)
    ensures |result| <= |query|
  {
    result := "";
    var inString := false;
    var escapeNext := false;
    for i := 0 to |query|
      invariant (ScanState(inString, escapeNext), result) == Scan(OUTSIDE, query[..i])
    {
      var ch := query[i];
      ScanAppend(OUTSIDE, query[..i], [ch]);
      assert query[..i + 1] == query[..i] + [ch];
      ScanOne(ScanState(inString, escapeNext), ch);
      ghost var next := Step(ScanState(inString, escapeNext), ch);
      assert Scan(OUTSIDE, query[..i + 1]) == (next.0, result + next.1);
      assert result + "" == result;
      if escapeNext {
        escapeNext := false;
        if !inString {
          result := result + [ch];
        }
        continue;
      }
      if ch == '\\' {
        escapeNext := true;
      } else if ch == '"' || ch == '\'' {
        if inString {
          inString := false;
          result := result + "?";
        } else {
          inString := true;
        }
      } else if !inString {
        result := result + [ch];
      }
    }
    assert query[..|query|] == query;
  }

  /** `log_if_slow`: the sanitised query is logged exactly when the
      duration is slow. */
  function LogIfSlow(logger: SlowQueryLogger, query: string, d: Duration): (r: Option<string>)
    ensures r.Some? <==> IsSlow(logger, d)
    ensures r.Some? ==> r.value == Sanitize(query) && |r.value| <= |query|
  {
    if !IsSlow(logger, d) then None else Some(Sanitize(query))
  }

  /** The upper bounds of the duration buckets, in seconds. */
  const DURATION_BUCKETS: seq<real> := [0.001, 0.005, 0.01, 0.05, 0.1, 0.5, 1.0, 5.0]

  /** The first bucket from `i` on whose bound reaches the value, or the
      last bucket when none does. */
  function BucketFrom(seconds: real, i: nat): (r: nat)
    requires i < 8
    ensures i <= r < 8
    ensures forall j | i <= j < r :: seconds > DURATION_BUCKETS[j]
    ensures seconds <= DURATION_BUCKETS[7] ==> seconds <= DURATION_BUCKETS[r]
    ensures seconds > DURATION_BUCKETS[7] ==> r == 7
    decreases 8 - i
  {
    if seconds <= DURATION_BUCKETS[i] || i == 7 then i else BucketFrom(seconds, i + 1)
  }

  /** The bucket `observe` counts a value in: the first whose bound
      reaches it, the last one when the value exceeds every bound. */
  function DurationBucket(seconds: real): (r: nat)
    ensures r < 8
    ensures forall j | 0 <= j < r :: seconds > DURATION_BUCKETS[j]
    ensures seconds <= 5.0 ==> seconds <= DURATION_BUCKETS[r]
    ensures seconds > 5.0 ==> r == 7
  {
    BucketFrom(seconds, 0)
  }

  /** `(seconds * 1_000_000.0) as u64`: truncation toward zero with
      Rust's saturating float-to-integer cast (negatives give 0). */
  function Micros(seconds: real): (r: nat)
    ensures IsU64(r)
    ensures seconds * 1_000_000.0 < 1.0 ==> r == 0
    ensures 0.0 <= seconds * 1_000_000.0 < (U64_MAX + 1) as real ==>
      r as real <= seconds * 1_000_000.0 < r as real + 1.0
    ensures seconds * 1_000_000.0 >= (U64_MAX + 1) as real ==> r == U64_MAX
  {
    var x := seconds * 1_000_000.0;
    if x < 1.0 then 0
    else if x >= (U64_MAX + 1) as real then U64_MAX
    else x.Floor
  }

  /** `DurationHistogram`: eight bucket counters, the sum in microseconds
      and the observation count. */
  datatype DurationHistogram = DurationHistogram(buckets: seq<nat>, sum: nat, count: nat)

  /** Eight buckets and every counter a `u64`. */
  predicate ValidHistogram(h: DurationHistogram) {
    && |h.buckets| == 8
    && IsU64(h.sum) && IsU64(h.count)
    && forall i | 0 <= i < 8 :: IsU64(h.buckets[i])
  }

  /** The bucket counters add up to the observation count. */
  predicate Consistent(h: DurationHistogram) {
    ValidHistogram(h) && Total(h.buckets) == h.count
  }

  /** `DurationHistogram::new`: every counter zero. */
  function NewDurationHistogram(): (h: DurationHistogram)
    ensures Consistent(h) && h.count == 0 && h.sum == 0
  {
    var b: seq<nat> := [0, 0, 0, 0, 0, 0, 0, 0];
    TotalZeros(b);
    DurationHistogram(b, 0, 0)
  }

  /** `observe`: the count and its bucket go up by one and the sum by the
      value in microseconds, each wrapping like `fetch_add`. */
  function Observe(h: DurationHistogram, seconds: real): (r: DurationHistogram)
    requires ValidHistogram(h)
    ensures ValidHistogram(r)
  {
    var i := DurationBucket(seconds);
    DurationHistogram(h.buckets[i := WrappingAddU64(h.buckets[i], 1)],
                      WrappingAddU64(h.sum, Micros(seconds)),
                      WrappingAddU64(h.count, 1))
  }

  /** Below `u64::MAX` observations, `observe` keeps the buckets adding up
      to the count, raises exactly the exported running totals from the
      value's bucket on, and adds the value's microseconds to the sum when
      that does not overflow. */
  lemma ObserveSpec(h: DurationHistogram, seconds: real, j: nat)
    requires Consistent(h) && h.count < U64_MAX && j < 8
    ensures Consistent(Observe(h, seconds))
    ensures Observe(h, seconds).count == h.count + 1
    ensures Cumulative(Observe(h, seconds).buckets)[j]
      == Cumulative(h.buckets)[j] + (if DurationBucket(seconds) <= j then 1 else 0)
    ensures h.sum + Micros(seconds) <= U64_MAX ==> Observe(h, seconds).sum == h.sum + Micros(seconds)
  {
    var i := DurationBucket(seconds);
    BucketAtMostTotal(h.buckets, i);
    assert Observe(h, seconds).buckets == h.buckets[i := h.buckets[i] + 1];
    TotalIncrement(h.buckets, i);
    CumulativeIncrement(h.buckets, i, j);
  }

  /** The exported running totals: one per bound, never decreasing, and the
      one printed for the last bound (5 s) equals the `+Inf` line's count,
      since values beyond every bound are counted in the last bucket. */
  lemma ExportedBuckets(h: DurationHistogram, i: nat, j: nat)
    requires Consistent(h) && i <= j < 8
    ensures |Cumulative(h.buckets)| == |DURATION_BUCKETS|
    ensures Cumulative(h.buckets)[i] <= Cumulative(h.buckets)[j]
    ensures Cumulative(h.buckets)[7] == h.count
  {
    CumulativeShape(h.buckets, i, j);
  }
}
