/**
 * The syntax of a `minmax` constraint: the regular expression
 *
 *     ^minmax\(\s*(\d+)\s*\|\s*(\d+)\s*\)
 *
 * (MINMAX_REG, digo.go:14), anchored at the start of the trimmed tag segment
 * but not at its end, whose two groups are the bounds.
 *
 * `IsMinMaxCall` states what it means for a segment to match with given
 * bounds; `ParseMinMax` is a hand-written parser, and the lemmas below prove
 * that it returns the bounds exactly when the segment matches with them.
 * Bounds are unbounded naturals: the clamping `strconv.Atoi` applies to
 * numbers too large for an `int` is not modelled.
 */
module MinMaxSyntax {
  import opened Options

  /** `\s` in Go's regexp syntax: `[\t\n\f\r ]` (vertical tab is not in it). */
  predicate IsRegexSpace(c: char) {
    c == ' ' || c == '\t' || c == '\n' || c == '\U{C}' || c == '\r'
  }

  /** `\d` in Go's regexp syntax: `[0-9]`. */
  predicate IsDigit(c: char) {
    '0' <= c <= '9'
  }

  predicate AllDigits(s: string) {
    forall k | 0 <= k < |s| :: IsDigit(s[k])
  }

  /** The number a decimal digit string denotes, as `strconv.Atoi` reads it. */
  function DecimalValue(d: string): nat
    requires AllDigits(d)
  {
    if d == [] then 0 else 10 * DecimalValue(d[..|d| - 1]) + (d[|d| - 1] as int - '0' as int)
  }

  /** `s[lo..hi]` is `\s*(\d+)\s*` in full, and its digits denote `v`. */
  ghost predicate SpacedNumber(s: string, lo: nat, hi: nat, v: nat)
    requires lo <= hi <= |s|
  {
    exists a, b | lo <= a < b <= hi ::
      && (forall k | lo <= k < a :: IsRegexSpace(s[k]))
      && (forall k | a <= k < b :: IsDigit(s[k]))
      && (forall k | b <= k < hi :: IsRegexSpace(s[k]))
      && DecimalValue(s[a..b]) == v
  }

  const Head: string := "minmax("

  /** `seg` matches `^minmax\(\s*(\d+)\s*\|\s*(\d+)\s*\)` with groups denoting `lo` and `hi`. */
  ghost predicate IsMinMaxCall(seg: string, lo: nat, hi: nat) {
    && Head <= seg
    && exists bar, close | |Head| <= bar < close < |seg| :: MinMaxSplit(seg, bar, close, lo, hi)
  }

  // ---------------------------------------------------------------------------
  // The parser
  // ---------------------------------------------------------------------------

  /** The index just past the run of `\s` starting at `i`. */
  function SkipSpaces(s: string, i: nat): (j: nat)
    requires i <= |s|
    ensures i <= j <= |s|
    ensures forall k | i <= k < j :: IsRegexSpace(s[k])
    ensures j == |s| || !IsRegexSpace(s[j])
    decreases |s| - i
  {
    if i < |s| && IsRegexSpace(s[i]) then SkipSpaces(s, i + 1) else i
  }

  /** The index just past the run of `\d` starting at `i`. */
  function SkipDigits(s: string, i: nat): (j: nat)
    requires i <= |s|
    ensures i <= j <= |s|
    ensures forall k | i <= k < j :: IsDigit(s[k])
    ensures j == |s| || !IsDigit(s[j])
    decreases |s| - i
  {
    if i < |s| && IsDigit(s[i]) then SkipDigits(s, i + 1) else i
  }

  /** Reads `\s*(\d+)\s*` from index `i`: the number and the index after the trailing spaces. */
  function NumberAt(s: string, i: nat): Option<(nat, nat)>
    requires i <= |s|
  {
    var a := SkipSpaces(s, i);
    var b := SkipDigits(s, a);
    if a == b then None else Some((DecimalValue(s[a..b]), SkipSpaces(s, b)))
  }

  /** Reads `\s*(\d+)\s*\)` after the `|` at index `bar`, given the lower bound already read. */
  function ParseUpper(seg: string, bar: nat, lo: nat): Option<(nat, nat)>
    requires bar < |seg|
  {
    var second := NumberAt(seg, bar + 1);
    if second.None? then None
    else
      var close := second.value.1;
      if close == |seg| || seg[close] != ')' then None
      else Some((lo, second.value.0))
  }

  /** The bounds of a `minmax(<min>|<max>)` segment, or `None` when it does not match. */
  function ParseMinMax(seg: string): Option<(nat, nat)>
  {
    if !(Head <= seg) then None
    else
      var first := NumberAt(seg, |Head|);
      if first.None? then None
      else
        var bar := first.value.1;
        if bar == |seg| || seg[bar] != '|' then None
        else ParseUpper(seg, bar, first.value.0)
  }

  // ---------------------------------------------------------------------------
  // The parser agrees with the pattern
  // ---------------------------------------------------------------------------

  lemma {:induction false} SkipSpacesExact(s: string, i: nat, j: nat)
    requires i <= j <= |s|
    requires forall k | i <= k < j :: IsRegexSpace(s[k])
    requires j == |s| || !IsRegexSpace(s[j])
    ensures SkipSpaces(s, i) == j
    decreases j - i
  {
    if i < j {
      SkipSpacesExact(s, i + 1, j);
    }
  }

  lemma {:induction false} SkipDigitsExact(s: string, i: nat, j: nat)
    requires i <= j <= |s|
    requires forall k | i <= k < j :: IsDigit(s[k])
    requires j == |s| || !IsDigit(s[j])
    ensures SkipDigits(s, i) == j
    decreases j - i
  {
    if i < j {
      SkipDigitsExact(s, i + 1, j);
    }
  }

  /** What `NumberAt` reads is a spaced number. */
  lemma NumberAtSound(s: string, i: nat)
    requires i <= |s|
    requires NumberAt(s, i).Some?
    ensures i <= NumberAt(s, i).value.1 <= |s|
    ensures SpacedNumber(s, i, NumberAt(s, i).value.1, NumberAt(s, i).value.0)
  {
    var a := SkipSpaces(s, i);
    var b := SkipDigits(s, a);
    assert forall k | a <= k < b :: IsDigit(s[k]);
  }

  /** Spaces on `[i, a)`, digits on `[a, b)` and spaces on `[b, e)`, then a stop character: `NumberAt` reads exactly that. */
  lemma NumberAtRuns(s: string, i: nat, a: nat, b: nat, e: nat)
    requires i <= a < b <= e < |s|
    requires forall k | i <= k < a :: IsRegexSpace(s[k])
    requires forall k | a <= k < b :: IsDigit(s[k])
    requires forall k | b <= k < e :: IsRegexSpace(s[k])
    requires !IsRegexSpace(s[e]) && !IsDigit(s[e])
    ensures AllDigits(s[a..b])
    ensures NumberAt(s, i) == Some((DecimalValue(s[a..b]), e))
  {
    SkipSpacesExact(s, i, a);
    SkipDigitsExact(s, a, b);
    SkipSpacesExact(s, b, e);
  }

  /**
   * A spaced number followed by a character that is neither space nor digit
   * is read whole by `NumberAt`.
   */
  lemma NumberAtComplete(s: string, i: nat, e: nat, v: nat)
    requires i <= e < |s|
    requires SpacedNumber(s, i, e, v)
    requires !IsRegexSpace(s[e]) && !IsDigit(s[e])
    ensures NumberAt(s, i) == Some((v, e))
  {
    var a, b :| && i <= a < b <= e
                && (forall k | i <= k < a :: IsRegexSpace(s[k]))
                && (forall k | a <= k < b :: IsDigit(s[k]))
                && (forall k | b <= k < e :: IsRegexSpace(s[k]))
                && DecimalValue(s[a..b]) == v;
    NumberAtRuns(s, i, a, b, e);
  }

  /** `seg` matches the pattern with its `|` at `bar` and its `)` at `close`. */
  ghost predicate MinMaxSplit(seg: string, bar: nat, close: nat, lo: nat, hi: nat)
    requires |Head| <= bar < close < |seg|
  {
    && SpacedNumber(seg, |Head|, bar, lo)
    && seg[bar] == '|'
    && SpacedNumber(seg, bar + 1, close, hi)
    && seg[close] == ')'
  }

  lemma ParseUpperSound(seg: string, bar: nat, lo: nat)
    requires bar < |seg|
    requires ParseUpper(seg, bar, lo).Some?
    ensures ParseUpper(seg, bar, lo).value.0 == lo
    ensures exists close | bar + 1 <= close < |seg| ::
              SpacedNumber(seg, bar + 1, close, ParseUpper(seg, bar, lo).value.1) && seg[close] == ')'
  {
    NumberAtSound(seg, bar + 1);
  }

  /** Whatever `ParseMinMax` accepts matches the pattern, with the bounds it returns. */
  lemma ParseMinMaxSound(seg: string)
    requires ParseMinMax(seg).Some?
    ensures IsMinMaxCall(seg, ParseMinMax(seg).value.0, ParseMinMax(seg).value.1)
  {
    var n := |Head|;
    var first := NumberAt(seg, n);
    NumberAtSound(seg, n);
    var lo, bar := first.value.0, first.value.1;
    var hi := ParseUpper(seg, bar, lo).value.1;
    ParseUpperSound(seg, bar, lo);
    var close :| bar + 1 <= close < |seg| && SpacedNumber(seg, bar + 1, close, hi) && seg[close] == ')';
    assert MinMaxSplit(seg, bar, close, lo, hi);
  }

  /** The two numbers of a match are read whole by `NumberAt`. */
  lemma MinMaxSplitNumbers(seg: string, bar: nat, close: nat, lo: nat, hi: nat)
    requires |Head| <= bar < close < |seg|
    requires MinMaxSplit(seg, bar, close, lo, hi)
    ensures NumberAt(seg, |Head|) == Some((lo, bar))
    ensures NumberAt(seg, bar + 1) == Some((hi, close))
  {
    NumberAtComplete(seg, |Head|, bar, lo);
    NumberAtComplete(seg, bar + 1, close, hi);
  }

  /** Given where the two numbers end, `ParseMinMax` returns them. */
  lemma ParseMinMaxFromNumbers(seg: string, bar: nat, close: nat, lo: nat, hi: nat)
    requires Head <= seg
    requires |Head| <= bar < close < |seg|
    requires NumberAt(seg, |Head|) == Some((lo, bar)) && seg[bar] == '|'
    requires NumberAt(seg, bar + 1) == Some((hi, close)) && seg[close] == ')'
    ensures ParseMinMax(seg) == Some((lo, hi))
  {
    assert ParseUpper(seg, bar, lo) == Some((lo, hi));
  }

  /** Every segment matching the pattern is accepted by `ParseMinMax`, with the matched bounds. */
  lemma ParseMinMaxComplete(seg: string)
    ensures forall lo: nat, hi: nat | IsMinMaxCall(seg, lo, hi) :: ParseMinMax(seg) == Some((lo, hi))
  {
    forall lo: nat, hi: nat | IsMinMaxCall(seg, lo, hi) ensures ParseMinMax(seg) == Some((lo, hi)) {
      var bar, close :| |Head| <= bar < close < |seg| && MinMaxSplit(seg, bar, close, lo, hi);
      MinMaxSplitNumbers(seg, bar, close, lo, hi);
      ParseMinMaxFromNumbers(seg, bar, close, lo, hi);
    }
  }

  /** The parser returns `(lo, hi)` exactly when the segment matches the pattern with those bounds. */
  lemma ParseMinMaxCorrect(seg: string, lo: nat, hi: nat)
    ensures ParseMinMax(seg) == Some((lo, hi)) <==> IsMinMaxCall(seg, lo, hi)
  {
    ParseMinMaxComplete(seg);
    if ParseMinMax(seg) == Some((lo, hi)) {
      ParseMinMaxSound(seg);
    }
  }

  /** The pattern fixes its bounds: a segment cannot match with two different pairs. */
  lemma MinMaxBoundsUnique(seg: string, lo: nat, hi: nat, lo': nat, hi': nat)
    ensures IsMinMaxCall(seg, lo, hi) && IsMinMaxCall(seg, lo', hi') ==> lo == lo' && hi == hi'
  {
    ParseMinMaxComplete(seg);
  }

}
