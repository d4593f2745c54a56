/**
 * The email format check of digo.go: the regular expression
 *
 *     \w[-._\w]*\w@\w[-._\w]*\w\.\w{2,3}
 *
 * (EMAIL_REG, digo.go:13) searched for anywhere in the value, as Go's
 * `regexp.MatchString` does (the pattern is not anchored).
 *
 * `ContainsMatch` states that meaning directly, as "some slice of the value
 * matches the pattern in full". `HasMatch` decides it by a single scan for
 * an `@` with a fitting local part before it and a fitting domain after it,
 * and `HasMatchCorrect` proves the two agree on every value.
 *
 * The pattern uses only ASCII classes, so matching on bytes agrees with Go's
 * matching on UTF-8 runes: no byte of a multi-byte or invalid sequence is in
 * any of the classes.
 */
module Email {
  import opened Text

  const AT: byte := 64          // '@'
  const DOT: byte := 46         // '.'
  const HYPHEN: byte := 45      // '-'
  const UNDERSCORE: byte := 95  // '_'

  /** `\w` in Go's regexp syntax: `[0-9A-Za-z_]`. */
  predicate IsWord(b: byte) {
    (48 <= b <= 57) || (65 <= b <= 90) || (97 <= b <= 122) || b == UNDERSCORE
  }

  /** `[-._\w]` */
  predicate IsInner(b: byte) {
    IsWord(b) || b == HYPHEN || b == DOT
  }

  // ---------------------------------------------------------------------------
  // What the pattern means
  // ---------------------------------------------------------------------------

  /** `s[lo..hi]` has the shape `\w[-._\w]*\w` of both the local part and the domain name. */
  ghost predicate Segment(s: Bytes, lo: nat, hi: nat)
    requires lo <= hi <= |s|
  {
    && lo + 2 <= hi
    && IsWord(s[lo])
    && IsWord(s[hi - 1])
    && forall k | lo < k < hi - 1 :: IsInner(s[k])
  }

  /** `s[lo..hi]` has the shape `\w{2,3}`. */
  ghost predicate TopLevel(s: Bytes, lo: nat, hi: nat)
    requires lo <= hi <= |s|
  {
    lo + 2 <= hi <= lo + 3 && forall k | lo <= k < hi :: IsWord(s[k])
  }

  /** `s[i..j]` matches the whole pattern, with its `@` at `p` and the `.` before the top-level domain at `dot`. */
  ghost predicate MatchSpan(s: Bytes, i: nat, p: nat, dot: nat, j: nat)
    requires i <= p < dot < j <= |s|
  {
    && Segment(s, i, p)
    && s[p] == AT
    && Segment(s, p + 1, dot)
    && s[dot] == DOT
    && TopLevel(s, dot + 1, j)
  }

  /** `t` matches the whole pattern. */
  ghost predicate FullMatch(t: Bytes) {
    exists p, dot | 0 <= p < dot < |t| :: MatchSpan(t, 0, p, dot, |t|)
  }

  /** An unanchored search for the pattern succeeds on `s`: some slice of it matches in full. */
  ghost predicate ContainsMatch(s: Bytes) {
    exists i, j | 0 <= i <= j <= |s| :: FullMatch(s[i..j])
  }

  // ---------------------------------------------------------------------------
  // Deciding it
  // ---------------------------------------------------------------------------

  /** Some `\w` stands before `end`, followed only by `[-._\w]` up to `end`. */
  predicate WordInRun(s: Bytes, end: nat)
    requires end <= |s|
  {
    end > 0 && (IsWord(s[end - 1]) || (IsInner(s[end - 1]) && WordInRun(s, end - 1)))
  }

  /** A local part `\w[-._\w]*\w` ends just before index `p`. */
  predicate LocalPartEndsAt(s: Bytes, p: nat)
    requires p <= |s|
  {
    2 <= p && IsWord(s[p - 1]) && WordInRun(s, p - 1)
  }

  /**
   * Index `dot` holds the `.` that ends a domain name starting at `d`, and
   * two `\w` follow it.
   */
  predicate DomainEndsAt(s: Bytes, d: nat, dot: nat)
    requires d <= dot < |s|
  {
    && d + 2 <= dot
    && s[dot] == DOT
    && IsWord(s[dot - 1])
    && dot + 2 < |s|
    && IsWord(s[dot + 1])
    && IsWord(s[dot + 2])
  }

  /** Scanning `[-._\w]` forward from `k` reaches a `.` that ends the domain name starting at `d`. */
  predicate DotAhead(s: Bytes, d: nat, k: nat)
    requires d < k <= |s|
    decreases |s| - k
  {
    k < |s| && (DomainEndsAt(s, d, k) || (IsInner(s[k]) && DotAhead(s, d, k + 1)))
  }

  /** A domain name `\w[-._\w]*\w`, a `.` and two `\w` start at `d`. */
  predicate DomainAt(s: Bytes, d: nat)
    requires d <= |s|
  {
    d < |s| && IsWord(s[d]) && DotAhead(s, d, d + 1)
  }

  /** A match of the pattern has its `@` at index `p`. */
  predicate MatchesAround(s: Bytes, p: nat)
    requires p < |s|
  {
    s[p] == AT && LocalPartEndsAt(s, p) && DomainAt(s, p + 1)
  }

  /** Some index from `p` on is the `@` of a match. */
  predicate MatchFrom(s: Bytes, p: nat)
    requires p <= |s|
    decreases |s| - p
  {
    p < |s| && (MatchesAround(s, p) || MatchFrom(s, p + 1))
  }

  /** The scan that decides `ContainsMatch`. */
  predicate HasMatch(s: Bytes) {
    MatchFrom(s, 0)
  }

  // ---------------------------------------------------------------------------
  // The scan decides the pattern
  // ---------------------------------------------------------------------------

  lemma {:induction false} WordInRunIntro(s: Bytes, k: nat, end: nat)
    requires k < end <= |s|
    requires IsWord(s[k])
    requires forall m | k < m < end :: IsInner(s[m])
    ensures WordInRun(s, end)
    decreases end
  {
    if end - 1 != k {
      WordInRunIntro(s, k, end - 1);
    }
  }

  lemma {:induction false} WordInRunElim(s: Bytes, end: nat)
    requires end <= |s|
    requires WordInRun(s, end)
    ensures exists k | 0 <= k < end :: IsWord(s[k]) && forall m | k < m < end :: IsInner(s[m])
    decreases end
  {
    if !IsWord(s[end - 1]) {
      WordInRunElim(s, end - 1);
      var k :| 0 <= k < end - 1 && IsWord(s[k]) && forall m | k < m < end - 1 :: IsInner(s[m]);
      assert forall m | k < m < end :: IsInner(s[m]);
    }
  }

  lemma {:induction false} DotAheadIntro(s: Bytes, d: nat, k: nat, dot: nat)
    requires d < k <= dot < |s|
    requires forall m | k <= m < dot :: IsInner(s[m])
    requires DomainEndsAt(s, d, dot)
    ensures DotAhead(s, d, k)
    decreases dot - k
  {
    if k < dot {
      DotAheadIntro(s, d, k + 1, dot);
    }
  }

  lemma {:induction false} DotAheadElim(s: Bytes, d: nat, k: nat)
    requires d < k <= |s|
    requires DotAhead(s, d, k)
    ensures exists dot | k <= dot < |s| ::
              DomainEndsAt(s, d, dot) && forall m | k <= m < dot :: IsInner(s[m])
    decreases |s| - k
  {
    if !DomainEndsAt(s, d, k) {
      DotAheadElim(s, d, k + 1);
      var dot :| k + 1 <= dot < |s| && DomainEndsAt(s, d, dot) && forall m | k + 1 <= m < dot :: IsInner(s[m]);
      assert forall m | k <= m < dot :: IsInner(s[m]);
    }
  }

  lemma {:induction false} MatchFromIff(s: Bytes, p: nat)
    requires p <= |s|
    ensures MatchFrom(s, p) <==> exists q | p <= q < |s| :: MatchesAround(s, q)
    decreases |s| - p
  {
    if p < |s| {
      MatchFromIff(s, p + 1);
    }
  }

  /** A full match of the slice `s[i..j]`, read in the indices of `s`. */
  lemma MatchSpanShift(s: Bytes, i: nat, p: nat, dot: nat, j: nat)
    requires i <= p < dot < j <= |s|
    ensures MatchSpan(s[i..j], 0, p - i, dot - i, j - i) <==> MatchSpan(s, i, p, dot, j)
  {
    var t := s[i..j];
    assert forall k | 0 <= k < |t| :: t[k] == s[i + k];
    if MatchSpan(s, i, p, dot, j) {
      forall k | 0 < k < p - i - 1 ensures IsInner(t[k]) {
        assert t[k] == s[i + k];
      }
      forall k | p - i + 1 < k < dot - i - 1 ensures IsInner(t[k]) {
        assert t[k] == s[i + k];
      }
    }
    if MatchSpan(t, 0, p - i, dot - i, j - i) {
      forall k | i < k < p - 1 ensures IsInner(s[k]) {
        assert s[k] == t[k - i];
      }
      forall k | p + 1 < k < dot - 1 ensures IsInner(s[k]) {
        assert s[k] == t[k - i];
      }
      forall k | dot + 1 <= k < j ensures IsWord(s[k]) {
        assert s[k] == t[k - i];
      }
    }
  }

  lemma FullMatchToSpan(s: Bytes, i: nat, j: nat)
    requires i <= j <= |s|
    requires FullMatch(s[i..j])
    ensures exists p, dot | i <= p < dot < j :: MatchSpan(s, i, p, dot, j)
  {
    var t := s[i..j];
    var at, dt :| 0 <= at < dt < |t| && MatchSpan(t, 0, at, dt, |t|);
    MatchSpanShift(s, i, i + at, i + dt, j);
  }

  lemma SpanToFullMatch(s: Bytes, i: nat, p: nat, dot: nat, j: nat)
    requires i <= p < dot < j <= |s|
    requires MatchSpan(s, i, p, dot, j)
    ensures FullMatch(s[i..j])
  {
    MatchSpanShift(s, i, p, dot, j);
    var t := s[i..j];
    assert MatchSpan(t, 0, p - i, dot - i, |t|);
  }

  /** A match with its `@` at `p` is a slice of `s` that matches the pattern in full. */
  lemma MatchesAroundSound(s: Bytes, p: nat)
    requires p < |s|
    requires MatchesAround(s, p)
    ensures ContainsMatch(s)
  {
    WordInRunElim(s, p - 1);
    var i :| 0 <= i < p - 1 && IsWord(s[i]) && forall m | i < m < p - 1 :: IsInner(s[m]);
    DotAheadElim(s, p + 1, p + 2);
    var dot :| p + 2 <= dot < |s| && DomainEndsAt(s, p + 1, dot) && forall m | p + 2 <= m < dot :: IsInner(s[m]);
    var j := dot + 3;
    assert MatchSpan(s, i, p, dot, j);
    SpanToFullMatch(s, i, p, dot, j);
  }

  /** A slice of `s` that matches the pattern in full has an `@` the scan finds. */
  lemma FullMatchFound(s: Bytes, i: nat, j: nat)
    requires i <= j <= |s|
    requires FullMatch(s[i..j])
    ensures exists q | 0 <= q < |s| :: MatchesAround(s, q)
  {
    FullMatchToSpan(s, i, j);
    var p, dot :| i <= p < dot < j && MatchSpan(s, i, p, dot, j);
    WordInRunIntro(s, i, p - 1);
    assert LocalPartEndsAt(s, p);
    assert DomainEndsAt(s, p + 1, dot);
    DotAheadIntro(s, p + 1, p + 2, dot);
    assert MatchesAround(s, p);
  }

  /** The scan succeeds exactly when the pattern occurs somewhere in `s`. */
  lemma HasMatchCorrect(s: Bytes)
    ensures HasMatch(s) <==> ContainsMatch(s)
  {
    MatchFromIff(s, 0);
    if HasMatch(s) {
      var q :| 0 <= q < |s| && MatchesAround(s, q);
      MatchesAroundSound(s, q);
    }
    if ContainsMatch(s) {
      var i, j :| 0 <= i <= j <= |s| && FullMatch(s[i..j]);
      FullMatchFound(s, i, j);
    }
  }

  /** A value without an `@` never holds an email address. */
  lemma NoAtNoMatch(s: Bytes)
    requires AT !in s
    ensures !ContainsMatch(s)
  {
    MatchHasAt(s);
  }

  /** Every match holds the `@` between its local part and its domain. */
  lemma MatchHasAt(s: Bytes)
    ensures ContainsMatch(s) ==> AT in s
  {
    if ContainsMatch(s) {
      var i, j :| 0 <= i <= j <= |s| && FullMatch(s[i..j]);
      FullMatchToSpan(s, i, j);
      var p, dot :| i <= p < dot < j && MatchSpan(s, i, p, dot, j);
      assert s[p] == AT;
    }
  }

  /** A match found at known indices is a match of the unanchored search. */
  lemma SpanContainsMatch(s: Bytes, i: nat, p: nat, dot: nat, j: nat)
    requires i <= p < dot < j <= |s|
    requires MatchSpan(s, i, p, dot, j)
    ensures ContainsMatch(s)
  {
    SpanToFullMatch(s, i, p, dot, j);
  }

  /**
   * Because the search is unanchored, the `\w{2,3}` at the end of the pattern
   * asks no more than two word bytes after the dot: every match can be cut
   * back to one whose top-level domain has exactly two bytes.
   */
  lemma TopLevelTwoSuffices(s: Bytes, i: nat, j: nat)
    requires i <= j <= |s|
    requires FullMatch(s[i..j])
    ensures exists e | i + 8 <= e <= j :: FullMatch(s[i..e]) && s[e - 3] == DOT
  {
    FullMatchToSpan(s, i, j);
    var p, dot :| i <= p < dot < j && MatchSpan(s, i, p, dot, j);
    assert MatchSpan(s, i, p, dot, dot + 3);
    SpanToFullMatch(s, i, p, dot, dot + 3);
  }

}
