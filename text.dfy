/**
 * The pieces of Go's `strings` package that digo.go relies on to take a
 * `digo` struct tag apart: `strings.Split` on a one-character separator and
 * `strings.TrimSpace`. Prefix tests (`strings.HasPrefix`) are Dafny's own
 * sequence prefix operator `p <= s`.
 *
 * Field values are Go strings, which are byte sequences: `len` counts bytes,
 * so values are modelled as `Bytes`.
 */
module Text {

  newtype byte = b: int | 0 <= b < 256

  type Bytes = seq<byte>

  /** The bytes of an ASCII string. */
  function AsciiBytes(s: string): (b: Bytes)
    requires forall k | 0 <= k < |s| :: s[k] as int < 128
    ensures |b| == |s|
    ensures forall k | 0 <= k < |s| :: b[k] as int == s[k] as int
  {
    seq(|s|, k requires 0 <= k < |s| => s[k] as int as byte)
  }

  // ---------------------------------------------------------------------------
  // strings.TrimSpace
  // ---------------------------------------------------------------------------

  /** Go's `unicode.IsSpace`: the ASCII spaces, NEL, NBSP and the other White_Space code points. */
  predicate IsSpace(c: char) {
    || c == ' ' || c == '\t' || c == '\n' || c == '\U{B}' || c == '\U{C}' || c == '\r'
    || c == '\U{85}' || c == '\U{A0}' || c == '\U{1680}'
    || ('\U{2000}' <= c <= '\U{200A}')
    || c == '\U{2028}' || c == '\U{2029}' || c == '\U{202F}' || c == '\U{205F}' || c == '\U{3000}'
  }

  predicate AllSpace(s: string) {
    forall k | 0 <= k < |s| :: IsSpace(s[k])
  }

  /**
   * `strings.TrimSpace`: drops white space from both ends of `s`. What is
   * left neither starts nor ends with white space.
   */
  function TrimSpace(s: string): (r: string)
    ensures |r| <= |s|
    ensures r == [] || (!IsSpace(r[0]) && !IsSpace(r[|r| - 1]))
  {
    if s != [] && IsSpace(s[0]) then TrimSpace(s[1..])
    else if s != [] && IsSpace(s[|s| - 1]) then TrimSpace(s[..|s| - 1])
    else s
  }

  /** `r` sits in `s` at `lo`, with only white space before and after it. */
  ghost predicate SpacedInfix(s: string, r: string, lo: nat) {
    && lo + |r| <= |s|
    && r == s[lo..lo + |r|]
    && AllSpace(s[..lo])
    && AllSpace(s[lo + |r|..])
  }

  /** What `TrimSpace` leaves is the infix of `s` between white space at either end. */
  lemma {:induction false} TrimSpaceInfix(s: string)
    ensures exists lo: nat :: SpacedInfix(s, TrimSpace(s), lo)
    decreases |s|
  {
    var r := TrimSpace(s);
    if s != [] && IsSpace(s[0]) {
      TrimSpaceInfix(s[1..]);
      var lo: nat :| SpacedInfix(s[1..], r, lo);
      InfixAfterSpace(s, r, lo);
    } else if s != [] && IsSpace(s[|s| - 1]) {
      TrimSpaceInfix(s[..|s| - 1]);
      var lo: nat :| SpacedInfix(s[..|s| - 1], r, lo);
      InfixBeforeSpace(s, r, lo);
    } else {
      assert SpacedInfix(s, r, 0);
    }
  }

  lemma InfixAfterSpace(s: string, r: string, lo: nat)
    requires s != [] && IsSpace(s[0])
    requires SpacedInfix(s[1..], r, lo)
    ensures SpacedInfix(s, r, lo + 1)
  {
    var t := s[1..];
    assert t[lo + |r|..] == s[lo + 1 + |r|..];
    var p := s[..lo + 1];
    forall k | 0 <= k < |p| ensures IsSpace(p[k]) {
      if k > 0 {
        assert p[k] == t[..lo][k - 1];
      }
    }
  }

  lemma InfixBeforeSpace(s: string, r: string, lo: nat)
    requires s != [] && IsSpace(s[|s| - 1])
    requires SpacedInfix(s[..|s| - 1], r, lo)
    ensures SpacedInfix(s, r, lo)
  {
    var t := s[..|s| - 1];
    assert t[..lo] == s[..lo];
    var q := s[lo + |r|..];
    forall k | 0 <= k < |q| ensures IsSpace(q[k]) {
      if k < |q| - 1 {
        assert q[k] == t[lo + |r|..][k];
      }
    }
  }

  /**
   * TrimSpace is determined by its contract: whenever `s` is white space,
   * then `m`, then white space, and `m` neither starts nor ends with a
   * space, trimming `s` gives exactly `m`.
   */
  lemma {:induction false} TrimSpaceExact(a: string, m: string, b: string)
    requires AllSpace(a) && AllSpace(b)
    requires m == [] || (!IsSpace(m[0]) && !IsSpace(m[|m| - 1]))
    ensures TrimSpace(a + m + b) == m
    decreases |a| + |b|
  {
    var s := a + m + b;
    if a != [] {
      assert s[0] == a[0];
      assert s[1..] == a[1..] + m + b;
      TrimSpaceExact(a[1..], m, b);
    } else if m == [] && b != [] {
      assert s == b;
      assert s[1..] == [] + [] + b[1..];
      TrimSpaceExact([], [], b[1..]);
    } else if b != [] {
      assert s == m + b;
      assert s[0] == m[0];
      assert s[|s| - 1] == b[|b| - 1];
      assert s[..|s| - 1] == [] + m + b[..|b| - 1];
      TrimSpaceExact([], m, b[..|b| - 1]);
    } else {
      assert s == m;
    }
  }

  /** Trimming twice is trimming once. */
  lemma TrimSpaceIdempotent(s: string)
    ensures TrimSpace(TrimSpace(s)) == TrimSpace(s)
  {
    var m := TrimSpace(s);
    assert [] + m + [] == m;
    TrimSpaceExact([], m, []);
  }

  // ---------------------------------------------------------------------------
  // strings.Split
  // ---------------------------------------------------------------------------

  /**
   * `strings.Split(s, sep)` for a one-character separator: the pieces of `s`
   * between occurrences of `sep`. The empty string splits into one empty piece.
   */
  function Split(s: string, sep: char): (parts: seq<string>)
    ensures |parts| >= 1
    ensures forall k | 0 <= k < |parts| :: sep !in parts[k]
  {
    if s == [] then [[]]
    else
      var rest := Split(s[1..], sep);
      if s[0] == sep then [[]] + rest else [[s[0]] + rest[0]] + rest[1..]
  }

  /** `strings.Join(parts, string(sep))`. */
  function Join(parts: seq<string>, sep: char): string
  {
    if |parts| == 0 then []
    else if |parts| == 1 then parts[0]
    else parts[0] + [sep] + Join(parts[1..], sep)
  }

  /** Joining the pieces back with the separator restores the string. */
  lemma {:induction false} JoinSplit(s: string, sep: char)
    ensures Join(Split(s, sep), sep) == s
  {
    if s != [] {
      var rest := Split(s[1..], sep);
      JoinSplit(s[1..], sep);
      if s[0] == sep {
        assert Split(s, sep) == [[]] + rest;
        assert ([[]] + rest)[1..] == rest;
      } else {
        var parts := Split(s, sep);
        assert parts == [[s[0]] + rest[0]] + rest[1..];
        if |rest| == 1 {
          assert Join(rest, sep) == rest[0];
        } else {
          assert Join(rest, sep) == rest[0] + [sep] + Join(rest[1..], sep);
          assert parts[1..] == rest[1..];
        }
      }
    }
  }

  /** Splitting at the first separator: the string before it, then the pieces after it. */
  lemma {:induction false} SplitConcat(a: string, sep: char, b: string)
    ensures Split(a + [sep] + b, sep) == Split(a, sep) + Split(b, sep)
  {
    if a == [] {
      assert a + [sep] + b == [sep] + b;
      assert ([sep] + b)[1..] == b;
    } else {
      assert (a + [sep] + b)[1..] == a[1..] + [sep] + b;
      SplitConcat(a[1..], sep, b);
    }
  }

  /** A string without the separator is a single piece. */
  lemma {:induction false} SplitNoSeparator(s: string, sep: char)
    requires sep !in s
    ensures Split(s, sep) == [s]
  {
    if s != [] {
      assert sep !in s[1..];
      SplitNoSeparator(s[1..], sep);
      assert [s[0]] + s[1..] == s;
    }
  }

  /** Splitting the joined pieces gives the pieces back, when no piece holds the separator. */
  lemma {:induction false} SplitJoin(parts: seq<string>, sep: char)
    requires |parts| >= 1
    requires forall k | 0 <= k < |parts| :: sep !in parts[k]
    ensures Split(Join(parts, sep), sep) == parts
  {
    if |parts| == 1 {
      SplitNoSeparator(parts[0], sep);
    } else {
      SplitJoin(parts[1..], sep);
      SplitNoSeparator(parts[0], sep);
      SplitConcat(parts[0], sep, Join(parts[1..], sep));
      assert [parts[0]] + parts[1..] == parts;
    }
  }

  /** There are at least two pieces exactly when the separator occurs. */
  lemma SplitAtLeastTwo(s: string, sep: char)
    ensures |Split(s, sep)| >= 2 <==> sep in s
  {
    if sep in s {
      var i :| 0 <= i < |s| && s[i] == sep;
      assert s == s[..i] + [sep] + s[i + 1..];
      SplitConcat(s[..i], sep, s[i + 1..]);
    } else {
      SplitNoSeparator(s, sep);
    }
  }

}
