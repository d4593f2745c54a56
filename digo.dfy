/**
 * The validation pass of digo's `UnmarshalJSON` (digo.go:46-125).
 *
 * Once `encoding/json` has filled the destination struct, digo walks the
 * struct's fields in declaration order. Each field's `digo` tag reads
 * `<json name>, <kind>(), <constraint>(), ...`: the kind is `emailfield`
 * (the value must contain an email address) or `stringfield` (no check),
 * and each constraint is `required` (the value must not be empty) or
 * `minmax(<min>|<max>)` (the value's byte length must lie in [min, max]).
 * The first failure ends the pass and is its result.
 *
 * The model starts from the decoded struct: an ordered list of fields, each
 * with its Go field name, its `digo` tag and its string value as bytes.
 */
module Digo {
  import opened Options
  import opened Text
  import Email
  import MinMaxSyntax

  /** The errors the validation pass returns, one constructor per `errors.New` of the pass (digo.go:72-119). */
  datatype DigoError =
    | Incorrect(structField: string)
    | InvalidType(field: string)
    | InvalidEmail(field: string)
    | Required(field: string)
    | InvalidMinMaxCall(field: string)
    | TooShort(field: string)
    | TooLong(field: string)
  {
    /** The error's text, as Go's `err.Error()` returns it. */
    function Message(): string {
      match this
      case Incorrect(n) => "field: " + n + " is incorrect"
      case InvalidType(n) => "field: " + n + " invalid digo type"
      case InvalidEmail(n) => "field: " + n + " is not a valid email address"
      case Required(n) => "field: " + n + " is required"
      case InvalidMinMaxCall(n) => "field: " + n + " minmax invalid call"
      case TooShort(n) => "field: " + n + " is too short"
      case TooLong(n) => "field: " + n + " is too long"
    }

    /** The errors a constraint segment can raise. */
    predicate IsConstraintError() {
      Required? || InvalidMinMaxCall? || TooShort? || TooLong?
    }
  }

  /** A Go `error` result: `nil` or one error. */
  datatype Outcome = Pass | Fail(error: DigoError)

  /** One field of the decoded destination struct. */
  datatype Field = Field(name: string, tag: string, value: Bytes)

  // ---------------------------------------------------------------------------
  // The two helpers
  // ---------------------------------------------------------------------------

  /** `emailField` (digo.go:21-29): the value must contain a match of EMAIL_REG. */
  function EmailField(email: Bytes, fieldName: string): (r: Outcome)
    ensures r == Pass <==> Email.ContainsMatch(email)
    ensures r != Pass ==> r == Fail(InvalidEmail(fieldName))
  {
    Email.HasMatchCorrect(email);
    if Email.HasMatch(email) then Pass else Fail(InvalidEmail(fieldName))
  }

  /** `minMax` (digo.go:31-44): bounds on the value's length in bytes, both inclusive, the lower one tested first. */
  function MinMax(value: Bytes, fieldName: string, min: nat, max: nat): (r: Outcome)
    ensures r == Pass <==> min <= |value| <= max
    ensures r == Fail(TooShort(fieldName)) <==> |value| < min
    ensures r == Fail(TooLong(fieldName)) <==> min <= |value| && max < |value|
  {
    if |value| < min then Fail(TooShort(fieldName))
    else if |value| > max then Fail(TooLong(fieldName))
    else Pass
  }

  /** Bounds in the wrong order reject every value. */
  lemma MinMaxCrossedBoundsRejectAll(value: Bytes, fieldName: string, min: nat, max: nat)
    requires max < min
    ensures MinMax(value, fieldName, min, max) != Pass
  {
  }

  // ---------------------------------------------------------------------------
  // What one field's tag asks for
  // ---------------------------------------------------------------------------

  /** The kind segment: `emailfield` and `stringfield` are told apart by prefix, anything else is refused. */
  function CheckKind(kind: string, fieldName: string, value: Bytes): Outcome
  {
    if "emailfield" <= kind then EmailField(value, fieldName)
    else if "stringfield" <= kind then Pass
    else Fail(InvalidType(fieldName))
  }

  /** A constraint segment that starts with neither `required` nor `minmax` once trimmed. */
  predicate Ignored(seg: string) {
    var stag := TrimSpace(seg);
    !("required" <= stag) && !("minmax" <= stag)
  }

  /** One constraint segment of the tag (digo.go:96-117), matched by prefix once trimmed. */
  function CheckConstraint(seg: string, fieldName: string, value: Bytes): (r: Outcome)
    ensures r == Pass || r.error.IsConstraintError()
  {
    var stag := TrimSpace(seg);
    if "required" <= stag then
      if value == [] then Fail(Required(fieldName)) else Pass
    else if "minmax" <= stag then
      var bounds := MinMaxSyntax.ParseMinMax(stag);
      if bounds.None? then Fail(InvalidMinMaxCall(fieldName))
      else MinMax(value, fieldName, bounds.value.0, bounds.value.1)
    else Pass
  }

  /** A `required` segment demands a non-empty value, and its only error is `Required`. */
  lemma RequiredSegment(seg: string, fieldName: string, value: Bytes)
    requires "required" <= TrimSpace(seg)
    ensures CheckConstraint(seg, fieldName, value) == Pass <==> value != []
    ensures CheckConstraint(seg, fieldName, value) != Pass ==>
              CheckConstraint(seg, fieldName, value) == Fail(Required(fieldName))
  {
  }

  /**
   * A `minmax` segment is refused as an invalid call exactly when it does not
   * match MINMAX_REG, whatever the bounds.
   */
  lemma MinMaxSegmentMalformed(seg: string, fieldName: string, value: Bytes)
    requires "minmax" <= TrimSpace(seg)
    ensures CheckConstraint(seg, fieldName, value) == Fail(InvalidMinMaxCall(fieldName)) <==>
              forall lo: nat, hi: nat :: !MinMaxSyntax.IsMinMaxCall(TrimSpace(seg), lo, hi)
  {
    var stag := TrimSpace(seg);
    assert !("required" <= stag) by {
      assert stag[0] == 'm';
    }
    MinMaxSyntax.ParseMinMaxComplete(stag);
    if MinMaxSyntax.ParseMinMax(stag).Some? {
      MinMaxSyntax.ParseMinMaxSound(stag);
    }
  }

  /** A segment matching MINMAX_REG with bounds `lo` and `hi` checks the value's length against them. */
  lemma MinMaxSegmentBounds(seg: string, fieldName: string, value: Bytes, lo: nat, hi: nat)
    requires MinMaxSyntax.IsMinMaxCall(TrimSpace(seg), lo, hi)
    ensures CheckConstraint(seg, fieldName, value) == MinMax(value, fieldName, lo, hi)
  {
    var stag := TrimSpace(seg);
    assert stag[0] == 'm';
    assert "minmax" <= stag;
    MinMaxSyntax.ParseMinMaxComplete(stag);
  }

  // ---------------------------------------------------------------------------
  // First failure wins
  // ---------------------------------------------------------------------------

  /** The first failure among `rs`, or `Pass` when there is none: how digo's loops return early. */
  function FirstFailure(rs: seq<Outcome>): (r: Outcome)
    ensures r == Pass || r in rs
  {
    if rs == [] then Pass
    else if rs[0] != Pass then rs[0]
    else FirstFailure(rs[1..])
  }

  /** Outcomes that all pass can be skipped: the result is that of the rest. */
  lemma {:induction false} FirstFailureSkipsPassing(rs: seq<Outcome>, i: nat)
    requires i <= |rs|
    requires forall k | 0 <= k < i :: rs[k] == Pass
    ensures FirstFailure(rs) == FirstFailure(rs[i..])
  {
    if i > 0 {
      FirstFailureSkipsPassing(rs[1..], i - 1);
      assert rs[1..][i - 1..] == rs[i..];
    }
  }

  /** After outcomes that all pass, the next one decides: its failure is the result, its pass is skipped. */
  lemma FirstFailureAt(rs: seq<Outcome>, i: nat)
    requires i < |rs|
    requires forall k | 0 <= k < i :: rs[k] == Pass
    ensures rs[i] != Pass ==> FirstFailure(rs) == rs[i]
    ensures rs[i] == Pass ==> FirstFailure(rs) == FirstFailure(rs[i + 1..])
  {
    FirstFailureSkipsPassing(rs, i);
    assert rs[i..][1..] == rs[i + 1..];
  }

  /**
   * The result passes exactly when every outcome passes; a failure is the
   * first failing outcome, all before it passing.
   */
  lemma {:induction false} FirstFailureIsFirst(rs: seq<Outcome>)
    ensures FirstFailure(rs) == Pass <==> forall k | 0 <= k < |rs| :: rs[k] == Pass
    ensures FirstFailure(rs) != Pass ==>
              exists i | 0 <= i < |rs| :: rs[i] == FirstFailure(rs) && forall k | 0 <= k < i :: rs[k] == Pass
  {
    if rs != [] {
      FirstFailureIsFirst(rs[1..]);
      if rs[0] == Pass && FirstFailure(rs) != Pass {
        var i :| 0 <= i < |rs[1..]| && rs[1..][i] == FirstFailure(rs[1..])
                 && forall k | 0 <= k < i :: rs[1..][k] == Pass;
        assert rs[i + 1] == FirstFailure(rs);
        assert forall k | 0 <= k < i + 1 :: rs[k] == Pass by {
          forall k | 0 < k < i + 1 ensures rs[k] == Pass {
            assert rs[k] == rs[1..][k - 1];
          }
        }
      }
      if forall k | 0 <= k < |rs[1..]| :: rs[1..][k] == Pass {
        forall k | 1 <= k < |rs| ensures rs[k] == Pass {
          assert rs[k] == rs[1..][k - 1];
        }
      }
    }
  }

  /** Dropping an outcome that passes changes nothing. */
  lemma {:induction false} FirstFailureDropsPass(rs: seq<Outcome>, k: nat)
    requires k < |rs|
    requires rs[k] == Pass
    ensures FirstFailure(rs[..k] + rs[k + 1..]) == FirstFailure(rs)
  {
    if k == 0 {
      assert rs[..0] + rs[1..] == rs[1..];
    } else {
      FirstFailureDropsPass(rs[1..], k - 1);
      var dropped := rs[..k] + rs[k + 1..];
      assert dropped[0] == rs[0];
      assert dropped[1..] == rs[1..][..k - 1] + rs[1..][k..];
    }
  }

  // ---------------------------------------------------------------------------
  // Constraints, fields, the whole struct
  // ---------------------------------------------------------------------------

  /** The outcome of each constraint segment, in tag order. */
  function ConstraintOutcomes(segs: seq<string>, fieldName: string, value: Bytes): (rs: seq<Outcome>)
    ensures |rs| == |segs|
    ensures forall k | 0 <= k < |rs| :: rs[k] == Pass || rs[k].error.IsConstraintError()
  {
    if segs == [] then []
    else [CheckConstraint(segs[0], fieldName, value)] + ConstraintOutcomes(segs[1..], fieldName, value)
  }

  /** The `k`-th outcome is that of the `k`-th segment. */
  lemma {:induction false} ConstraintOutcomeAt(segs: seq<string>, fieldName: string, value: Bytes, k: nat)
    requires k < |segs|
    ensures ConstraintOutcomes(segs, fieldName, value)[k] == CheckConstraint(segs[k], fieldName, value)
  {
    if k > 0 {
      ConstraintOutcomeAt(segs[1..], fieldName, value, k - 1);
    }
  }

  /** The constraint segments in order (digo.go:95-119); the first failure is the result. */
  function CheckConstraints(segs: seq<string>, fieldName: string, value: Bytes): (r: Outcome)
    ensures r == Pass || r.error.IsConstraintError()
  {
    FirstFailure(ConstraintOutcomes(segs, fieldName, value))
  }

  /** One field (digo.go:62-121): split the tag, check the kind, then the constraints. */
  function CheckField(f: Field): Outcome
  {
    var stags := Split(f.tag, ',');
    if |stags| < 2 then Fail(Incorrect(f.name))
    else
      var fieldName := TrimSpace(stags[0]);
      var r := CheckKind(TrimSpace(stags[1]), fieldName, f.value);
      if r != Pass then r else CheckConstraints(stags[2..], fieldName, f.value)
  }

  /** The outcome of each field, in declaration order. */
  function FieldOutcomes(fields: seq<Field>): (rs: seq<Outcome>)
    ensures |rs| == |fields|
    ensures forall k | 0 <= k < |fields| :: rs[k] == CheckField(fields[k])
  {
    seq(|fields|, k requires 0 <= k < |fields| => CheckField(fields[k]))
  }

  /** The whole pass over the fields in declaration order; the first failure is the result. */
  function Verdict(fields: seq<Field>): Outcome
  {
    FirstFailure(FieldOutcomes(fields))
  }

  // ---------------------------------------------------------------------------
  // The validation loop
  // ---------------------------------------------------------------------------

  /**
   * The body of the loop of `UnmarshalJSON` for one field (digo.go:62-121):
   * split the tag, check the kind, then the constraint segments.
   */
  method ValidateField(f: Field) returns (err: Outcome)
    ensures err == CheckField(f)
  {
    var stags := Split(f.tag, ',');
    if |stags| < 2 {
      return Fail(Incorrect(f.name));
    }
    var fieldName := TrimSpace(stags[0]);
    var fieldType := TrimSpace(stags[1]);
    if "emailfield" <= fieldType {
      err := EmailField(f.value, fieldName);
      if err != Pass {
        return;
      }
    } else if "stringfield" <= fieldType {
    } else {
      return Fail(InvalidType(fieldName));
    }
    err := ValidateConstraints(stags, fieldName, f.value);
  }

  /**
   * The constraint loop (digo.go:95-119): the segments from the third on, in
   * order, returning at the first error.
   */
  method ValidateConstraints(stags: seq<string>, fieldName: string, value: Bytes) returns (err: Outcome)
    requires |stags| >= 2
    ensures err == CheckConstraints(stags[2..], fieldName, value)
  {
    ghost var checks := ConstraintOutcomes(stags[2..], fieldName, value);
    var j := 2;
    while j < |stags|
      invariant 2 <= j <= |stags|
      invariant forall m | 0 <= m < j - 2 :: checks[m] == Pass
    {
      err := ValidateConstraint(stags[j], fieldName, value);
      ConstraintOutcomeAt(stags[2..], fieldName, value, j - 2);
      assert stags[2..][j - 2] == stags[j];
      FirstFailureAt(checks, j - 2);
      if err != Pass {
        return;
      }
      j := j + 1;
    }
    FirstFailureSkipsPassing(checks, j - 2);
    assert checks[j - 2..] == [];
    err := Pass;
  }

  /** One pass of the constraint loop (digo.go:96-117): the trimmed segment is matched by prefix. */
  method ValidateConstraint(seg: string, fieldName: string, value: Bytes) returns (err: Outcome)
    ensures err == CheckConstraint(seg, fieldName, value)
  {
    var stag := TrimSpace(seg);
    if "required" <= stag {
      if value == [] {
        return Fail(Required(fieldName));
      }
    } else if "minmax" <= stag {
      var bounds := MinMaxSyntax.ParseMinMax(stag);
      if bounds.None? {
        return Fail(InvalidMinMaxCall(fieldName));
      }
      return MinMax(value, fieldName, bounds.value.0, bounds.value.1);
    }
    return Pass;
  }

  /**
   * The validation loop of `UnmarshalJSON` (digo.go:61-124) over the decoded
   * fields in declaration order: it returns the first error, and reads the
   * fields without changing them.
   */
  method UnmarshalJSON(fields: seq<Field>) returns (err: Outcome)
    ensures err == Verdict(fields)
  {
    ghost var outcomes := FieldOutcomes(fields);
    var i := 0;
    while i < |fields|
      invariant 0 <= i <= |fields|
      invariant forall k | 0 <= k < i :: outcomes[k] == Pass
    {
      err := ValidateField(fields[i]);
      FirstFailureAt(outcomes, i);
      if err != Pass {
        return;
      }
      i := i + 1;
    }
    FirstFailureSkipsPassing(outcomes, i);
    assert outcomes[i..] == [];
    err := Pass;
  }

  // ---------------------------------------------------------------------------
  // Properties of the pass
  // ---------------------------------------------------------------------------

  /**
   * The pass succeeds exactly when every field passes; when it fails, its
   * error is that of the first failing field.
   */
  lemma VerdictFirstFailure(fields: seq<Field>)
    ensures Verdict(fields) == Pass <==> forall k | 0 <= k < |fields| :: CheckField(fields[k]) == Pass
    ensures Verdict(fields) != Pass ==>
              exists i | 0 <= i < |fields| ::
                && CheckField(fields[i]) == Verdict(fields)
                && forall k | 0 <= k < i :: CheckField(fields[k]) == Pass
  {
    FirstFailureIsFirst(FieldOutcomes(fields));
  }

  /**
   * Within a field the constraints run in order: they pass exactly when each
   * passes, and a failure is that of the first failing segment.
   */
  lemma ConstraintsFirstFailure(segs: seq<string>, fieldName: string, value: Bytes)
    ensures CheckConstraints(segs, fieldName, value) == Pass <==>
              forall k | 0 <= k < |segs| :: CheckConstraint(segs[k], fieldName, value) == Pass
    ensures CheckConstraints(segs, fieldName, value) != Pass ==>
              exists i | 0 <= i < |segs| ::
                && CheckConstraint(segs[i], fieldName, value) == CheckConstraints(segs, fieldName, value)
                && forall k | 0 <= k < i :: CheckConstraint(segs[k], fieldName, value) == Pass
  {
    var rs := ConstraintOutcomes(segs, fieldName, value);
    FirstFailureIsFirst(rs);
    forall k | 0 <= k < |segs| ensures rs[k] == CheckConstraint(segs[k], fieldName, value) {
      ConstraintOutcomeAt(segs, fieldName, value, k);
    }
  }

  /** Removing a segment that is ignored does not change the outcome of the constraints. */
  lemma IgnoredSegmentHasNoEffect(segs: seq<string>, k: nat, fieldName: string, value: Bytes)
    requires k < |segs|
    requires Ignored(segs[k])
    ensures CheckConstraints(segs[..k] + segs[k + 1..], fieldName, value) == CheckConstraints(segs, fieldName, value)
  {
    var rs := ConstraintOutcomes(segs, fieldName, value);
    ConstraintOutcomeAt(segs, fieldName, value, k);
    FirstFailureDropsPass(rs, k);
    var kept := segs[..k] + segs[k + 1..];
    var ks := ConstraintOutcomes(kept, fieldName, value);
    forall m | 0 <= m < |kept| ensures ks[m] == (rs[..k] + rs[k + 1..])[m] {
      ConstraintOutcomeAt(kept, fieldName, value, m);
      if m < k {
        assert kept[m] == segs[m];
        ConstraintOutcomeAt(segs, fieldName, value, m);
      } else {
        assert kept[m] == segs[m + 1];
        ConstraintOutcomeAt(segs, fieldName, value, m + 1);
      }
    }
    assert ks == rs[..k] + rs[k + 1..];
  }

  /**
   * A tag without a comma (an absent or empty tag included) is refused with
   * the Go field name, and only such a tag is.
   */
  lemma TagWithoutComma(f: Field)
    ensures CheckField(f) == Fail(Incorrect(f.name)) <==> ',' !in f.tag
  {
    SplitAtLeastTwo(f.tag, ',');
  }

  /**
   * Once the tag has two segments, a kind starting with neither `emailfield`
   * nor `stringfield` is refused with the JSON name, whatever the constraints
   * and the value; and that is the only way to get this error.
   */
  lemma UnknownKindRefused(f: Field)
    requires |Split(f.tag, ',')| >= 2
    ensures var stags := Split(f.tag, ',');
            var kind := TrimSpace(stags[1]);
            CheckField(f) == Fail(InvalidType(TrimSpace(stags[0]))) <==>
              !("emailfield" <= kind) && !("stringfield" <= kind)
  {
    SplitAtLeastTwo(f.tag, ',');
  }

  /**
   * An `emailfield` field fails with the email error exactly when its value
   * contains no match of EMAIL_REG, and otherwise goes on to its constraints.
   */
  lemma EmailKindChecked(f: Field)
    requires |Split(f.tag, ',')| >= 2
    requires "emailfield" <= TrimSpace(Split(f.tag, ',')[1])
    ensures var stags := Split(f.tag, ',');
            var fieldName := TrimSpace(stags[0]);
            && (CheckField(f) == Fail(InvalidEmail(fieldName)) <==> !Email.ContainsMatch(f.value))
            && (Email.ContainsMatch(f.value) ==> CheckField(f) == CheckConstraints(stags[2..], fieldName, f.value))
  {
    SplitAtLeastTwo(f.tag, ',');
  }

  /** A `stringfield` field puts no demand of its own on the value: only its constraints count. */
  lemma StringKindUnchecked(f: Field)
    requires |Split(f.tag, ',')| >= 2
    requires "stringfield" <= TrimSpace(Split(f.tag, ',')[1])
    ensures var stags := Split(f.tag, ',');
            CheckField(f) == CheckConstraints(stags[2..], TrimSpace(stags[0]), f.value)
  {
    SplitAtLeastTwo(f.tag, ',');
    var kind := TrimSpace(Split(f.tag, ',')[1]);
    assert kind[0] == 's';
  }

  /** A tag of exactly two segments checks the kind and nothing else. */
  lemma TwoSegmentTagChecksKindOnly(f: Field)
    requires |Split(f.tag, ',')| == 2
    ensures var stags := Split(f.tag, ',');
            CheckField(f) == CheckKind(TrimSpace(stags[1]), TrimSpace(stags[0]), f.value)
  {
  }

  /**
   * Appending an ignored segment to a tag, such as the empty segment a
   * trailing comma leaves, does not change the field's outcome.
   */
  lemma AppendIgnoredSegment(f: Field, seg: string)
    requires ',' in f.tag
    requires ',' !in seg
    requires Ignored(seg)
    ensures CheckField(f.(tag := f.tag + [','] + seg)) == CheckField(f)
  {
    var stags := Split(f.tag, ',');
    SplitAtLeastTwo(f.tag, ',');
    SplitConcat(f.tag, ',', seg);
    SplitNoSeparator(seg, ',');
    var stags' := Split(f.tag + [','] + seg, ',');
    assert stags' == stags + [seg];
    var fieldName := TrimSpace(stags[0]);
    var segs := stags[2..];
    assert stags'[0] == stags[0] && stags'[1] == stags[1];
    assert stags'[2..] == segs + [seg];
    IgnoredSegmentHasNoEffect(segs + [seg], |segs|, fieldName, f.value);
    assert (segs + [seg])[..|segs|] + (segs + [seg])[|segs| + 1..] == segs;
    assert CheckConstraints(stags'[2..], fieldName, f.value) == CheckConstraints(segs, fieldName, f.value);
  }

}
