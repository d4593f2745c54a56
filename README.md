# digo validation pass, modelled in Dafny

digo decodes JSON into a Go struct and then validates the struct's fields against their `digo` struct
tags. A tag reads `<json name>, <kind>(), <constraint>(), ...`. The kind is one of two:

- `emailfield`: the value must contain an email address matching `EMAIL_REG`.
- `stringfield`: no check of its own.

The constraints are also two:

- `required`: the value must not be empty.
- `minmax(<min>|<max>)`: the value's length in bytes must lie in `[min, max]`. The segment is read with `MINMAX_REG`.

Fields are checked in declaration order. Within a field, the kind is checked first, then the constraints in tag order. The first error
ends the pass and is its result.

This project models that validation pass, starting from the already-decoded struct. The struct is an ordered
sequence of `Field(name, tag, value)`: the Go field name, the `digo` tag, and the string value as
bytes.

- `text.dfy` (module `Text`): bytes, and Go's `strings.Split` on one character, with
  `strings.Join` as its inverse. Also `strings.TrimSpace` with `unicode.IsSpace`.
- `email.dfy` (module `Email`): two definitions of `EMAIL_REG`.
  - A declarative reading of the pattern: `MatchSpan`, `FullMatch`, and `ContainsMatch` for the
    unanchored search that Go's `MatchString` performs.
  - A computable scan, `HasMatch`, that looks for an `@` with a valid local part before it and a valid
    domain after it.

  `HasMatchCorrect` proves that the two agree.
- `minmax.dfy` (module `MinMaxSyntax`): the grammar `^minmax\(\s*(\d+)\s*\|\s*(\d+)\s*\)`, which anchors
  only the start.
  - `IsMinMaxCall` is the declarative reading. `ParseMinMax` is a hand-written parser that returns the two
    captured numbers.
  - `ParseMinMaxCorrect` proves the parser returns `(lo, hi)` exactly when the segment matches with those
    captures.
- `digo.dfy` (module `Digo`) holds the validation pass itself.
  - The errors, one constructor per `errors.New` of the validation pass, each with its exact message text.
  - The functions `EmailField` and `MinMax`, and the check functions `CheckKind`, `CheckConstraint`, `CheckField` and
    `Verdict` that specify the pass.
  - The loops of `UnmarshalJSON` as methods. Each loop carries the invariant that every earlier element passed.
    Each method is proved equal to its specification function.
- `scenarios.dfy` (module `Scenarios`): the structs and JSON payloads of `digo_test.go`, replayed
  on the model.
- `options.dfy`: the `Option` datatype.

## Model

| member | source | states |
|---|---|---|
| Digo.UnmarshalJSON | digo.go:61-124 | the loop over the fields returns the first error in declaration order, or success: its result equals `Verdict(fields)` |
| Digo.ValidateField | digo.go:62-92 | one field: a tag with fewer than two segments is refused with the Go field name, the trimmed second segment picks the kind by prefix, then the constraints run; the result equals `CheckField(f)` |
| Digo.ValidateConstraints | digo.go:90-119 | the loop over `stags[2:]` returns the first failing constraint, or success; its result equals `CheckConstraints(stags[2..], ...)` |
| Digo.ValidateConstraint | digo.go:96-117 | one trimmed segment matched by prefix: `required`, `minmax` (parsed, then checked by `minMax`), or ignored; the result equals `CheckConstraint` |
| Digo.EmailField | digo.go:21-29 | passes exactly when some substring of the value matches `EMAIL_REG`; otherwise fails with "field: <name> is not a valid email address" |
| Digo.MinMax | digo.go:31-44 | passes exactly when `min <= len <= max`; "is too short" exactly when `len < min`; "is too long" exactly when `len >= min` and `len > max` (the lower bound is tested first) |
| Digo.MinMaxCrossedBoundsRejectAll | digo.go:37-43 | with `max < min` no value passes `minMax` |
| Digo.CheckConstraint | digo.go:96-117 | a constraint segment either passes or fails with one of the four constraint errors (never a kind or tag error) |
| Digo.RequiredSegment | digo.go:97-101 | a segment starting with `required` passes exactly when the value is non-empty, and its only error is "field: <name> is required" |
| Digo.MinMaxSegmentMalformed | digo.go:102-110 | a segment starting with `minmax` fails with "minmax invalid call" exactly when it matches `MINMAX_REG` for no bounds at all |
| Digo.MinMaxSegmentBounds | digo.go:106-115 | a segment matching `MINMAX_REG` with captures `lo`, `hi` gives exactly `minMax(value, name, lo, hi)` |
| Digo.FirstFailure | digo.go:61-124 | an early-returning loop's result is success or one of the outcomes it met |
| Digo.FirstFailureIsFirst | digo.go:61-124 | an early-returning loop succeeds iff every step passes; otherwise its error is the outcome of some step all of whose predecessors passed |
| Digo.FirstFailureDropsPass | digo.go:95-119 | removing a passing step from an early-returning loop leaves its result unchanged |
| Digo.ConstraintOutcomes | digo.go:95-117 | one outcome per segment, each a pass or a constraint error |
| Digo.CheckConstraints | digo.go:95-119 | the constraint loop's result is a pass or a constraint error |
| Digo.VerdictFirstFailure | digo.go:61-124 | the pass succeeds iff every field passes; a failure is the error of the first failing field, all fields before it passing |
| Digo.ConstraintsFirstFailure | digo.go:95-119 | the constraints pass iff each segment passes; a failure is the error of the first failing segment |
| Digo.IgnoredSegmentHasNoEffect | digo.go:95-117 | deleting a segment that starts with neither `required` nor `minmax` after trimming does not change the constraints' result |
| Digo.AppendIgnoredSegment | digo.go:72-117 | appending `,<seg>` to a tag that already holds a comma, for an ignored `seg` without a comma (the empty segment of a trailing comma included), leaves the field's result unchanged |
| Digo.TagWithoutComma | digo.go:72-76 | a field fails with "field: <Go field name> is incorrect" exactly when its tag has no comma (an absent or empty tag included) |
| Digo.UnknownKindRefused | digo.go:77-88 | with two or more segments, a field fails with "field: <json name> invalid digo type" exactly when the trimmed kind starts with neither `emailfield` nor `stringfield` |
| Digo.EmailKindChecked | digo.go:80-83 | an `emailfield` field fails with the email error exactly when its value holds no match of `EMAIL_REG`; when it holds one, the result is that of its constraints |
| Digo.StringKindUnchecked | digo.go:84-85 | a `stringfield` field's result is that of its constraints alone |
| Digo.TwoSegmentTagChecksKindOnly | digo.go:90-92 | a tag of exactly two segments checks the kind and runs no constraint |
| Email.HasMatchCorrect | digo.go:13 | the scan `HasMatch` succeeds exactly when some substring of the value matches `\w[-._\w]*\w@\w[-._\w]*\w\.\w{2,3}` |
| Email.MatchesAroundSound | digo.go:13 | an `@` with a valid local part before it and a valid domain, `.`, and two word bytes after it is a match of the pattern |
| Email.FullMatchFound | digo.go:13 | every match of the pattern has an `@` that the scan finds |
| Email.MatchHasAt | digo.go:13 | every value holding a match holds an `@` |
| Email.NoAtNoMatch | digo.go:13 | a value without `@` (such as `toto`) never matches |
| Email.SpanContainsMatch | digo.go:25 | a whole match at known indices makes the unanchored search succeed |
| Email.TopLevelTwoSuffices | digo.go:13 | because the search is unanchored, every match can be cut back to one whose top-level part is exactly two word bytes: the `{2,3}` upper bound rejects nothing |
| MinMaxSyntax.ParseMinMaxCorrect | digo.go:14 | the hand parser returns `(lo, hi)` exactly when the segment matches `^minmax\(\s*(\d+)\s*\|\s*(\d+)\s*\)` with captures denoting `lo` and `hi` |
| MinMaxSyntax.ParseMinMaxSound | digo.go:14 | whatever the parser accepts matches the pattern with the bounds it returns |
| MinMaxSyntax.ParseMinMaxComplete | digo.go:14 | every segment matching the pattern is accepted, with its captured bounds |
| MinMaxSyntax.MinMaxBoundsUnique | digo.go:14 | a segment cannot match the pattern with two different pairs of captures |
| MinMaxSyntax.NumberAtSound | digo.go:14 | what `NumberAt` reads is `\s*(\d+)\s*`, with the digits' decimal value |
| MinMaxSyntax.NumberAtComplete | digo.go:14 | a `\s*(\d+)\s*` followed by neither space nor digit is read whole by `NumberAt` |
| MinMaxSyntax.SkipSpaces | digo.go:14 | the index returned ends the maximal run of `\s` |
| MinMaxSyntax.SkipDigits | digo.go:14 | the index returned ends the maximal run of `\d` |
| Text.Split | digo.go:72 | `strings.Split` gives at least one piece, and no piece holds the separator |
| Text.JoinSplit | digo.go:72 | joining the pieces of a split with the separator gives the tag back |
| Text.SplitJoin | digo.go:72 | splitting pieces joined with the separator gives the pieces back, when none holds the separator |
| Text.SplitConcat | digo.go:72 | splitting `a + "," + b` is splitting `a` then `b` |
| Text.SplitAtLeastTwo | digo.go:72-74 | a tag splits into two or more segments exactly when it holds a comma |
| Text.TrimSpace | digo.go:77-78 | the trimmed segment is no longer than the segment, and is empty or neither starts nor ends with white space |
| Text.TrimSpaceInfix | digo.go:77-78 | the trimmed segment is the segment with white space removed from both ends only |
| Text.TrimSpaceExact | digo.go:77-78 | white space, then `m`, then white space trims to exactly `m` when `m` has no white space at either end |
| Text.TrimSpaceIdempotent | digo.go:77-78 | trimming twice is trimming once |
| Scenarios.EmailWithoutAddressRefused | digo_test.go:13-20 | `{"email":"toto"}` into `email,emailfield()` fails with the email error for `email` |
| Scenarios.EmailWithAddressAccepted | digo_test.go:21-24 | `{"email":"toto@gmail.com"}` into the same struct passes |
| Scenarios.EmailFieldAccepts | digo.go:80-92 | a lone `<name>,emailfield()` field whose value holds a match passes |
| Scenarios.MissingKindRefused | digo_test.go:39-49 | the tag `name, required()` is refused with "field: name invalid digo type" |
| Scenarios.RequiredEmptyRefused | digo_test.go:58-70 | an absent or empty `name` under `name,stringfield(),required()` fails with "field: name is required" |
| Scenarios.IntFieldRefused | digo.go:86-87 | `uid,intfield()` is refused as an invalid digo type, since the code has no `intfield` kind |
| Scenarios.MinMaxTwoFive | digo.go:14 | `minmax(2\|5)` parses to the bounds 2 and 5 |
| Scenarios.MinMaxWithinBoundsAccepted | digo_test.go:104-113 | `"toto"` under `name,stringfield(),minmax(2\|5)` passes |
| Scenarios.UntaggedFieldRefused | digo.go:72-76 | a field with no `digo` tag fails with "field: <Go field name> is incorrect" |
| Scenarios.InvalidEmailText | digo_test.go:20 | the email error of `email` reads "field: email is not a valid email address" |
| Scenarios.InvalidTypeText | digo_test.go:47 | the kind error of `name` reads "field: name invalid digo type" |
| Scenarios.RequiredText | digo_test.go:66 | the required error of `name` reads "field: name is required" |
| Scenarios.TwoSegmentField | digo.go:72-92 | a tag `<name>,<kind>` of bare segments checks that kind under that name and nothing else |
| Scenarios.ThreeSegmentField | digo.go:72-117 | a tag `<name>,<kind>,<constraint>` checks the kind, then the one constraint |

## Left out

- `json.Unmarshal` and its error (digo.go:47-51): the decoded struct is the model's input.
- Reflection. The pointer-to-struct check (digo.go:53-57) and the walk over fields and tags (digo.go:61-64)
  become the explicit sequence of `Field(name, tag, value)`. A field without a `digo` tag is a field whose tag is empty,
  as `reflect.StructTag.Get` returns.
- Unexported struct fields. The `log.Printf` at digo.go:66-70 evaluates `vf.Interface()` for every field before its
  tag is read. reflect panics on that call for an unexported field. The field sequence of the model stands for
  exported fields only. For a struct with an unexported field, the source panics at digo.go:69 when it reaches that
  field, while the model would go on to check the field's tag.
- Non-string fields.
  - The `.(string)` assertions panic on a field that is not a string: digo.go:81 for `emailfield`, digo.go:99 for
    `required`.
  - `minMax` takes `reflect.Value.Len` (digo.go:37). That works on strings and also on slices, arrays, maps and
    channels, so a field of such a type under `stringfield` is validated by `minmax` on its number of elements. For
    example, an empty `[]string` under `tags,stringfield(),minmax(1|3)` fails with "field: tags is too short".
  - `Len` panics on the other types, such as `int`.

  The model's values are byte strings only. It represents neither the panics nor the element-count checks of
  non-string fields.
- The other logging calls (digo.go:93, 98, 107, 121) only write output.
- The lazy initialisation of the package-level compiled patterns (digo.go:16-19, 22-24, 103-105). It has no effect on the
  result. The patterns are the predicates and the parser above.
- `strconv.Atoi` clamping of digit strings too long for `int` (digo.go:111-112). Bounds are unbounded naturals.
- Lengths are byte lengths, as Go's `len` on a string is. Values are byte sequences, and no Unicode meaning is
  claimed for them. Tags are strings of characters, trimmed with Go's white-space set.
- Behaviour that `digo_test.go` expects but `digo.go` does not implement is not modelled; the model follows the code:
  - the `intfield` kind with its "is not an integer" and "is too big" messages (digo_test.go:73-95, 115-127);
  - the type-mismatch messages "is not a string" and "struct: X is not a string" (digo_test.go:26-36).

  `intfield()` is refused as "invalid digo type", as `Scenarios.IntFieldRefused` states.
- Digo.UnmarshalJSON: validation never changes a field. The model holds that by construction: the fields are an
  immutable sequence, and the method has no `modifies` clause.
- Digo.UnmarshalJSON: the source's single function with two nested loops is split into three methods:
  - `ValidateField` for the body of the field loop;
  - `ValidateConstraints` for the constraint loop;
  - `ValidateConstraint` for one pass of it.

  Each method is proved equal to its specification function. `ValidateField` and `ValidateConstraint` have no loop
  of their own. They repeat the branches of `CheckField` and `CheckConstraint` on purpose, as the imperative code that
  the functions specify. The split keeps each proof small: the branches of the loop body and the inner loop are
  verified apart.
