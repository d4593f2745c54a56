/**
 * The situations digo_test.go exercises, replayed on the model: each lemma
 * fixes one struct (its field name, `digo` tag and decoded value) and states
 * the outcome of the validation pass and, for a failure, the error text.
 *
 * Where the tests expect a behaviour the code does not have (the `intfield`
 * kind), the lemma states what digo.go does.
 */
module Scenarios {
  import opened Options
  import opened Text
  import opened Digo
  import Email
  import MinMaxSyntax

  // ---------------------------------------------------------------------------
  // Taking literal tags apart
  // ---------------------------------------------------------------------------

  lemma SplitTwo(a: string, b: string)
    requires ',' !in a && ',' !in b
    ensures Split(a + [','] + b, ',') == [a, b]
  {
    SplitConcat(a, ',', b);
    SplitNoSeparator(a, ',');
    SplitNoSeparator(b, ',');
  }

  lemma SplitThree(a: string, b: string, c: string)
    requires ',' !in a && ',' !in b && ',' !in c
    ensures Split(a + [','] + b + [','] + c, ',') == [a, b, c]
  {
    SplitConcat(a + [','] + b, ',', c);
    SplitTwo(a, b);
    SplitNoSeparator(c, ',');
  }

  /** A tag segment written without a comma and without white space at either end. */
  predicate Bare(m: string) {
    ',' !in m && m != [] && !IsSpace(m[0]) && !IsSpace(m[|m| - 1])
  }

  /** A bare segment is its own trim. */
  lemma Trimmed(m: string)
    requires Bare(m)
    ensures TrimSpace(m) == m
  {
    assert [] + m + [] == m;
    TrimSpaceExact([], m, []);
  }

  /** A tag `<name>,<kind>` checks the kind under that name and nothing else. */
  lemma TwoSegmentField(goName: string, name: string, kind: string, value: Bytes)
    requires Bare(name) && Bare(kind)
    ensures CheckField(Field(goName, name + [','] + kind, value)) == CheckKind(kind, name, value)
  {
    SplitTwo(name, kind);
    Trimmed(name);
    Trimmed(kind);
  }

  /** A tag `<name>,<kind>,<constraint>` checks the kind, then the one constraint. */
  lemma ThreeSegmentField(goName: string, name: string, kind: string, seg: string, value: Bytes)
    requires Bare(name) && Bare(kind) && ',' !in seg
    ensures var f := Field(goName, name + [','] + kind + [','] + seg, value);
            var r := CheckKind(kind, name, value);
            CheckField(f) == if r != Pass then r else CheckConstraint(seg, name, value)
  {
    SplitThree(name, kind, seg);
    Trimmed(name);
    Trimmed(kind);
    assert ConstraintOutcomes([seg], name, value) == [CheckConstraint(seg, name, value)];
  }

  /** The segments the tags below are made of. */
  lemma NamesAreBare()
    ensures Bare("email") && Bare("name") && Bare("uid")
  {
  }

  lemma KindsAreBare()
    ensures Bare("emailfield()") && Bare("stringfield()") && Bare("intfield()")
  {
  }

  lemma ConstraintsAreBare()
    ensures Bare("required()") && Bare("minmax(2|5)")
  {
  }

  /** A field that is the only one of its struct gives the pass its outcome. */
  lemma SingleField(f: Field)
    ensures Verdict([f]) == CheckField(f)
  {
    assert FieldOutcomes([f]) == [CheckField(f)];
  }

  /** The bytes of `toto`, which hold no `@`. */
  lemma TotoHasNoAddress()
    ensures !Email.ContainsMatch(Toto)
  {
    var v := Toto;
    assert forall k | 0 <= k < |v| :: v[k] != Email.AT;
    Email.NoAtNoMatch(v);
  }

  /** `toto@gmail.com` matches EMAIL_REG in full: local part `toto`, domain `gmail`, top-level `com`. */
  lemma GmailAddressMatches()
    ensures Email.ContainsMatch(TotoAtGmail)
  {
    GmailBytes();
    var v := TotoAtGmail;
    assert Email.MatchSpan(v, 0, 4, 10, 14);
    Email.SpanContainsMatch(v, 0, 4, 10, 14);
  }

  /** The bytes of `toto@gmail.com`. */
  lemma GmailBytes()
    ensures TotoAtGmail == [116, 111, 116, 111, 64, 103, 109, 97, 105, 108, 46, 99, 111, 109]
  {
  }

  /** `minmax(2|5)` matches MINMAX_REG with bounds 2 and 5. */
  lemma MinMaxTwoFive()
    ensures MinMaxSyntax.ParseMinMax("minmax(2|5)") == Some((2, 5))
  {
    var seg := "minmax(2|5)";
    assert seg[7..8] == "2" && seg[9..10] == "5";
    assert MinMaxSyntax.DecimalValue("2") == 2 by {
      assert "2"[..0] == [];
    }
    assert MinMaxSyntax.DecimalValue("5") == 5 by {
      assert "5"[..0] == [];
    }
    assert MinMaxSyntax.SpacedNumber(seg, 7, 8, 2);
    assert MinMaxSyntax.SpacedNumber(seg, 9, 10, 5);
    assert MinMaxSyntax.MinMaxSplit(seg, 8, 10, 2, 5);
    MinMaxSyntax.ParseMinMaxCorrect(seg, 2, 5);
  }

  /** A lone `<name>,emailfield()` field whose value holds an address passes. */
  lemma EmailFieldAccepts(goName: string, name: string, value: Bytes)
    requires Bare(name) && Email.ContainsMatch(value)
    ensures Verdict([Field(goName, name + "," + "emailfield()", value)]) == Pass
  {
    KindsAreBare();
    TwoSegmentField(goName, name, "emailfield()", value);
    SingleField(Field(goName, name + "," + "emailfield()", value));
  }

  // ---------------------------------------------------------------------------
  // The structs of the tests
  // ---------------------------------------------------------------------------

  // The tags, written segment by segment.
  const EmailTag: string := "email" + "," + "emailfield()"
  const NoKindTag: string := "name" + "," + " required()"
  const RequiredTag: string := "name" + "," + "stringfield()" + "," + "required()"
  const IntTag: string := "uid" + "," + "intfield()"
  const MinMaxTag: string := "name" + "," + "stringfield()" + "," + "minmax(2|5)"

  // The values.
  const Toto: Bytes := AsciiBytes("toto")
  const TotoAtGmail: Bytes := AsciiBytes("toto@gmail.com")

  /** `{"email":"toto"}` into `Email string` tagged `email,emailfield()`: no address in the value. */
  lemma EmailWithoutAddressRefused()
    ensures Verdict([Field("Email", EmailTag, Toto)]) == Fail(InvalidEmail("email"))
  {
    var v := Toto;
    NamesAreBare();
    KindsAreBare();
    TwoSegmentField("Email", "email", "emailfield()", v);
    TotoHasNoAddress();
    SingleField(Field("Email", EmailTag, v));
  }

  /** `{"email":"toto@gmail.com"}` into the same struct passes. */
  lemma EmailWithAddressAccepted()
    ensures Verdict([Field("Email", EmailTag, TotoAtGmail)]) == Pass
  {
    GmailAddressMatches();
    NamesAreBare();
    EmailFieldAccepts("Email", "email", TotoAtGmail);
  }

  /** A tag `name, required()`: the second segment is not a kind, so the field is refused. */
  lemma MissingKindRefused()
    ensures Verdict([Field("Name", NoKindTag, Toto)]) == Fail(InvalidType("name"))
  {
    var f := Field("Name", NoKindTag, Toto);
    SplitTwo("name", " required()");
    NamesAreBare();
    Trimmed("name");
    assert " required()" == " " + "required()" + [];
    TrimSpaceExact(" ", "required()", []);
    SingleField(f);
  }

  /** An empty value (the key absent from the JSON, or `""`) under `required()`. */
  lemma RequiredEmptyRefused()
    ensures Verdict([Field("Name", RequiredTag, [])]) == Fail(Required("name"))
  {
    NamesAreBare();
    KindsAreBare();
    ThreeSegmentField("Name", "name", "stringfield()", "required()", []);
    ConstraintsAreBare();
    Trimmed("required()");
    SingleField(Field("Name", RequiredTag, []));
  }

  /** `intfield()` is not a kind digo.go knows: the field is refused as an invalid digo type. */
  lemma IntFieldRefused()
    ensures Verdict([Field("Uid", IntTag, Toto)]) == Fail(InvalidType("uid"))
  {
    var v := Toto;
    NamesAreBare();
    KindsAreBare();
    TwoSegmentField("Uid", "uid", "intfield()", v);
    SingleField(Field("Uid", IntTag, v));
  }

  /** `"toto"` under `minmax(2|5)`: four bytes lie within the bounds. */
  lemma MinMaxWithinBoundsAccepted()
    ensures Verdict([Field("Name", MinMaxTag, Toto)]) == Pass
  {
    var v := Toto;
    NamesAreBare();
    KindsAreBare();
    ThreeSegmentField("Name", "name", "stringfield()", "minmax(2|5)", v);
    ConstraintsAreBare();
    Trimmed("minmax(2|5)");
    MinMaxTwoFive();
    SingleField(Field("Name", MinMaxTag, v));
  }

  /** A field without a `digo` tag reads as an empty tag and is refused under its Go name. */
  lemma UntaggedFieldRefused()
    ensures Verdict([Field("Name", "", Toto)]) == Fail(Incorrect("Name"))
  {
    SingleField(Field("Name", "", Toto));
  }

  // ---------------------------------------------------------------------------
  // The texts the tests compare against
  // ---------------------------------------------------------------------------

  lemma InvalidEmailText()
    ensures InvalidEmail("email").Message() == "field: email is not a valid email address"
  {
  }

  lemma InvalidTypeText()
    ensures InvalidType("name").Message() == "field: name invalid digo type"
  {
  }

  lemma RequiredText()
    ensures Required("name").Message() == "field: name is required"
  {
  }

}
