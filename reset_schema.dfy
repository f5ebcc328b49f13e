/**
  The validation rule set of the password-reset form.

  The schema is an object with two string fields. The `password` field has a
  minimum-length rule; `confirmPassword` has no rule of its own. A refinement
  on the whole object requires the two fields to be equal and reports its
  failure on `confirmPassword`. A failed length rule does not stop the
  refinement from running, so both failures can be reported together.

  The form's resolver turns the list of issues into a map from field to
  message, keeping the first issue reported on each field.
*/
module ResetSchema {

  /** The two inputs of the form. */
  datatype Field = Password | ConfirmPassword

  /** The values held by the form. Lengths count characters. */
  datatype Values = Values(password: string, confirmPassword: string)

  const MinPasswordLength: nat := 8
  const TooShortMessage: string := "Password must be at least 8 characters long."
  const MismatchMessage: string := "Passwords don't match"

  /** The values the form starts with: both fields empty. */
  const DefaultValues: Values := Values("", "")

  /** A failed rule: the field it is reported on and its message. */
  datatype Issue = Issue(path: Field, message: string)

  /** The object's own field rules: only `password` has one. */
  function FieldIssues(v: Values): seq<Issue> {
    if |v.password| < MinPasswordLength then [Issue(Password, TooShortMessage)] else []
  }

  /** The cross-field refinement, reported on `confirmPassword`. */
  function RefineIssues(v: Values): seq<Issue> {
    if v.password != v.confirmPassword then [Issue(ConfirmPassword, MismatchMessage)] else []
  }

  /** Every issue of a parse, field rules first, then the refinement. */
  function Issues(v: Values): seq<Issue> {
    FieldIssues(v) + RefineIssues(v)
  }

  /** Issue `i` is the first one reported on its field. */
  predicate FirstOnPath(issues: seq<Issue>, i: nat)
    requires i < |issues|
  {
    forall j :: 0 <= j < i ==> issues[j].path != issues[i].path
  }

  /**
    The resolver's error map: a field has an entry exactly when some issue is
    reported on it, and the entry is the message of the first such issue.
  */
  function ToErrorMap(issues: seq<Issue>): (errs: map<Field, string>)
    ensures forall f :: f in errs <==> exists i :: 0 <= i < |issues| && issues[i].path == f
    ensures forall i :: 0 <= i < |issues| && FirstOnPath(issues, i) ==>
              issues[i].path in errs && errs[issues[i].path] == issues[i].message
  {
    if issues == [] then map[]
    else
      var rest := ToErrorMap(issues[1..]);
      assert forall i :: 1 <= i < |issues| ==> issues[i] == issues[1..][i - 1];
      rest[issues[0].path := issues[0].message]
  }

  /**
    The field errors for the given values: `password` fails exactly when it is
    shorter than eight characters, `confirmPassword` fails exactly when the
    two fields differ, whatever the length of either.
  */
  function Validate(v: Values): (errs: map<Field, string>)
    ensures Password in errs <==> |v.password| < MinPasswordLength
    ensures Password in errs ==> errs[Password] == TooShortMessage
    ensures ConfirmPassword in errs <==> v.password != v.confirmPassword
    ensures ConfirmPassword in errs ==> errs[ConfirmPassword] == MismatchMessage
  {
    var issues := Issues(v);
    assert |v.password| < MinPasswordLength ==> issues[0] == Issue(Password, TooShortMessage);
    assert v.password != v.confirmPassword ==>
      issues[|issues| - 1] == Issue(ConfirmPassword, MismatchMessage)
      && FirstOnPath(issues, |issues| - 1);
    ToErrorMap(issues)
  }

  /** The values pass the schema: the error map is empty. */
  predicate IsValid(v: Values) {
    Validate(v) == map[]
  }

  /** The values pass exactly when the password is long enough and both fields agree. */
  lemma ValidIff(v: Values)
    ensures IsValid(v) <==> |v.password| >= MinPasswordLength && v.password == v.confirmPassword
  {
    var errs := Validate(v);
    if |v.password| >= MinPasswordLength && v.password == v.confirmPassword {
      assert forall f :: f !in errs by {
        forall f ensures f !in errs {
          match f
          case Password =>
          case ConfirmPassword =>
        }
      }
      assert errs.Keys == {};
    } else if |v.password| < MinPasswordLength {
      assert Password in errs;
    } else {
      assert ConfirmPassword in errs;
    }
  }

  /** The mismatch message is never attached to `password`. */
  lemma MismatchOnlyOnConfirm(v: Values)
    ensures Password in Validate(v) ==> Validate(v)[Password] != MismatchMessage
    ensures MismatchMessage in Validate(v).Values ==> ConfirmPassword in Validate(v)
  {
    assert TooShortMessage[8] != MismatchMessage[8];
  }

  /** `confirmPassword` has no length rule: equal fields never fail there, even when empty. */
  lemma ConfirmHasNoLengthRule(c: string)
    ensures ConfirmPassword !in Validate(Values(c, c))
    ensures IsValid(Values(c, c)) <==> |c| >= MinPasswordLength
  {
    ValidIff(Values(c, c));
  }

  /** The form's default values do not pass, so its first submit never reaches the handler. */
  lemma DefaultValuesInvalid()
    ensures !IsValid(DefaultValues)
    ensures Validate(DefaultValues) == map[Password := TooShortMessage]
  {
    var errs := Validate(DefaultValues);
    assert errs.Keys == {Password} by {
      forall f ensures f in errs <==> f == Password {
        match f
        case Password =>
        case ConfirmPassword =>
      }
    }
  }

  /** A short pair that agrees fails only on `password`. */
  lemma ShortMatchingPair()
    ensures Validate(Values("short", "short")) == map[Password := TooShortMessage]
  {
    var errs := Validate(Values("short", "short"));
    assert errs.Keys == {Password} by {
      forall f ensures f in errs <==> f == Password {
        match f
        case Password =>
        case ConfirmPassword =>
      }
    }
  }

  /** A long pair that differs fails only on `confirmPassword`. */
  lemma LongMismatchingPair()
    ensures Validate(Values("longenough1", "longenough2")) == map[ConfirmPassword := MismatchMessage]
  {
    var v := Values("longenough1", "longenough2");
    assert v.password != v.confirmPassword by { assert v.password[10] != v.confirmPassword[10]; }
    var errs := Validate(v);
    assert errs.Keys == {ConfirmPassword} by {
      forall f ensures f in errs <==> f == ConfirmPassword {
        match f
        case Password =>
        case ConfirmPassword =>
      }
    }
  }

  /** A short pair that differs fails on both fields: the refinement still runs after the length rule fails. */
  lemma ShortMismatchingPair()
    ensures Validate(Values("short", "shorter")) ==
              map[Password := TooShortMessage, ConfirmPassword := MismatchMessage]
  {
    var v := Values("short", "shorter");
    assert v.password != v.confirmPassword by { assert |v.password| != |v.confirmPassword|; }
    var errs := Validate(v);
    assert errs.Keys == {Password, ConfirmPassword} by {
      forall f ensures f in errs {
        match f
        case Password =>
        case ConfirmPassword =>
      }
    }
  }
}
