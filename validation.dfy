/**
 * The Bean Validation constraints declared on `Employee` and the custom `@NotEmptyLocalDate`
 * constraint, as predicates, and the field errors a binding of an `Employee` collects.
 */
module Validation {
  import opened Wrappers
  import opened Dates
  import opened Employees

  const ContainLettersMessage: string := "Field must contain only letters"
  const NotBlankMessage: string := "must not be blank"
  const IdMinMessage: string := "Id must be bigger than 0"
  const PastOrPresentMessage: string := "must be a date in the past or in the present"
  const NotEmptyLocalDateMessage: string := "Date cannot be null or empty"

  /** Java's regex class `\s`: space, tab, newline, vertical tab, form feed, carriage return. */
  predicate IsRegexSpace(c: char) {
    c == ' ' || c == '\t' || c == '\n' || c as int == 0x0B || c as int == 0x0C || c == '\r'
  }

  /** One character of the class `[a-zA-Z\s-]`. */
  predicate IsNameChar(c: char) {
    ('a' <= c <= 'z') || ('A' <= c <= 'Z') || IsRegexSpace(c) || c == '-'
  }

  predicate IsLetterOrHyphen(c: char) {
    ('a' <= c <= 'z') || ('A' <= c <= 'Z') || c == '-'
  }

  /** `@Pattern(regexp = "^[a-zA-Z\\s-]*$")`; a null value passes, as for every `@Pattern`. */
  predicate MatchesNamePattern(s: Option<string>) {
    s.None? || forall i :: 0 <= i < |s.value| ==> IsNameChar(s.value[i])
  }

  /** `@NotBlank`: non-null and something is left after `String.trim()`, which strips every char <= ' '. */
  predicate IsNotBlank(s: Option<string>) {
    s.Some? && exists i :: 0 <= i < |s.value| && s.value[i] > ' '
  }

  /** `@Min(1)` on the id; a null id passes. `@Max(Long.MAX_VALUE)` holds of every Long. */
  predicate IsIdInRange(id: Option<int>) {
    id.None? || id.value >= 1
  }

  /** `@PastOrPresent` against the clock's `today`; a null date passes. */
  predicate IsPastOrPresent(d: Option<LocalDate>, today: LocalDate) {
    d.None? || !IsAfter(d.value, today)
  }

  /**
   * `NotEmptyLocalDateValidator.isValid`: false exactly for null. The validator context is never
   * consulted, so it is not a parameter here.
   */
  predicate IsNotEmptyLocalDate(d: Option<LocalDate>): (ok: bool)
    ensures ok <==> d.Some?
  {
    d != None
  }

  /** Every constraint of `Employee` holds. */
  predicate IsValidEmployee(e: Employee, today: LocalDate) {
    && IsIdInRange(e.id)
    && MatchesNamePattern(e.name) && IsNotBlank(e.name)
    && IsNotBlank(e.department)
    && IsPastOrPresent(e.yearOfEmployment, today) && IsNotEmptyLocalDate(e.yearOfEmployment)
  }

  /** A `FieldError`: the field's name and its default message. */
  datatype FieldError = FieldError(field: string, message: string)

  /** The six constraints declared on `Employee`, in declaration order. */
  datatype Constraint = IdMin | NamePattern | NameNotBlank | DepartmentNotBlank | DatePastOrPresent | DateNotEmpty

  const Constraints: seq<Constraint> :=
    [IdMin, NamePattern, NameNotBlank, DepartmentNotBlank, DatePastOrPresent, DateNotEmpty]

  predicate Holds(c: Constraint, e: Employee, today: LocalDate) {
    match c
    case IdMin => IsIdInRange(e.id)
    case NamePattern => MatchesNamePattern(e.name)
    case NameNotBlank => IsNotBlank(e.name)
    case DepartmentNotBlank => IsNotBlank(e.department)
    case DatePastOrPresent => IsPastOrPresent(e.yearOfEmployment, today)
    case DateNotEmpty => IsNotEmptyLocalDate(e.yearOfEmployment)
  }

  /** The error a failed constraint reports: the field it is declared on and its default message. */
  function ErrorOf(c: Constraint): FieldError {
    match c
    case IdMin => FieldError("id", IdMinMessage)
    case NamePattern => FieldError("name", ContainLettersMessage)
    case NameNotBlank => FieldError("name", NotBlankMessage)
    case DepartmentNotBlank => FieldError("department", NotBlankMessage)
    case DatePastOrPresent => FieldError("yearOfEmployment", PastOrPresentMessage)
    case DateNotEmpty => FieldError("yearOfEmployment", NotEmptyLocalDateMessage)
  }

  /** No two constraints report the same error: they differ in field name or in message. */
  lemma ErrorOfInjective(c: Constraint, d: Constraint)
    requires c != d
    ensures ErrorOf(c) != ErrorOf(d)
  {
    var x, y := ErrorOf(c), ErrorOf(d);
    if x.field == y.field {
      assert |x.message| != |y.message|;
    }
  }

  /** `Constraints` lists every constraint, and an employee is valid exactly when all of them hold. */
  lemma ValidMeansEveryConstraintHolds(e: Employee, today: LocalDate)
    ensures forall c :: c in Constraints
    ensures IsValidEmployee(e, today) <==> forall c :: Holds(c, e, today)
  {
    forall c
      ensures c in Constraints
    {
      match c
      case IdMin => assert Constraints[0] == c;
      case NamePattern => assert Constraints[1] == c;
      case NameNotBlank => assert Constraints[2] == c;
      case DepartmentNotBlank => assert Constraints[3] == c;
      case DatePastOrPresent => assert Constraints[4] == c;
      case DateNotEmpty => assert Constraints[5] == c;
    }
    if forall c :: Holds(c, e, today) {
      assert Holds(IdMin, e, today) && Holds(NamePattern, e, today) && Holds(NameNotBlank, e, today);
      assert Holds(DepartmentNotBlank, e, today) && Holds(DatePastOrPresent, e, today);
      assert Holds(DateNotEmpty, e, today);
    }
  }

  /** No element occurs twice. */
  predicate NoRepeats<T(==)>(s: seq<T>) {
    forall i, j :: 0 <= i < j < |s| ==> s[i] != s[j]
  }

  /** The constraints of `cs` that `e` fails, in order. */
  function Failing(cs: seq<Constraint>, e: Employee, today: LocalDate): (r: seq<Constraint>)
    ensures |r| <= |cs|
    ensures forall c :: c in r <==> c in cs && !Holds(c, e, today)
  {
    if cs == [] then []
    else (if Holds(cs[0], e, today) then [] else [cs[0]]) + Failing(cs[1..], e, today)
  }

  /** Picking out the failed constraints of a list without repeats repeats none. */
  lemma {:induction false} FailingKeepsNoRepeats(cs: seq<Constraint>, e: Employee, today: LocalDate)
    requires NoRepeats(cs)
    ensures NoRepeats(Failing(cs, e, today))
    decreases |cs|
  {
    if cs != [] {
      var rest := Failing(cs[1..], e, today);
      assert NoRepeats(cs[1..]) by {
        forall i, j | 0 <= i < j < |cs[1..]|
          ensures cs[1..][i] != cs[1..][j]
        {
          assert cs[1..][i] == cs[i + 1] && cs[1..][j] == cs[j + 1];
        }
      }
      FailingKeepsNoRepeats(cs[1..], e, today);
      assert cs[0] !in cs[1..] by {
        forall k | 0 <= k < |cs[1..]|
          ensures cs[1..][k] != cs[0]
        {
          assert cs[1..][k] == cs[k + 1];
        }
      }
      assert cs[0] !in rest;
      if !Holds(cs[0], e, today) {
        var r := [cs[0]] + rest;
        forall i, j | 0 <= i < j < |r|
          ensures r[i] != r[j]
        {
          assert r[j] == rest[j - 1];
          if i > 0 {
            assert r[i] == rest[i - 1];
          }
        }
      }
    }
  }

  /** The errors the given constraints report, one each, in the same order. */
  function ErrorsOf(cs: seq<Constraint>): (errs: seq<FieldError>)
    ensures |errs| == |cs|
    ensures forall k :: 0 <= k < |cs| ==> errs[k] == ErrorOf(cs[k])
  {
    seq(|cs|, k requires 0 <= k < |cs| => ErrorOf(cs[k]))
  }

  /** A constraint's error is in the list exactly when the constraint is, since no two constraints share an error. */
  lemma ErrorsOfMembers(cs: seq<Constraint>, c: Constraint)
    ensures ErrorOf(c) in ErrorsOf(cs) <==> c in cs
  {
    var errs := ErrorsOf(cs);
    if ErrorOf(c) in errs {
      var k :| 0 <= k < |errs| && errs[k] == ErrorOf(c);
      if cs[k] != c {
        ErrorOfInjective(cs[k], c);
      }
    }
    if c in cs {
      var k :| 0 <= k < |cs| && cs[k] == c;
      assert errs[k] == ErrorOf(c);
    }
  }

  /** Different constraints give different errors, so a list without repeats gives errors without repeats. */
  lemma ErrorsOfKeepsNoRepeats(cs: seq<Constraint>)
    requires NoRepeats(cs)
    ensures NoRepeats(ErrorsOf(cs))
  {
    var errs := ErrorsOf(cs);
    forall i, j | 0 <= i < j < |errs|
      ensures errs[i] != errs[j]
    {
      ErrorOfInjective(cs[i], cs[j]);
    }
  }

  /** `Constraints` lists each constraint once. */
  lemma ConstraintsListedOnce()
    ensures NoRepeats(Constraints)
  {
  }

  /** The errors of the failed constraints hold nothing else, and none of them twice. */
  lemma CollectedErrorsOnly(e: Employee, today: LocalDate)
    ensures forall x :: x in ErrorsOf(Failing(Constraints, e, today)) ==> exists c :: x == ErrorOf(c) && !Holds(c, e, today)
    ensures NoRepeats(ErrorsOf(Failing(Constraints, e, today)))
    ensures |ErrorsOf(Failing(Constraints, e, today))| <= |Constraints|
  {
    var failed := Failing(Constraints, e, today);
    ConstraintsListedOnce();
    FailingKeepsNoRepeats(Constraints, e, today);
    ErrorsOfKeepsNoRepeats(failed);
    ErrorsOfOnlyListed(failed, e, today);
  }

  /** Every error of a list of failed constraints is the error of one of them. */
  lemma ErrorsOfOnlyListed(cs: seq<Constraint>, e: Employee, today: LocalDate)
    requires forall c :: c in cs ==> !Holds(c, e, today)
    ensures forall x :: x in ErrorsOf(cs) ==> exists c :: x == ErrorOf(c) && !Holds(c, e, today)
  {
    var errs := ErrorsOf(cs);
    forall x | x in errs
      ensures exists c :: x == ErrorOf(c) && !Holds(c, e, today)
    {
      var k :| 0 <= k < |errs| && errs[k] == x;
      assert cs[k] in cs;
    }
  }

  /** The errors of the failed constraints: none exactly for a valid employee, and one for each constraint that fails. */
  lemma CollectedErrors(e: Employee, today: LocalDate)
    ensures ErrorsOf(Failing(Constraints, e, today)) == [] <==> IsValidEmployee(e, today)
    ensures forall c :: ErrorOf(c) in ErrorsOf(Failing(Constraints, e, today)) <==> !Holds(c, e, today)
  {
    var failed := Failing(Constraints, e, today);
    ValidMeansEveryConstraintHolds(e, today);
    if failed != [] {
      assert failed[0] in failed;
    }
    forall c
      ensures ErrorOf(c) in ErrorsOf(failed) <==> !Holds(c, e, today)
    {
      ErrorsOfMembers(failed, c);
    }
  }

  /** The errors the binding result collects, one per failed constraint, in declaration order. */
  function FieldErrors(e: Employee, today: LocalDate): (errs: seq<FieldError>)
    ensures errs == [] <==> IsValidEmployee(e, today)
    ensures forall c :: ErrorOf(c) in errs <==> !Holds(c, e, today)
    ensures forall x :: x in errs ==> exists c :: x == ErrorOf(c) && !Holds(c, e, today)
    ensures NoRepeats(errs) && |errs| <= |Constraints|
  {
    CollectedErrors(e, today);
    CollectedErrorsOnly(e, today);
    ErrorsOf(Failing(Constraints, e, today))
  }

  /** The texts of the errors: each constraint's field and default message appears exactly when it fails. */
  lemma FieldErrorTexts(e: Employee, today: LocalDate)
    ensures FieldError("id", IdMinMessage) in FieldErrors(e, today) <==> !IsIdInRange(e.id)
    ensures FieldError("name", ContainLettersMessage) in FieldErrors(e, today) <==> !MatchesNamePattern(e.name)
    ensures FieldError("name", NotBlankMessage) in FieldErrors(e, today) <==> !IsNotBlank(e.name)
    ensures FieldError("department", NotBlankMessage) in FieldErrors(e, today) <==> !IsNotBlank(e.department)
    ensures FieldError("yearOfEmployment", PastOrPresentMessage) in FieldErrors(e, today)
        <==> !IsPastOrPresent(e.yearOfEmployment, today)
    ensures FieldError("yearOfEmployment", NotEmptyLocalDateMessage) in FieldErrors(e, today)
        <==> e.yearOfEmployment.None?
  {
    var errs := FieldErrors(e, today);
    assert ErrorOf(IdMin) in errs <==> !Holds(IdMin, e, today);
    assert ErrorOf(NamePattern) in errs <==> !Holds(NamePattern, e, today);
    assert ErrorOf(NameNotBlank) in errs <==> !Holds(NameNotBlank, e, today);
    assert ErrorOf(DepartmentNotBlank) in errs <==> !Holds(DepartmentNotBlank, e, today);
    assert ErrorOf(DatePastOrPresent) in errs <==> !Holds(DatePastOrPresent, e, today);
    assert ErrorOf(DateNotEmpty) in errs <==> !Holds(DateNotEmpty, e, today);
  }

  /**
   * Both name constraints together: only letters, whitespace and '-', and at least one letter or
   * '-' (whitespace alone is blank). The empty name is therefore invalid.
   */
  lemma ValidNameCharacterization(s: string)
    ensures MatchesNamePattern(Some(s)) && IsNotBlank(Some(s))
        <==> MatchesNamePattern(Some(s)) && exists i :: 0 <= i < |s| && IsLetterOrHyphen(s[i])
  {
    if MatchesNamePattern(Some(s)) && IsNotBlank(Some(s)) {
      var i :| 0 <= i < |s| && s[i] > ' ';
      assert IsLetterOrHyphen(s[i]);
    }
    if exists i :: 0 <= i < |s| && IsLetterOrHyphen(s[i]) {
      var i :| 0 <= i < |s| && IsLetterOrHyphen(s[i]);
      assert s[i] > ' ';
    }
  }

  /** `NotEmptyLocalDateValidator` only rejects null: every date, even a future one, passes it. */
  lemma NotEmptyIgnoresValue(d: LocalDate, today: LocalDate)
    ensures IsNotEmptyLocalDate(Some(d))
    ensures IsAfter(d, today) ==> !IsValidEmployee(Employee(None, Some("A"), Some("B"), Some(d)), today)
  {
  }
}
