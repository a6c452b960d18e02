/**
 * The student-application schema: for each of the eight paths, the setters
 * Mongoose applies when the document is built (trim, lowercase) and the
 * validators it runs afterwards, in the order it runs them. A path reports
 * the message of its first failing validator only; `required` always comes
 * first. `isEmail`, the email check of the validator library, is a parameter
 * of the model, and so is `now`, the instant the future-date rule compares
 * against.
 */
module StudentModel {
  import opened Text
  import opened PhonePattern

  datatype Option<T> = None | Some(value: T)

  /** A submission as it arrives: any field may be absent. The qualification
      date is in milliseconds since the epoch, the value Date comparison uses. */
  datatype Application = Application(
    name: Option<string>,
    email: Option<string>,
    phoneNumber: Option<string>,
    country: Option<string>,
    field: Option<string>,
    specialization: Option<string>,
    academicQualification: Option<string>,
    dateOfAcademicQualification: Option<int>)

  /** A stored application; `id` stands for its ObjectId, which grows with creation order. */
  datatype Student = Student(
    id: nat,
    name: string,
    email: string,
    phoneNumber: string,
    country: string,
    field: string,
    specialization: string,
    academicQualification: string,
    dateOfAcademicQualification: int)

  /** The schema's paths. */
  datatype Path =
    | Name | Email | PhoneNumber | Country | Field | Specialization
    | AcademicQualification | DateOfAcademicQualification

  /** The key under which a path's error is reported. */
  function Key(p: Path): string {
    match p
    case Name => "name"
    case Email => "email"
    case PhoneNumber => "phone_number"
    case Country => "country"
    case Field => "field"
    case Specialization => "specialization"
    case AcademicQualification => "academic_qualification"
    case DateOfAcademicQualification => "date_of_academic_qualification"
  }

  /** Different paths are reported under different keys. */
  lemma KeyInjective(p: Path, q: Path)
    ensures Key(p) == Key(q) ==> p == q
  {
  }

  /** The schema's paths, in declaration order. */
  const Paths: seq<Path> :=
    [Name, Email, PhoneNumber, Country, Field, Specialization, AcademicQualification, DateOfAcademicQualification]

  /** One entry of a validation error: the failing path and its message. */
  datatype FieldError = FieldError(path: Path, message: string)

  /** The closed list of countries an applicant may choose. */
  const Countries: seq<string> :=
    ["China", "India", "Malaysia", "Philippines", "Russia", "Georgia",
     "Ukraine", "Indonesia", "Rwanda", "Turkey", "Egypt"]

  const MinNameLength := 2
  const MaxTextLength := 100

  /** The `trim: true` setter. */
  function Trimmed(v: Option<string>): Option<string> {
    if v.Some? then Some(Trim(v.value)) else None
  }

  /** Mongoose's built-in `required` check on a String path: a non-empty string. */
  predicate Present(v: Option<string>) {
    v.Some? && v.value != []
  }

  // ---------------------------------------------------------------------
  // What each path accepts, stated on the submitted value.

  predicate NameAccepted(v: Option<string>) {
    v.Some? && MinNameLength <= Utf16Length(Trim(v.value)) <= MaxTextLength
  }

  predicate EmailAccepted(v: Option<string>, isEmail: string -> bool) {
    v.Some? && v.value != [] && isEmail(Lower(v.value))
  }

  predicate PhoneAccepted(v: Option<string>) {
    v.Some? && IsPhoneNumber(Trim(v.value))
  }

  predicate CountryAccepted(v: Option<string>) {
    v.Some? && v.value in Countries
  }

  /** The rule shared by field, specialization and academic_qualification. */
  predicate TextAccepted(v: Option<string>) {
    v.Some? && 1 <= Utf16Length(Trim(v.value)) <= MaxTextLength
  }

  predicate DateAccepted(v: Option<int>, now: int) {
    v.Some? && v.value <= now
  }

  // ---------------------------------------------------------------------
  // The validator chains: None when the path passes, else the message of
  // the first validator that fails.

  /** name: trim; required; minlength 2; maxlength 100. */
  function NameCheck(v: Option<string>): (r: Option<string>)
    ensures r.None? <==> NameAccepted(v)
    ensures !Present(Trimmed(v)) ==> r == Some("Name is required")
    ensures v.Some? && Trim(v.value) != [] && Utf16Length(Trim(v.value)) < MinNameLength ==>
      r == Some("Name must be at least 2 characters")
    ensures v.Some? && Utf16Length(Trim(v.value)) > MaxTextLength ==> r == Some("Name cannot exceed 100 characters")
  {
    var t := Trimmed(v);
    if !Present(t) then Some("Name is required")
    else if Utf16Length(t.value) < MinNameLength then Some("Name must be at least 2 characters")
    else if Utf16Length(t.value) > MaxTextLength then Some("Name cannot exceed 100 characters")
    else None
  }

  /** email: lowercase; required; isEmail. No trim. */
  function EmailCheck(v: Option<string>, isEmail: string -> bool): (r: Option<string>)
    ensures r.None? <==> EmailAccepted(v, isEmail)
    ensures !Present(v) ==> r == Some("Email is required")
    ensures v.Some? && v.value != [] && !isEmail(Lower(v.value)) ==> r == Some("Please provide a valid email address")
  {
    var t := if v.Some? then Some(Lower(v.value)) else None;
    if !Present(t) then Some("Email is required")
    else if !isEmail(t.value) then Some("Please provide a valid email address")
    else None
  }

  /** phone_number: trim; required; the pattern. */
  function PhoneCheck(v: Option<string>): (r: Option<string>)
    ensures r.None? <==> PhoneAccepted(v)
    ensures !Present(Trimmed(v)) ==> r == Some("Phone number is required")
    ensures v.Some? && Trim(v.value) != [] && !IsPhoneNumber(Trim(v.value)) ==> r == Some("Please provide a valid phone number")
  {
    var t := Trimmed(v);
    PhonePatternMeaning(if t.Some? then t.value else []);
    if !Present(t) then Some("Phone number is required")
    else if !MatchesPhonePattern(t.value) then Some("Please provide a valid phone number")
    else None
  }

  /** What follows the placeholder in the enum validator's message. */
  const CountrySuffix := " is not a valid country option"
  /** The enum validator's message, "{VALUE} is not a valid country option";
      Mongoose fills in the rejected value with `message.replace('{VALUE}', value)`. */
  const CountryTemplate := "{VALUE}" + CountrySuffix

  /** The filled-in enum message: the placeholder is the template's first
      seven characters, so the value, with its `$` patterns expanded against
      an empty prefix and the suffix, is followed by the suffix. */
  lemma CountryMessageShape(value: string)
    ensures Replace(CountryTemplate, "{VALUE}", value) == Substitution(value, "", "{VALUE}", CountrySuffix) + CountrySuffix
  {
    var pat := "{VALUE}";
    assert CountryTemplate[0..|pat|] == pat && CountryTemplate[..0] == [] && CountryTemplate[|pat|..] == CountrySuffix;
    assert IndexOf(CountryTemplate, pat, 0) == 0;
  }

  /** country: required; enum, whose message names the rejected value. No trim. */
  function CountryCheck(v: Option<string>): (r: Option<string>)
    ensures r.None? <==> CountryAccepted(v)
    ensures !Present(v) ==> r == Some("Country selection is required")
    ensures v.Some? && v.value != [] && v.value !in Countries ==>
      r == Some(Substitution(v.value, "", "{VALUE}", CountrySuffix) + CountrySuffix)
  {
    if !Present(v) then Some("Country selection is required")
    else if v.value !in Countries then
      CountryMessageShape(v.value);
      Some(Replace(CountryTemplate, "{VALUE}", v.value))
    else None
  }

  /** A rejected country without `$` is named as it was submitted. */
  lemma CountryMessagePlain(value: string)
    requires value != [] && value !in Countries
    requires forall i :: 0 <= i < |value| ==> value[i] != '$'
    ensures CountryCheck(Some(value)) == Some(value + " is not a valid country option")
  {
    SubstitutionLiteral(value, "", "{VALUE}", CountrySuffix);
  }

  /** What a `$` pattern stands for in the country message: the placeholder
      for `$&`, one `$` for `$$`, the empty text before the placeholder for
      `` $` `` and the suffix for `$'`. */
  function DollarMeaning(c: char): string
    requires c in "&$`'"
  {
    if c == '&' then "{VALUE}" else if c == '$' then "$" else if c == '`' then "" else CountrySuffix
  }

  /** A rejected country that is a `$` pattern is expanded in its message:
      `$&` yields "{VALUE} is not a valid country option" and `$$` yields
      "$ is not a valid country option". */
  lemma CountryMessageDollar(c: char)
    requires c in "&$`'"
    ensures CountryCheck(Some(['$', c])) == Some(DollarMeaning(c) + CountrySuffix)
  {
    var value := ['$', c];
    assert value !in Countries;
    assert value[2..] == [];
    assert Substitution(value, "", "{VALUE}", CountrySuffix) == DollarMeaning(c) + [];
    RejectedCountryNamed(value, DollarMeaning(c));
  }

  /** Any other character after a `$`, a digit among them, leaves the `$` in
      place. */
  lemma CountryMessageDollarKept(c: char)
    requires c !in "&$`'"
    ensures CountryCheck(Some(['$', c])) == Some(['$', c] + CountrySuffix)
  {
    var value := ['$', c];
    assert value !in Countries;
    assert value[1..] == [c] && value[1..][1..] == [];
    var tail := Substitution(value[1..], "", "{VALUE}", CountrySuffix);
    assert Substitution([], "", "{VALUE}", CountrySuffix) == [];
    assert tail == [c] + Substitution([], "", "{VALUE}", CountrySuffix);
    assert Substitution(value, "", "{VALUE}", CountrySuffix) == ['$'] + tail;
    RejectedCountryNamed(value, value);
  }

  lemma RejectedCountryNamed(value: string, shown: string)
    requires value != [] && value !in Countries
    requires Substitution(value, "", "{VALUE}", CountrySuffix) == shown
    ensures CountryCheck(Some(value)) == Some(shown + CountrySuffix)
  {
  }

  /** field, specialization, academic_qualification: trim; required; maxlength 100. */
  function TextCheck(v: Option<string>, requiredMessage: string, tooLongMessage: string): (r: Option<string>)
    ensures r.None? <==> TextAccepted(v)
    ensures !Present(Trimmed(v)) ==> r == Some(requiredMessage)
    ensures v.Some? && Trim(v.value) != [] && Utf16Length(Trim(v.value)) > MaxTextLength ==> r == Some(tooLongMessage)
  {
    var t := Trimmed(v);
    if !Present(t) then Some(requiredMessage)
    else if Utf16Length(t.value) > MaxTextLength then Some(tooLongMessage)
    else None
  }

  /** date_of_academic_qualification: required; not after `now`. */
  function DateCheck(v: Option<int>, now: int): (r: Option<string>)
    ensures r.None? <==> DateAccepted(v, now)
    ensures v.None? ==> r == Some("Date of academic qualification is required")
    ensures v.Some? && v.value > now ==> r == Some("Date of academic qualification cannot be in the future")
  {
    if v.None? then Some("Date of academic qualification is required")
    else if !(v.value <= now) then Some("Date of academic qualification cannot be in the future")
    else None
  }

  // ---------------------------------------------------------------------
  // The document as a whole.

  /** The validator chain of one path of `a`. */
  function PathCheck(a: Application, now: int, isEmail: string -> bool, path: Path): (r: Option<string>)
  {
    match path
    case Name => NameCheck(a.name)
    case Email => EmailCheck(a.email, isEmail)
    case PhoneNumber => PhoneCheck(a.phoneNumber)
    case Country => CountryCheck(a.country)
    case Field => TextCheck(a.field, "Field of study is required", "Field cannot exceed 100 characters")
    case Specialization =>
      TextCheck(a.specialization, "Specialization is required", "Specialization cannot exceed 100 characters")
    case AcademicQualification =>
      TextCheck(a.academicQualification, "Academic qualification is required",
                "Academic qualification cannot exceed 100 characters")
    case DateOfAcademicQualification => DateCheck(a.dateOfAcademicQualification, now)
  }

  /** Whether one path of `a` is acceptable, by the per-path predicates above. */
  predicate PathAccepted(a: Application, now: int, isEmail: string -> bool, path: Path) {
    match path
    case Name => NameAccepted(a.name)
    case Email => EmailAccepted(a.email, isEmail)
    case PhoneNumber => PhoneAccepted(a.phoneNumber)
    case Country => CountryAccepted(a.country)
    case Field => TextAccepted(a.field)
    case Specialization => TextAccepted(a.specialization)
    case AcademicQualification => TextAccepted(a.academicQualification)
    case DateOfAcademicQualification => DateAccepted(a.dateOfAcademicQualification, now)
  }

  /** The paths of `a` that the schema rejects. */
  function FailingFields(a: Application, now: int, isEmail: string -> bool): set<Path> {
    set p | p in Paths && !PathAccepted(a, now, isEmail, p)
  }

  /** Every path's check passes exactly when that path is accepted. */
  lemma PathCheckMeaning(a: Application, now: int, isEmail: string -> bool, path: Path)
    ensures PathCheck(a, now, isEmail, path).None? <==> PathAccepted(a, now, isEmail, path)
  {
  }

  /** The errors of the given paths, in order, one per failing path. */
  function ErrorsOf(paths: seq<Path>, a: Application, now: int, isEmail: string -> bool): (errs: seq<FieldError>)
    ensures |errs| <= |paths|
    ensures forall e :: e in errs ==> e.path in paths && PathCheck(a, now, isEmail, e.path) == Some(e.message)
    ensures forall p :: p in paths && PathCheck(a, now, isEmail, p).Some? ==> exists e :: e in errs && e.path == p
  {
    if paths == [] then []
    else
      var c := PathCheck(a, now, isEmail, paths[0]);
      var head := if c.Some? then [FieldError(paths[0], c.value)] else [];
      head + ErrorsOf(paths[1..], a, now, isEmail)
  }

  /** The `errors` of the ValidationError that saving `a` raises (empty: it saves). */
  function Validate(a: Application, now: int, isEmail: string -> bool): (errs: seq<FieldError>)
    ensures |errs| <= |Paths|
  {
    ErrorsOf(Paths, a, now, isEmail)
  }

  /** No path is reported twice. */
  predicate PathsDistinct(errs: seq<FieldError>) {
    forall i, j :: 0 <= i < j < |errs| ==> errs[i].path != errs[j].path
  }

  lemma {:induction false} ErrorsOfDistinct(paths: seq<Path>, a: Application, now: int, isEmail: string -> bool)
    requires forall i, j :: 0 <= i < j < |paths| ==> paths[i] != paths[j]
    ensures PathsDistinct(ErrorsOf(paths, a, now, isEmail))
  {
    if paths != [] {
      var rest := paths[1..];
      assert forall i, j :: 0 <= i < j < |rest| ==> rest[i] != rest[j] by {
        forall i, j | 0 <= i < j < |rest| ensures rest[i] != rest[j] {
          assert rest[i] == paths[i + 1] && rest[j] == paths[j + 1];
        }
      }
      ErrorsOfDistinct(rest, a, now, isEmail);
      var tail := ErrorsOf(rest, a, now, isEmail);
      assert forall e :: e in tail ==> e.path != paths[0] by {
        forall e | e in tail ensures e.path != paths[0] {
          var k :| 0 <= k < |rest| && rest[k] == e.path;
          assert paths[k + 1] == e.path;
        }
      }
    }
  }

  /** The validation errors name exactly the failing paths, each once and
      with the message of its own validator chain; so `a` saves exactly when
      every path is accepted. */
  lemma ValidateMeaning(a: Application, now: int, isEmail: string -> bool)
    ensures (set e | e in Validate(a, now, isEmail) :: e.path) == FailingFields(a, now, isEmail)
    ensures PathsDistinct(Validate(a, now, isEmail))
    ensures forall e :: e in Validate(a, now, isEmail) ==> PathCheck(a, now, isEmail, e.path) == Some(e.message)
    ensures Validate(a, now, isEmail) == [] <==> FailingFields(a, now, isEmail) == {}
  {
    var errs := Validate(a, now, isEmail);
    forall p | p in Paths ensures PathCheck(a, now, isEmail, p).None? <==> PathAccepted(a, now, isEmail, p) {
      PathCheckMeaning(a, now, isEmail, p);
    }
    ErrorsOfDistinct(Paths, a, now, isEmail);
    if errs != [] {
      assert errs[0].path in FailingFields(a, now, isEmail);
    }
  }

  /** Every field is present; true of every application that validates. */
  predicate Complete(a: Application) {
    && a.name.Some? && a.email.Some? && a.phoneNumber.Some? && a.country.Some?
    && a.field.Some? && a.specialization.Some? && a.academicQualification.Some?
    && a.dateOfAcademicQualification.Some?
  }

  /** With no failing path, each of the eight paths is accepted. */
  lemma AllPathsAccepted(a: Application, now: int, isEmail: string -> bool)
    requires FailingFields(a, now, isEmail) == {}
    ensures NameAccepted(a.name) && EmailAccepted(a.email, isEmail) && PhoneAccepted(a.phoneNumber)
    ensures CountryAccepted(a.country) && TextAccepted(a.field) && TextAccepted(a.specialization)
    ensures TextAccepted(a.academicQualification) && DateAccepted(a.dateOfAcademicQualification, now)
    ensures Complete(a)
  {
    forall p | p in Paths ensures PathAccepted(a, now, isEmail, p) {
      assert p !in FailingFields(a, now, isEmail);
    }
    assert PathAccepted(a, now, isEmail, Name) && PathAccepted(a, now, isEmail, Email);
    assert PathAccepted(a, now, isEmail, PhoneNumber) && PathAccepted(a, now, isEmail, Country);
    assert PathAccepted(a, now, isEmail, Field) && PathAccepted(a, now, isEmail, Specialization);
    assert PathAccepted(a, now, isEmail, AcademicQualification);
    assert PathAccepted(a, now, isEmail, DateOfAcademicQualification);
  }

  /** The document that is saved: the setters applied, `id` assigned. */
  function Normalize(a: Application, id: nat): (st: Student)
    requires Complete(a)
    ensures st.id == id
    ensures NoEdgeWhitespace(st.name) && NoEdgeWhitespace(st.phoneNumber) && NoEdgeWhitespace(st.field)
    ensures NoEdgeWhitespace(st.specialization) && NoEdgeWhitespace(st.academicQualification)
    ensures HasNoUpper(st.email) && |st.email| == |a.email.value|
    ensures st.country == a.country.value && st.dateOfAcademicQualification == a.dateOfAcademicQualification.value
  {
    Student(id, Trim(a.name.value), Lower(a.email.value), Trim(a.phoneNumber.value), a.country.value,
            Trim(a.field.value), Trim(a.specialization.value), Trim(a.academicQualification.value),
            a.dateOfAcademicQualification.value)
  }

  /** A stored document read back as a submission. */
  function AsApplication(st: Student): (a: Application)
    ensures Complete(a)
  {
    Application(Some(st.name), Some(st.email), Some(st.phoneNumber), Some(st.country), Some(st.field),
                Some(st.specialization), Some(st.academicQualification), Some(st.dateOfAcademicQualification))
  }

  /** What every stored document satisfies: it is its own normal form
      (nothing left to trim, no upper-case letter in the email) and each
      path but the date is accepted. */
  predicate Conforms(st: Student, isEmail: string -> bool) {
    && NoEdgeWhitespace(st.name) && NameAccepted(Some(st.name))
    && HasNoUpper(st.email) && EmailAccepted(Some(st.email), isEmail)
    && NoEdgeWhitespace(st.phoneNumber) && PhoneAccepted(Some(st.phoneNumber))
    && CountryAccepted(Some(st.country))
    && NoEdgeWhitespace(st.field) && TextAccepted(Some(st.field))
    && NoEdgeWhitespace(st.specialization) && TextAccepted(Some(st.specialization))
    && NoEdgeWhitespace(st.academicQualification) && TextAccepted(Some(st.academicQualification))
  }

  /** A conforming document is its own normal form. */
  lemma ConformingIsNormal(st: Student, isEmail: string -> bool)
    requires Conforms(st, isEmail)
    ensures Normalize(AsApplication(st), st.id) == st
  {
    TrimFixedPoint(st.name);
    TrimFixedPoint(st.phoneNumber);
    TrimFixedPoint(st.field);
    TrimFixedPoint(st.specialization);
    TrimFixedPoint(st.academicQualification);
    LowerFixedPoint(st.email);
  }

  /** The document built from a valid submission conforms, carries a date
      no later than `now`, and keeps the submitted dates and country. */
  lemma NormalizeConforms(a: Application, id: nat, now: int, isEmail: string -> bool)
    requires FailingFields(a, now, isEmail) == {}
    ensures Complete(a)
    ensures Conforms(Normalize(a, id), isEmail)
    ensures Normalize(a, id).dateOfAcademicQualification <= now
  {
    AllPathsAccepted(a, now, isEmail);
    TrimIdempotent(a.name.value);
    TrimIdempotent(a.phoneNumber.value);
    TrimIdempotent(a.field.value);
    TrimIdempotent(a.specialization.value);
    TrimIdempotent(a.academicQualification.value);
    LowerIdempotent(a.email.value);
  }

  /** Saving is idempotent: a document saved from a valid submission,
      submitted again, validates and is saved unchanged. */
  lemma {:induction false} NormalizeIdempotent(a: Application, id: nat, now: int, isEmail: string -> bool)
    requires FailingFields(a, now, isEmail) == {}
    ensures Complete(a)
    ensures FailingFields(AsApplication(Normalize(a, id)), now, isEmail) == {}
    ensures Normalize(AsApplication(Normalize(a, id)), id) == Normalize(a, id)
  {
    NormalizeConforms(a, id, now, isEmail);
    ConformingIsNormal(Normalize(a, id), isEmail);
    var b := AsApplication(Normalize(a, id));
    forall p | p in Paths ensures PathAccepted(b, now, isEmail, p) {
    }
  }
}
