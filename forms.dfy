/**
 * The WTForms forms of the application as predicates over the submitted strings. `Length` counts
 * characters of the raw (unstripped) input, `DataRequired` rejects input that strips to nothing, and a
 * `SelectField` accepts only one of its choices. The `Email()` validator lives in a library and is
 * passed in as a predicate.
 */
module Forms {
  import opened Wrappers
  import opened Text

  /** The field holds at least one character that is not whitespace. */
  predicate HasVisible(data: string) {
    exists k :: 0 <= k < |data| && !IsSpace(data[k])
  }

  /** `DataRequired()`: the field is refused when it strips to nothing. */
  predicate DataRequired(data: string): (ok: bool)
    ensures ok <==> HasVisible(data)
  {
    StripEmpty(data);
    Strip(data) != []
  }

  /** `Length(min, max)`, with `max == -1` for "no upper bound". */
  predicate Length(data: string, min: int, max: int) {
    min <= |data| && (max == -1 || |data| <= max)
  }

  datatype LoginForm = LoginForm(username: string, password: string)

  predicate LoginFormValid(f: LoginForm): (ok: bool)
    ensures ok <==> HasVisible(f.username) && HasVisible(f.password)
  {
    DataRequired(f.username) && DataRequired(f.password)
  }

  const RoleChoices: seq<string> := ["student", "teacher", "admin"]

  datatype RegisterForm = RegisterForm(username: string, email: string, password: string, confirm: string, role: string)

  predicate RegisterFormValid(f: RegisterForm, emailOk: string -> bool): (ok: bool)
    ensures ok ==> HasVisible(f.username) && HasVisible(f.email) && HasVisible(f.password) && emailOk(f.email)
  {
    && DataRequired(f.username) && Length(f.username, 3, 80)
    && DataRequired(f.email) && emailOk(f.email) && Length(f.email, -1, 120)
    && DataRequired(f.password) && Length(f.password, 8, -1)
    && DataRequired(f.confirm) && f.confirm == f.password
    && f.role in RoleChoices
  }

  /** The one field of `OTPForm`. */
  predicate OtpFormValid(code: string): (ok: bool)
    ensures ok ==> |code| == 6 && HasVisible(code)
  {
    DataRequired(code) && Length(code, 6, 6)
  }

  const GradeChoices: seq<string> := ["A", "B", "C", "D", "F"]

  /** `address` has no validators: it may be absent or empty. */
  datatype StudentForm = StudentForm(name: string, email: string, address: Option<string>, grade: string)

  predicate StudentFormValid(f: StudentForm, emailOk: string -> bool): (ok: bool)
    ensures ok ==> HasVisible(f.name) && HasVisible(f.email) && emailOk(f.email)
  {
    && DataRequired(f.name) && Length(f.name, 2, 120)
    && DataRequired(f.email) && emailOk(f.email) && Length(f.email, -1, 120)
    && f.grade in GradeChoices
  }

  datatype TeacherForm = TeacherForm(name: string, email: string, department: Option<string>)

  predicate TeacherFormValid(f: TeacherForm, emailOk: string -> bool): (ok: bool)
    ensures ok <==> HasVisible(f.name) && HasVisible(f.email) && emailOk(f.email) && 2 <= |f.name| <= 120 && |f.email| <= 120
  {
    && DataRequired(f.name) && Length(f.name, 2, 120)
    && DataRequired(f.email) && emailOk(f.email) && Length(f.email, -1, 120)
  }

  /** What a valid registration guarantees about the account it creates. */
  lemma RegisterFormGuarantees(f: RegisterForm, emailOk: string -> bool)
    requires RegisterFormValid(f, emailOk)
    ensures 3 <= |f.username| <= 80 && |f.email| <= 120
    ensures |f.password| >= 8 && f.confirm == f.password
    ensures f.role == "student" || f.role == "teacher" || f.role == "admin"
    ensures Strip(f.username) != [] && Strip(f.password) != []
  {
  }

  /** The OTP field takes exactly six characters of any kind: the form does not insist on digits. */
  lemma OtpFormAcceptsNonDigits()
    ensures OtpFormValid("abcdef")
    ensures OtpFormValid(" 1234 ")
    ensures !OtpFormValid("12345") && !OtpFormValid("1234567")
    ensures !OtpFormValid("      ")
  {
    assert Trimmed("abcdef");
    StripTrimmed("abcdef");
    StripEmpty(" 1234 ");
    assert !IsSpace(" 1234 "[1]);
    StripEmpty("      ");
  }

  /**
   * The OTP field is valid exactly when it is six characters long and one of them is not whitespace:
   * digits are not required, and surrounding blanks count towards the six.
   */
  lemma OtpFormIff(code: string)
    ensures OtpFormValid(code) <==> |code| == 6 && exists k :: 0 <= k < 6 && !IsSpace(code[k])
  {
    StripEmpty(code);
  }

  /** A valid student or teacher form has a name of 2 to 120 characters and a grade among A, B, C, D, F. */
  lemma RecordFormsGuarantees(s: StudentForm, t: TeacherForm, emailOk: string -> bool)
    ensures StudentFormValid(s, emailOk) ==>
              2 <= |s.name| <= 120 && |s.email| <= 120
              && (s.grade == "A" || s.grade == "B" || s.grade == "C" || s.grade == "D" || s.grade == "F")
    ensures TeacherFormValid(t, emailOk) ==> 2 <= |t.name| <= 120 && |t.email| <= 120
  {
  }
}
