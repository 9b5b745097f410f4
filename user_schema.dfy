/** The registration payload as the server validates it: the shared password
    rule, and the field bounds of UserCreate. Python's `re` reads the password as
    code points; its `.` matches anything but a line feed, its `[a-z]`, `[A-Z]` and
    `[^A-Za-z0-9]` are ASCII classes, and its `\d` on a `str` matches every Unicode
    decimal digit. That Unicode table, and the email syntax check of EmailStr, are
    parameters. */
module UserSchema {
  import opened Wrappers
  import opened PasswordPattern

  const PasswordMessage :=
    "Password must be at least 8 characters with uppercase, lowercase, number, and special character"

  /** Python's engine for the pattern; `isDecimal` is the Unicode decimal-digit class. */
  function PyEngine(isDecimal: char -> bool): Engine<char> {
    Engine(NotLineFeed, IsAsciiLower, IsAsciiUpper, isDecimal, IsSpecial)
  }

  /** Python's `.`. */
  predicate NotLineFeed(c: char) { c != '\n' }

  /** validate_password_strength: the value itself when the pattern matches it whole,
      else the rule's message. The ValueError it raises reaches the client through
      pydantic, as one entry of a 422 error list whose text is the message prefixed
      with "Value error, "; that wrapping is not modelled here. */
  function ValidatePasswordStrength(value: string, isDecimal: char -> bool): (r: Result<string>)
    ensures r.Ok? <==> Strong(value, PyEngine(isDecimal))
    ensures r.Ok? ==> r.value == value
    ensures r.Err? ==> r.error == HttpError(422, PasswordMessage)
  {
    MatchesIffStrong(value, PyEngine(isDecimal));
    if Matches(value, PyEngine(isDecimal)) then Ok(value) else Err(HttpError(422, PasswordMessage))
  }

  /** A strong password is at least eight characters long, has no line feed, and has
      an ASCII lower-case and an ASCII upper-case letter, a decimal digit and a
      character that is not an ASCII letter or digit. */
  lemma StrongPasswordChars(value: string, isDecimal: char -> bool)
    requires ValidatePasswordStrength(value, isDecimal).Ok?
    ensures |value| >= 8 && '\n' !in value
    ensures exists i :: 0 <= i < |value| && IsAsciiLower(value[i])
    ensures exists i :: 0 <= i < |value| && IsAsciiUpper(value[i])
    ensures exists i :: 0 <= i < |value| && isDecimal(value[i])
    ensures exists i :: 0 <= i < |value| && IsSpecial(value[i])
  {
    var e := PyEngine(isDecimal);
    assert Strong(value, e);
    forall i | 0 <= i < |value| ensures value[i] != '\n' {
      assert e.dot(value[i]);
    }
    var a :| 0 <= a < |value| && e.lower(value[a]);
    var b :| 0 <= b < |value| && e.upper(value[b]);
    var c :| 0 <= c < |value| && e.digit(value[c]);
    var d :| 0 <= d < |value| && e.special(value[d]);
  }

  /** The rule a field failed. */
  datatype Rule = TooShort(min: nat) | TooLong(max: nat) | NotAnEmail | WeakPassword

  /** One entry of the 422 detail: the field and the rule it failed. */
  datatype FieldIssue = FieldIssue(field: string, rule: Rule)

  /** The issues of the name field: min_length 2, max_length 200, in code points. */
  function NameIssues(name: string): (r: seq<FieldIssue>)
    ensures r == [] <==> 2 <= |name| <= 200
    ensures |r| <= 1 && forall k :: 0 <= k < |r| ==> r[k].field == "name"
  {
    if |name| < 2 then [FieldIssue("name", TooShort(2))]
    else if |name| > 200 then [FieldIssue("name", TooLong(200))]
    else []
  }

  /** The issues of the password field: min_length 8 first, and only when it holds
      the strength validator, which runs after the field's own constraints. */
  function PasswordIssues(password: string, isDecimal: char -> bool): (r: seq<FieldIssue>)
    ensures r == [] <==> ValidatePasswordStrength(password, isDecimal).Ok?
    ensures |r| <= 1 && forall k :: 0 <= k < |r| ==> r[k].field == "password"
  {
    if |password| < 8 then [FieldIssue("password", TooShort(8))]
    else if ValidatePasswordStrength(password, isDecimal).Err? then [FieldIssue("password", WeakPassword)]
    else []
  }

  /** UserCreate: every field is checked and the issues are listed in field order;
      the payload is accepted exactly when there are none. */
  function UserCreateIssues(name: string, email: string, password: string,
                            isEmail: string -> bool, isDecimal: char -> bool): (r: seq<FieldIssue>)
    ensures r == [] <==>
      && 2 <= |name| <= 200 && isEmail(email)
      && Strong(password, PyEngine(isDecimal))
    ensures forall k :: 0 <= k < |r| ==> r[k].field in {"name", "email", "password"}
    ensures |r| <= 3
  {
    NameIssues(name)
    + (if isEmail(email) then [] else [FieldIssue("email", NotAnEmail)])
    + PasswordIssues(password, isDecimal)
  }

  /** The password's min_length only decides which issue is reported: a password
      shorter than eight characters would fail the strength rule anyway. */
  lemma LengthBoundRedundant(password: string, isDecimal: char -> bool)
    requires |password| < 8
    ensures ValidatePasswordStrength(password, isDecimal).Err?
    ensures PasswordIssues(password, isDecimal) == [FieldIssue("password", TooShort(8))]
  {
  }
}
