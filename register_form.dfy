/** The registration form's schema (registerSchema). JavaScript strings are
    sequences of UTF-16 code units: zod's length checks count code units, and a
    regular expression without the `u` flag matches code unit by code unit. Its `.`
    matches anything but the four line terminators, and its `\d` is the ASCII
    digits only. The email check of z.email is a parameter. */
module RegisterForm {
  import opened PasswordPattern
  import UserSchema

  // ----- UTF-16 -----

  /** The UTF-16 code units of one character: itself below 0x10000, else a
      surrogate pair. */
  function Units(c: char): (u: seq<int>)
    ensures |u| == (if c as int < 0x10000 then 1 else 2)
    ensures c as int < 0x10000 ==> u == [c as int]
    ensures c as int >= 0x10000 ==> forall k :: 0 <= k < |u| ==> 0xD800 <= u[k] <= 0xDFFF
  {
    if c as int < 0x10000 then [c as int]
    else
      var v := c as int - 0x10000;
      [0xD800 + v / 0x400, 0xDC00 + v % 0x400]
  }

  /** A JavaScript string's code units. */
  function ToUtf16(s: string): (u: seq<int>)
    ensures |u| >= |s|
  {
    if s == [] then [] else Units(s[0]) + ToUtf16(s[1..])
  }

  /** JavaScript's `length`. */
  function JsLength(s: string): nat {
    |ToUtf16(s)|
  }

  /** Every character below 0x10000 (the Basic Multilingual Plane). */
  predicate InBmp(s: string) {
    forall i :: 0 <= i < |s| ==> s[i] as int < 0x10000
  }

  /** In the Basic Multilingual Plane a string has one code unit per character. */
  lemma {:induction false} BmpLength(s: string)
    requires InBmp(s)
    ensures JsLength(s) == |s|
  {
    if s != [] {
      assert InBmp(s[1..]) by {
        forall i | 0 <= i < |s[1..]| ensures s[1..][i] as int < 0x10000 {
          assert s[1..][i] == s[i + 1];
        }
      }
      BmpLength(s[1..]);
    }
  }

  /** A code unit of `s` in class `p` comes from a character of `s` in class `q`. */
  lemma {:induction false} UnitFromChar(s: string, p: int -> bool, q: char -> bool, k: nat)
    requires forall c: char :: (exists k :: 0 <= k < |Units(c)| && p(Units(c)[k])) <==> q(c)
    requires k < |ToUtf16(s)| && p(ToUtf16(s)[k])
    ensures exists i :: 0 <= i < |s| && q(s[i])
  {
    var head, tail := Units(s[0]), ToUtf16(s[1..]);
    assert ToUtf16(s) == head + tail;
    if k < |head| {
      assert p(head[k]);
      assert q(s[0]);
    } else {
      assert p(tail[k - |head|]);
      UnitFromChar(s[1..], p, q, k - |head|);
      var i :| 0 <= i < |s[1..]| && q(s[1..][i]);
      assert q(s[i + 1]);
    }
  }

  /** A character of `s` in class `q` gives a code unit of `s` in class `p`. */
  lemma {:induction false} CharGivesUnit(s: string, p: int -> bool, q: char -> bool, i: nat)
    requires forall c: char :: (exists k :: 0 <= k < |Units(c)| && p(Units(c)[k])) <==> q(c)
    requires i < |s| && q(s[i])
    ensures exists k :: 0 <= k < |ToUtf16(s)| && p(ToUtf16(s)[k])
  {
    var head, tail := Units(s[0]), ToUtf16(s[1..]);
    assert ToUtf16(s) == head + tail;
    if i == 0 {
      var k :| 0 <= k < |head| && p(head[k]);
      assert ToUtf16(s)[k] == head[k];
    } else {
      assert q(s[1..][i - 1]);
      CharGivesUnit(s[1..], p, q, i - 1);
      var k :| 0 <= k < |tail| && p(tail[k]);
      assert ToUtf16(s)[|head| + k] == tail[k];
    }
  }

  /** Some code unit of `s` is in class `p` exactly when some character of `s` is
      in class `q`, given that this holds character by character. */
  lemma SomeUnit(s: string, p: int -> bool, q: char -> bool)
    requires forall c: char :: (exists k :: 0 <= k < |Units(c)| && p(Units(c)[k])) <==> q(c)
    ensures (exists k :: 0 <= k < |ToUtf16(s)| && p(ToUtf16(s)[k])) <==> exists i :: 0 <= i < |s| && q(s[i])
  {
    if exists k :: 0 <= k < |ToUtf16(s)| && p(ToUtf16(s)[k]) {
      var k :| 0 <= k < |ToUtf16(s)| && p(ToUtf16(s)[k]);
      UnitFromChar(s, p, q, k);
    }
    if exists i :: 0 <= i < |s| && q(s[i]) {
      var i :| 0 <= i < |s| && q(s[i]);
      CharGivesUnit(s, p, q, i);
    }
  }

  /** Every code unit of `s` is in class `p` exactly when every character of `s` is
      in class `q`, given that this holds character by character. */
  lemma {:induction false} EveryUnit(s: string, p: int -> bool, q: char -> bool)
    requires forall c: char :: (forall k :: 0 <= k < |Units(c)| ==> p(Units(c)[k])) <==> q(c)
    ensures (forall k :: 0 <= k < |ToUtf16(s)| ==> p(ToUtf16(s)[k])) <==> forall i :: 0 <= i < |s| ==> q(s[i])
  {
    SomeUnit(s, x => !p(x), c => !q(c));
  }

  // ----- the password pattern in JavaScript -----

  predicate IsLineTerminator(x: int) {
    x == 0x0A || x == 0x0D || x == 0x2028 || x == 0x2029
  }

  predicate IsAsciiAlnumUnit(x: int) {
    97 <= x <= 122 || 65 <= x <= 90 || 48 <= x <= 57
  }

  /** JavaScript's `.` over code units. */
  predicate UnitDot(x: int) { !IsLineTerminator(x) }
  predicate UnitLower(x: int) { 97 <= x <= 122 }
  predicate UnitUpper(x: int) { 65 <= x <= 90 }
  predicate UnitDigit(x: int) { 48 <= x <= 57 }
  predicate UnitSpecial(x: int) { !IsAsciiAlnumUnit(x) }

  /** JavaScript's `.` over characters, with the `u` flag. */
  predicate CharDot(c: char) { !IsLineTerminator(c as int) }

  /** The engine of a regular expression without the `u` flag, over code units. */
  const JsEngine: Engine<int> := Engine(UnitDot, UnitLower, UnitUpper, UnitDigit, UnitSpecial)

  /** The engine of the same expression with the `u` flag, over characters. */
  const JsUnicodeEngine: Engine<char> := Engine(CharDot, IsAsciiLower, IsAsciiUpper, IsAsciiDigit, IsSpecial)

  /** The password regex as the form runs it: the pattern over the code units,
      or over the characters with the `u` flag. */
  predicate PasswordPatternMatches(password: string, unicodeFlag: bool) {
    if unicodeFlag then Matches(password, JsUnicodeEngine) else Matches(ToUtf16(password), JsEngine)
  }

  lemma DotUnits(s: string)
    ensures (forall k :: 0 <= k < |ToUtf16(s)| ==> UnitDot(ToUtf16(s)[k])) <==> forall i :: 0 <= i < |s| ==> CharDot(s[i])
  {
    forall c: char ensures (forall k :: 0 <= k < |Units(c)| ==> UnitDot(Units(c)[k])) <==> CharDot(c) {
      if c as int < 0x10000 { assert Units(c)[0] == c as int; }
    }
    EveryUnit(s, UnitDot, CharDot);
  }

  lemma LowerUnits(s: string)
    ensures (exists k :: 0 <= k < |ToUtf16(s)| && UnitLower(ToUtf16(s)[k])) <==> exists i :: 0 <= i < |s| && IsAsciiLower(s[i])
  {
    forall c: char ensures (exists k :: 0 <= k < |Units(c)| && UnitLower(Units(c)[k])) <==> IsAsciiLower(c) {
      if c as int < 0x10000 { assert Units(c)[0] == c as int; }
    }
    SomeUnit(s, UnitLower, IsAsciiLower);
  }

  lemma UpperUnits(s: string)
    ensures (exists k :: 0 <= k < |ToUtf16(s)| && UnitUpper(ToUtf16(s)[k])) <==> exists i :: 0 <= i < |s| && IsAsciiUpper(s[i])
  {
    forall c: char ensures (exists k :: 0 <= k < |Units(c)| && UnitUpper(Units(c)[k])) <==> IsAsciiUpper(c) {
      if c as int < 0x10000 { assert Units(c)[0] == c as int; }
    }
    SomeUnit(s, UnitUpper, IsAsciiUpper);
  }

  lemma DigitUnits(s: string)
    ensures (exists k :: 0 <= k < |ToUtf16(s)| && UnitDigit(ToUtf16(s)[k])) <==> exists i :: 0 <= i < |s| && IsAsciiDigit(s[i])
  {
    forall c: char ensures (exists k :: 0 <= k < |Units(c)| && UnitDigit(Units(c)[k])) <==> IsAsciiDigit(c) {
      if c as int < 0x10000 { assert Units(c)[0] == c as int; }
    }
    SomeUnit(s, UnitDigit, IsAsciiDigit);
  }

  lemma SpecialUnits(s: string)
    ensures (exists k :: 0 <= k < |ToUtf16(s)| && UnitSpecial(ToUtf16(s)[k])) <==> exists i :: 0 <= i < |s| && IsSpecial(s[i])
  {
    forall c: char ensures (exists k :: 0 <= k < |Units(c)| && UnitSpecial(Units(c)[k])) <==> IsSpecial(c) {
      if c as int < 0x10000 {
        assert Units(c)[0] == c as int;
      } else {
        assert UnitSpecial(Units(c)[0]);
      }
    }
    SomeUnit(s, UnitSpecial, IsSpecial);
  }

  /** Character by character, the code-unit classes agree with the character
      classes: a character above 0xFFFF becomes two surrogates, which are neither
      line terminators nor ASCII letters or digits. */
  lemma UnitClassesAgree(s: string)
    ensures HasClasses(ToUtf16(s), JsEngine) <==> HasClasses(s, JsUnicodeEngine)
  {
    DotUnits(s);
    LowerUnits(s);
    UpperUnits(s);
    DigitUnits(s);
    SpecialUnits(s);
  }

  /** Without the `u` flag the pattern asks for eight code units rather than eight
      characters, and otherwise for the same classes as with the flag. */
  lemma FormPatternByCharacters(password: string)
    ensures PasswordPatternMatches(password, false) <==>
      JsLength(password) >= MinLength && HasClasses(password, JsUnicodeEngine)
    ensures PasswordPatternMatches(password, true) <==>
      |password| >= MinLength && HasClasses(password, JsUnicodeEngine)
  {
    MatchesIffStrong(ToUtf16(password), JsEngine);
    MatchesIffStrong(password, JsUnicodeEngine);
    UnitClassesAgree(password);
  }

  const PasswordMessage := UserSchema.PasswordMessage

  /** One issue zod reports: the field it is attached to and its message. */
  datatype Issue = Issue(path: string, message: string)

  /** A JavaScript string of length 0 is the empty string. */
  lemma JsLengthZero(s: string)
    ensures JsLength(s) < 1 <==> s == []
  {
  }

  /** The name's checks: min(1), then min(2), both counted in code units. */
  function NameIssues(name: string): (r: seq<Issue>)
    ensures r == [] <==> JsLength(name) >= 2
    ensures Issue("name", "Name is required") in r <==> name == []
  {
    JsLengthZero(name);
    (if JsLength(name) < 1 then [Issue("name", "Name is required")] else [])
    + (if JsLength(name) < 2 then [Issue("name", "Name must be at least 2 characters")] else [])
  }

  /** The password's checks: min(1), then the pattern. */
  function PasswordIssues(password: string, unicodeFlag: bool): (r: seq<Issue>)
    ensures r == [] <==> PasswordPatternMatches(password, unicodeFlag)
    ensures r == [] ==> password != []
  {
    FormPatternByCharacters(password);
    JsLengthZero(password);
    (if JsLength(password) < 1 then [Issue("password", "Password is required")] else [])
    + (if PasswordPatternMatches(password, unicodeFlag) then [] else [Issue("password", PasswordMessage)])
  }

  /** The confirmation's check min(1), and the refinement attached to it. */
  function ConfirmIssues(password: string, confirmPassword: string): (r: seq<Issue>)
    ensures r == [] <==> confirmPassword != [] && password == confirmPassword
    ensures Issue("confirmPassword", "Passwords don't match") in r <==> password != confirmPassword
  {
    JsLengthZero(confirmPassword);
    (if JsLength(confirmPassword) < 1 then [Issue("confirmPassword", "Confirm password is required")] else [])
    + (if password == confirmPassword then [] else [Issue("confirmPassword", "Passwords don't match")])
  }

  /** registerSchema: zod runs every check of every field, reporting each failure in
      field order, and then the object's refinement that the two passwords are
      equal; the form can be submitted only when nothing is reported. */
  function RegisterIssues(name: string, email: string, password: string, confirmPassword: string,
                          isEmail: string -> bool, unicodeFlag: bool): (r: seq<Issue>)
    ensures r == [] <==>
      JsLength(name) >= 2 && isEmail(email) && PasswordPatternMatches(password, unicodeFlag)
      && password == confirmPassword
    ensures Issue("confirmPassword", "Passwords don't match") in r <==> password != confirmPassword
  {
    var n, e, p, c := NameIssues(name), (if isEmail(email) then [] else [Issue("email", "Invalid email address")]),
      PasswordIssues(password, unicodeFlag), ConfirmIssues(password, confirmPassword);
    assert Issue("confirmPassword", "Passwords don't match") !in n + e + p;
    n + e + p + c
  }

  /** As written the form accepts a password of six characters, two of them above
      0xFFFF, which the server's rule turns down: the form counts eight code units. */
  lemma AstralPasswordAccepted(isDecimal: char -> bool)
    ensures var p := "Aa1!\U{1F600}\U{1F600}";
      && PasswordPatternMatches(p, false)
      && !PasswordPatternMatches(p, true)
      && UserSchema.ValidatePasswordStrength(p, isDecimal).Err?
  {
    var p := "Aa1!\U{1F600}\U{1F600}";
    AstralClasses(p);
    AstralLength(p);
    FormPatternByCharacters(p);
  }

  lemma AstralClasses(p: string)
    requires p == "Aa1!\U{1F600}\U{1F600}"
    ensures HasClasses(p, JsUnicodeEngine)
  {
    assert JsUnicodeEngine.lower(p[1]) && JsUnicodeEngine.upper(p[0]);
    assert JsUnicodeEngine.digit(p[2]) && JsUnicodeEngine.special(p[3]);
  }

  lemma AstralLength(p: string)
    requires p == "Aa1!\U{1F600}\U{1F600}"
    ensures JsLength(p) == 8 && |p| == 6
  {
    var e := '\U{1F600}';
    assert |Units(e)| == 2;
    ToUtf16Cons(e, []);
    ToUtf16Cons(e, [e]);
    ToUtf16Cons('!', [e, e]);
    ToUtf16Cons('1', ['!', e, e]);
    ToUtf16Cons('a', ['1', '!', e, e]);
    ToUtf16Cons('A', ['a', '1', '!', e, e]);
    assert p == ['A', 'a', '1', '!', e, e];
  }

  lemma ToUtf16Cons(c: char, rest: string)
    ensures ToUtf16([c] + rest) == Units(c) + ToUtf16(rest)
  {
    assert ([c] + rest)[1..] == rest;
  }

  /** With the `u` flag every password the form accepts is one the server accepts,
      since Python's `\d` takes in the ASCII digits and its `.` only leaves out the
      line feed. */
  lemma UnicodePatternAgrees(password: string, isDecimal: char -> bool)
    requires forall c: char :: IsAsciiDigit(c) ==> isDecimal(c)
    requires PasswordPatternMatches(password, true)
    ensures UserSchema.ValidatePasswordStrength(password, isDecimal).Ok?
  {
    FormPatternByCharacters(password);
    PyClassesOfJs(password, isDecimal);
  }

  /** Every class the `u`-flag pattern finds, Python's pattern finds too. */
  lemma PyClassesOfJs(password: string, isDecimal: char -> bool)
    requires forall c: char :: IsAsciiDigit(c) ==> isDecimal(c)
    requires HasClasses(password, JsUnicodeEngine)
    ensures HasClasses(password, UserSchema.PyEngine(isDecimal))
  {
    var py := UserSchema.PyEngine(isDecimal);
    forall i | 0 <= i < |password| ensures py.dot(password[i]) {
      assert CharDot(password[i]);
    }
    var d :| 0 <= d < |password| && IsAsciiDigit(password[d]);
    assert py.digit(password[d]);
  }

  /** A registration the corrected form accepts is accepted by the server when the
      name has no character above 0xFFFF and at most 200 characters (the form sets
      no maximum) and the two email checks agree. */
  lemma RegistrationAgreement(name: string, email: string, password: string, confirmPassword: string,
                              isEmailForm: string -> bool, isEmail: string -> bool, isDecimal: char -> bool)
    requires RegisterIssues(name, email, password, confirmPassword, isEmailForm, true) == []
    requires InBmp(name) && |name| <= 200
    requires isEmailForm(email) ==> isEmail(email)
    requires forall c: char :: IsAsciiDigit(c) ==> isDecimal(c)
    ensures UserSchema.UserCreateIssues(name, email, password, isEmail, isDecimal) == []
  {
    BmpLength(name);
    UnicodePatternAgrees(password, isDecimal);
  }

  /** Without that proviso on the name: one emoji is two code units, enough for the
      form's minimum of 2 and too short for the server's. */
  lemma AstralNameAccepted(isEmail: string -> bool, isDecimal: char -> bool)
    ensures JsLength("\U{1F600}") == 2
    ensures UserSchema.NameIssues("\U{1F600}") == [UserSchema.FieldIssue("name", UserSchema.TooShort(2))]
  {
    assert ToUtf16("\U{1F600}") == Units('\U{1F600}');
  }
}
