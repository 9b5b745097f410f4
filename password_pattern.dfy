/** The password pattern both the server and the registration form use:
      ^(?=.*[a-z])(?=.*[A-Z])(?=.*\d)(?=.*[^A-Za-z0-9]).{8,}$
    matched against the whole input. The pattern is the same on both sides but the
    regular-expression engines differ in what they read (code points or UTF-16 code
    units) and in what `.` and `\d` match, so the pattern is stated once over any
    element type, with the engine's character classes as a parameter. */
module PasswordPattern {
  /** What an engine's `.`, `[a-z]`, `[A-Z]`, `\d` and `[^A-Za-z0-9]` match. */
  datatype Engine<!T> = Engine(dot: T -> bool, lower: T -> bool, upper: T -> bool,
                              digit: T -> bool, special: T -> bool)

  /** The minimum of `.{8,}`. */
  const MinLength := 8

  /** A lookahead `(?=.*C)` at the start: an element of class C is reached
      through elements `.` matches. */
  predicate Lookahead<T>(s: seq<T>, dot: T -> bool, cls: T -> bool) {
    exists i :: 0 <= i < |s| && cls(s[i]) && forall j :: 0 <= j < i ==> dot(s[j])
  }

  /** `.{8,}$` from the start: at least eight elements, every one matched by `.`. */
  predicate DotsToEnd<T>(s: seq<T>, dot: T -> bool) {
    |s| >= MinLength && forall i :: 0 <= i < |s| ==> dot(s[i])
  }

  /** The whole pattern, as the engine matches it against the whole input. */
  predicate Matches<T>(s: seq<T>, e: Engine<T>) {
    && Lookahead(s, e.dot, e.lower)
    && Lookahead(s, e.dot, e.upper)
    && Lookahead(s, e.dot, e.digit)
    && Lookahead(s, e.dot, e.special)
    && DotsToEnd(s, e.dot)
  }

  /** The pattern's classes, without its length: every element matched by `.`, and
      at least one of each of the four classes. */
  predicate HasClasses<T>(s: seq<T>, e: Engine<T>) {
    && (forall i :: 0 <= i < |s| ==> e.dot(s[i]))
    && (exists i :: 0 <= i < |s| && e.lower(s[i]))
    && (exists i :: 0 <= i < |s| && e.upper(s[i]))
    && (exists i :: 0 <= i < |s| && e.digit(s[i]))
    && (exists i :: 0 <= i < |s| && e.special(s[i]))
  }

  /** What the pattern requires: eight or more elements, and the classes. */
  predicate Strong<T>(s: seq<T>, e: Engine<T>) {
    |s| >= MinLength && HasClasses(s, e)
  }

  /** Once every element is matched by `.`, a lookahead finds its class anywhere. */
  lemma LookaheadAnywhere<T>(s: seq<T>, dot: T -> bool, cls: T -> bool)
    requires forall i :: 0 <= i < |s| ==> dot(s[i])
    ensures Lookahead(s, dot, cls) <==> exists i :: 0 <= i < |s| && cls(s[i])
  {
    if exists i :: 0 <= i < |s| && cls(s[i]) {
      var i :| 0 <= i < |s| && cls(s[i]);
      assert forall j :: 0 <= j < i ==> dot(s[j]);
    }
  }

  /** The pattern matches exactly the strong inputs. */
  lemma MatchesIffStrong<T>(s: seq<T>, e: Engine<T>)
    ensures Matches(s, e) <==> Strong(s, e)
  {
    if forall i :: 0 <= i < |s| ==> e.dot(s[i]) {
      LookaheadAnywhere(s, e.dot, e.lower);
      LookaheadAnywhere(s, e.dot, e.upper);
      LookaheadAnywhere(s, e.dot, e.digit);
      LookaheadAnywhere(s, e.dot, e.special);
    }
  }

  predicate IsAsciiLower(c: char) { 'a' <= c <= 'z' }
  predicate IsAsciiUpper(c: char) { 'A' <= c <= 'Z' }
  predicate IsAsciiDigit(c: char) { '0' <= c <= '9' }
  predicate IsAsciiAlnum(c: char) { IsAsciiLower(c) || IsAsciiUpper(c) || IsAsciiDigit(c) }
  /** `[^A-Za-z0-9]` over characters. */
  predicate IsSpecial(c: char) { !IsAsciiAlnum(c) }
}
