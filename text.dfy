/** String helpers used by several models: prefixes, splitting and joining,
    whitespace stripping with the exact whitespace sets of Python and JavaScript,
    and decimal rendering of integers. */
module Text {

  predicate StartsWith(s: string, prefix: string) {
    |prefix| <= |s| && s[..|prefix|] == prefix
  }

  predicate EndsWith(s: string, suffix: string) {
    |suffix| <= |s| && s[|s| - |suffix|..] == suffix
  }

  /** Characters for which Python's str.isspace() holds, which str.strip() removes. */
  const PyWhitespace: set<char> := {
    '\U{0009}', '\U{000A}', '\U{000B}', '\U{000C}', '\U{000D}', '\U{001C}', '\U{001D}', '\U{001E}',
    '\U{001F}', '\U{0020}', '\U{0085}', '\U{00A0}', '\U{1680}', '\U{2000}', '\U{2001}', '\U{2002}',
    '\U{2003}', '\U{2004}', '\U{2005}', '\U{2006}', '\U{2007}', '\U{2008}', '\U{2009}', '\U{200A}',
    '\U{2028}', '\U{2029}', '\U{202F}', '\U{205F}', '\U{3000}'
  }

  /** Characters that JavaScript's String.prototype.trim() removes
      (WhiteSpace and LineTerminator of ECMAScript). */
  const JsWhitespace: set<char> := {
    '\U{0009}', '\U{000A}', '\U{000B}', '\U{000C}', '\U{000D}', '\U{0020}', '\U{00A0}', '\U{1680}',
    '\U{2000}', '\U{2001}', '\U{2002}', '\U{2003}', '\U{2004}', '\U{2005}', '\U{2006}', '\U{2007}',
    '\U{2008}', '\U{2009}', '\U{200A}', '\U{2028}', '\U{2029}', '\U{202F}', '\U{205F}', '\U{3000}',
    '\U{FEFF}'
  }

  /** Removes trailing characters of `ws`. */
  function StripRight(s: string, ws: set<char>): (r: string)
    ensures |r| <= |s| && r == s[..|r|]
    ensures r == [] || r[|r| - 1] !in ws
    ensures forall i :: |r| <= i < |s| ==> s[i] in ws
  {
    if s == [] || s[|s| - 1] !in ws then s else StripRight(s[..|s| - 1], ws)
  }

  /** How many characters of `ws` `s` starts with. */
  function LeadingIn(s: string, ws: set<char>): (n: nat)
    ensures n <= |s|
    ensures forall j :: 0 <= j < n ==> s[j] in ws
    ensures n == |s| || s[n] !in ws
  {
    if s == [] || s[0] !in ws then 0
    else
      var n := LeadingIn(s[1..], ws);
      assert forall j :: 1 <= j < n + 1 ==> s[j] == s[1..][j - 1];
      1 + n
  }

  /** Removes leading and trailing characters of `ws` (Python strip, JavaScript trim):
      the slice of `s` that starts after its leading characters of `ws` and is followed
      only by characters of `ws`. */
  function Strip(s: string, ws: set<char>): (r: string)
    ensures |r| <= |s|
    ensures r == [] || (r[0] !in ws && r[|r| - 1] !in ws)
    ensures LeadingIn(s, ws) + |r| <= |s|
    ensures r == s[LeadingIn(s, ws)..LeadingIn(s, ws) + |r|]
    ensures forall j :: LeadingIn(s, ws) + |r| <= j < |s| ==> s[j] in ws
    decreases |s|
  {
    if s == [] then []
    else if s[0] in ws then
      var r := Strip(s[1..], ws);
      var i := LeadingIn(s[1..], ws);
      assert LeadingIn(s, ws) == i + 1;
      assert s[1..][i..i + |r|] == s[i + 1..i + 1 + |r|];
      assert forall j :: i + 1 + |r| <= j < |s| ==> s[j] == s[1..][j - 1];
      r
    else
      assert LeadingIn(s, ws) == 0;
      StripRight(s, ws)
  }

  /** Every character of the stripped string comes from the original, and the
      result is empty exactly when every character is in `ws`. */
  lemma {:induction false} StripChars(s: string, ws: set<char>)
    ensures forall c :: c in Strip(s, ws) ==> c in s
    ensures (forall i :: 0 <= i < |s| ==> s[i] in ws) <==> Strip(s, ws) == []
    decreases |s|
  {
    if s != [] {
      if s[0] in ws {
        StripChars(s[1..], ws);
        assert forall i :: 1 <= i < |s| ==> s[i] == s[1..][i - 1];
        assert forall c :: c in s[1..] ==> c in s;
      } else {
        var r := StripRight(s, ws);
        forall c | c in r ensures c in s {
          var j :| 0 <= j < |r| && r[j] == c;
          assert r[j] == s[j];
        }
      }
    }
  }

  /** A string that neither starts nor ends with a character of `ws` is its own strip. */
  lemma StripFixed(s: string, ws: set<char>)
    requires s == [] || (s[0] !in ws && s[|s| - 1] !in ws)
    ensures Strip(s, ws) == s
  {
  }

  /** Stripping twice is stripping once. */
  lemma StripIdempotent(s: string, ws: set<char>)
    ensures Strip(Strip(s, ws), ws) == Strip(s, ws)
  {
    StripFixed(Strip(s, ws), ws);
  }

  /** Index of the first occurrence of `c` in `s`. */
  function IndexOf(s: string, c: char): (i: nat)
    requires c in s
    ensures i < |s| && s[i] == c && c !in s[..i]
  {
    if s[0] == c then 0 else 1 + IndexOf(s[1..], c)
  }

  /** `parts` joined with `sep` between neighbours (Python str.join, JavaScript Array.join). */
  function Join(parts: seq<string>, sep: string): string {
    if |parts| == 0 then ""
    else if |parts| == 1 then parts[0]
    else parts[0] + sep + Join(parts[1..], sep)
  }

  /** `t` occurs in `s` starting at position `i`. */
  predicate OccursAt(s: string, t: string, i: nat) {
    i + |t| <= |s| && s[i..i + |t|] == t
  }

  /** Where the k-th part starts in the joined text: after the parts before it and
      one separator after each of them. */
  function JoinOffset(parts: seq<string>, sep: string, k: nat): nat
    requires k <= |parts|
  {
    if k == 0 then 0 else |parts[0]| + |sep| + JoinOffset(parts[1..], sep, k - 1)
  }

  /** Every part appears in the joined text, at its offset, so in their order. */
  lemma {:induction false} JoinOccurs(parts: seq<string>, sep: string, k: nat)
    requires k < |parts|
    ensures OccursAt(Join(parts, sep), parts[k], JoinOffset(parts, sep, k))
  {
    var j := Join(parts, sep);
    if |parts| > 1 {
      var head := parts[0] + sep;
      var rest := Join(parts[1..], sep);
      assert j == head + rest;
      if k == 0 {
        assert j[..|parts[0]|] == parts[0];
      } else {
        JoinOccurs(parts[1..], sep, k - 1);
        var o := JoinOffset(parts[1..], sep, k - 1);
        assert parts[1..][k - 1] == parts[k];
        assert j[|head| + o..|head| + o + |parts[k]|] == rest[o..o + |parts[k]|];
      }
    }
  }

  /** Python's str.split with a one-character separator. */
  function Split(s: string, sep: char): (r: seq<string>)
    ensures |r| >= 1
    ensures forall i :: 0 <= i < |r| ==> sep !in r[i]
    ensures Join(r, [sep]) == s
    ensures sep !in s <==> |r| == 1
    decreases |s|
  {
    if sep !in s then [s]
    else
      var i := IndexOf(s, sep);
      var rest := Split(s[i + 1..], sep);
      assert s == s[..i] + [sep] + s[i + 1..];
      [s[..i]] + rest
  }

  function DigitChar(d: nat): char
    requires d < 10
  {
    "0123456789"[d]
  }

  /** Decimal rendering of a natural number, as Python's str() and JavaScript's String() give it.
      Its ensures state only the shape; Helpers.ValueOfNatToString proves that it reads back as n. */
  function NatToString(n: nat): (r: string)
    ensures |r| >= 1
    ensures forall c :: c in r ==> '0' <= c <= '9'
  {
    if n < 10 then [DigitChar(n)] else NatToString(n / 10) + [DigitChar(n % 10)]
  }

  /** Decimal rendering of an integer, with a leading '-' when it is negative; its value
      is stated by Helpers.IntToStringValue. */
  function IntToString(n: int): (r: string)
    ensures |r| >= 1
  {
    if n < 0 then "-" + NatToString(-n) else NatToString(n)
  }

  /** ASCII lower-casing, applied character by character. */
  function LowerAscii(s: string): (r: string)
    ensures |r| == |s|
  {
    seq(|s|, i requires 0 <= i < |s| =>
      if 'A' <= s[i] <= 'Z' then (s[i] as int + 32) as char else s[i])
  }
}
