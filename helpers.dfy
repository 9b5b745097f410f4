/** Backend helpers: parsing an optional date query parameter, and extracting
    "owner/repo" from a GitHub URL or a bare "owner/repo" string. */
module Helpers {
  import opened Wrappers
  import opened Text

  /** A calendar date of the proleptic Gregorian calendar, as Python's `date`. */
  datatype Date = Date(year: int, month: int, day: int)

  predicate IsLeapYear(y: int) {
    y % 4 == 0 && (y % 100 != 0 || y % 400 == 0)
  }

  function DaysInMonth(y: int, m: int): int
    requires 1 <= m <= 12
  {
    if m == 2 then (if IsLeapYear(y) then 29 else 28)
    else if m == 4 || m == 6 || m == 9 || m == 11 then 30
    else 31
  }

  /** The dates Python's `date` can represent. */
  predicate ValidDate(d: Date) {
    1 <= d.year <= 9999 && 1 <= d.month <= 12 && 1 <= d.day <= DaysInMonth(d.year, d.month)
  }

  predicate IsDigit(c: char) {
    '0' <= c <= '9'
  }

  function DigitValue(c: char): nat
    requires IsDigit(c)
  {
    c as int - '0' as int
  }

  function Digit(n: nat): char
    requires n < 10
  {
    ('0' as int + n) as char
  }

  /** The value of a run of decimal digits. */
  function Value(s: string): nat
    requires forall i :: 0 <= i < |s| ==> IsDigit(s[i])
  {
    if s == [] then 0 else 10 * Value(s[..|s| - 1]) + DigitValue(s[|s| - 1])
  }

  /** `n` in exactly `width` digits, zero-padded on the left (`%02d`, `%04d`). */
  function Padded(n: nat, width: nat): (s: string)
    ensures |s| == width
    ensures forall i :: 0 <= i < |s| ==> IsDigit(s[i])
  {
    if width == 0 then [] else Padded(n / 10, width - 1) + [Digit(n % 10)]
  }

  function Pow10(k: nat): nat {
    if k == 0 then 1 else 10 * Pow10(k - 1)
  }

  /** Reading a padded number gives it back when it fits in the width. */
  lemma {:induction false} ValueOfPadded(n: nat, width: nat)
    requires n < Pow10(width)
    ensures Value(Padded(n, width)) == n
  {
    if width > 0 {
      var s := Padded(n, width);
      assert s[..|s| - 1] == Padded(n / 10, width - 1);
      ValueOfPadded(n / 10, width - 1);
    }
  }

  /** Padding the value of a digit run gives the run back. */
  lemma {:induction false} PaddedOfValue(s: string)
    requires forall i :: 0 <= i < |s| ==> IsDigit(s[i])
    ensures Padded(Value(s), |s|) == s
  {
    if s != [] {
      var init := s[..|s| - 1];
      PaddedOfValue(init);
      assert Value(s) / 10 == Value(init);
      assert Value(s) % 10 == DigitValue(s[|s| - 1]);
      assert s == init + [s[|s| - 1]];
    }
  }

  /** Reading back the decimal rendering of a natural number gives it. */
  lemma {:induction false} ValueOfNatToString(n: nat)
    ensures AllDigits(NatToString(n)) && Value(NatToString(n)) == n
  {
    var s := NatToString(n);
    var d := n % 10;
    assert DigitValue(DigitChar(d)) == d by {
      assert d == 0 || d == 1 || d == 2 || d == 3 || d == 4 || d == 5 || d == 6 || d == 7 || d == 8 || d == 9;
    }
    if n >= 10 {
      ValueOfNatToString(n / 10);
      assert s[..|s| - 1] == NatToString(n / 10);
    }
  }

  /** The decimal rendering of an integer: its magnitude's digits, after a '-'
      exactly when it is negative. */
  lemma IntToStringValue(n: int)
    ensures var s := IntToString(n);
      && (s[0] == '-' <==> n < 0)
      && (n < 0 ==> AllDigits(s[1..]) && Value(s[1..]) == -n)
      && (n >= 0 ==> AllDigits(s) && Value(s) == n)
  {
    var s := IntToString(n);
    if n < 0 {
      ValueOfNatToString(-n);
      assert s[1..] == NatToString(-n);
    } else {
      ValueOfNatToString(n);
      assert IsDigit(s[0]);
    }
  }

  /** date.isoformat(): YYYY-MM-DD. */
  function IsoFormat(d: Date): (s: string)
    requires ValidDate(d)
    ensures |s| == 10
  {
    Padded(d.year, 4) + "-" + Padded(d.month, 2) + "-" + Padded(d.day, 2)
  }

  predicate AllDigits(s: string) {
    forall i :: 0 <= i < |s| ==> IsDigit(s[i])
  }

  /** date.fromisoformat on the ten-character form YYYY-MM-DD: ASCII digits, '-' separators
      and a date that exists. */
  function FromIsoFormat(s: string): (r: Option<Date>)
    ensures r.Some? ==> ValidDate(r.value) && IsoFormat(r.value) == s
  {
    if |s| == 10 && s[4] == '-' && s[7] == '-' && AllDigits(s[..4]) && AllDigits(s[5..7]) && AllDigits(s[8..]) then
      var d := Date(Value(s[..4]), Value(s[5..7]), Value(s[8..]));
      if ValidDate(d) then
        IsoFormatOfFields(s);
        Some(d)
      else None
    else None
  }

  /** A ten-character text of digit fields is the ISO form of the date it spells. */
  lemma IsoFormatOfFields(s: string)
    requires |s| == 10 && s[4] == '-' && s[7] == '-'
    requires AllDigits(s[..4]) && AllDigits(s[5..7]) && AllDigits(s[8..])
    requires ValidDate(Date(Value(s[..4]), Value(s[5..7]), Value(s[8..])))
    ensures IsoFormat(Date(Value(s[..4]), Value(s[5..7]), Value(s[8..]))) == s
  {
    var y, m, d := s[..4], s[5..7], s[8..];
    PaddedOfValue(y);
    PaddedOfValue(m);
    PaddedOfValue(d);
    calc {
      IsoFormat(Date(Value(y), Value(m), Value(d)));
      Padded(Value(y), 4) + "-" + Padded(Value(m), 2) + "-" + Padded(Value(d), 2);
      y + "-" + m + "-" + d;
      { assert s == s[..4] + [s[4]] + s[5..7] + [s[7]] + s[8..]; }
      s;
    }
  }

  /** Every valid date's ISO form parses back to it. */
  lemma FromIsoFormatOfIsoFormat(d: Date)
    requires ValidDate(d)
    ensures FromIsoFormat(IsoFormat(d)) == Some(d)
  {
    var s := IsoFormat(d);
    assert s[..4] == Padded(d.year, 4);
    assert s[5..7] == Padded(d.month, 2);
    assert s[8..] == Padded(d.day, 2);
    ValueOfPadded(d.year, 4);
    ValueOfPadded(d.month, 2);
    ValueOfPadded(d.day, 2);
  }

  const InvalidDate := HttpError(400, "Invalid date format. Use YYYY-MM-DD")

  /** parse_date_or_none: no date for a missing or empty value, the date for a valid
      YYYY-MM-DD value, a 400 otherwise. */
  function ParseDateOrNone(value: Option<string>): (r: Result<Option<Date>>)
    ensures value.None? || value.value == "" ==> r == Ok(None)
    ensures r.Ok? && r.value.Some? ==> value.Some? && ValidDate(r.value.value) && IsoFormat(r.value.value) == value.value
    ensures r.Err? ==> r.error == InvalidDate && value.Some? && FromIsoFormat(value.value).None?
    ensures value.Some? && value.value != "" ==>
      r == (if FromIsoFormat(value.value).Some? then Ok(FromIsoFormat(value.value)) else Err(InvalidDate))
  {
    if value.None? || value.value == "" then Ok(None)
    else
      match FromIsoFormat(value.value)
      case Some(d) => Ok(Some(d))
      case None => Err(InvalidDate)
  }

  /** A leap day parses. */
  lemma ParseLeapDay()
    ensures ParseDateOrNone(Some("2024-02-29")) == Ok(Some(Date(2024, 2, 29)))
  {
    var d := Date(2024, 2, 29);
    FromIsoFormatOfIsoFormat(d);
    assert Padded(2024, 4) == "2024" by {
      assert Padded(2, 1) == "2";
      assert Padded(20, 2) == "20";
      assert Padded(202, 3) == "202";
    }
    assert Padded(2, 2) == "02" && Padded(29, 2) == "29";
    assert IsoFormat(d) == "2024-02-29";
  }

  /** The 29th of February of a common year does not exist. */
  lemma ParseMissingDay()
    ensures ParseDateOrNone(Some("2023-02-29")) == Err(InvalidDate)
  {
    MissingDayFields("2023-02-29");
    assert !ValidDate(Date(2023, 2, 29));
  }

  /** The fields of "2023-02-29", digit by digit. */
  lemma MissingDayFields(s: string)
    requires s == "2023-02-29"
    ensures |s| == 10 && s[4] == '-' && s[7] == '-'
    ensures AllDigits(s[..4]) && AllDigits(s[5..7]) && AllDigits(s[8..])
    ensures Value(s[..4]) == 2023 && Value(s[5..7]) == 2 && Value(s[8..]) == 29
  {
    var y, m, d := s[..4], s[5..7], s[8..];
    assert y[0] == '2' && y[1] == '0' && y[2] == '2' && y[3] == '3';
    assert m[0] == '0' && m[1] == '2';
    assert d[0] == '2' && d[1] == '9';
    ValueOfFour(y);
    ValueOfTwo(m);
    ValueOfTwo(d);
  }

  /** A four-digit field read digit by digit. */
  lemma ValueOfFour(s: string)
    requires |s| == 4 && AllDigits(s)
    ensures Value(s) == 1000 * DigitValue(s[0]) + 100 * DigitValue(s[1]) + 10 * DigitValue(s[2]) + DigitValue(s[3])
  {
    assert s[..1][..0] == [] && s[..2][..1] == s[..1] && s[..3][..2] == s[..2];
    assert Value(s[..1]) == DigitValue(s[0]);
    assert Value(s[..2]) == 10 * Value(s[..1]) + DigitValue(s[1]);
    assert Value(s[..3]) == 10 * Value(s[..2]) + DigitValue(s[2]);
    assert Value(s) == 10 * Value(s[..3]) + DigitValue(s[3]);
  }

  /** A two-digit field read digit by digit. */
  lemma ValueOfTwo(s: string)
    requires |s| == 2 && AllDigits(s)
    ensures Value(s) == 10 * DigitValue(s[0]) + DigitValue(s[1])
  {
    assert s[..1][..0] == [];
    assert Value(s[..1]) == DigitValue(s[0]);
    assert Value(s) == 10 * Value(s[..1]) + DigitValue(s[1]);
  }

  /** Only '-' separates the fields. */
  lemma ParseWrongSeparator()
    ensures ParseDateOrNone(Some("2024/02/29")) == Err(InvalidDate)
  {
    assert "2024/02/29"[4] == '/';
  }

  // ---- extract_owner_repo ----

  const GithubHost := "github.com/"

  /** The end of the run of non-'/' characters starting at `k`. */
  function RunEnd(s: string, k: nat): (e: nat)
    requires k <= |s|
    ensures k <= e <= |s|
    ensures forall j :: k <= j < e ==> s[j] != '/'
    ensures e == |s| || s[e] == '/'
    decreases |s| - k
  {
    if k == |s| || s[k] == '/' then k else RunEnd(s, k + 1)
  }

  /** What the pattern github\.com/([^/]+)/([^/]+) matches at position `i`, as its two groups. */
  function MatchAt(s: string, i: nat): (r: Option<(string, string)>)
    ensures r.Some? ==> r.value.0 != "" && r.value.1 != "" && SlashFree(r.value.0) && SlashFree(r.value.1)
  {
    MatchAfter(s, i, GithubHost)
  }

  /** The same pattern with any literal `host` in place of "github.com/". */
  function MatchAfter(s: string, i: nat, host: string): (r: Option<(string, string)>)
    ensures r.Some? ==> r.value.0 != "" && r.value.1 != "" && SlashFree(r.value.0) && SlashFree(r.value.1)
  {
    if i + |host| <= |s| && s[i..i + |host|] == host then
      var start1 := i + |host|;
      var end1 := RunEnd(s, start1);
      if start1 < end1 < |s| then
        var end2 := RunEnd(s, end1 + 1);
        if end1 + 1 < end2 then Some((s[start1..end1], s[end1 + 1..end2])) else None
      else None
    else None
  }

  predicate SlashFree(t: string) {
    forall j :: 0 <= j < |t| ==> t[j] != '/'
  }

  /** The regular expression's own reading of a match at `i` with groups `g1`, `g2`: the
      text there is github.com/g1/g2 with both groups non-empty and slash-free, and the
      greedy second group cannot be extended. */
  predicate RegexMatchesAt(s: string, i: nat, g1: string, g2: string) {
    RegexMatchesAfter(s, i, GithubHost, g1, g2)
  }

  predicate RegexMatchesAfter(s: string, i: nat, host: string, g1: string, g2: string) {
    var m := host + g1 + "/" + g2;
    && g1 != "" && g2 != "" && SlashFree(g1) && SlashFree(g2)
    && i + |m| <= |s| && s[i..i + |m|] == m
    && (i + |m| == |s| || s[i + |m|] == '/')
  }

  lemma SliceSplit(s: string, a: nat, b: nat, c: nat)
    requires a <= b <= c <= |s|
    ensures s[a..c] == s[a..b] + s[b..c]
  {
  }

  /** Every match MatchAt reports is a match of the regular expression. */
  lemma MatchAtSound(s: string, i: nat)
    requires MatchAt(s, i).Some?
    ensures RegexMatchesAt(s, i, MatchAt(s, i).value.0, MatchAt(s, i).value.1)
  {
    MatchAfterSound(s, i, GithubHost);
  }

  lemma MatchAfterSound(s: string, i: nat, host: string)
    requires MatchAfter(s, i, host).Some?
    ensures RegexMatchesAfter(s, i, host, MatchAfter(s, i, host).value.0, MatchAfter(s, i, host).value.1)
  {
    var h := |host|;
    var end1 := RunEnd(s, i + h);
    var end2 := RunEnd(s, end1 + 1);
    var g1 := s[i + h..end1];
    var g2 := s[end1 + 1..end2];
    assert MatchAfter(s, i, host) == Some((g1, g2));
    assert s[i..i + h] == host;
    assert s[end1..end1 + 1] == "/";
    SliceSplit(s, i, i + h, end1);
    SliceSplit(s, i, end1, end1 + 1);
    SliceSplit(s, i, end1 + 1, end2);
    assert s[i..end2] == host + g1 + "/" + g2;
  }

  /** RunEnd stops at the first '/' (or the end). */
  lemma {:induction false} RunEndIs(s: string, k: nat, e: nat)
    requires k <= e <= |s|
    requires forall j :: k <= j < e ==> s[j] != '/'
    requires e == |s| || s[e] == '/'
    ensures RunEnd(s, k) == e
    decreases e - k
  {
    if k < e {
      RunEndIs(s, k + 1, e);
    }
  }

  /** Every match of the regular expression at `i` is the one MatchAt reports. */
  lemma MatchAtComplete(s: string, i: nat, g1: string, g2: string)
    requires RegexMatchesAt(s, i, g1, g2)
    ensures MatchAt(s, i) == Some((g1, g2))
  {
    MatchAfterComplete(s, i, GithubHost, g1, g2);
  }

  lemma MatchAfterComplete(s: string, i: nat, host: string, g1: string, g2: string)
    requires RegexMatchesAfter(s, i, host, g1, g2)
    ensures MatchAfter(s, i, host) == Some((g1, g2))
  {
    var h := |host|;
    var e1 := i + h + |g1|;
    var e2 := e1 + 1 + |g2|;
    MatchParts(s, i, host, g1, g2);
    RunEndIs(s, i + h, e1);
    RunEndIs(s, e1 + 1, e2);
  }

  /** The pieces of a regular-expression match, located in `s`. */
  lemma MatchParts(s: string, i: nat, host: string, g1: string, g2: string)
    requires RegexMatchesAfter(s, i, host, g1, g2)
    ensures var e1 := i + |host| + |g1|;
      var e2 := e1 + 1 + |g2|;
      && e2 <= |s| && s[i..i + |host|] == host && s[i + |host|..e1] == g1 && s[e1] == '/' && s[e1 + 1..e2] == g2
      && (forall j :: i + |host| <= j < e1 ==> s[j] != '/')
      && (forall j :: e1 + 1 <= j < e2 ==> s[j] != '/')
      && (e2 == |s| || s[e2] == '/')
  {
    MatchSlices(s, i, host + g1 + "/" + g2, host, g1, g2);
    SlashFreeAt(s, i + |host|, g1);
    SlashFreeAt(s, i + |host| + |g1| + 1, g2);
  }

  /** Where the host, the groups and the '/' between them lie in a located match. */
  lemma MatchSlices(s: string, i: nat, m: string, host: string, g1: string, g2: string)
    requires m == host + g1 + "/" + g2
    requires i + |m| <= |s| && s[i..i + |m|] == m
    ensures var e1 := i + |host| + |g1|;
      && s[i..i + |host|] == host && s[i + |host|..e1] == g1 && s[e1] == '/' && s[e1 + 1..i + |m|] == g2
  {
    var h := |host|;
    assert m[..h] == host;
    assert m[h..h + |g1|] == g1;
    assert m[h + |g1|] == '/';
    assert m[h + |g1| + 1..] == g2;
    SubSlice(s, i, m, 0, h);
    SubSlice(s, i, m, h, h + |g1|);
    SubSlice(s, i, m, h + |g1| + 1, |m|);
    assert s[i + h + |g1|] == s[i..i + |m|][h + |g1|];
  }

  /** A slice of a located piece is located at the same offset. */
  lemma SubSlice(s: string, i: nat, t: string, a: nat, b: nat)
    requires i + |t| <= |s| && s[i..i + |t|] == t && a <= b <= |t|
    ensures s[i + a..i + b] == t[a..b]
  {
    var u := s[i..i + |t|];
    forall j | a <= j < b ensures s[i + j] == t[j] {
      assert u[j] == s[i + j];
    }
  }

  /** A slash-free piece located at `k` has no '/' in its range. */
  lemma SlashFreeAt(s: string, k: nat, g: string)
    requires k + |g| <= |s| && s[k..k + |g|] == g && SlashFree(g)
    ensures forall j :: k <= j < k + |g| ==> s[j] != '/'
  {
    forall j | k <= j < k + |g| ensures s[j] != '/' {
      assert s[j] == s[k..k + |g|][j - k];
    }
  }

  /** re.search: the leftmost position at or after `from` where the pattern matches. */
  function SearchFrom(s: string, from: nat): (r: Option<nat>)
    requires from <= |s|
    ensures r.Some? ==> from <= r.value <= |s| && MatchAt(s, r.value).Some?
    ensures r.Some? ==> forall j :: from <= j < r.value ==> MatchAt(s, j).None?
    ensures r.None? ==> forall j :: from <= j <= |s| ==> MatchAt(s, j).None?
    decreases |s| - from
  {
    if MatchAt(s, from).Some? then Some(from)
    else if from == |s| then None
    else SearchFrom(s, from + 1)
  }

  /** The fallback: exactly one '/', both sides non-blank after stripping. */
  function SplitPair(url: string): (r: Option<(string, string)>)
    ensures r.Some? ==> r.value.0 != "" && r.value.1 != "" && SlashFree(r.value.0) && SlashFree(r.value.1)
  {
    if '/' in url && |Split(url, '/')| == 2 then
      var parts := Split(url, '/');
      var owner := Strip(parts[0], PyWhitespace);
      var repo := Strip(parts[1], PyWhitespace);
      if owner != "" && repo != "" then
        StripChars(parts[0], PyWhitespace);
        StripChars(parts[1], PyWhitespace);
        assert '/' !in parts[0] && '/' !in parts[1];
        Some((owner, repo))
      else None
    else None
  }

  /** extract_owner_repo's two parts, before they are joined with '/'. */
  function OwnerRepoParts(url: string): (r: Option<(string, string)>)
    ensures r.Some? ==> r.value.0 != "" && r.value.1 != "" && SlashFree(r.value.0) && SlashFree(r.value.1)
    ensures SearchFrom(url, 0).Some? ==> r == MatchAt(url, SearchFrom(url, 0).value)
    ensures SearchFrom(url, 0).None? ==> r == SplitPair(url)
  {
    match SearchFrom(url, 0)
    case Some(i) => MatchAt(url, i)
    case None => SplitPair(url)
  }

  /** extract_owner_repo. */
  function ExtractOwnerRepo(url: string): (r: Option<string>)
    ensures r.Some? <==> OwnerRepoParts(url).Some?
    ensures r.Some? ==> r.value == OwnerRepoParts(url).value.0 + "/" + OwnerRepoParts(url).value.1
  {
    match OwnerRepoParts(url)
    case Some((a, b)) => Some(a + "/" + b)
    case None => None
  }

  /** Any result is owner + "/" + repo with both non-empty and slash-free, so it has
      exactly one '/' and splits back into its two parts. */
  lemma ExtractedHasOneSlash(url: string)
    requires ExtractOwnerRepo(url).Some?
    ensures var p := OwnerRepoParts(url).value;
      var r := ExtractOwnerRepo(url).value;
      && |Split(r, '/')| == 2 && Split(r, '/')[0] == p.0 && Split(r, '/')[1] == p.1
  {
    var p := OwnerRepoParts(url).value;
    var r := ExtractOwnerRepo(url).value;
    assert r[|p.0|] == '/';
    assert r[..|p.0|] == p.0 && r[|p.0| + 1..] == p.1;
    assert IndexOf(r, '/') == |p.0| by {
      IndexOfFirst(r, '/', |p.0|);
    }
    assert SlashFree(p.1);
  }

  lemma IndexOfFirst(s: string, c: char, k: nat)
    requires k < |s| && s[k] == c && forall j :: 0 <= j < k ==> s[j] != c
    ensures IndexOf(s, c) == k
  {
    if k > 0 {
      IndexOfFirst(s[1..], c, k - 1);
    }
  }

  /** No match can start at a character other than 'g'. */
  lemma NoMatchOffG(s: string, j: nat)
    requires j < |s| && s[j] != 'g'
    ensures MatchAt(s, j).None?
  {
    if j + |GithubHost| <= |s| {
      assert s[j..j + |GithubHost|][0] == s[j];
    }
  }

  /** An https URL of a repository gives its owner and name. */
  lemma ExtractFromUrl(owner: string, repo: string)
    requires owner != "" && repo != "" && SlashFree(owner) && SlashFree(repo)
    ensures ExtractOwnerRepo("https://github.com/" + owner + "/" + repo) == Some(owner + "/" + repo)
  {
    var u := "https://github.com/" + owner + "/" + repo;
    UrlMatch(owner, repo);
    NoMatchInScheme(u);
    SearchFinds(u, 0, 8);
  }

  lemma UrlMatch(owner: string, repo: string)
    requires owner != "" && repo != "" && SlashFree(owner) && SlashFree(repo)
    ensures var u := "https://github.com/" + owner + "/" + repo;
      |u| >= 8 && u[..8] == "https://" && MatchAt(u, 8) == Some((owner, repo))
  {
    var u := "https://github.com/" + owner + "/" + repo;
    var m := GithubHost + owner + "/" + repo;
    assert u == "https://" + m;
    assert u[8..8 + |m|] == m;
    MatchAtComplete(u, 8, owner, repo);
  }

  /** No match starts inside a leading "https://". */
  lemma NoMatchInScheme(u: string)
    requires |u| >= 8 && u[..8] == "https://"
    ensures forall j :: 0 <= j < 8 ==> MatchAt(u, j).None?
  {
    forall j | 0 <= j < 8 ensures MatchAt(u, j).None? {
      assert u[j] == "https://"[j];
      NoMatchOffG(u, j);
    }
  }

  /** The search stops at the first position where the pattern matches. */
  lemma SearchFinds(s: string, from: nat, k: nat)
    requires from <= k <= |s|
    requires forall j :: from <= j < k ==> MatchAt(s, j).None?
    requires MatchAt(s, k).Some?
    ensures SearchFrom(s, from) == Some(k)
  {
  }

  /** Without a github.com/ match, "owner/repo" with one '/' gives the stripped parts. */
  lemma ExtractFallback(a: string, b: string)
    requires SlashFree(a) && SlashFree(b)
    requires Strip(a, PyWhitespace) != "" && Strip(b, PyWhitespace) != ""
    requires SearchFrom(a + "/" + b, 0).None?
    ensures ExtractOwnerRepo(a + "/" + b) == Some(Strip(a, PyWhitespace) + "/" + Strip(b, PyWhitespace))
  {
    SplitAtSlash(a, b);
    assert SplitPair(a + "/" + b) == Some((Strip(a, PyWhitespace), Strip(b, PyWhitespace)));
  }

  lemma SplitAtSlash(a: string, b: string)
    requires SlashFree(a) && SlashFree(b)
    ensures '/' in a + "/" + b && Split(a + "/" + b, '/') == [a, b]
  {
    var s := a + "/" + b;
    assert s[|a|] == '/';
    IndexOfFirst(s, '/', |a|);
    assert s[..|a|] == a && s[|a| + 1..] == b;
    assert '/' !in b by {
      assert forall j :: 0 <= j < |b| ==> b[j] != '/';
    }
  }

  // ----- date.toordinal(): dates as day numbers -----

  function DaysInYear(y: int): int {
    if IsLeapYear(y) then 366 else 365
  }

  /** The days of the years 1 .. y - 1. */
  function DaysBeforeYear(y: int): nat
    decreases y
  {
    if y <= 1 then 0 else DaysBeforeYear(y - 1) + DaysInYear(y - 1)
  }

  /** The days of the months 1 .. m - 1 of year y. */
  function DaysBeforeMonth(y: int, m: int): nat
    requires 1 <= m <= 13
  {
    if m == 1 then 0 else DaysBeforeMonth(y, m - 1) + DaysInMonth(y, m - 1)
  }

  /** date.toordinal(): 0001-01-01 is day 1. */
  function DayNumber(d: Date): (n: int)
    requires ValidDate(d)
    ensures n >= 1
  {
    DaysBeforeYear(d.year) + DaysBeforeMonth(d.year, d.month) + d.day
  }

  /** Calendar order: year, then month, then day. */
  predicate Before(a: Date, b: Date) {
    a.year < b.year || (a.year == b.year && (a.month < b.month || (a.month == b.month && a.day < b.day)))
  }

  lemma {:induction false} MonthsMonotone(y: int, m1: int, m2: int)
    requires 1 <= m1 <= m2 <= 13
    ensures DaysBeforeMonth(y, m1) <= DaysBeforeMonth(y, m2)
    decreases m2
  {
    if m1 < m2 {
      MonthsMonotone(y, m1, m2 - 1);
    }
  }

  /** The twelve months fill the year. */
  lemma WholeYear(y: int)
    ensures DaysBeforeMonth(y, 13) == DaysInYear(y)
  {
    assert DaysBeforeMonth(y, 2) == 31;
    assert DaysBeforeMonth(y, 3) == 31 + DaysInMonth(y, 2);
    assert DaysBeforeMonth(y, 4) == 62 + DaysInMonth(y, 2);
    assert DaysBeforeMonth(y, 5) == 92 + DaysInMonth(y, 2);
    assert DaysBeforeMonth(y, 6) == 123 + DaysInMonth(y, 2);
    assert DaysBeforeMonth(y, 7) == 153 + DaysInMonth(y, 2);
    assert DaysBeforeMonth(y, 8) == 184 + DaysInMonth(y, 2);
    assert DaysBeforeMonth(y, 9) == 215 + DaysInMonth(y, 2);
    assert DaysBeforeMonth(y, 10) == 245 + DaysInMonth(y, 2);
    assert DaysBeforeMonth(y, 11) == 276 + DaysInMonth(y, 2);
    assert DaysBeforeMonth(y, 12) == 306 + DaysInMonth(y, 2);
    assert DaysBeforeMonth(y, 13) == 337 + DaysInMonth(y, 2);
  }

  lemma {:induction false} YearsMonotone(y1: int, y2: int)
    requires 1 <= y1 < y2
    ensures DaysBeforeYear(y1) + DaysInYear(y1) <= DaysBeforeYear(y2)
    decreases y2
  {
    if y1 < y2 - 1 {
      YearsMonotone(y1, y2 - 1);
    }
  }

  /** A later date has a larger day number. */
  lemma DayNumberIncreases(a: Date, b: Date)
    requires ValidDate(a) && ValidDate(b) && Before(a, b)
    ensures DayNumber(a) < DayNumber(b)
  {
    MonthsMonotone(a.year, a.month + 1, 13);
    WholeYear(a.year);
    if a.year < b.year {
      YearsMonotone(a.year, b.year);
    } else if a.month < b.month {
      MonthsMonotone(a.year, a.month + 1, b.month);
    }
  }

  /** Day numbers order dates as the calendar does, and tell them apart: comparing
      the numbers is comparing the dates. */
  lemma DayNumberOrder(a: Date, b: Date)
    requires ValidDate(a) && ValidDate(b)
    ensures Before(a, b) <==> DayNumber(a) < DayNumber(b)
    ensures a == b <==> DayNumber(a) == DayNumber(b)
  {
    if Before(a, b) {
      DayNumberIncreases(a, b);
    } else if Before(b, a) {
      DayNumberIncreases(b, a);
    }
  }
}
