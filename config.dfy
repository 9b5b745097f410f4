/** Backend settings: their defaults, the GitHub endpoint paths derived from the
    base URL, and the parsing of the comma-separated CORS origin list. */
module Config {
  import opened Text

  const JwtAlgorithm := "HS256"
  const AccessTokenExpireMinutes := 60
  const RefreshTokenExpireDays := 7
  const DefaultGithubApiBaseUrl := "https://api.github.com/"

  /** The settings the backend reads from its environment; `corsOrigins` has no default. */
  datatype Settings = Settings(
    jwtAlgorithm: string,
    accessTokenExpireMinutes: int,
    refreshTokenExpireDays: int,
    githubApiBaseUrl: string,
    corsOrigins: string)

  /** The settings when only the required CORS_ORIGINS is given. */
  function DefaultSettings(corsOrigins: string): (s: Settings)
    ensures s.jwtAlgorithm == "HS256" && s.accessTokenExpireMinutes == 60 && s.refreshTokenExpireDays == 7
    ensures s.githubApiBaseUrl == "https://api.github.com/" && s.corsOrigins == corsOrigins
  {
    Settings(JwtAlgorithm, AccessTokenExpireMinutes, RefreshTokenExpireDays, DefaultGithubApiBaseUrl, corsOrigins)
  }

  function GithubSearchReposPath(s: Settings): string {
    s.githubApiBaseUrl + "search/repositories"
  }

  function GithubSearchUserPath(s: Settings): string {
    s.githubApiBaseUrl + "search/users"
  }

  function GithubGetRepoByIdPath(s: Settings): string {
    s.githubApiBaseUrl + "repositories"
  }

  /** The three GitHub paths all extend the base URL and are pairwise distinct,
      whatever the base URL is. */
  lemma GithubPathsDistinct(s: Settings)
    ensures StartsWith(GithubSearchReposPath(s), s.githubApiBaseUrl)
    ensures StartsWith(GithubSearchUserPath(s), s.githubApiBaseUrl)
    ensures StartsWith(GithubGetRepoByIdPath(s), s.githubApiBaseUrl)
    ensures GithubSearchReposPath(s) != GithubSearchUserPath(s)
    ensures GithubSearchReposPath(s) != GithubGetRepoByIdPath(s)
    ensures GithubSearchUserPath(s) != GithubGetRepoByIdPath(s)
  {
    var b := s.githubApiBaseUrl;
    assert GithubSearchReposPath(s)[..|b|] == b;
    assert GithubSearchUserPath(s)[..|b|] == b;
    assert GithubGetRepoByIdPath(s)[..|b|] == b;
    assert GithubSearchReposPath(s)[|b| + 7] == 'r' && GithubSearchUserPath(s)[|b| + 7] == 'u';
    assert |GithubGetRepoByIdPath(s)| == |b| + 12;
    assert |GithubSearchReposPath(s)| == |b| + 19;
    assert |GithubSearchUserPath(s)| == |b| + 12;
    assert GithubSearchUserPath(s)[|b|] == 's' && GithubGetRepoByIdPath(s)[|b|] == 'r';
  }

  /** A CORS origin as the list keeps it: non-empty, with no surrounding whitespace. */
  predicate IsTrimmed(x: string, ws: set<char>) {
    x != "" && x[0] !in ws && x[|x| - 1] !in ws
  }

  predicate AllTrimmed(r: seq<string>, ws: set<char>) {
    forall i :: 0 <= i < |r| ==> IsTrimmed(r[i], ws)
  }

  lemma TrimmedCons(t: string, rest: seq<string>, ws: set<char>)
    requires IsTrimmed(t, ws) && AllTrimmed(rest, ws)
    ensures AllTrimmed([t] + rest, ws)
  {
    assert forall i :: 1 <= i < |[t] + rest| ==> ([t] + rest)[i] == rest[i - 1];
  }

  /** The stripped pieces that are not empty, in order. */
  function KeepStripped(pieces: seq<string>, ws: set<char>): (r: seq<string>)
    ensures |r| <= |pieces|
    ensures AllTrimmed(r, ws)
  {
    if pieces == [] then []
    else
      var t := Strip(pieces[0], ws);
      var rest := KeepStripped(pieces[1..], ws);
      if t == "" then rest
      else
        TrimmedCons(t, rest, ws);
        [t] + rest
  }

  /** An origin is listed exactly when some piece strips to it and it is not empty. */
  lemma {:induction false} KeepStrippedMembers(pieces: seq<string>, ws: set<char>, x: string)
    ensures x in KeepStripped(pieces, ws) <==> x != "" && exists i :: 0 <= i < |pieces| && x == Strip(pieces[i], ws)
  {
    if x in KeepStripped(pieces, ws) {
      KeptAreStripped(pieces, ws, x);
    }
    if x != "" && exists i :: 0 <= i < |pieces| && x == Strip(pieces[i], ws) {
      var i :| 0 <= i < |pieces| && x == Strip(pieces[i], ws);
      StrippedAreKept(pieces, ws, i);
    }
  }

  lemma {:induction false} KeptAreStripped(pieces: seq<string>, ws: set<char>, x: string)
    requires x in KeepStripped(pieces, ws)
    ensures x != "" && exists i :: 0 <= i < |pieces| && x == Strip(pieces[i], ws)
  {
    var t := Strip(pieces[0], ws);
    var tail := pieces[1..];
    if t != "" && x == t {
      assert x == Strip(pieces[0], ws);
    } else {
      assert x in KeepStripped(tail, ws);
      KeptAreStripped(tail, ws, x);
      var i :| 0 <= i < |tail| && x == Strip(tail[i], ws);
      assert tail[i] == pieces[i + 1];
    }
  }

  lemma {:induction false} StrippedAreKept(pieces: seq<string>, ws: set<char>, i: nat)
    requires i < |pieces| && Strip(pieces[i], ws) != ""
    ensures Strip(pieces[i], ws) in KeepStripped(pieces, ws)
  {
    var tail := pieces[1..];
    if i > 0 {
      assert tail[i - 1] == pieces[i];
      StrippedAreKept(tail, ws, i - 1);
    }
  }

  /** cors_origins_list: CORS_ORIGINS split on ',', each piece stripped, empty ones dropped. */
  function CorsOriginsList(s: Settings): (r: seq<string>)
    ensures forall i :: 0 <= i < |r| ==> IsTrimmed(r[i], PyWhitespace) && ',' !in r[i]
  {
    var pieces := Split(s.corsOrigins, ',');
    var r := KeepStripped(pieces, PyWhitespace);
    assert forall i :: 0 <= i < |r| ==> ',' !in r[i] by {
      forall i | 0 <= i < |r| ensures ',' !in r[i] {
        KeepStrippedMembers(pieces, PyWhitespace, r[i]);
        var j :| 0 <= j < |pieces| && r[i] == Strip(pieces[j], PyWhitespace);
        StripChars(pieces[j], PyWhitespace);
        assert ',' !in pieces[j];
      }
    }
    r
  }

  /** Membership in cors_origins_list in terms of the pieces between the commas. */
  lemma CorsOriginsMembers(s: Settings, x: string)
    ensures var pieces := Split(s.corsOrigins, ',');
      x in CorsOriginsList(s) <==> x != "" && exists i :: 0 <= i < |pieces| && x == Strip(pieces[i], PyWhitespace)
  {
    CorsOriginsListUnfold(s);
    KeepStrippedMembers(Split(s.corsOrigins, ','), PyWhitespace, x);
  }

  lemma CorsOriginsListUnfold(s: Settings)
    ensures CorsOriginsList(s) == KeepStripped(Split(s.corsOrigins, ','), PyWhitespace)
  {
  }

  /** With no comma at all, the list is the stripped value, or empty when that is blank. */
  lemma SingleOrigin(s: Settings)
    requires ',' !in s.corsOrigins
    ensures Strip(s.corsOrigins, PyWhitespace) != "" ==> CorsOriginsList(s) == [Strip(s.corsOrigins, PyWhitespace)]
    ensures Strip(s.corsOrigins, PyWhitespace) == "" ==> CorsOriginsList(s) == []
  {
    var pieces := Split(s.corsOrigins, ',');
    assert |pieces| == 1;
    assert Join(pieces, [',']) == pieces[0];
    assert pieces[0] == s.corsOrigins;
    assert KeepStripped(pieces[1..], PyWhitespace) == [];
  }

  /** Pieces are kept in their order: the list of two pieces is the list of the first followed by that of the second. */
  lemma {:induction false} KeepStrippedAppend(a: seq<string>, b: seq<string>, ws: set<char>)
    ensures KeepStripped(a + b, ws) == KeepStripped(a, ws) + KeepStripped(b, ws)
  {
    if a == [] {
      assert a + b == b;
    } else {
      assert (a + b)[1..] == a[1..] + b;
      KeepStrippedAppend(a[1..], b, ws);
    }
  }
}
