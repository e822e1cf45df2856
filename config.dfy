/**
 * The two pieces of string logic in the application's configuration (app.py):
 * the session secret-key fallback chain and the rewrite of Heroku/Railway style
 * `postgres://` database URLs to the `postgresql://` scheme SQLAlchemy expects.
 */
module Config {
  import opened Wrappers

  const DefaultSecretKey: string := "change_me_in_production"
  const PostgresScheme: string := "postgres://"
  const PostgresqlScheme: string := "postgresql://"

  predicate StartsWith(s: string, prefix: string)
  {
    |prefix| <= |s| && s[..|prefix|] == prefix
  }

  /** `pat` occurs in `s` at index `k`. */
  predicate OccursAt(s: string, pat: string, k: nat)
  {
    k + |pat| <= |s| && s[k..k + |pat|] == pat
  }

  /** Python's `s.find(pat, start)`: the first index from `start` on at which `pat` occurs. */
  function Find(s: string, pat: string, start: nat): (r: Option<nat>)
    requires start <= |s|
    ensures r.Some? ==> start <= r.value && OccursAt(s, pat, r.value)
    ensures r.Some? ==> forall k | start <= k < r.value :: !OccursAt(s, pat, k)
    ensures r.None? ==> forall k | start <= k <= |s| :: !OccursAt(s, pat, k)
    decreases |s| - start
  {
    if OccursAt(s, pat, start) then Some(start)
    else if start == |s| then None
    else Find(s, pat, start + 1)
  }

  /** Python's `s.replace(pat, rep, 1)`: only the first occurrence is replaced. */
  function ReplaceFirst(s: string, pat: string, rep: string): string
  {
    match Find(s, pat, 0)
    case None => s
    case Some(i) => s[..i] + rep + s[i + |pat|..]
  }

  /** `DATABASE_URL` after the scheme fix-up of app.py:29-31 (None: variable unset). */
  function NormalizeDatabaseUrl(url: Option<string>): (r: Option<string>)
    ensures r.Some? <==> url.Some?
    ensures r.Some? ==> !StartsWith(r.value, PostgresScheme)
  {
    if Truthy(url) && StartsWith(url.value, PostgresScheme) then
      var s := url.value;
      assert Find(s, PostgresScheme, 0) == Some(0);
      var t := ReplaceFirst(s, PostgresScheme, PostgresqlScheme);
      assert t[..|PostgresqlScheme|] == PostgresqlScheme;
      assert t[8] == 'q' != PostgresScheme[8];
      Some(t)
    else
      url
  }

  /**
   * A URL with the `postgres://` scheme gets the `postgresql://` scheme and keeps
   * every character after the scheme.
   */
  lemma PostgresUrlRewritten(s: string)
    requires StartsWith(s, PostgresScheme)
    ensures NormalizeDatabaseUrl(Some(s)) == Some(PostgresqlScheme + s[|PostgresScheme|..])
  {
    assert Find(s, PostgresScheme, 0) == Some(0);
    assert ReplaceFirst(s, PostgresScheme, PostgresqlScheme) == s[..0] + PostgresqlScheme + s[|PostgresScheme|..];
    assert s[..0] + PostgresqlScheme == PostgresqlScheme;
  }

  /** Every other value, an unset variable included, passes through unchanged. */
  lemma OtherUrlsUnchanged(url: Option<string>)
    requires url.None? || !StartsWith(url.value, PostgresScheme)
    ensures NormalizeDatabaseUrl(url) == url
  {
  }

  /** In particular a URL that already uses the `postgresql://` scheme is left alone. */
  lemma PostgresqlUrlUnchanged(s: string)
    requires StartsWith(s, PostgresqlScheme)
    ensures NormalizeDatabaseUrl(Some(s)) == Some(s)
  {
    assert s[8] == PostgresqlScheme[8] == 'q';
    assert !StartsWith(s, PostgresScheme);
  }

  /** Applying the fix-up twice gives what applying it once gives. */
  lemma NormalizeIdempotent(url: Option<string>)
    ensures NormalizeDatabaseUrl(NormalizeDatabaseUrl(url)) == NormalizeDatabaseUrl(url)
  {
    OtherUrlsUnchanged(NormalizeDatabaseUrl(url));
  }

  /** Nothing is lost: the original URL is recovered by putting the old scheme back. */
  lemma NormalizeReversible(s: string)
    requires StartsWith(s, PostgresScheme)
    ensures var t := NormalizeDatabaseUrl(Some(s)).value;
      StartsWith(t, PostgresqlScheme) && PostgresScheme + t[|PostgresqlScheme|..] == s
  {
    PostgresUrlRewritten(s);
    var t := NormalizeDatabaseUrl(Some(s)).value;
    assert t[|PostgresqlScheme|..] == s[|PostgresScheme|..];
    assert s == s[..|PostgresScheme|] + s[|PostgresScheme|..];
  }

  /**
   * The session secret of app.py:26: SECRET_KEY when set and non-empty, else
   * SESSION_SECRET when set and non-empty, else a built-in default.
   */
  function SecretKey(secretKeyEnv: Option<string>, sessionSecretEnv: Option<string>): (r: string)
    ensures r != ""
    ensures r == DefaultSecretKey || Some(r) == secretKeyEnv || Some(r) == sessionSecretEnv
  {
    if Truthy(secretKeyEnv) then secretKeyEnv.value
    else if Truthy(sessionSecretEnv) then sessionSecretEnv.value
    else DefaultSecretKey
  }

  /** Precedence of the fallback chain: the first usable variable wins. */
  lemma SecretKeyPrecedence(secretKeyEnv: Option<string>, sessionSecretEnv: Option<string>)
    ensures Truthy(secretKeyEnv) ==> SecretKey(secretKeyEnv, sessionSecretEnv) == secretKeyEnv.value
    ensures !Truthy(secretKeyEnv) && Truthy(sessionSecretEnv) ==> SecretKey(secretKeyEnv, sessionSecretEnv) == sessionSecretEnv.value
    ensures !Truthy(secretKeyEnv) && !Truthy(sessionSecretEnv) ==> SecretKey(secretKeyEnv, sessionSecretEnv) == DefaultSecretKey
  {
  }
}
