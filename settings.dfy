/**
 * The application settings and the two database URLs derived from them by
 * plain concatenation (no percent-encoding of any field).
 */
module Config {
  import opened Text

  /** The URL scheme of the asynchronous driver. */
  const AsyncScheme: string := "postgresql+asyncpg://"

  /** The URL scheme of the synchronous driver. */
  const SyncScheme: string := "postgresql://"

  /**
   * The settings fields. The four connection strings have no default; the
   * port, the debug flag and the log level do.
   */
  datatype Settings = Settings(
    postgresDb: string,
    postgresUser: string,
    postgresPassword: string,
    postgresHost: string,
    postgresPort: int := 5432,
    debug: bool := false,
    logLevel: string := "info")

  /** Settings built from the four required fields take the defaults for the others. */
  lemma SettingsDefaults(db: string, user: string, password: string, host: string)
    ensures var s := Settings(db, user, password, host);
      s.postgresPort == 5432 && !s.debug && s.logLevel == "info"
  {
  }

  /** The digit character for `d`. */
  function DigitChar(d: nat): (c: char)
    requires d < 10
    ensures IsAsciiDigit(c) && c as int - '0' as int == d
  {
    ('0' as int + d) as char
  }

  /** The number a string of decimal digits denotes. */
  function DecimalValue(s: string): nat
    requires forall i :: 0 <= i < |s| ==> IsAsciiDigit(s[i])
  {
    if s == [] then 0
    else
      var last := s[|s| - 1];
      assert IsAsciiDigit(last);
      10 * DecimalValue(s[..|s| - 1]) + (last as int - '0' as int)
  }

  /** `str(n)` for `n >= 0`: decimal digits, no leading zero, denoting `n`. */
  function NatToDecimal(n: nat): (s: string)
    ensures |s| >= 1 && forall i :: 0 <= i < |s| ==> IsAsciiDigit(s[i])
    ensures |s| > 1 ==> s[0] != '0'
    ensures DecimalValue(s) == n
  {
    if n < 10 then
      [DigitChar(n)]
    else
      var s := NatToDecimal(n / 10) + [DigitChar(n % 10)];
      assert s[..|s| - 1] == NatToDecimal(n / 10);
      s
  }

  /** `str(n)` for any integer: a `-` for a negative one, then the digits of its magnitude. */
  function IntToDecimal(n: int): (s: string)
    ensures n < 0 <==> |s| > 0 && s[0] == '-'
    ensures var digits := if n < 0 then s[1..] else s;
      && |digits| >= 1 && (forall i :: 0 <= i < |digits| ==> IsAsciiDigit(digits[i]))
      && (|digits| > 1 ==> digits[0] != '0')
      && DecimalValue(digits) == if n < 0 then -n else n
  {
    if n < 0 then
      var d := NatToDecimal(-n);
      assert ("-" + d)[1..] == d;
      "-" + d
    else
      NatToDecimal(n)
  }

  /** The part both URLs share after their schemes: `user:password@host:port/db`. */
  function Location(s: Settings): string {
    s.postgresUser + ":" + s.postgresPassword
      + "@" + s.postgresHost + ":" + IntToDecimal(s.postgresPort) + "/" + s.postgresDb
  }

  /** `database_url`: the asyncpg scheme followed by the location. */
  function DatabaseUrl(s: Settings): (url: string)
    ensures StartsWith(url, AsyncScheme) && url[|AsyncScheme|..] == Location(s)
  {
    AsyncScheme + Location(s)
  }

  /** `database_url_sync`: the plain scheme followed by the same location. */
  function DatabaseUrlSync(s: Settings): (url: string)
    ensures StartsWith(url, SyncScheme) && url[|SyncScheme|..] == Location(s)
  {
    SyncScheme + Location(s)
  }

  /** The two URLs start with their schemes and agree on everything after them. */
  lemma UrlsShareLocation(s: Settings)
    ensures StartsWith(DatabaseUrl(s), AsyncScheme) && StartsWith(DatabaseUrlSync(s), SyncScheme)
    ensures DatabaseUrl(s)[|AsyncScheme|..] == DatabaseUrlSync(s)[|SyncScheme|..]
  {
  }

  /**
   * Replacing the asyncpg scheme by the plain one in `database_url` gives
   * `database_url_sync`, provided the pattern does not occur again after the
   * scheme (it can straddle two fields: a user ending in `postgresql+asyncpg`
   * and a password starting with `//`).
   */
  lemma SyncUrlFromAsyncUrl(s: Settings)
    requires !Contains(DatabaseUrl(s)[|AsyncScheme|..], AsyncScheme)
    ensures ReplaceAll(DatabaseUrl(s), AsyncScheme, SyncScheme) == DatabaseUrlSync(s)
  {
    var url := DatabaseUrl(s);
    UrlsShareLocation(s);
    assert url[..|AsyncScheme|] == AsyncScheme;
    ReplaceAllAbsent(url[|AsyncScheme|..], AsyncScheme, SyncScheme);
    assert DatabaseUrlSync(s) == SyncScheme + DatabaseUrlSync(s)[|SyncScheme|..];
  }

  /** Fields are not escaped, so different settings can give the same URL. */
  lemma DatabaseUrlAmbiguous()
    ensures var s1, s2 := Settings("app", "ana:x", "pw", "db"), Settings("app", "ana", "x:pw", "db");
      s1 != s2 && DatabaseUrl(s1) == DatabaseUrl(s2)
  {
  }
}
