/**
 * The engine URL of the database module: `settings.database_url`, with the
 * plain PostgreSQL scheme rewritten to the asyncpg one unless the URL
 * already starts with it.
 */
module DbBase {
  import opened Text
  import opened Config

  /** The conditional scheme rewrite applied to the URL before the engine is created. */
  function NormalizeDriverUrl(url: string): (r: string)
    ensures StartsWith(url, AsyncScheme) ==> r == url
    ensures !StartsWith(url, AsyncScheme) ==> !Contains(r, SyncScheme)
  {
    if StartsWith(url, AsyncScheme) then
      url
    else
      NoSyncSchemeLeft(url);
      ReplaceAll(url, SyncScheme, AsyncScheme)
  }

  /** The URL the engine is created with. */
  function EngineUrl(s: Settings): (url: string)
    ensures url == DatabaseUrl(s)
  {
    UrlsShareLocation(s);
    NormalizeDriverUrl(DatabaseUrl(s))
  }

  /** A URL with the asyncpg scheme is left alone. */
  lemma AsyncUrlUnchanged(url: string)
    requires StartsWith(url, AsyncScheme)
    ensures NormalizeDriverUrl(url) == url
  {
  }

  /** A URL with the plain scheme ends up with the asyncpg scheme. */
  lemma SyncUrlUpgraded(url: string)
    requires StartsWith(url, SyncScheme)
    ensures StartsWith(NormalizeDriverUrl(url), AsyncScheme)
  {
    assert url[10] == ':' && AsyncScheme[10] == '+';
    assert url[..|SyncScheme|] == SyncScheme;
  }

  /** A URL with neither scheme anywhere is left alone. */
  lemma UnrelatedUrlUnchanged(url: string)
    requires !StartsWith(url, AsyncScheme) && !Contains(url, SyncScheme)
    ensures NormalizeDriverUrl(url) == url
  {
    ReplaceAllAbsent(url, SyncScheme, AsyncScheme);
  }

  /** Reading `a` from position `i` on, some character disagrees with `p`. */
  predicate ClashAt(a: string, p: string, i: nat) {
    exists m | 0 <= m < |p| :: i + m < |a| && a[i + m] != p[m]
  }

  /**
   * The two facts about a pattern `p` and its replacement `a` that keep
   * `p` from reappearing after `ReplaceAll`: no occurrence of `p` can start
   * inside `a`, and the first character of `a` occurs in `p` at most at
   * its start.
   */
  ghost predicate ReplacementSeparated(p: string, a: string) {
    && |p| > 0 && |a| > 0
    && (forall i | 0 <= i < |a| :: ClashAt(a, p, i))
    && a[0] !in p[1..]
  }

  /** A string with a first character starts with another exactly when the first characters agree and the rests do. */
  lemma ConsStartsWith(x: char, r: string, q: char, s: string)
    ensures StartsWith([x] + r, [q] + s) <==> x == q && StartsWith(r, s)
  {
    if |s| <= |r| {
      var u, v := ([x] + r)[..|s| + 1], [q] + s;
      assert u == [x] + r[..|s|];
      assert u == v <==> u[0] == v[0] && u[1..] == v[1..];
      assert u[1..] == r[..|s|] && v[1..] == s;
    }
  }

  /** The first step of `ReplaceAll` on a text at least as long as the pattern. */
  lemma ReplaceAllHead(y: string, p: string, a: string)
    requires |p| > 0 && |y| >= |p|
    ensures y[..|p|] == p ==> ReplaceAll(y, p, a) == a + ReplaceAll(y[|p|..], p, a)
    ensures y[..|p|] != p ==> ReplaceAll(y, p, a) == [y[0]] + ReplaceAll(y[1..], p, a)
  {
  }

  /**
   * If the replaced text starts with `w`, and `w` does not hold the first
   * character of `a`, the original starts with `w` too: an inserted `a`
   * cannot fall inside that prefix.
   */
  lemma {:induction false} ReplacedStartsWith(y: string, p: string, a: string, w: string)
    requires |p| > 0 && |a| > 0 && a[0] !in w
    ensures StartsWith(ReplaceAll(y, p, a), w) ==> StartsWith(y, w)
    decreases |w|
  {
    if w != [] && |y| >= |p| {
      ReplaceAllHead(y, p, a);
      assert w == [w[0]] + w[1..];
      if y[..|p|] == p {
        var t := ReplaceAll(y, p, a);
        assert t == [a[0]] + (a[1..] + ReplaceAll(y[|p|..], p, a));
        ConsStartsWith(a[0], a[1..] + ReplaceAll(y[|p|..], p, a), w[0], w[1..]);
      } else {
        var r := ReplaceAll(y[1..], p, a);
        assert y == [y[0]] + y[1..];
        ConsStartsWith(y[0], r, w[0], w[1..]);
        ConsStartsWith(y[0], y[1..], w[0], w[1..]);
        assert a[0] !in w[1..] by {
          assert forall c :: c in w[1..] ==> c in w;
        }
        ReplacedStartsWith(y[1..], p, a, w[1..]);
      }
    }
  }

  /** No `p` in `a + rest` when there is none in `rest`. */
  lemma AfterReplacement(a: string, rest: string, p: string)
    requires ReplacementSeparated(p, a) && !Contains(rest, p)
    ensures !Contains(a + rest, p)
  {
    var t := a + rest;
    forall i | 0 <= i <= |t| ensures !OccursAt(t, p, i) {
      if i >= |a| {
        if i + |p| <= |t| {
          assert t[i..i + |p|] == rest[i - |a|..i - |a| + |p|];
          assert !OccursAt(rest, p, i - |a|);
        }
      } else {
        assert ClashAt(a, p, i);
        var m :| 0 <= m < |p| && i + m < |a| && a[i + m] != p[m];
        if i + |p| <= |t| {
          assert t[i..i + |p|][m] == t[i + m];
        }
      }
    }
  }

  /** `[c] + ReplaceAll(y, p, a)` does not start with `p` when `[c] + y` does not. */
  lemma KeptCharNoMatch(c: char, y: string, p: string, a: string)
    requires |p| > 0 && |a| > 0 && a[0] !in p[1..]
    requires !StartsWith([c] + y, p)
    ensures !StartsWith([c] + ReplaceAll(y, p, a), p)
  {
    assert p == [p[0]] + p[1..];
    ConsStartsWith(c, ReplaceAll(y, p, a), p[0], p[1..]);
    ConsStartsWith(c, y, p[0], p[1..]);
    ReplacedStartsWith(y, p, a, p[1..]);
  }

  /** No `p` in `[c] + ReplaceAll(y, p, a)` when there is none in the replaced `y` and `[c] + y` does not start with `p`. */
  lemma AfterKeptChar(c: char, y: string, p: string, a: string)
    requires |p| > 0 && |a| > 0 && a[0] !in p[1..]
    requires !Contains(ReplaceAll(y, p, a), p)
    requires !StartsWith([c] + y, p)
    ensures !Contains([c] + ReplaceAll(y, p, a), p)
  {
    var rest := ReplaceAll(y, p, a);
    var t := [c] + rest;
    KeptCharNoMatch(c, y, p, a);
    forall i | 0 <= i <= |t| ensures !OccursAt(t, p, i) {
      if i >= 1 && i + |p| <= |t| {
        assert t[i..i + |p|] == rest[i - 1..i - 1 + |p|];
        assert !OccursAt(rest, p, i - 1);
      }
    }
  }

  /** When `p` and `a` are separated, no `p` is left after replacing every `p` by `a`. */
  lemma {:induction false} NoPatternLeft(u: string, p: string, a: string)
    requires ReplacementSeparated(p, a)
    ensures !Contains(ReplaceAll(u, p, a), p)
    decreases |u|
  {
    if |u| < |p| {
      assert forall i | 0 <= i <= |u| :: !OccursAt(u, p, i);
    } else if u[..|p|] == p {
      NoPatternLeft(u[|p|..], p, a);
      AfterReplacement(a, ReplaceAll(u[|p|..], p, a), p);
    } else {
      NoPatternLeft(u[1..], p, a);
      assert u == [u[0]] + u[1..];
      AfterKeptChar(u[0], u[1..], p, a);
    }
  }

  /**
   * The plain scheme and the asyncpg scheme are separated: `p` appears in
   * `postgresql+asyncpg://` only at 0 and 16, where `+` and `g` break the
   * match, and in `postgresql://` only at 0.
   */
  lemma SchemesSeparated()
    ensures ReplacementSeparated(SyncScheme, AsyncScheme)
  {
    var p, a := SyncScheme, AsyncScheme;
    forall i | 0 <= i < |a| ensures ClashAt(a, p, i) {
      if i == 0 {
        assert a[10] != p[10];
      } else if i == 16 {
        assert a[17] != p[1];
      } else {
        assert a[i] != p[0];
      }
    }
    assert a[0] !in p[1..] by {
      assert forall j | 0 <= j < |p[1..]| :: p[1..][j] != 'p';
    }
  }

  /** After the replacement no plain scheme is left anywhere in the URL. */
  lemma NoSyncSchemeLeft(u: string)
    ensures !Contains(ReplaceAll(u, SyncScheme, AsyncScheme), SyncScheme)
  {
    SchemesSeparated();
    NoPatternLeft(u, SyncScheme, AsyncScheme);
  }

  /**
   * Given `database_url_sync`, the rewrite yields `database_url`, provided the
   * plain scheme does not occur again after the first one.
   */
  lemma SyncSettingsUrlNormalized(s: Settings)
    requires !Contains(DatabaseUrlSync(s)[|SyncScheme|..], SyncScheme)
    ensures NormalizeDriverUrl(DatabaseUrlSync(s)) == DatabaseUrl(s)
  {
    var url := DatabaseUrlSync(s);
    UrlsShareLocation(s);
    assert url[..|SyncScheme|] == SyncScheme;
    assert !StartsWith(url, AsyncScheme) by {
      assert url[10] == SyncScheme[10] != AsyncScheme[10];
    }
    ReplaceAllAbsent(url[|SyncScheme|..], SyncScheme, AsyncScheme);
    assert NormalizeDriverUrl(url) == AsyncScheme + url[|SyncScheme|..];
    assert DatabaseUrl(s) == AsyncScheme + DatabaseUrl(s)[|AsyncScheme|..];
  }

  /** Rewriting twice is rewriting once. */
  lemma NormalizeDriverUrlIdempotent(url: string)
    ensures NormalizeDriverUrl(NormalizeDriverUrl(url)) == NormalizeDriverUrl(url)
  {
    var v := NormalizeDriverUrl(url);
    if !StartsWith(url, AsyncScheme) && !StartsWith(v, AsyncScheme) {
      NoSyncSchemeLeft(url);
      ReplaceAllAbsent(v, SyncScheme, AsyncScheme);
    }
  }
}
