/** Path handling of the service: slash normalisation and the default directory name. */
module Paths {

  predicate StartsWithSlash(p: string) { |p| > 0 && p[0] == '/' }

  predicate EndsWithSlash(p: string) { |p| > 0 && p[|p| - 1] == '/' }

  /** A canonical directory path: it starts and ends with `/`. */
  predicate IsCanonical(p: string) { StartsWithSlash(p) && EndsWithSlash(p) }

  /** Appends `/` unless the path already ends with one (the retention sweep's only fix-up). */
  function WithTrailingSlash(p: string): (r: string)
    ensures EndsWithSlash(r)
    ensures |p| <= |r| <= |p| + 1 && r[..|p|] == p
    ensures EndsWithSlash(p) <==> r == p
  {
    if EndsWithSlash(p) then p else p + "/"
  }

  /** Appends a trailing `/`, then prepends a leading `/`, each only when missing. */
  function Normalize(p: string): (r: string)
    ensures IsCanonical(r)
    ensures IsCanonical(p) <==> r == p
  {
    var t := WithTrailingSlash(p);
    if StartsWithSlash(t) then t else "/" + t
  }

  /** The position of the first `c` in `s`, or `|s|` when there is none. */
  function FirstIndex(s: string, c: char): (i: nat)
    ensures i <= |s|
    ensures forall j :: 0 <= j < i ==> s[j] != c
    ensures i < |s| ==> s[i] == c
    ensures i == |s| <==> c !in s
  {
    if s == [] then 0
    else if s[0] == c then 0
    else
      var j := FirstIndex(s[1..], c);
      assert s[1..][..j] == s[1..j + 1];
      assert s[..j + 1] == [s[0]] + s[1..][..j];
      j + 1
  }

  /** The username up to its first `@`, or the whole username when it has none. */
  function LocalPart(username: string): (r: string)
    ensures '@' !in r
    ensures |r| <= |username| && r == username[..|r|]
    ensures '@' in username ==> username[|r|] == '@'
    ensures '@' !in username ==> r == username
  {
    username[..FirstIndex(username, '@')]
  }

  /** The directory created when no name is given: `/<local part>_<suffix>/`. */
  function DefaultDirName(username: string, suffix: string): (name: string)
    ensures IsCanonical(name)
    ensures |name| == |LocalPart(username)| + |suffix| + 3
  {
    "/" + LocalPart(username) + "_" + suffix + "/"
  }

  /** Normalisation is idempotent. */
  lemma NormalizeIdempotent(p: string)
    ensures Normalize(Normalize(p)) == Normalize(p)
  {
  }

  /** `/a`, `a/` and `a` all normalise to `/a/`, for any name `a` without edge slashes. */
  lemma NormalizeForms(a: string)
    requires a != [] && a[0] != '/' && a[|a| - 1] != '/'
    ensures Normalize(a) == "/" + a + "/"
    ensures Normalize("/" + a) == "/" + a + "/"
    ensures Normalize(a + "/") == "/" + a + "/"
  {
    assert !EndsWithSlash(a) && !StartsWithSlash(a);
    assert !EndsWithSlash("/" + a) && StartsWithSlash("/" + a + "/");
    assert EndsWithSlash(a + "/") && !StartsWithSlash(a + "/");
  }

  /** The default name is already canonical, its prefix is free of `@`, and the prefix is
      the username cut at its first `@`. */
  lemma DefaultDirNameShape(username: string, suffix: string)
    ensures Normalize(DefaultDirName(username, suffix)) == DefaultDirName(username, suffix)
    ensures var pre := LocalPart(username);
      DefaultDirName(username, suffix) == "/" + pre + "_" + suffix + "/" &&
      '@' !in pre && pre == username[..|pre|] &&
      ('@' in username ==> username[|pre|] == '@') &&
      ('@' !in username ==> pre == username)
  {
    var d := DefaultDirName(username, suffix);
    assert d[0] == '/' && d[|d| - 1] == '/';
  }

  /** A position holding `c` with no `c` before it is the first index of `c`. */
  lemma FirstIndexAt(s: string, c: char, k: nat)
    requires k < |s| && s[k] == c
    requires forall j :: 0 <= j < k ==> s[j] != c
    ensures FirstIndex(s, c) == k
  {
  }

  /** An e-mail style username `name@domain` yields `/name_<suffix>/`; for instance
      `alice@example.org` yields `/alice_<suffix>/`. */
  lemma DefaultDirOfEmail(name: string, domain: string, suffix: string)
    requires '@' !in name
    ensures DefaultDirName(name + "@" + domain, suffix) == "/" + name + "_" + suffix + "/"
  {
    var u := name + "@" + domain;
    assert u[|name|] == '@';
    assert forall j :: 0 <= j < |name| ==> u[j] == name[j];
    FirstIndexAt(u, '@', |name|);
    assert u[..|name|] == name;
  }
}
