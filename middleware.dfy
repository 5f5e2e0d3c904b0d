/**
 * The `authorized` callback of the authentication middleware: a request is
 * let through when its path is public, and otherwise only when the session
 * carries a token.  The token itself is opaque here; only whether one is
 * present matters.
 */
module Middleware {
  import opened Text

  /** The prefixes tested with `startsWith`. */
  const PublicPrefixes: seq<string> := ["/login", "/register", "/api/auth", "/_next"]

  /** The public-path test of the callback: the root, a public prefix, or any dot. */
  predicate IsPublic(pathname: string) {
    pathname == "/" ||
    (exists k | 0 <= k < |PublicPrefixes| :: StartsWith(pathname, PublicPrefixes[k])) ||
    Contains(pathname, ".")
  }

  /** The callback's verdict for a request path and token presence (`!!token`). */
  predicate Authorized(pathname: string, hasToken: bool) {
    if IsPublic(pathname) then true else hasToken
  }

  /** The home page is let through with or without a token. */
  lemma RootIsPublic(hasToken: bool)
    ensures Authorized("/", hasToken)
  {
  }

  /** Every public prefix admits any continuation without a token (so `/loginx` passes too). */
  lemma PrefixIsPublic(k: int, rest: string)
    requires 0 <= k < |PublicPrefixes|
    ensures Authorized(PublicPrefixes[k] + rest, false)
  {
    var p := PublicPrefixes[k];
    var s := p + rest;
    assert s[..|p|] == p;
    assert StartsWith(s, p);
  }

  /** The prefix test is textual: `/loginx` is public. */
  lemma LoginxIsPublic()
    ensures Authorized("/loginx", false)
  {
    PrefixIsPublic(0, "x");
    assert PublicPrefixes[0] + "x" == "/loginx";
  }

  /** Any path with a dot in it is let through without a token. */
  lemma DotIsPublic(before: string, after: string)
    ensures Authorized(before + "." + after, false)
  {
    var s := before + "." + after;
    assert s[|before|..|before| + 1] == ".";
    assert MatchAt(s, ".", |before|);
  }

  /** Outside the public paths, the verdict is exactly whether a token is present. */
  lemma ProtectedNeedsToken(pathname: string, hasToken: bool)
    requires !IsPublic(pathname)
    ensures Authorized(pathname, hasToken) <==> hasToken
  {
  }

  /** A protected path exists: `/dashboard` is refused without a token. */
  lemma DashboardIsProtected()
    ensures !Authorized("/dashboard", false)
    ensures Authorized("/dashboard", true)
  {
    assert !StartsWith("/dashboard", "/login") by { assert "/dashboard"[1] != "/login"[1]; }
    assert !StartsWith("/dashboard", "/register") by { assert "/dashboard"[1] != "/register"[1]; }
    assert !StartsWith("/dashboard", "/api/auth") by { assert "/dashboard"[1] != "/api/auth"[1]; }
    assert !StartsWith("/dashboard", "/_next") by { assert "/dashboard"[1] != "/_next"[1]; }
    MissingCharNoMatch("/dashboard", ".", '.');
  }

  /** With a token every path is let through. */
  lemma TokenAlwaysAuthorized(pathname: string)
    ensures Authorized(pathname, true)
  {
  }

  /** The verdict is false only for a protected path without a token. */
  lemma RefusedIffProtectedWithoutToken(pathname: string, hasToken: bool)
    ensures !Authorized(pathname, hasToken) <==> !IsPublic(pathname) && !hasToken
  {
  }
}
