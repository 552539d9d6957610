/** The route guard run before each page request: signed-in users are kept
    off the sign-in pages, anonymous users are sent to sign in before any
    members-only page. The session lookup becomes the `signedIn` argument. */
module Middleware {
  import Text

  datatype Decision = Pass | Redirect(target: string)

  const Dashboard := "/dashboard"
  const Login := "/auth/login"
  const AuthPrefix := "/auth"

  /** The path prefixes only a signed-in user may open. */
  const Protected: seq<string> := ["/dashboard", "/all-problems", "/profile", "/leaderboard"]

  predicate IsAuthPath(path: string) { Text.StartsWith(path, AuthPrefix) }

  predicate IsProtectedPath(path: string) {
    exists i :: 0 <= i < |Protected| && Text.StartsWith(path, Protected[i])
  }

  lemma ProtectedPrefixes(path: string)
    ensures IsProtectedPath(path) <==>
      Text.StartsWith(path, "/dashboard") || Text.StartsWith(path, "/all-problems")
      || Text.StartsWith(path, "/profile") || Text.StartsWith(path, "/leaderboard")
  {
    assert Protected[0] == "/dashboard" && Protected[1] == "/all-problems";
    assert Protected[2] == "/profile" && Protected[3] == "/leaderboard";
  }

  /** The decision for one request. */
  function Decide(signedIn: bool, path: string): (d: Decision)
    ensures signedIn && IsAuthPath(path) ==> d == Redirect(Dashboard)
    ensures !signedIn && IsProtectedPath(path) ==> d == Redirect(Login)
    ensures d == Pass <==> !(signedIn && IsAuthPath(path)) && !(!signedIn && IsProtectedPath(path))
    ensures d.Redirect? ==> d.target == Dashboard || d.target == Login
  {
    ProtectedPrefixes(path);
    if signedIn && IsAuthPath(path) then Redirect(Dashboard)
    else if !signedIn && (Text.StartsWith(path, "/dashboard") || Text.StartsWith(path, "/all-problems")
                         || Text.StartsWith(path, "/profile") || Text.StartsWith(path, "/leaderboard"))
    then Redirect(Login)
    else Pass
  }

  /** Redirect targets are themselves let through, so no request is
      redirected twice: `/dashboard` is no sign-in page, `/auth/login` no
      members-only page. */
  lemma NoRedirectLoop(signedIn: bool, path: string)
    ensures Decide(signedIn, path).Redirect? ==> Decide(signedIn, Decide(signedIn, path).target) == Pass
  {
    Text.NotStartsWith(Dashboard, AuthPrefix, 1);
    forall i | 0 <= i < |Protected|
      ensures !Text.StartsWith(Login, Protected[i])
    {
      Text.NotStartsWith(Login, Protected[i], 2);
    }
  }

  /** The redirect each kind of user gets depends only on the kind of user:
      signed-in users are only ever sent to the dashboard, anonymous users only
      to the login page. */
  lemma RedirectTargetByUser(signedIn: bool, path: string)
    ensures Decide(signedIn, path).Redirect? ==>
      Decide(signedIn, path).target == (if signedIn then Dashboard else Login)
  {
  }

  /** Matching is by prefix, so a path merely beginning like a protected page
      is guarded too. */
  lemma PrefixGuardsExtendedPaths(suffix: string)
    ensures Decide(false, "/profile" + suffix) == Redirect(Login)
  {
    assert ("/profile" + suffix)[..|"/profile"|] == "/profile";
    assert Text.StartsWith("/profile" + suffix, Protected[2]);
  }

  // ---------------------------------------------------------------------
  // Which requests reach the guard

  /** The `matcher` patterns' bases: each `/base/:path*` matches the base
      itself and anything below it. */
  const MatcherBases: seq<string> := ["/dashboard", "/all-problems", "/profile", "/auth", "/leaderboard"]

  /** `path` is `base` or lies under `base/`. */
  predicate UnderBase(path: string, base: string) {
    path == base || Text.StartsWith(path, base + "/")
  }

  predicate MatcherMatches(path: string) {
    exists i :: 0 <= i < |MatcherBases| && UnderBase(path, MatcherBases[i])
  }

  /** The outcome of a request: the guard's decision when the matcher selects
      the path, otherwise the request goes straight through. */
  function Route(signedIn: bool, path: string): (d: Decision)
    ensures !MatcherMatches(path) ==> d == Pass
    ensures MatcherMatches(path) ==> d == Decide(signedIn, path)
  {
    if MatcherMatches(path) then Decide(signedIn, path) else Pass
  }

  lemma UnderBaseStartsWith(path: string, base: string)
    requires UnderBase(path, base)
    ensures Text.StartsWith(path, base)
  {
    if path != base {
      assert path[..|base|] == (base + "/")[..|base|] == base;
    }
  }

  /** Every path the matcher selects begins with a guarded prefix, so on
      those paths the guard's prefix tests and the matcher agree about
      which pages are members-only or sign-in pages. */
  lemma MatchedPathsAreGuardedKinds(path: string)
    requires MatcherMatches(path)
    ensures IsAuthPath(path) || IsProtectedPath(path)
  {
    var i :| 0 <= i < |MatcherBases| && UnderBase(path, MatcherBases[i]);
    UnderBaseStartsWith(path, MatcherBases[i]);
    if i == 0 { assert Text.StartsWith(path, Protected[0]); }
    else if i == 1 { assert Text.StartsWith(path, Protected[1]); }
    else if i == 2 { assert Text.StartsWith(path, Protected[2]); }
    else if i == 4 { assert Text.StartsWith(path, Protected[3]); }
  }

  /** A path such as `/profile-x` passes the guard's prefix test but is not
      selected by the matcher, so an anonymous request for it goes through. */
  lemma ExtendedPathNotMatched()
    ensures Decide(false, "/profile-x") == Redirect(Login)
    ensures Route(false, "/profile-x") == Pass
  {
    PrefixGuardsExtendedPaths("-x");
    forall i | 0 <= i < |MatcherBases|
      ensures !UnderBase("/profile-x", MatcherBases[i])
    {
      if i == 2 {
        Text.NotStartsWith("/profile-x", "/profile/", 8);
        assert "/profile" + "/" == "/profile/";
      } else {
        Text.NotStartsWith("/profile-x", MatcherBases[i] + "/", 1);
        assert "/profile-x"[1] != MatcherBases[i][1];
      }
    }
  }
}
