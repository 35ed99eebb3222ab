/** The route guard (`src/middleware.ts`): from the request path and the
    verified session payload (absent when there is no valid session token),
    decide whether to send the visitor to the login page, back to the lesson
    list, or on to the page. */
module Middleware {
  import opened Wrappers
  import opened Text
  import opened Types

  const ProtectedPrefixes: seq<string> := ["/lessons", "/progress", "/admin"]
  const AdminPrefixes: seq<string> := ["/admin"]
  const AuthPaths: seq<string> := ["/login", "/register"]

  /** What the guard answers: a redirect to `/login` carrying the original
      path in its `redirect` parameter, a redirect to `/lessons`, or letting
      the request through. */
  datatype Decision = RedirectToLogin(redirect: string) | RedirectToLessons | PassThrough

  /** `prefixes.some((p) => path.startsWith(p))`. */
  function AnyPrefix(path: string, prefixes: seq<string>): (r: bool)
    ensures r <==> exists i :: 0 <= i < |prefixes| && StartsWith(path, prefixes[i])
  {
    if |prefixes| == 0 then false
    else
      var rest := AnyPrefix(path, prefixes[1..]);
      assert forall i :: 1 <= i < |prefixes| ==> prefixes[i] == prefixes[1..][i - 1];
      StartsWith(path, prefixes[0]) || rest
  }

  predicate IsProtected(path: string) {
    AnyPrefix(path, ProtectedPrefixes)
  }

  predicate IsAdminPath(path: string) {
    AnyPrefix(path, AdminPrefixes)
  }

  predicate IsAuthPath(path: string) {
    AnyPrefix(path, AuthPaths)
  }

  /** `middleware`, with the session payload reduced to the role it
      carries. The three rules are tried in order: a protected path needs a
      session, an admin path needs the admin role, and the login and
      registration pages are for visitors without a session. */
  function Decide(path: string, user: Option<UserRole>): (r: Decision)
    ensures r.RedirectToLogin? ==> r.redirect == path
  {
    if IsProtected(path) && user.None? then RedirectToLogin(path)
    else if IsAdminPath(path) && user != Some(Admin) then RedirectToLessons
    else if IsAuthPath(path) && user.Some? then RedirectToLessons
    else PassThrough
  }

  /** The access rule the guard enforces: a visitor reaches a page when a
      protected page has a session, an admin page has an admin session and
      an authentication page has none. */
  predicate MayView(path: string, user: Option<UserRole>) {
    && (IsProtected(path) ==> user.Some?)
    && (IsAdminPath(path) ==> user == Some(Admin))
    && (IsAuthPath(path) ==> user.None?)
  }

  /** Every admin path is a protected path. */
  lemma AdminPathsAreProtected(path: string)
    ensures IsAdminPath(path) ==> IsProtected(path)
  {
    if IsAdminPath(path) {
      var i :| 0 <= i < |AdminPrefixes| && StartsWith(path, AdminPrefixes[i]);
      assert StartsWith(path, ProtectedPrefixes[2]);
    }
  }

  /** The request goes through exactly when the access rule allows it. */
  lemma PassesIffAllowed(path: string, user: Option<UserRole>)
    ensures Decide(path, user) == PassThrough <==> MayView(path, user)
  {
    AdminPathsAreProtected(path);
  }

  /** A visitor without a session is sent to log in from every protected
      path, the admin pages included, and the login page brings them back
      to where they were going. */
  lemma AnonymousOnProtected(path: string)
    requires StartsWith(path, "/lessons") || StartsWith(path, "/progress") || StartsWith(path, "/admin")
    ensures Decide(path, None) == RedirectToLogin(path)
  {
    assert StartsWith(path, ProtectedPrefixes[0]) || StartsWith(path, ProtectedPrefixes[1])
      || StartsWith(path, ProtectedPrefixes[2]);
  }

  /** A student on an admin path is sent back to the lessons. */
  lemma StudentOnAdminPath(path: string)
    requires StartsWith(path, "/admin")
    ensures Decide(path, Some(Student)) == RedirectToLessons
  {
    assert StartsWith(path, AdminPrefixes[0]);
  }

  /** A signed-in visitor of either role on the login or registration page
      is sent to the lessons. */
  lemma SignedInOnAuthPage(path: string, role: UserRole)
    requires StartsWith(path, "/login") || StartsWith(path, "/register")
    ensures Decide(path, Some(role)) == RedirectToLessons
  {
    assert StartsWith(path, AuthPaths[0]) || StartsWith(path, AuthPaths[1]);
    AuthPathsNotAdmin(path);
  }

  /** The login and registration pages are not admin pages. */
  lemma AuthPathsNotAdmin(path: string)
    requires StartsWith(path, "/login") || StartsWith(path, "/register")
    ensures !IsAdminPath(path)
  {
    assert path[1] != 'a';
  }

  /** An admin goes through everywhere except the authentication pages. */
  lemma AdminPasses(path: string)
    requires !IsAuthPath(path)
    ensures Decide(path, Some(Admin)) == PassThrough
  {
  }

  /** The home page is guarded by no rule. */
  lemma HomePasses(user: Option<UserRole>)
    ensures Decide("/", user) == PassThrough
  {
    assert !StartsWith("/", ProtectedPrefixes[0]) && !StartsWith("/", ProtectedPrefixes[1])
      && !StartsWith("/", ProtectedPrefixes[2]);
    assert !StartsWith("/", AuthPaths[0]) && !StartsWith("/", AuthPaths[1]);
  }

  /** The prefix tests are plain `startsWith`: `/adminx` counts as an admin
      page and `/lessons-old` as a protected one. */
  lemma RawPrefixes()
    ensures Decide("/adminx", Some(Student)) == RedirectToLessons
    ensures Decide("/lessons-old", None) == RedirectToLogin("/lessons-old")
  {
    StudentOnAdminPath("/adminx");
    AnonymousOnProtected("/lessons-old");
  }
}
