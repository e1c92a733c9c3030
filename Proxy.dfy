/**
 * The request gate run in front of every page and API route (lib/supabase/proxy.ts):
 * which Supabase settings it uses, and whether a request passes, gets a 401, or is
 * redirected to the login page or to the task list.
 */
module Proxy {
  import opened Wrappers
  import opened Js

  datatype SupabaseEnv = SupabaseEnv(supabaseUrl: string, supabaseKey: string)

  const UrlVar: string := "NEXT_PUBLIC_SUPABASE_URL"
  const PublishableKeyVar: string := "NEXT_PUBLIC_SUPABASE_PUBLISHABLE_KEY"
  const AnonKeyVar: string := "NEXT_PUBLIC_SUPABASE_PUBLISHABLE_OR_ANON_KEY"

  /** `PUBLISHABLE_KEY ?? PUBLISHABLE_OR_ANON_KEY`: the fallback applies only when the first is unset. */
  function ChosenKey(env: map<string, string>): (r: Option<string>)
    ensures PublishableKeyVar in env ==> r == Some(env[PublishableKeyVar])
    ensures PublishableKeyVar !in env ==> r == EnvGet(env, AnonKeyVar)
  {
    match EnvGet(env, PublishableKeyVar)
    case Some(k) => Some(k)
    case None => EnvGet(env, AnonKeyVar)
  }

  /** `getSupabaseEnv()`: none when the URL or the chosen key is unset or empty. */
  function GetSupabaseEnv(env: map<string, string>): (r: Option<SupabaseEnv>)
    ensures r.None? <==> !TruthyString(EnvGet(env, UrlVar)) || !TruthyString(ChosenKey(env))
    ensures r.Some? ==> r.value == SupabaseEnv(env[UrlVar], ChosenKey(env).value)
  {
    var url, key := EnvGet(env, UrlVar), ChosenKey(env);
    if !TruthyString(url) || !TruthyString(key) then None
    else Some(SupabaseEnv(url.value, key.value))
  }

  /** An empty publishable key is not replaced by the anonymous key: the settings are then missing. */
  lemma EmptyKeyDoesNotFallBack(env: map<string, string>)
    requires PublishableKeyVar in env && env[PublishableKeyVar] == ""
    ensures GetSupabaseEnv(env).None?
  {
  }

  /** What `updateSession` answers. */
  datatype Decision =
    | PassThrough
    | Unauthorized
    | RedirectToLogin(redirectTo: string)
    | RedirectToTasks

  /** `path.startsWith(prefix)`. */
  predicate StartsWith(path: string, prefix: string) {
    |prefix| <= |path| && path[..|prefix|] == prefix
  }

  predicate IsApiProtected(path: string) {
    StartsWith(path, "/api/tasks") || StartsWith(path, "/api/categories") || StartsWith(path, "/api/uploads")
  }

  predicate IsAppProtected(path: string) {
    StartsWith(path, "/tasks")
  }

  /**
   * `updateSession(request)` for the request path, given whether Supabase reports a
   * signed-in user. Without settings the user is never asked for.
   */
  function UpdateSession(env: map<string, string>, hasUser: bool, path: string): (r: Decision)
    ensures hasUser ==> r == PassThrough || r == RedirectToTasks
    ensures r == Unauthorized ==> IsApiProtected(path)
    ensures r.RedirectToLogin? ==> IsAppProtected(path) && r.redirectTo == path
  {
    if GetSupabaseEnv(env).None? then PassThrough
    else if !hasUser && (IsApiProtected(path) || IsAppProtected(path)) then
      if IsApiProtected(path) then Unauthorized else RedirectToLogin(path)
    else if hasUser && path == "/login" then RedirectToTasks
    else PassThrough
  }

  /** The API prefixes and the page prefix never overlap. */
  lemma ProtectedKindsDisjoint(path: string)
    ensures !(IsApiProtected(path) && IsAppProtected(path))
  {
    if IsAppProtected(path) {
      assert path[1] == 't';
    }
  }

  /** Without settings every request passes, signed in or not. */
  lemma NoSettingsPassesEverything(env: map<string, string>, hasUser: bool, path: string)
    requires GetSupabaseEnv(env).None?
    ensures UpdateSession(env, hasUser, path) == PassThrough
  {
  }

  /**
   * The decision table with settings present: a 401 exactly for anonymous API calls, a
   * login redirect carrying the original path exactly for anonymous task pages, a redirect
   * to the list exactly for a signed-in visit to "/login", and otherwise a pass.
   */
  lemma DecisionTable(env: map<string, string>, hasUser: bool, path: string)
    requires GetSupabaseEnv(env).Some?
    ensures UpdateSession(env, hasUser, path) == Unauthorized <==> !hasUser && IsApiProtected(path)
    ensures UpdateSession(env, hasUser, path).RedirectToLogin? <==> !hasUser && IsAppProtected(path)
    ensures UpdateSession(env, hasUser, path).RedirectToLogin? ==> UpdateSession(env, hasUser, path).redirectTo == path
    ensures UpdateSession(env, hasUser, path) == RedirectToTasks <==> hasUser && path == "/login"
    ensures UpdateSession(env, hasUser, path) == PassThrough <==>
              if hasUser then path != "/login" else !IsApiProtected(path) && !IsAppProtected(path)
  {
    ProtectedKindsDisjoint(path);
  }

  /** The prefix test is on raw text: longer paths that merely start alike are protected too. */
  lemma RawPrefixMatching()
    ensures IsAppProtected("/tasksx") && IsApiProtected("/api/tasks-foo")
    ensures !IsAppProtected("/task") && !IsApiProtected("/api/task")
  {
    assert "/tasksx"[..6] == "/tasks";
    assert "/api/tasks-foo"[..10] == "/api/tasks";
  }
}
