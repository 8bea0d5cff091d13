/**
 * `GET /auth/callback` (app/auth/callback/route.js): where the browser goes after following a
 * sign-up, recovery or email-change link. The session exchange is a parameter.
 */
module AuthCallback {
  import opened Wrappers
  import opened Strings
  import Middleware

  /** What `supabase.auth.exchangeCodeForSession(code)` does. */
  datatype Exchange = Exchanged | ReportedError | Threw

  /** A query parameter is truthy when present and non-empty. */
  predicate Given(p: Option<string>) {
    p.Some? && p.value != ""
  }

  /** `searchParams.get('lang') || 'en'`; the value is not checked against the supported locales. */
  function Lang(lang: Option<string>): (r: string)
    ensures Given(lang) ==> r == lang.value
    ensures !Given(lang) ==> r == "en"
  {
    if Given(lang) then lang.value else "en"
  }

  /** The path the route redirects to, on the request's origin, for a given language. */
  function Target(code: Option<string>, kind: Option<string>, lang: string, exchange: Exchange): string {
    if !Given(code) then "/" + lang
    else match exchange
      case Threw => "/" + lang + "/login?error=unexpected"
      case ReportedError => "/" + lang + "/login?error=auth_failed"
      case Exchanged =>
        if kind == Some("recovery") then "/" + lang + "/login/update-password"
        else
          var successType := if kind == Some("email_change") then "email_updated" else "email_verified";
          "/" + lang + "/auth/success?type=" + successType
  }

  /** `GET(request)` as written: the redirect path for the query's `code`, `type` and `lang`. */
  function Redirect(code: Option<string>, kind: Option<string>, lang: Option<string>, exchange: Exchange): (path: string)
    ensures StartsWith(path, "/" + Lang(lang))
  {
    var l := Lang(lang);
    var p := Target(code, kind, l, exchange);
    assert StartsWith(p, "/" + l) by {
      assert p[..|"/" + l|] == "/" + l;
    }
    p
  }

  /** The route's steps, with `successType` reassigned as in the handler. */
  method Get(code: Option<string>, kind: Option<string>, lang: Option<string>, exchange: Exchange) returns (path: string)
    ensures path == Redirect(code, kind, lang, exchange)
  {
    var l := if Given(lang) then lang.value else "en";
    if Given(code) {
      if exchange == Threw {
        return "/" + l + "/login?error=unexpected";
      }
      if exchange == ReportedError {
        return "/" + l + "/login?error=auth_failed";
      }
      var successType := "email_verified";
      if kind == Some("recovery") {
        return "/" + l + "/login/update-password";
      } else if kind == Some("email_change") {
        successType := "email_updated";
      }
      return "/" + l + "/auth/success?type=" + successType;
    }
    path := "/" + l;
  }

  /** The decision table of the route. */
  lemma RedirectTable(code: Option<string>, kind: Option<string>, lang: Option<string>, exchange: Exchange)
    ensures var p := Redirect(code, kind, lang, exchange); var l := Lang(lang);
      && (!Given(code) ==> p == "/" + l)
      && (Given(code) && exchange == ReportedError ==> p == "/" + l + "/login?error=auth_failed")
      && (Given(code) && exchange == Threw ==> p == "/" + l + "/login?error=unexpected")
      && (Given(code) && exchange == Exchanged && kind == Some("recovery") ==> p == "/" + l + "/login/update-password")
      && (Given(code) && exchange == Exchanged && kind == Some("email_change") ==>
            p == "/" + l + "/auth/success?type=email_updated")
      && (Given(code) && exchange == Exchanged && kind != Some("recovery") && kind != Some("email_change") ==>
            p == "/" + l + "/auth/success?type=email_verified")
  {
    assert Redirect(code, kind, lang, exchange) == Target(code, kind, Lang(lang), exchange);
    assert "recovery" != "email_change" by { assert "recovery"[0] != "email_change"[0]; }
  }

  /**
   * A `lang` of `/evil.example` makes the path start with `//`, which `new URL(path, origin)`
   * reads as a link to another host.
   */
  lemma UncheckedLangLeavesSite(lang: string)
    requires lang == "/evil.example"
    ensures StartsWith(Redirect(None, None, Some(lang), Exchanged), "//")
  {
    assert Redirect(None, None, Some(lang), Exchanged) == "/" + lang;
    assert ("/" + lang)[..2] == "//";
  }

  /** The language the redirect should use: the query's `lang` when it is a supported locale. */
  function CheckedLang(lang: Option<string>): (r: string)
    ensures r in Middleware.Locales
    ensures Given(lang) && lang.value in Middleware.Locales ==> r == lang.value
  {
    if Given(lang) && lang.value in Middleware.Locales then lang.value else "en"
  }

  /** The corrected route: the same decision table on a checked language. */
  function CheckedRedirect(code: Option<string>, kind: Option<string>, lang: Option<string>, exchange: Exchange): (path: string)
    ensures StartsWith(path, "/" + CheckedLang(lang))
  {
    var l := CheckedLang(lang);
    var p := Target(code, kind, l, exchange);
    assert StartsWith(p, "/" + l) by {
      assert p[..|"/" + l|] == "/" + l;
    }
    p
  }

  /** The corrected route never leaves the site, and agrees with the route as written on every supported `lang`. */
  lemma CheckedRedirectStaysOnSite(code: Option<string>, kind: Option<string>, lang: Option<string>, exchange: Exchange)
    ensures !StartsWith(CheckedRedirect(code, kind, lang, exchange), "//")
    ensures lang.Some? && lang.value in Middleware.Locales ==>
      CheckedRedirect(code, kind, lang, exchange) == Redirect(code, kind, lang, exchange)
  {
    var p := CheckedRedirect(code, kind, lang, exchange);
    var l := CheckedLang(lang);
    assert l[0] != '/';
    assert p[1] == l[0];
  }
}
