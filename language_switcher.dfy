/**
 * The language menu in the header (components/LanguageSwitcher.js). The list of locales,
 * their display configuration and `replaceLocaleInPath` come from a module that is not part
 * of this model, so they are parameters.
 */
module LanguageSwitcher {
  import opened Wrappers
  import opened Strings
  import opened Js

  /** `pieces.filter(Boolean)`: the non-empty pieces, in order. */
  function NonEmpty(pieces: seq<string>): (r: seq<string>)
    ensures forall k | 0 <= k < |r| :: r[k] != [] && r[k] in pieces
    ensures |r| <= |pieces|
  {
    if pieces == [] then []
    else if pieces[0] == [] then NonEmpty(pieces[1..])
    else [pieces[0]] + NonEmpty(pieces[1..])
  }

  /** `pathname.split('/').filter(Boolean)` */
  function Segments(pathname: string): (r: seq<string>)
    ensures forall k | 0 <= k < |r| :: r[k] != [] && '/' !in r[k]
  {
    NonEmpty(Split(pathname, '/'))
  }

  /** Under `/L/...` (or `/L` itself) the first segment is `L`. */
  lemma FirstSegment(l: string, rest: string)
    requires l != [] && '/' !in l
    requires rest == [] || rest[0] == '/'
    ensures var s := Segments("/" + l + rest); |s| > 0 && s[0] == l
  {
    SplitAt([], '/', l + rest);
    assert "/" + l + rest == [] + ['/'] + (l + rest);
    if rest == [] {
      SplitWithout(l, '/');
      assert l + rest == l;
    } else {
      SplitAt(l, '/', rest[1..]);
      assert l + rest == l + ['/'] + rest[1..];
    }
    var p := Split("/" + l + rest, '/');
    assert p[0] == [] && p[1] == l;
    assert NonEmpty(p) == NonEmpty(p[1..]);
    assert NonEmpty(p[1..]) == [l] + NonEmpty(p[2..]);
  }

  /** The cookie written on a change of language: one year, the whole site. */
  function LocaleCookie(locale: string): string {
    "NEXT_LOCALE=" + locale + "; path=/; max-age=" + NatToString(365 * 24 * 60 * 60)
  }

  /** `localeConfig[currentLocale] || localeConfig.en` */
  function CurrentConfig(localeConfig: Record, current: string): (r: Value)
    ensures Truthy(Field(localeConfig, current)) ==> r == localeConfig[current]
    ensures !Truthy(Field(localeConfig, current)) ==> r == Field(localeConfig, "en")
  {
    Or(Field(localeConfig, current), Field(localeConfig, "en"))
  }

  /** The menu's state, with the cookie it last wrote and the paths it pushed to the router. */
  class Switcher {
    var isOpen: bool
    var currentLocale: string
    var cookie: Option<string>
    var pushed: seq<string>

    constructor ()
      ensures !isOpen && currentLocale == "en" && cookie == None && pushed == []
    {
      isOpen, currentLocale, cookie, pushed := false, "en", None, [];
    }

    /** The effect on `pathname`: adopt its first segment when it is a supported locale. */
    method SyncLocale(pathname: string, locales: seq<string>)
      modifies this
      ensures var s := Segments(pathname);
        currentLocale == if |s| > 0 && s[0] in locales then s[0] else old(currentLocale)
      ensures isOpen == old(isOpen) && cookie == old(cookie) && pushed == old(pushed)
    {
      var segments := Segments(pathname);
      if |segments| > 0 && segments[0] in locales {
        currentLocale := segments[0];
      }
    }

    /** `handleLanguageChange(newLocale)` */
    method ChangeLanguage(pathname: string, newLocale: string, replaceLocaleInPath: (string, string) -> string)
      modifies this
      ensures !isOpen && currentLocale == old(currentLocale)
      ensures newLocale == old(currentLocale) ==> cookie == old(cookie) && pushed == old(pushed)
      ensures newLocale != old(currentLocale) ==>
        cookie == Some(LocaleCookie(newLocale)) && pushed == old(pushed) + [replaceLocaleInPath(pathname, newLocale)]
    {
      if newLocale == currentLocale {
        isOpen := false;
        return;
      }
      var newPath := replaceLocaleInPath(pathname, newLocale);
      cookie := Some(LocaleCookie(newLocale));
      pushed := pushed + [newPath];
      isOpen := false;
    }

    /** The menu button */
    method Toggle()
      modifies this
      ensures isOpen == !old(isOpen)
      ensures currentLocale == old(currentLocale) && cookie == old(cookie) && pushed == old(pushed)
    {
      isOpen := !isOpen;
    }
  }

  /** On `/th/tours` the menu shows Thai as the current language, whatever it showed before. */
  lemma PathDecidesLocale(locales: seq<string>, l: string, rest: string)
    requires l in locales && l != [] && '/' !in l
    requires rest == [] || rest[0] == '/'
    ensures var s := Segments("/" + l + rest); |s| > 0 && s[0] in locales && s[0] == l
  {
    FirstSegment(l, rest);
  }

  /** The cookie carries the locale and a lifetime of 31536000 seconds. */
  lemma CookieLifetime(locale: string)
    ensures LocaleCookie(locale) == "NEXT_LOCALE=" + locale + "; path=/; max-age=31536000"
  {
    YearInSeconds();
    assert "; path=/; max-age=" + "31536000" == "; path=/; max-age=31536000";
  }

  /** One year in seconds, as `String` writes it. */
  lemma YearInSeconds()
    ensures NatToString(365 * 24 * 60 * 60) == "31536000"
  {
    assert NatToString(3) == "3";
    assert NatToString(31) == "31";
    assert NatToString(315) == "315";
    assert NatToString(3153) == "3153";
    assert NatToString(31536) == "31536";
    assert NatToString(315360) == "315360";
    assert NatToString(3153600) == "3153600";
  }
}
