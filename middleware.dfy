/**
 * The request middleware (middleware.js): it chooses a locale for a request from the
 * NEXT_LOCALE cookie or the Accept-Language header, passes public and already-localized
 * paths through, and redirects every other path to its locale-prefixed form while
 * remembering the locale in a cookie.
 */
module Middleware {
  import opened Wrappers
  import opened Strings

  const Locales: seq<string> := ["en", "th", "zh"]
  const DefaultLocale: string := "en"

  /** Path prefixes that are never localized. */
  const PublicPaths: seq<string> := ["/api", "/admin", "/_next", "/favicon.ico", "/logo.png", "/images", "/img"]

  const CookieName: string := "NEXT_LOCALE"
  /** One year in seconds. */
  const CookieMaxAge: int := 365 * 24 * 60 * 60

  /** The weight of an entry without a parameter: 1.0, in thousandths. */
  const FullWeight: nat := 1000

  predicate Supported(code: string) {
    code in Locales
  }

  // ---------------------------------------------------------------------------
  // Accept-Language: "tag[;q=weight], ..." (section 12.5.4 of RFC 9110, weights as in 12.4.2)

  /** One entry of the header: the lower-cased tag and its weight in thousandths. */
  datatype Entry = Entry(code: string, weight: nat)

  /**
   * The weight numerals the model reads exactly: digits, optionally followed by a point and
   * at most three digits (every qvalue of section 12.4.2 of RFC 9110 is one). `None` for any
   * other text, which `parseFloat` would read as NaN or round.
   */
  function ParseWeight(s: string): Option<nat> {
    var whole := LeadingWhile(s, IsDigit);
    var rest := s[|whole|..];
    if whole == [] then None
    else if rest == [] then Some(DigitsValue(whole) * 1000)
    else if rest[0] != '.' || |rest| > 4 || !AllDigits(rest[1..]) then None
    else
      var frac := rest[1..] + "000"[..3 - (|rest| - 1)];
      assert AllDigits(frac);
      Some(DigitsValue(whole) * 1000 + DigitsValue(frac))
  }

  /**
   * One comma-separated piece of the header: trimmed, split at `;`, the tag lower-cased; no
   * parameter (or an empty one) means weight 1.0, otherwise the text after the parameter's
   * first `=` is the weight.
   */
  function ParseEntry(raw: string): Option<Entry> {
    var parts := Split(Trim(raw), ';');
    var code := ToLower(parts[0]);
    if |parts| < 2 || parts[1] == [] then Some(Entry(code, FullWeight))
    else
      var kv := Split(parts[1], '=');
      if |kv| < 2 then None
      else
        match ParseWeight(kv[1])
        case None => None
        case Some(w) => Some(Entry(code, w))
  }

  /** An entry without a parameter is its trimmed, lower-cased tag at full weight. */
  lemma EntryWithoutWeight(raw: string)
    requires ';' !in Trim(raw)
    ensures ParseEntry(raw) == Some(Entry(ToLower(Trim(raw)), FullWeight))
  {
    SplitWithout(Trim(raw), ';');
  }

  /** An entry `tag;q=w` is the trimmed, lower-cased tag at the weight the numeral `w` gives. */
  lemma EntryWithWeight(raw: string, tag: string, w: string)
    requires Trim(raw) == tag + ";q=" + w && ';' !in tag && ';' !in w && '=' !in w
    ensures ParseEntry(raw) == match ParseWeight(w) case None => None case Some(n) => Some(Entry(ToLower(tag), n))
  {
    assert tag + ";q=" + w == tag + [';'] + ("q=" + w);
    SplitOnce(tag, ';', "q=" + w);
    assert "q=" + w == "q" + ['='] + w;
    SplitOnce("q", '=', w);
  }

  /** `f` applied to each element, or `None` when it fails on one. */
  function ParseAll<A, B>(f: A -> Option<B>, xs: seq<A>): (r: Option<seq<B>>)
    ensures r.Some? <==> forall i | 0 <= i < |xs| :: f(xs[i]).Some?
    ensures r.Some? ==> |r.value| == |xs| && forall i | 0 <= i < |xs| :: f(xs[i]) == Some(r.value[i])
  {
    if xs == [] then Some([])
    else
      var e := f(xs[0]);
      var es := ParseAll(f, xs[1..]);
      assert forall i | 1 <= i < |xs| :: xs[i] == xs[1..][i - 1];
      if e.Some? && es.Some? then Some([e.value] + es.value)
      else None
  }

  function ParseEntries(raws: seq<string>): (r: Option<seq<Entry>>)
    ensures r.Some? <==> forall i | 0 <= i < |raws| :: ParseEntry(raws[i]).Some?
    ensures r.Some? ==> |r.value| == |raws|
    ensures r.Some? ==> forall i | 0 <= i < |raws| :: ParseEntry(raws[i]) == Some(r.value[i])
  {
    ParseAll(ParseEntry, raws)
  }

  /** The header's entries in header order. */
  function ParseHeader(header: string): Option<seq<Entry>> {
    ParseEntries(Split(header, ','))
  }

  /** Every weight in the header is one the model reads exactly. */
  predicate WellFormedHeader(header: string) {
    ParseHeader(header).Some?
  }

  /** The supported locale an entry names: its whole tag, or else the tag's part before `-`. */
  function MatchEntry(e: Entry): (r: Option<string>)
    ensures r.Some? ==> Supported(r.value)
  {
    if Supported(e.code) then Some(e.code)
    else
      var prefix := BeforeFirst(e.code, '-');
      if Supported(prefix) then Some(prefix) else None
  }

  predicate Matches(e: Entry) {
    MatchEntry(e).Some?
  }

  // ---------------------------------------------------------------------------
  // the stable sort by descending weight

  predicate SortedByWeight(s: seq<Entry>) {
    forall i, j | 0 <= i < j < |s| :: s[i].weight >= s[j].weight
  }

  /** Puts `x` before the first element that does not outweigh it. */
  function Insert(x: Entry, s: seq<Entry>): seq<Entry> {
    if s == [] then [x]
    else if x.weight >= s[0].weight then [x] + s
    else [s[0]] + Insert(x, s[1..])
  }

  /** `sort((a, b) => b.quality - a.quality)`, stable: ties keep their header order. */
  function SortByWeight(es: seq<Entry>): seq<Entry> {
    if es == [] then [] else Insert(es[0], SortByWeight(es[1..]))
  }

  lemma {:induction false} InsertPermutes(x: Entry, s: seq<Entry>)
    ensures multiset(Insert(x, s)) == multiset(s) + multiset{x}
  {
    if s != [] && x.weight < s[0].weight {
      InsertPermutes(x, s[1..]);
      calc {
        multiset(Insert(x, s));
        multiset([s[0]] + Insert(x, s[1..]));
        multiset([s[0]]) + multiset(Insert(x, s[1..]));
        multiset([s[0]]) + multiset(s[1..]) + multiset{x};
        { assert s == [s[0]] + s[1..]; }
        multiset(s) + multiset{x};
      }
    }
  }

  /** Inserting keeps every weight under a bound that `x` and `s` are under. */
  lemma {:induction false} InsertBounded(x: Entry, s: seq<Entry>, w: int)
    requires x.weight <= w && forall k | 0 <= k < |s| :: s[k].weight <= w
    ensures forall k | 0 <= k < |Insert(x, s)| :: Insert(x, s)[k].weight <= w
  {
    if s != [] && x.weight < s[0].weight {
      InsertBounded(x, s[1..], w);
    }
  }

  lemma {:induction false} InsertSorted(x: Entry, s: seq<Entry>)
    requires SortedByWeight(s)
    ensures SortedByWeight(Insert(x, s))
  {
    if s != [] && x.weight < s[0].weight {
      InsertSorted(x, s[1..]);
      InsertBounded(x, s[1..], s[0].weight);
    }
  }

  /** The sort yields the header's entries, each once, heaviest first. */
  lemma {:induction false} SortByWeightSpec(es: seq<Entry>)
    ensures SortedByWeight(SortByWeight(es))
    ensures multiset(SortByWeight(es)) == multiset(es)
  {
    if es != [] {
      SortByWeightSpec(es[1..]);
      InsertSorted(es[0], SortByWeight(es[1..]));
      InsertPermutes(es[0], SortByWeight(es[1..]));
      assert es == [es[0]] + es[1..];
    }
  }

  // ---------------------------------------------------------------------------
  // the search loop and its reference definition

  /** The first entry, in the order given, that names a supported locale. */
  function FirstMatch(s: seq<Entry>): (r: Option<Entry>)
    ensures r.Some? ==> Matches(r.value) && r.value in s
    ensures r.None? <==> forall k | 0 <= k < |s| :: !Matches(s[k])
  {
    if s == [] then None
    else if Matches(s[0]) then Some(s[0])
    else
      assert forall k | 1 <= k < |s| :: s[k] == s[1..][k - 1];
      FirstMatch(s[1..])
  }

  /**
   * Reference definition of the entry the negotiation should pick, in header order: the
   * matching entry of greatest weight, the earliest of them on a tie.
   */
  function BestIndex(es: seq<Entry>): (r: Option<nat>)
    ensures r.Some? ==> r.value < |es|
  {
    if es == [] then None
    else
      var b := BestIndex(es[1..]);
      if Matches(es[0]) && (b.None? || es[0].weight >= es[1..][b.value].weight) then Some(0)
      else if b.Some? then Some(b.value + 1)
      else None
  }

  /** Entry `i` matches, none outweighs it, and every matching entry before it weighs less. */
  predicate IsBest(es: seq<Entry>, i: nat) {
    && i < |es|
    && Matches(es[i])
    && (forall j | 0 <= j < |es| && Matches(es[j]) :: es[j].weight <= es[i].weight)
    && (forall j | 0 <= j < i && Matches(es[j]) :: es[j].weight < es[i].weight)
  }

  /** `BestIndex` finds exactly the best entry, and finds none exactly when no entry matches. */
  lemma {:induction false} BestIndexSpec(es: seq<Entry>)
    ensures BestIndex(es).None? <==> forall j | 0 <= j < |es| :: !Matches(es[j])
    ensures BestIndex(es).Some? ==> IsBest(es, BestIndex(es).value)
  {
    if es != [] {
      var tail := es[1..];
      BestIndexSpec(tail);
      assert forall j | 1 <= j < |es| :: es[j] == tail[j - 1];
      var b := BestIndex(tail);
      if Matches(es[0]) && (b.None? || es[0].weight >= tail[b.value].weight) {
        forall j | 0 <= j < |es| && Matches(es[j]) ensures es[j].weight <= es[0].weight {
          if j > 0 {
            assert Matches(tail[j - 1]);
          }
        }
      } else if b.Some? {
        var i := b.value;
        forall j | 0 <= j < |es| && Matches(es[j]) ensures es[j].weight <= es[i + 1].weight {
          if j > 0 {
            assert Matches(tail[j - 1]);
          }
        }
      } else {
        assert !Matches(es[0]);
        forall j | 0 <= j < |es| ensures !Matches(es[j]) {
          if j > 0 {
            assert !Matches(tail[j - 1]);
          }
        }
      }
    }
  }

  /** At most one index is the best one. */
  lemma BestIsUnique(es: seq<Entry>, i: nat, k: nat)
    requires IsBest(es, i) && IsBest(es, k)
    ensures i == k
  {
  }

  /** Inserting into a sorted list can only make `x` the first match, and does so exactly when `x` wins. */
  lemma {:induction false} FirstMatchInsert(x: Entry, s: seq<Entry>)
    requires SortedByWeight(s)
    ensures FirstMatch(Insert(x, s)) ==
      if Matches(x) && (FirstMatch(s).None? || x.weight >= FirstMatch(s).value.weight) then Some(x)
      else FirstMatch(s)
  {
    if s != [] {
      if x.weight >= s[0].weight {
        var m := FirstMatch(s);
        if m.Some? {
          var k :| 0 <= k < |s| && s[k] == m.value;
          assert s[0].weight >= s[k].weight;
        }
        assert Insert(x, s)[1..] == s;
      } else {
        assert SortedByWeight(s[1..]);
        FirstMatchInsert(x, s[1..]);
        var r := Insert(x, s);
        assert r[1..] == Insert(x, s[1..]);
        if Matches(s[0]) {
          assert FirstMatch(s) == Some(s[0]);
        } else {
          assert FirstMatch(s) == FirstMatch(s[1..]);
        }
      }
    }
  }

  /** The search loop over the sorted entries stops at the best entry of the header. */
  lemma {:induction false} FirstMatchIsBest(es: seq<Entry>)
    ensures FirstMatch(SortByWeight(es)) ==
      if BestIndex(es).Some? then Some(es[BestIndex(es).value]) else None
  {
    if es != [] {
      FirstMatchIsBest(es[1..]);
      SortByWeightSpec(es[1..]);
      FirstMatchInsert(es[0], SortByWeight(es[1..]));
    }
  }

  /** The locale named by a well-formed header, if any entry names one. */
  function HeaderLocale(header: string): (r: Option<string>)
    requires WellFormedHeader(header)
    ensures r.Some? ==> Supported(r.value)
  {
    var m := FirstMatch(SortByWeight(ParseHeader(header).value));
    if m.Some? then MatchEntry(m.value) else None
  }

  // ---------------------------------------------------------------------------
  // getLocaleFromRequest

  /** The cookie holds a supported locale (the empty cookie is falsy). */
  predicate CookieHit(cookie: Option<string>) {
    cookie.Some? && cookie.value != [] && Supported(cookie.value)
  }

  /** The header is consulted (no usable cookie, a non-empty header) only when its weights are readable. */
  predicate Negotiable(cookie: Option<string>, header: Option<string>) {
    !CookieHit(cookie) && header.Some? && header.value != [] ==> WellFormedHeader(header.value)
  }

  /** `getLocaleFromRequest`: cookie first, then the header, then the default locale. */
  function LocaleFromRequest(cookie: Option<string>, header: Option<string>): (r: string)
    requires Negotiable(cookie, header)
    ensures Supported(r)
  {
    if CookieHit(cookie) then cookie.value
    else if header.Some? && header.value != [] then
      match HeaderLocale(header.value)
      case Some(l) => l
      case None => DefaultLocale
    else DefaultLocale
  }

  /** A supported cookie wins whatever the header says. */
  lemma CookieWins(l: string, header: Option<string>)
    requires Supported(l)
    ensures LocaleFromRequest(Some(l), header) == l
  {
  }

  /** A cookie outside the supported list counts as no cookie at all. */
  lemma UnsupportedCookieIgnored(c: string, header: Option<string>)
    requires !Supported(c)
    requires Negotiable(None, header)
    ensures LocaleFromRequest(Some(c), header) == LocaleFromRequest(None, header)
  {
  }

  /**
   * Without a usable cookie the locale is that of the best entry of the header: the
   * heaviest matching entry, the earliest of equally heavy ones; with no matching entry, or
   * no header, it is the default locale.
   */
  lemma HeaderNegotiation(cookie: Option<string>, header: string)
    requires !CookieHit(cookie) && header != [] && WellFormedHeader(header)
    ensures var es := ParseHeader(header).value;
      match BestIndex(es)
      case Some(i) => IsBest(es, i) && LocaleFromRequest(cookie, Some(header)) == MatchEntry(es[i]).value
      case None =>
        (forall j | 0 <= j < |es| :: !Matches(es[j])) && LocaleFromRequest(cookie, Some(header)) == DefaultLocale
  {
    var es := ParseHeader(header).value;
    FirstMatchIsBest(es);
    BestIndexSpec(es);
  }

  lemma NoHeaderDefault(cookie: Option<string>)
    requires !CookieHit(cookie)
    ensures LocaleFromRequest(cookie, None) == DefaultLocale
    ensures LocaleFromRequest(cookie, Some("")) == DefaultLocale
  {
  }

  /** A regional tag falls back to its language: `zh-cn` names `zh`. */
  lemma RegionalTagMatchesLanguage(region: string, w: nat)
    requires '-' !in region
    ensures MatchEntry(Entry("zh-" + region, w)) == Some("zh")
  {
    var code := "zh-" + region;
    assert code == "zh" + ("-" + region);
    BeforeFirstOf("zh", '-', "-" + region);
    assert code !in Locales by {
      assert |code| > 2;
    }
  }

  // ---------------------------------------------------------------------------
  // the middleware itself

  datatype Request = Request(pathname: string, search: string, cookie: Option<string>, acceptLanguage: Option<string>)

  /** `publicPaths.some(path => pathname.startsWith(path))`: a plain string prefix test. */
  predicate IsPublic(pathname: string) {
    exists i | 0 <= i < |PublicPaths| :: StartsWith(pathname, PublicPaths[i])
  }

  /** The path is `/L` or starts with `/L/` for a supported `L`. */
  predicate HasLocale(pathname: string) {
    exists i | 0 <= i < |Locales| :: StartsWith(pathname, "/" + Locales[i] + "/") || pathname == "/" + Locales[i]
  }

  /** What the middleware does with a request. */
  datatype Decision = PassThrough | RedirectTo(locale: string, pathname: string, search: string)

  /** Negotiation runs only for paths that are neither public nor localized. */
  predicate Routable(req: Request) {
    !IsPublic(req.pathname) && !HasLocale(req.pathname) ==> Negotiable(req.cookie, req.acceptLanguage)
  }

  function Decide(req: Request): (d: Decision)
    requires Routable(req)
    ensures d.RedirectTo? ==> Supported(d.locale) && d.pathname == "/" + d.locale + req.pathname && d.search == req.search
    ensures d.PassThrough? <==> IsPublic(req.pathname) || HasLocale(req.pathname)
    ensures d.RedirectTo? ==> d.locale == LocaleFromRequest(req.cookie, req.acceptLanguage)
  {
    if IsPublic(req.pathname) || HasLocale(req.pathname) then PassThrough
    else
      var locale := LocaleFromRequest(req.cookie, req.acceptLanguage);
      RedirectTo(locale, "/" + locale + req.pathname, req.search)
  }

  /** Every path with one of the public prefixes passes, `/administrator` and `/imgs` included. */
  lemma PublicPrefixPassesThrough(req: Request, i: nat)
    requires i < |PublicPaths| && StartsWith(req.pathname, PublicPaths[i])
    ensures Decide(req) == PassThrough
  {
  }

  lemma LocalizedPathPassesThrough(req: Request, l: string, rest: string)
    requires Supported(l)
    requires req.pathname == "/" + l || req.pathname == "/" + l + "/" + rest
    ensures Decide(req) == PassThrough
  {
    var i :| 0 <= i < |Locales| && Locales[i] == l;
    if req.pathname != "/" + l {
      assert req.pathname[..|"/" + l + "/"|] == "/" + l + "/";
    }
  }

  /** `/enx` is not a localized path: it is redirected to `/en/enx` when English is chosen. */
  lemma SegmentMustEndAtSlash(req: Request)
    requires req.pathname == "/enx" && req.cookie == Some("en")
    ensures Decide(req) == RedirectTo("en", "/en/enx", req.search)
  {
    assert !HasLocale("/enx") by {
      assert Locales == ["en", "th", "zh"];
      assert "/enx"[3] != "/en/"[3];
      assert "/enx"[..4] != "/en/";
    }
    assert !IsPublic("/enx") by {
      forall i | 0 <= i < |PublicPaths| ensures !StartsWith("/enx", PublicPaths[i]) {
        assert "/enx"[1] == 'e';
        assert |PublicPaths[i]| >= 2 && PublicPaths[i][1] != 'e';
      }
    }
  }

  /** Redirection reaches a fixed point in one hop: the target is itself passed through. */
  lemma RedirectIsIdempotent(req: Request)
    requires Routable(req) && Decide(req).RedirectTo?
    requires req.pathname == [] || req.pathname[0] == '/'
    ensures var d := Decide(req);
      Decide(req.(pathname := d.pathname)) == PassThrough
  {
    var d := Decide(req);
    var l := d.locale;
    var i :| 0 <= i < |Locales| && Locales[i] == l;
    if req.pathname != [] {
      assert d.pathname[..|"/" + l + "/"|] == "/" + l + "/";
    }
    assert HasLocale(d.pathname);
  }

  /**
   * Round trip: a path prefixed with locale `L`, stripped of that prefix and requested again
   * with the cookie `L`, is redirected to the same prefixed path.
   */
  lemma StripAndResolve(req: Request, l: string)
    requires Supported(l) && req.cookie == Some(l)
    requires !IsPublic(req.pathname) && !HasLocale(req.pathname)
    ensures Decide(req) == RedirectTo(l, "/" + l + req.pathname, req.search)
  {
  }

  // ---------------------------------------------------------------------------
  // the response and its cookie

  datatype Cookie = Cookie(value: string, maxAge: int, path: string)

  /** A response: `next()` (no location) or a redirect, with the cookies set on it. */
  class Response {
    var location: Option<string>
    var cookies: map<string, Cookie>

    constructor Next()
      ensures location == None && cookies == map[]
    {
      location := None;
      cookies := map[];
    }

    constructor Redirect(url: string)
      ensures location == Some(url) && cookies == map[]
    {
      location := Some(url);
      cookies := map[];
    }

    method SetCookie(name: string, c: Cookie)
      modifies this
      ensures cookies == old(cookies)[name := c]
      ensures location == old(location)
    {
      cookies := cookies[name := c];
    }
  }

  /**
   * `middleware(request)`: passes through, or redirects to the prefixed path with the query
   * kept and sets `NEXT_LOCALE` for a year on path `/`.
   */
  method Handle(req: Request) returns (resp: Response)
    requires Routable(req)
    ensures fresh(resp)
    ensures Decide(req).PassThrough? ==> resp.location == None && resp.cookies == map[]
    ensures Decide(req).RedirectTo? ==>
      var d := Decide(req);
      && resp.location == Some(d.pathname + d.search)
      && resp.cookies == map[CookieName := Cookie(d.locale, CookieMaxAge, "/")]
  {
    if IsPublic(req.pathname) {
      resp := new Response.Next();
      return;
    }
    if HasLocale(req.pathname) {
      resp := new Response.Next();
      return;
    }
    var locale := LocaleFromRequest(req.cookie, req.acceptLanguage);
    resp := new Response.Redirect("/" + locale + req.pathname + req.search);
    resp.SetCookie(CookieName, Cookie(locale, CookieMaxAge, "/"));
  }

  // ---------------------------------------------------------------------------
  // a worked request: `Accept-Language: th-TH,en;q=0.8` with no cookie

  lemma ExampleDigits()
    ensures AllDigits("800") && DigitsValue("800") == 800
  {
    assert "800"[..2] == "80";
    assert "80"[..1] == "8";
    assert "8"[..0] == [];
  }

  lemma ExampleWeight()
    ensures ParseWeight("0.8") == Some(800)
  {
    assert "0.8"[0] == '0' && "0.8"[1] == '.';
    assert "0.8"[1..] == ".8";
    assert LeadingWhile(".8", IsDigit) == [];
    assert LeadingWhile("0.8", IsDigit) == "0";
    assert ".8"[1..] == "8";
    assert "8" + "000"[..2] == "800";
    ExampleDigits();
    assert "0"[..0] == [];
  }

  lemma ExampleRegionalEntry(a: string)
    requires a == "th-TH"
    ensures ParseEntry(a) == Some(Entry("th-th", 1000))
  {
    TrimNoSpace("th-TH");
    SplitWithout("th-TH", ';');
    assert ToLower("th-TH") == "th-th";
  }

  lemma ExampleEntrySplits()
    ensures Split("en;q=0.8", ';') == ["en", "q=0.8"] && Split("q=0.8", '=') == ["q", "0.8"]
  {
    ExampleEntrySplit();
    ExampleParamSplit();
  }

  lemma ExampleEntrySplit()
    ensures Split("en;q=0.8", ';') == ["en", "q=0.8"]
  {
    assert "en;q=0.8" == "en" + [';'] + "q=0.8";
    ExampleSplit("en", ';', "q=0.8");
  }

  lemma ExampleParamSplit()
    ensures Split("q=0.8", '=') == ["q", "0.8"]
  {
    assert "q=0.8" == "q" + ['='] + "0.8";
    ExampleSplit("q", '=', "0.8");
  }

  lemma ExampleSplit(p: string, c: char, rest: string)
    requires c !in p && c !in rest
    ensures Split(p + [c] + rest, c) == [p, rest]
  {
    SplitOnce(p, c, rest);
  }

  lemma ExampleWeightedEntry(b: string)
    requires b == "en;q=0.8"
    ensures ParseEntry(b) == Some(Entry("en", 800))
  {
    TrimNoSpace("en;q=0.8");
    ExampleEntrySplits();
    assert ToLower("en") == "en";
    ExampleWeight();
  }

  /** A header of two comma-separated entries parses to those two entries, in order. */
  lemma ParseTwoEntries(h: string, a: string, b: string, ea: Entry, eb: Entry)
    requires h == a + [','] + b && ',' !in a && ',' !in b
    requires ParseEntry(a) == Some(ea) && ParseEntry(b) == Some(eb)
    ensures ParseHeader(h) == Some([ea, eb])
  {
    SplitOnce(a, ',', b);
    var r := ParseEntries([a, b]);
    assert ParseEntry([a, b][0]) == Some(ea) && ParseEntry([a, b][1]) == Some(eb);
    assert r.Some? && r.value[0] == ea && r.value[1] == eb;
    assert r.value == [ea, eb];
  }

  /** Without a cookie, the locale is the one the first matching entry of the sorted list names. */
  lemma NegotiatedLocaleOf(h: string, es: seq<Entry>, l: string)
    requires ParseHeader(h) == Some(es) && h != []
    requires FirstMatch(SortByWeight(es)).Some? && MatchEntry(FirstMatch(SortByWeight(es)).value) == Some(l)
    ensures Negotiable(None, Some(h)) && LocaleFromRequest(None, Some(h)) == l
  {
  }

  lemma ExampleSorted()
    ensures SortByWeight([Entry("th-th", 1000), Entry("en", 800)]) == [Entry("th-th", 1000), Entry("en", 800)]
  {
    var es := [Entry("th-th", 1000), Entry("en", 800)];
    assert es[1..] == [Entry("en", 800)];
    assert es[1..][1..] == [];
  }

  lemma ExampleMatch()
    ensures MatchEntry(Entry("th-th", 1000)) == Some("th") && FirstMatch([Entry("th-th", 1000), Entry("en", 800)]) == Some(Entry("th-th", 1000))
  {
    assert "th-th" == "th" + "-th";
    BeforeFirstOf("th", '-', "-th");
  }

  lemma ExampleHeader(h: string)
    requires h == "th-TH,en;q=0.8"
    ensures ParseHeader(h) == Some([Entry("th-th", 1000), Entry("en", 800)])
  {
    var a, b := "th-TH", "en;q=0.8";
    assert h == a + [','] + b;
    assert ',' !in a;
    assert ',' !in b;
    ExampleRegionalEntry(a);
    ExampleWeightedEntry(b);
    ParseTwoEntries(h, a, b, Entry("th-th", 1000), Entry("en", 800));
  }

  /** A Thai browser that also accepts English at 0.8 is sent to `th`. */
  lemma ThaiBrowserGetsThai(h: string)
    requires h == "th-TH,en;q=0.8"
    ensures Negotiable(None, Some(h)) && LocaleFromRequest(None, Some(h)) == "th"
  {
    ExampleHeader(h);
    ExampleSorted();
    ExampleMatch();
    NegotiatedLocaleOf(h, [Entry("th-th", 1000), Entry("en", 800)], "th");
  }
}
