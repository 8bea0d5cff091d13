# A verified model of the decision logic of a multilingual tour-booking site

The site is a Next.js storefront for travel tours with an admin back office. Most of it is
page composition. This project models the parts that make decisions:

- **Locale routing.** The request middleware picks a locale from the `NEXT_LOCALE` cookie or
  the `Accept-Language` header. It passes public and already-localized paths through, and
  redirects every other path to `/<locale><path>?<query>`, writing the cookie.
- **Admin API routes.** Announcements can be created, toggled and deleted, and tours can be
  created, updated and deleted. Each route checks the admin session and its required fields,
  then runs one or two SQL statements. The announcement routes keep at most one announcement
  active.
- **The admin session.** `login`, `logout` and `isAuthenticated` work over an iron-session
  record.
- **Fallback strings.** This covers the review-comment language fallback, user display names,
  description truncation, the WhatsApp link text, the auth-callback redirect table and the
  record assembly of the automatic translator.
- **Client state machines.** These are the photo lightbox, the 24-hour announcement popup, the
  language menu and the tour search filters.
- **Two migration scripts.** They add missing columns and backfill rows.

One module per source file: `middleware.dfy`, `tour_search.dfy`, `tour_reviews.dfy`,
`user_utils.dfy`, `image_gallery.dfy`, `announcement_popup.dfy`, `tour_card.dfy`,
`language_switcher.dfy`, `auth_callback.dfy`, `auth.dfy`, `announcement_create.dfy`,
`announcement_toggle.dfy`, `announcement_delete.dfy`, `tour_create.dfy`, `tour_update.dfy`,
`tour_delete.dfy`, `translate.dfy`, `migrate_multilingual.dfy` and `migrate_currency.dfy`.
Shared vocabulary lives in these modules:

- `Js`: JavaScript values and truthiness.
- `Strings`: `split`, `trim`, `toLowerCase`, `parseInt`, `String(n)` and the default string
  order of `sort`.
- `Sql`: a table as a class holding `map<int, Row>` plus an AUTOINCREMENT counter, and the
  statement forms the site executes.
- `Api`: JSON responses.
- `Announcements` and `Tours`: the two tables' shared statements and invariants.

Each route, and each script, is a pure function from the old table to the response and the new
table. The lemmas about the route are stated over that function. The route's `Post` (or
`Migrate`) method runs the statements one by one against a `Sql.Table` object, and its
`ensures` ties the new table and the response to that function. A thrown database call is an
input, `fault`: the index of the `execute` call that throws. This lets the model state what a
failure half-way through leaves behind.

External services appear as parameters. These are bcrypt's compare, the Google translate reply,
the Supabase session exchange, the Supabase upsert's error, `Date.now()`, and the environment
variable. `getLocalizedField`, `replaceLocaleInPath`, `locales` and `localeConfig` come from
`lib/i18n`, which is not part of this model, so they are parameters as well.

Some behaviour of the code is easy to miss, and the model keeps it:

- The public-path test is a plain string prefix, so `/administrator` and `/imgs` pass through
  unlocalized.
- A path under an unsupported locale (`/fr/tours`) is not re-localized. It gets a second prefix
  (`/en/fr/tours`).
- A header entry whose weight does not parse is not skipped. It sorts with a `NaN` weight; see
  "Left out".

## Model

| member | source | states |
|---|---|---|
| Middleware.CookieWins | middleware.js:19-22 | a `NEXT_LOCALE` cookie holding `en`, `th` or `zh` is the locale, whatever the header says |
| Middleware.UnsupportedCookieIgnored | middleware.js:19-22 | a cookie outside the supported list gives the same locale as no cookie at all |
| Middleware.EntryWithoutWeight | middleware.js:28-34 | an entry without `;` becomes its trimmed, lower-cased tag with weight 1.0 (1000 thousandths) |
| Middleware.EntryWithWeight | middleware.js:31-34 | an entry `tag;q=w` becomes the lower-cased tag with the weight read from `w` |
| Middleware.SortByWeightSpec | middleware.js:36 | the sort is a permutation of the entries, in non-increasing weight order |
| Middleware.BestIndexSpec | middleware.js:36-49 | the reference choice is the heaviest entry naming a supported locale, the earliest among equal weights; it is None iff no entry names one |
| Middleware.FirstMatchIsBest | middleware.js:36-49 | the search loop over the stably sorted entries stops exactly at that reference choice |
| Middleware.RegionalTagMatchesLanguage | middleware.js:44-48 | a tag `zh-<region>` matches on its part before the first hyphen and yields `zh` |
| Middleware.LocaleFromRequest | middleware.js:17-54 | the negotiated locale is always one of the supported locales |
| Middleware.HeaderNegotiation | middleware.js:24-53 | without a usable cookie, the locale is the one the best header entry names, or `en` when no entry matches |
| Middleware.NoHeaderDefault | middleware.js:52-53 | without a usable cookie and with a missing or empty header the locale is `en` |
| Middleware.ThaiBrowserGetsThai | middleware.js:17-53 | the header `th-TH,en;q=0.8` with no cookie gives `th` |
| Middleware.Decide | middleware.js:56-75 | pass-through iff the path is public or already localized; otherwise a redirect to `/` + locale + path with the query kept, where the locale is the one `LocaleFromRequest` negotiates from the cookie and the header |
| Middleware.PublicPrefixPassesThrough | middleware.js:59-62 | any path starting with one of the seven public prefixes passes through, `/administrator` included |
| Middleware.LocalizedPathPassesThrough | middleware.js:64-71 | `/L` and `/L/...` for a supported `L` pass through |
| Middleware.SegmentMustEndAtSlash | middleware.js:65-67 | `/enx` is not localized and is redirected to `/en/enx` |
| Middleware.RedirectIsIdempotent | middleware.js:65-75 | the redirect target itself passes through, so one hop reaches a fixed point |
| Middleware.StripAndResolve | middleware.js:19-78 | an unprefixed path requested with cookie `L` is redirected to `/L` + path with the same query |
| Middleware.Handle | middleware.js:56-89 | the response is `next()` with no cookie, or a redirect to the decided URL with `NEXT_LOCALE` set for 31536000 s on path `/` |
| TourSearch.MatchesSearch | components/TourSearch.js:35-37 | an empty term, or the lower-cased term inside the lower-cased title or location; a term that occurs as typed always matches |
| TourSearch.MatchesPrice | components/TourSearch.js:39-49 | the buckets `under500`, `500-1000`, `1000-2000` and `2000plus`; any other range accepts every price |
| TourSearch.MatchesLocation | components/TourSearch.js:51-56 | `all`, or equal to the localized or the English location |
| TourSearch.MatchesDuration | components/TourSearch.js:58-71 | each duration filter's regular expressions as substring and ordering tests on the lower-cased duration; `all` and unknown values accept every tour |
| TourSearch.Keep | components/TourSearch.js:30-73 | the conjunction of the four tests, on the title and location localized for the page language |
| TourSearch.PriceBucketsPartition | components/TourSearch.js:39-49 | every price lies in exactly one of the four buckets, and any other range value accepts every price |
| TourSearch.Filtered | components/TourSearch.js:29-75 | a tour is kept iff search, price, location and duration all hold; the result is an order-preserving sub-sequence |
| TourSearch.NeutralFiltersKeepAll | components/TourSearch.js:30-73 | with every filter neutral all tours are shown, in order |
| TourSearch.UniqueLocations | components/TourSearch.js:23-26 | the location menu is strictly sorted (so without duplicates) and holds exactly the tours' localized locations |
| TourSearch.ActiveIffNotNeutral | components/TourSearch.js:84 | no filter is active iff all four are at their neutral values |
| TourSearch.Search.SyncLocation | components/TourSearch.js:16-20 | the location filter follows the `location` URL parameter and is `all` when it is absent or empty; other filters unchanged |
| TourSearch.Search.SetSearchTerm | components/TourSearch.js:98 | the search term becomes the typed value; the other filters are kept |
| TourSearch.Search.SetPriceRange | components/TourSearch.js:118 | the price range becomes the selected value; the other filters are kept |
| TourSearch.Search.SetDurationFilter | components/TourSearch.js:149 | the duration filter becomes the selected value; the other filters are kept |
| TourSearch.Search.ClearFilters | components/TourSearch.js:77-82 | after clearing, all four filters are neutral and none is active |
| TourReviews.LocalizedComment | components/TourReviews.js:9-25 | null review gives `''`; else `comment_<lang>` if truthy, else `comment_en` if truthy, else `comment`, else `''`; never undefined |
| TourReviews.EmptyVariantFallsBack | components/TourReviews.js:13-16 | an empty `comment_<lang>` falls back exactly as a missing one |
| TourReviews.ReviewRow | components/TourReviews.js:219-231 | the upserted row carries the tour, the user, the comment and the three variants of the translation outcome |
| TourReviews.UntranslatedVariants | components/TourReviews.js:207-217 | when the translation response is not ok, all three stored variants equal the comment as typed |
| TourReviews.ReviewTable.Upsert | components/TourReviews.js:219-231 | the upsert is keyed on (tour_id, user_id): a new row, or the given columns over the existing review |
| TourReviews.UpsertKeepsKeyed | components/TourReviews.js:219-231 | every stored review keeps the tour and user of its key |
| TourReviews.ResubmitReplaces | components/TourReviews.js:219-231 | a second submission leaves one review per user and tour, with the second submission's columns |
| TourReviews.ReviewForm.Submit | components/TourReviews.js:180-253 | no user or no client: error set and nothing written; a failed request or upsert: error and nothing written; otherwise the upsert and the success message |
| TourReviews.ReviewForm.Send | components/TourReviews.js:193-252 | with a user and a client: a thrown or unreadable translation request or a failed upsert sets the error and writes nothing; otherwise the row (untranslated comment in all three languages when the response is not ok) is upserted under (tour, user) and the update or submit message is shown; `submitting` is off afterwards |
| UserUtils.EmailName | lib/userUtils.js:8 | `email?.split('@')[0]`: undefined without an e-mail, otherwise a prefix of the address that holds no `@` |
| UserUtils.FullName | lib/userUtils.js:8 | `user_metadata?.full_name`: undefined without metadata, otherwise the field as stored |
| UserUtils.UserDisplayName | lib/userUtils.js:6-9 | `Anonymous` for no user, else the full name, else the e-mail's part before `@`, else `User`; never empty |
| UserUtils.ProfileDisplayName | lib/userUtils.js:16-19 | the same chain on `full_name` and `email`, with `Anonymous` for no profile and at the end; never empty |
| UserUtils.EmailNameShown | lib/userUtils.js:8 | without a full name an address `name@domain` shows as `name`, or `User` when `name` is empty |
| UserUtils.LeadingAtGivesUser | lib/userUtils.js:8 | the address `@x.com` shows as `User` |
| ImageGallery.Previous | components/ImageGallery.js:17-19 | `i > 0` gives `i-1`, otherwise `n-1`; stays in `[0, n)` for a valid index |
| ImageGallery.Next | components/ImageGallery.js:21-23 | `i < n-1` gives `i+1`, otherwise `0`; stays in `[0, n)` for a valid index |
| ImageGallery.StepsAreInverse | components/ImageGallery.js:17-23 | next undoes previous and previous undoes next on a valid index |
| ImageGallery.FullCycle | components/ImageGallery.js:21-23 | `n` moves forward return to the starting image |
| ImageGallery.AfterKey | components/ImageGallery.js:26-37 | Escape closes, ArrowLeft goes back, ArrowRight goes forward, other keys change nothing, and nothing happens while closed |
| ImageGallery.KeysKeepIndexValid | components/ImageGallery.js:26-37 | after any key the lightbox is closed or on a valid image |
| ImageGallery.Gallery.Open | components/ImageGallery.js:9-11 | opening selects the given index |
| ImageGallery.Gallery.Close | components/ImageGallery.js:13-15 | closing clears the selection |
| ImageGallery.Gallery.GoToPrevious | components/ImageGallery.js:17-19 | the selection moves back cyclically (null read as 0) and stays valid |
| ImageGallery.Gallery.GoToNext | components/ImageGallery.js:21-23 | the selection moves forward cyclically (null read as 0) and stays valid |
| ImageGallery.Gallery.KeyDown | components/ImageGallery.js:29-33 | the key handler's new selection is `AfterKey` of the old one, and validity is kept |
| AnnouncementPopup.ShouldShow | components/AnnouncementPopup.js:12-22 | an announcement is hidden only when the stored dismissed id is its own id as a string |
| AnnouncementPopup.ShowRule | components/AnnouncementPopup.js:19-22 | shown with no stored id or a different id; same id without a time is hidden; same id with a time is shown iff more than 86400000 ms passed |
| AnnouncementPopup.Popup.Mount | components/AnnouncementPopup.js:10-31 | the popup becomes visible exactly when `shouldShow` holds |
| AnnouncementPopup.Popup.Dismiss | components/AnnouncementPopup.js:33-44 | dismissing stores the id and the time as strings and hides the popup |
| AnnouncementPopup.DismissalLastsADay | components/AnnouncementPopup.js:19-38 | right after a dismissal the same announcement is shown again iff more than 24 h have passed (exactly 24 h stays hidden) |
| AnnouncementPopup.OtherAnnouncementStillShows | components/AnnouncementPopup.js:21-38 | dismissing one announcement never hides a different one |
| TourCard.Truncate | components/TourCard.js:7-10 | text up to `maxLength` (120 by default) is unchanged, longer text is cut to `maxLength` characters plus `...`; never longer than `maxLength + 3` |
| TourCard.TruncateIdempotent | components/TourCard.js:7-10 | truncating a truncated description changes nothing, for every `maxLength` |
| TourCard.WhatsappNumber | components/TourCard.js:12 | the environment value when set and non-empty, otherwise `919800000000` |
| TourCard.Message | components/TourCard.js:13 | the WhatsApp message template filled with the title, location and price |
| TourCard.MessageEmbedsTour | components/TourCard.js:13 | the message contains the title, the location and the price at fixed places of the template |
| LanguageSwitcher.Switcher.constructor | components/LanguageSwitcher.js:10-11 | the menu starts closed with locale `en` |
| LanguageSwitcher.Switcher.SyncLocale | components/LanguageSwitcher.js:13-19 | the first non-empty path segment becomes the current locale when supported; otherwise it is unchanged |
| LanguageSwitcher.PathDecidesLocale | components/LanguageSwitcher.js:15-18 | on `/L` or `/L/...` the first segment is `L` |
| LanguageSwitcher.Switcher.ChangeLanguage | components/LanguageSwitcher.js:21-36 | the same locale only closes the menu; another one writes the cookie, pushes `replaceLocaleInPath(path, locale)` and closes |
| LanguageSwitcher.CookieLifetime | components/LanguageSwitcher.js:31 | the cookie text is `NEXT_LOCALE=<l>; path=/; max-age=31536000` |
| LanguageSwitcher.CurrentConfig | components/LanguageSwitcher.js:38 | the displayed config is the current locale's entry, or the `en` entry when that is missing |
| LanguageSwitcher.Switcher.Toggle | components/LanguageSwitcher.js:43 | the button flips the open state and nothing else |
| AuthCallback.Lang | app/auth/callback/route.js:10 | `lang` is the query value when non-empty, else `en`, unchecked |
| AuthCallback.Target | app/auth/callback/route.js:12-48 | the redirect path of each branch for a given language |
| AuthCallback.RedirectTable | app/auth/callback/route.js:12-48 | no code gives `/<lang>`; an exchange error gives `auth_failed`; an exception gives `unexpected`; recovery gives update-password; `email_change` gives `email_updated`; any other type gives `email_verified` |
| AuthCallback.Redirect | app/auth/callback/route.js:4-49 | every redirect path starts with `/<lang>` |
| AuthCallback.Get | app/auth/callback/route.js:4-49 | the handler, with its reassigned `successType`, returns the decision table's path |
| AuthCallback.UncheckedLangLeavesSite | app/auth/callback/route.js:10-48 | a `lang` of `/evil.example` makes the redirect path start with `//` |
| AuthCallback.CheckedLang | app/auth/callback/route.js:10 | the corrected language is always a supported locale and keeps a supported query value |
| AuthCallback.CheckedRedirect | app/auth/callback/route.js:10-48 | the corrected redirect path starts with `/` and a supported locale |
| AuthCallback.CheckedRedirectStaysOnSite | app/auth/callback/route.js:10-48 | the corrected redirect never starts with `//`, and it agrees with the route as written on every supported `lang` |
| Announcements.DeactivateAllSpec | app/api/announcements/create/route.js:33 | `UPDATE ... SET is_active = 0` leaves no row active and changes only `is_active` |
| Announcements.SetActiveSpec | app/api/announcements/toggle/route.js:33-36 | setting one row's flag changes that row's `is_active` and no other row |
| AnnouncementCreate.Create | app/api/announcements/create/route.js:11-52 | the route as a function of the stored table, the session, the parsed body and the statement that throws; the table it returns keeps the announcements schema |
| AnnouncementCreate.UnauthenticatedIsRejected | app/api/announcements/create/route.js:13-20 | no session gives 401 and the table is unchanged |
| AnnouncementCreate.MessageIsRequired | app/api/announcements/create/route.js:24-29 | a falsy message gives 400 and the table is unchanged |
| AnnouncementCreate.SucceedsWhen | app/api/announcements/create/route.js:11-52 | success iff session, body and message are present and no statement throws |
| AnnouncementCreate.InsertsOneRow | app/api/announcements/create/route.js:32-39 | exactly one row is added under the next id, with the message and `is_active` 1 iff requested; an active create deactivates every old row, an inactive one keeps them |
| AnnouncementCreate.ActiveCreateIsTheOnlyActive | app/api/announcements/create/route.js:32-39 | after an active create, the new row is the only active one |
| AnnouncementCreate.KeepsAtMostOneActive | app/api/announcements/create/route.js:32-39 | whatever the outcome, at most one active row before means at most one after |
| AnnouncementCreate.IgnoresTypeAndImage | app/api/announcements/create/route.js:22 | the request's `type` and `image_url` make no difference |
| AnnouncementCreate.FailedActiveInsertLeavesNoneActive | app/api/announcements/create/route.js:32-50 | when the insert of an active announcement throws, 500 is returned and no announcement is left active |
| AnnouncementCreate.Store | app/api/announcements/create/route.js:32-50 | runs the deactivation (when active) and the insert against the table, and ends with the response and table that the create function gives for a request that passed the checks |
| AnnouncementCreate.Post | app/api/announcements/create/route.js:11-52 | the route's response and new table are the ones the create function gives |
| AnnouncementToggle.Toggle | app/api/announcements/toggle/route.js:6-49 | the toggle route as a function of the table, the session, the body and the statement that throws; the table it returns keeps the announcements schema |
| AnnouncementToggle.RejectionsChangeNothing | app/api/announcements/toggle/route.js:8-24 | no session gives 401 and a falsy id gives 400, table unchanged |
| AnnouncementToggle.ActivationTable | app/api/announcements/toggle/route.js:29-36 | a successful activation sets `is_active` to 1 on the row with the id and 0 on every other row |
| AnnouncementToggle.ActivatingExistingLeavesExactlyIt | app/api/announcements/toggle/route.js:29-36 | activating an existing id leaves exactly that row active |
| AnnouncementToggle.ActivatingAbsentLeavesNone | app/api/announcements/toggle/route.js:29-36 | activating an absent id leaves no row active |
| AnnouncementToggle.DeactivatingChangesOnlyThatRow | app/api/announcements/toggle/route.js:33-36 | deactivating changes only the row with the id, and only its `is_active` |
| AnnouncementToggle.KeepsAtMostOneActive | app/api/announcements/toggle/route.js:29-36 | at most one active row before means at most one after, on every outcome |
| AnnouncementToggle.Post | app/api/announcements/toggle/route.js:6-49 | the route's response and new table are the ones the toggle function gives |
| AnnouncementDelete.Delete | app/api/announcements/delete/route.js:11-47 | the delete route as a function of the table, the session, the body and whether the statement throws; the table it returns keeps the announcements schema |
| AnnouncementDelete.FailuresChangeNothing | app/api/announcements/delete/route.js:13-46 | 401, 400 and 500 leave the table unchanged |
| AnnouncementDelete.RemovesOnlyThatRow | app/api/announcements/delete/route.js:31-39 | success; the row with the id is gone, every other row is unchanged, and an absent id changes nothing |
| AnnouncementDelete.KeepsAtMostOneActive | app/api/announcements/delete/route.js:31-34 | deleting keeps at most one active announcement |
| AnnouncementDelete.Post | app/api/announcements/delete/route.js:11-47 | the route's response and new table are the ones the delete function gives |
| Tours.TourValues | app/api/tours/create/route.js:36 | one bound value for each of the eight base columns and no other |
| Tours.TourValuesBind | app/api/tours/create/route.js:36 | the required fields are bound as given, a missing `banner_image` as null and missing `image_urls` as `'[]'` |
| TourCreate.Create | app/api/tours/create/route.js:11-51 | the create route as a function of the table, the session, the body and whether the insert throws; the table it returns keeps the tours schema |
| TourCreate.SucceedsOnlyWhenComplete | app/api/tours/create/route.js:13-50 | success iff session, body, all six required fields and no throw; 401 without a session, 400 on a missing field; failures change nothing |
| TourCreate.ZeroPriceIsRefused | app/api/tours/create/route.js:26-31 | a price of 0 is refused with 400 |
| TourCreate.InsertsTheTour | app/api/tours/create/route.js:33-37 | exactly one row is inserted under the next id, holding the request's fields and the image defaults; other rows are kept |
| TourCreate.Post | app/api/tours/create/route.js:11-51 | the route's response and new table are the ones the create function gives |
| TourUpdate.Update | app/api/tours/update/route.js:11-54 | the update route as a function of the table, the session, the body, the time and whether the update throws; the table it returns keeps the tours schema |
| TourUpdate.SucceedsOnlyWhenComplete | app/api/tours/update/route.js:13-53 | success iff session, id, all required fields and no throw; every failure changes nothing |
| TourUpdate.ChangesOnlyThatTour | app/api/tours/update/route.js:33-39 | only the row with the id changes: the base fields, the image defaults and `updated_at` are written, and its other columns are kept |
| TourUpdate.LeavesLocalizedColumns | app/api/tours/update/route.js:34-37 | the `_en`, `_th` and `_zh` columns are never written |
| TourUpdate.AbsentIdChangesNothing | app/api/tours/update/route.js:33-46 | an id naming no tour succeeds and changes nothing |
| TourUpdate.Post | app/api/tours/update/route.js:11-54 | the route's response and new table are the ones the update function gives |
| TourDelete.Delete | app/api/tours/delete/route.js:11-48 | the delete route as a function of the table, the session, the body and whether the delete throws; the table it returns keeps the tours schema |
| TourDelete.FailuresChangeNothing | app/api/tours/delete/route.js:13-47 | 401 without a session, 400 without `tourId`, 500 on a throw; none changes the table |
| TourDelete.RemovesOnlyThatTour | app/api/tours/delete/route.js:31-40 | the row with `tourId` is gone, every other row is unchanged, and an absent id changes nothing |
| TourDelete.Post | app/api/tours/delete/route.js:11-48 | the route's response and new table are the ones the delete function gives |
| Auth.FindAdmin | lib/auth.js:27-36 | the first admin row with the e-mail, or none iff no row has it |
| Auth.Authenticated | lib/auth.js:26-41 | an admin is signed in iff a row has the e-mail and the password matches its hash |
| Auth.LoginAnswer | lib/auth.js:32-48 | success iff an admin was authenticated; every failure is `Invalid credentials` |
| Auth.FailuresLookAlike | lib/auth.js:32-41 | an unknown e-mail and a wrong password get identical answers |
| Auth.Login | lib/auth.js:26-49 | on failure the session is untouched; on success it holds the admin's id and e-mail |
| Auth.Session.IsAuthenticated | lib/auth.js:56-59 | `!!session.userId`: authenticated only when a `userId` is stored, and never with id 0 |
| Auth.Session.SignIn | lib/auth.js:43-46 | the session gets `userId` and `email`; it is authenticated iff the id is non-zero |
| Auth.Session.Destroy | lib/auth.js:51-54 | the session is emptied and no longer authenticated |
| Auth.Logout | lib/auth.js:51-59 | after logout, `isAuthenticated` is false |
| Translate.Translated | lib/translate.js:32-34 | a translation is taken only from a truthy `data[0][0][0]` |
| Translate.TranslateText | lib/translate.js:11-42 | falsy text or source equal to target gives the input; otherwise the reply's translation or the original text; truthy iff the input is |
| Translate.FailureKeepsText | lib/translate.js:23-41 | a thrown error, a non-ok response, an unreadable body or an unexpected shape gives the original text |
| Translate.WellShapedReply | lib/translate.js:30-34 | a reply `[[[t, ...]]]` gives `t` |
| Translate.TranslateTourFields | lib/translate.js:49-81 | all input fields are kept; the `_en` fields copy the base fields and `_th`/`_zh` are the translations of them |
| Translate.UntranslatedTourFields | lib/translate.js:82-96 | the catch record sets every variant to its base field |
| Translate.FailedTranslationMatchesFallback | lib/translate.js:49-98 | when no translation succeeds the result equals the catch record |
| Translate.TranslateAnnouncementMessage | lib/translate.js:105-117 | `message_en` is the message and `_th`/`_zh` are its translations |
| Translate.FailedMessageTranslation | lib/translate.js:105-127 | when no translation succeeds all three variants equal the message |
| Translate.MessageStaysPresent | lib/translate.js:105-117 | every variant is truthy iff the message is |
| MigrateMultilingual.ColumnNameOf | lib/migrate-multilingual.js:29 | `'name TEXT'.split(' ')[0]` is `name` |
| MigrateMultilingual.WithAllShape | lib/migrate-multilingual.js:28-36 | the schema loop appends exactly the missing columns, in order, and keeps rows and the counter |
| MigrateMultilingual.WithAllRow | lib/migrate-multilingual.js:28-36 | each row gains NULL in the added columns and keeps every value it had |
| MigrateMultilingual.SchemaFits | lib/migrate-multilingual.js:16-36 | after the schema loop every listed column exists |
| MigrateMultilingual.WithAllAgain | lib/migrate-multilingual.js:28-36 | a second schema pass adds nothing |
| MigrateMultilingual.AddMissingColumns | lib/migrate-multilingual.js:28-36 | the loop leaves the table the schema function gives, or on a throw that of some prefix of the list |
| MigrateMultilingual.CopyRows | lib/migrate-multilingual.js:41-51 | the copy loop leaves every selected row migrated, or on a throw some subset of them |
| MigrateMultilingual.GuardIgnoresEnglishTitle | lib/migrate-multilingual.js:41-44 | with the SELECT as written, the guard holds iff the title is truthy |
| MigrateMultilingual.GuardIgnoresEnglishMessage | lib/migrate-multilingual.js:75-78 | with the SELECT as written, the announcement guard holds iff the message is truthy |
| MigrateMultilingual.CopiesEveryTitledTour | lib/migrate-multilingual.js:43-51 | a tour with a title gets `title_en`, `description_en` and `location_en` from the base fields; other columns kept |
| MigrateMultilingual.SkipsUntitledTour | lib/migrate-multilingual.js:44 | a tour with a falsy title is untouched |
| MigrateMultilingual.CopiesEveryMessage | lib/migrate-multilingual.js:77-85 | an announcement with a message gets `message_en = message`; other columns kept |
| MigrateMultilingual.RerunOverwritesEnglishTitle | lib/migrate-multilingual.js:41-51 | as written, a run overwrites an existing, different `title_en` |
| MigrateMultilingual.FixedGuardKeepsEnglishTitle | lib/migrate-multilingual.js:41-51 | with `title_en` selected, a tour that has one is untouched and one without gets the copy |
| MigrateMultilingual.FixedGuardKeepsEnglishMessage | lib/migrate-multilingual.js:75-85 | with `message_en` selected, an announcement that has one is untouched and one without gets the copy |
| MigrateMultilingual.FixedSelectsCopyBack | lib/migrate-multilingual.js:41 | the corrected SELECT lists fetch the guarded column; the ones as written do not |
| MigrateMultilingual.FixedRunIdempotent | lib/migrate-multilingual.js:28-51 | with the guarded column selected, a second complete run changes nothing (the script as written shares this property; what it lacks is stated by the guard lemmas) |
| MigrateMultilingual.RerunAddsNoColumn | lib/migrate-multilingual.js:28-72 | a second run adds no column |
| MigrateMultilingual.MigratedTable | lib/migrate-multilingual.js:28-51 | after a complete run every listed column exists and the set of rows is unchanged |
| MigrateMultilingual.MigrateTable | lib/migrate-multilingual.js:12-51 | one table's PRAGMA, schema loop, SELECT and copy loop leave the migrated table when no call throws; after a throw the schema loop stopped after some prefix of the column list, or the copy loop stopped after some of the rows |
| MigrateMultilingual.Migrate | lib/migrate-multilingual.js:5-97 | exit code 0 with both tables migrated; 1 only after a throw, leaving the tours partly migrated and the announcements untouched, or the tours complete and the announcements partly migrated |
| MigrateCurrency.Migration | lib/migrate-currency.js:5-33 | the run exits with 0 or 1 and leaves a well-formed table |
| MigrateCurrency.ExistingColumnChangesNothing | lib/migrate-currency.js:12-18 | an existing `currency` column means nothing changes |
| MigrateCurrency.BackfillFindsNothing | lib/migrate-currency.js:21-25 | the NULL backfill selects no row, since the new column's default fills them all |
| MigrateCurrency.AddsUsdEverywhere | lib/migrate-currency.js:20-25 | a run adds `currency` and sets it to `USD` in every row, keeping all other values |
| MigrateCurrency.Idempotent | lib/migrate-currency.js:12-25 | running twice leaves the same state as running once |
| MigrateCurrency.FailureExitsWithOne | lib/migrate-currency.js:29-32 | a throw exits with 1, before or after the column was added |
| MigrateCurrency.Migrate | lib/migrate-currency.js:5-33 | the script's exit code and table are the ones the migration function gives |

## Left out

- Middleware.LocaleFromRequest: requires every header weight to be digits with at most three
  decimals (`Middleware.WellFormedHeader`). Weights are modelled as whole thousandths. A weight
  that `parseFloat` reads as `NaN`, or rounds, would make the sort comparator inconsistent, and
  the resulting order is engine-defined.
- Middleware.Decide: the same requirement on the header, for paths that are neither public nor
  localized.
- Middleware.Handle: the same requirement on the header. The redirect URL is the path plus the
  query; the origin the `URL` constructor adds is left out.
- Middleware.HeaderNegotiation: the same requirement on the header.
- `toLowerCase` and `trim` are modelled on ASCII letters and the common white-space characters.
  Unicode case mapping is left out.
- TourCard.Truncate: counts a string's length in Unicode scalar values. JavaScript's `length`
  and `substring` count UTF-16 code units, so text with a character beyond U+FFFF (an emoji) is
  cut at a different place, and JavaScript can cut such a character in half.
- TourSearch.UniqueLocations: orders strings by Unicode scalar value. The default order of
  JavaScript's `sort` compares UTF-16 code units, which differs for characters beyond U+FFFF.
- Tour prices are integers. JavaScript compares whatever number or string the row holds.
- The duration filter's regular expressions are written out as the substring and ordering
  tests they perform, with their overlaps. No lemma is stated about which bucket a duration
  falls in.
- `getLocalizedField`, `replaceLocaleInPath`, `locales`, `localeConfig` and the dictionary
  loader: `lib/i18n` is not part of this model. They are function or sequence parameters.
- Rendering: all JSX, including the popup's and the gallery's `return null` when hidden.
- Timers: the popup's `setTimeout` delays (500 ms and 300 ms) are collapsed to their elapsed
  effect.
- TourReviews.ReviewForm.Send: gives the form state when the handler returns. The 3 s timer
  that then clears the success message is left out, and so is the same message in `Submit`.
- React effect scheduling, `Promise.all` and the async interleaving of requests are left out.
  The two statements of the announcement routes are not a transaction;
  `AnnouncementCreate.FailedActiveInsertLeavesNoneActive` shows what a failure between them
  leaves.
- Review listing, `averageRating` (floating-point division) and the re-fetches after a
  submission are left out. The `/api/reviews/translate` route is not part of this model; its
  result is an input.
- Currency conversion (`components/CurrencyProvider.js`) is floating-point formatting and is
  left out.
- `revalidatePath`, `console` output, `encodeURIComponent` and the WhatsApp URL are left out.
- bcrypt is the `matches` parameter. Iron-session sealing and the cookie options are left out.
  `session.save()` is the assignment of the session record.
- The SQL engine is modelled only as far as these statements need. Id comparison uses integer
  affinity (`Sql.KeyOf`), and a double-quoted `"USD"` reads as a string. Statement text and
  other SQL are left out.
- Sql.KeyOf: a string id equals a row id only when it is a plain string of decimal digits.
  SQLite's numeric affinity also converts `'5.0'`, `'+5'`, `' 5'`, `'5e0'` and negative
  strings, so a route given such a string changes row 5 in SQLite but no row in the model.
- `lib/init-db.js`, `lib/migrate-announcements-popup.js`, `lib/turso.js` and `lib/db.js` are
  not part of this model.
- ImageGallery.Gallery.Open: does not check that the index is below the image count. The
  component does not check it either; only the buttons of existing thumbnails call it.

## Findings

| source | as written | input that shows it | evidently intended | confidence | as-written member | corrected member |
|---|---|---|---|---|---|---|
| app/auth/callback/route.js:10 | `lang` from the query is used unchecked in the redirect path | `?lang=/evil.example` gives the path `//evil.example`, which the URL constructor reads as another host | redirect only to a supported locale, `en` otherwise | medium, not executed | AuthCallback.UncheckedLangLeavesSite | AuthCallback.CheckedRedirectStaysOnSite |
| lib/migrate-multilingual.js:41 | the SELECT omits `title_en` (and line 75 omits `message_en`), so the guard `!tour.title_en` is always true | a `title_en` that differs from `title` (edited by hand after the first run) is overwritten by the next run | a non-empty English column is never overwritten | high, not executed | MigrateMultilingual.RerunOverwritesEnglishTitle | MigrateMultilingual.FixedGuardKeepsEnglishTitle |
