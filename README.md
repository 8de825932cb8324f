# Remove Black Bars (GBM): a Dafny model

This project models the core of the Kodi service add-on
`service.remove.black.bars.gbm`. While a video plays, the add-on works out the
video's original aspect ratio in hundredths (235 for 2.35:1). It tries four
sources in priority order:

1. its own ratio cache;
2. a scrape of IMDb;
3. Kodi's own metadata (the `VideoPlayer.VideoAspect` label, then the JSON-RPC
   stream details);
4. the file itself.

It then zooms the picture by `ratio / 177` through a JSON-RPC `SetViewMode`
request, so that a film wider than 16:9 fills the screen. A gate decides whether
a zoom request is sent: the same ratio is not applied twice, zoom changes come
at least 500 ms apart, and only fullscreen video playback is zoomed.

The modules follow the program:

| module | file | models |
|---|---|---|
| `Wrappers` | wrappers.dfy | `Option` for Python's `None`; Python's truth test on an optional ratio |
| `Strings` | strings.dfy | the `str` methods the add-on uses (`strip`, `split`, `rsplit`, `replace`, `lower`, `startswith`, `isdigit`, `in`) |
| `Numbers` | numbers.dfy | `str(n)`, `int(text)`, `float(text)` over exact reals, `int(x)` of a float, and the rounding `int((x + 0.005) * 100)` |
| `Imdb` | imdb.dfy | imdb.py: `_parse_aspect_ratio`, and `getOriginalAspectRatio` over the pages it fetches |
| `Zoom` | zoom.dfy | addon.py:303-368, `ZoomApplier`: the zoom and the gate, as a class updated in place |
| `Cache` | cache.dfy | addon.py:181-276, `JsonCacheProvider`: keys, and the map updated in place |
| `Providers` | providers.dfy | addon.py:72-300, `is_local_file`, `KodiMetadataProvider`, `FileMetadataProvider`, `IMDbProvider` |
| `Addon` | service.dfy | addon.py:371-594, `Service`: settings, title and year, ratio detection, and the playback handlers |

## How the model is built

- **Pure code becomes functions, proved by lemmas.** Parsing, key building and
  source selection are written this way.
- **Objects become classes.** `ZoomApplier`, `JsonCacheProvider` and `Service`
  keep the fields their methods update in place. Each method's `ensures` ties
  the new state to a function of the old one (`Zoom.ApplyStep`,
  `Addon.AvStarted`, and so on). The lemmas are stated about those functions.
- **Loops become methods.** The result loops of addon.py:173-178 and 508-512
  and the entry loop of imdb.py:298-333 are methods with loop invariants. Each
  is proved equal to the function that specifies it.
- **The host is a parameter.** Everything the add-on asks Kodi or the network
  is a field of `Addon.Host`:
  - the player state and window id;
  - the info tag and the info labels;
  - the settings;
  - the clock;
  - `os.path.exists`;
  - the IMDb pages;
  - whether the JSON-RPC request and the notification return normally.

  The state the service changes is gathered in `Addon.ServiceState`:
  - the zoom gate;
  - the cache map;
  - the `removeblackbars_status` window property;
  - every `SetViewMode` zoom sent;
  - every notification asked for.
- **Python's falsy values are explicit.** `None`, `""` and `0` are written as
  `None`, `""` and `0`, and each `if x:` test is spelled out.
  `Wrappers.Truthy` is the truth test on an optional ratio.

### Behaviour of the code that the model keeps

- **The scraper runs even on a cache hit.** With the IMDb fallback on, the
  scraper is asked even when the cache already has a ratio, and its answer
  overwrites the cached entry. The cached value is still what is returned
  (`Addon.CacheHitStillOverwritten`).
- **The cache has no off switch in memory.** The `enable_cache` setting only
  decides whether the JSON file is loaded and written. The in-memory map is read
  and updated either way.
- **The file never decides.** File metadata is never available, because
  `extract_from_file` always returns `None`. The file source therefore never
  decides the ratio (`Addon.FileSource`, `Addon.DetectionPriority`).
- **Two prefixing rules meet.** The IMDb number from Kodi gets a "tt" prefix
  only when it is made of digits (addon.py:442-443). The scraper then adds "tt"
  to any id that lacks it (imdb.py:109-114). The two rules agree on every URL
  built (`Addon.PrefixAgreesWithScraper`).
- **Title keys and id keys share one space.** A title key shares the key space
  with the `imdb:` keys, so a title that reads `imdb:tt…` collides with an id key.
- **Stored ratios are not checked.** `store` accepts any integer ratio.
- **A failed notification after a commit.** When the zoom notification raises,
  `apply_zoom` returns `False` although the gate has already committed the new
  ratio (`Zoom.AppliedAndNotified`).
- **The second branch at imdb.py:195 tests a rewritten link but extracts from
  the original one**, exactly as the first branch does.
- **The tests describe another revision.** The tests shipped with the
  repository exercise a later revision of addon.py, with helpers such as
  `_validate_ratio` and ratio ranges. Where they and the code disagree, the
  model follows the code of addon.py and imdb.py as written.

## Model

| member | source | states |
|---|---|---|
| Wrappers.Truthy | addon.py:454 | Python's `if ratio:` on an optional ratio: a value survives exactly when it is present and non-zero, and then unchanged |
| Strings.StripIdempotent | addon.py:257 | `strip()` applied twice is `strip()` applied once |
| Strings.StripLowerSameUpToCase | addon.py:257 | `strip().lower()` gives the same key for two spellings that differ only in ASCII letter case |
| Strings.ReplaceHead | imdb.py:206 | `replace(p, q)` of a text that starts with `p` puts `q` there and replaces on in the rest |
| Strings.ReplaceAroundChar | imdb.py:206 | a character that `p` does not hold splits `replace(p, q)` into the replacements on either side of it |
| Strings.FirstWordOfStrip | imdb.py:40-42 | after `strip()`, `split()[0]` of a word followed by whitespace-led text is that word |
| Strings.SplitOnOnce | imdb.py:46 | `(a + ":" + b).split(":")` is `[a, b]` when neither side holds a colon |
| Strings.BeforeLastAfter | addon.py:424 | `rsplit(".", 1)[0]` of `a + "." + b` is `a` when `b` holds no dot |
| Strings.AfterLastCharAfter | addon.py:424 | the base name of `dir + "/" + file` is `file` when `file` holds no `/` |
| Numbers.ParseInt | addon.py:297 | `int(text)`: surrounding whitespace, an optional sign and at least one ASCII digit, `None` for a `ValueError`; `ParseIntToString` shows it reads back every `str(n)` |
| Numbers.ParseDecimal | imdb.py:49-50 | `float(text)` on plain decimal text, read as an exact real, `None` for a `ValueError`; `ParseDecimalFraction` pins its value on "N.F" |
| Numbers.ParseIntToString | addon.py:297 | `int(str(n)) == n` for every integer `n` |
| Numbers.Trunc | addon.py:104 | `int(x)` truncates toward zero: the floor for non-negative `x`, within 1 of `x`, sign kept |
| Numbers.RatioInt | addon.py:104 | `int((x + 0.005) * 100)` is `100x` rounded half up for `x >= -0.005`, and rounded half down below that, where `int` truncates toward zero |
| Numbers.RatioIntTwoDecimals | addon.py:104 | `int((x + 0.005) * 100)` of a decimal with at most two fractional digits is exactly its hundredths |
| Numbers.RatioIntOfQuotient | imdb.py:52-53 | `int((w / h + 0.005) * 100)` equals `(200w + h) div 2h`, the quotient in hundredths rounded half up |
| Numbers.ParseDecimalFraction | imdb.py:49-50 | `float("N.F")` reads the digits `N.F` as the exact decimal value |
| Imdb.ParseAspectRatio | imdb.py:29-65 | `_parse_aspect_ratio`: the first word of the text read as "W:H" or as a decimal, in rounded hundredths; characterised by `ReadsFirstWord`, `ColonForm`, `ColonFormTooManyParts`, `ColonOfWholeNumbers`, `DecimalForm`, `DecimalOfTwoDigits` and `BlankText` |
| Imdb.Quotient | imdb.py:48-55 | a colon form parses exactly when both sides are numbers and the denominator is positive; then it is the quotient in hundredths rounded half up for a non-negative numerator (half down for a quotient at or below -0.005) |
| Imdb.ReadsFirstWord | imdb.py:40-42 | only the first whitespace-separated word of the text is read; what follows is ignored |
| Imdb.ColonWord | imdb.py:44-53 | a word with one colon is read as the quotient of its two sides |
| Imdb.QuotientOfWords | imdb.py:46-53 | two parts around the colon give the quotient of their parsed values |
| Imdb.ColonForm | imdb.py:40-55 | "A:B" followed by whitespace-led text parses to the quotient of A and B, or `None` when either is not a number or B is not positive |
| Imdb.DecimalForm | imdb.py:56-62 | a colon-free word parses to its rounded hundredths exactly when `float` accepts it |
| Imdb.ColonFormTooManyParts | imdb.py:46-47 | a word with two colons gives `None` |
| Imdb.ColonOfWholeNumbers | imdb.py:44-55 | "W:H" of whole numbers gives `(200W + H) div 2H` for H > 0 and `None` for H = 0; "16:9" gives 178 |
| Imdb.DecimalOfTwoDigits | imdb.py:56-60 | "N.FF" (then whitespace-led text) gives exactly `100N + FF`: "2.35" gives 235, "1.85 : 1" gives 185 |
| Imdb.DecimalToken | imdb.py:57-60 | the word "N.F" reads as the rounded hundredths of N.F |
| Imdb.BlankText | imdb.py:35-42 | an empty or whitespace-only text gives `None` |
| Imdb.NormalizeImdbId | imdb.py:106-114 | the id used in URLs always starts with "tt"; an id that already does is kept, anything else gets "tt" in front |
| Imdb.NormalizeImdbIdIdempotent | imdb.py:269-276 | normalising a normalised id changes nothing, so the title and technical URLs use the same id |
| Imdb.HrefImdbNumber | imdb.py:192-199 | the number taken from a search link holds neither '/' nor '?', and is the segment after the last "/title/" when the link has one |
| Imdb.TitlePath | imdb.py:203-215 | for every link, the title-page path starts and ends with '/' and holds no query |
| Imdb.NormalizeTitleUrl | imdb.py:203-215 | the step-by-step normalisation equals `TitlePath` and so starts and ends with '/' without a query |
| Imdb.TitlePathOfLink | imdb.py:203-215 | a search link "/title/<id>/?<query>" with no prefix, a "/fr" or an "/en" prefix becomes "/title/<id>/": prefix and query dropped, id kept |
| Imdb.HrefNumberOfLink | imdb.py:192-198 | the IMDb number extracted from such a link (its query holding no '/') is exactly `id` |
| Imdb.TitlePathOfQueryFreeLink | imdb.py:203-215 | a link "/title/<id>/" without a query, with no prefix, a "/fr" or an "/en" prefix, also becomes "/title/<id>/" |
| Imdb.TitlePathOfNormalPath | imdb.py:203-215 | an already-normal path without language prefix is left unchanged |
| Imdb.EntryRatio | imdb.py:300-313 | an entry contributes a ratio only when it has content that parses to a non-zero ratio, and then that ratio |
| Imdb.SelectRatios | imdb.py:298-333 | the choice among the technical page's entries: the first surviving theatrical ratio alone, else every surviving ratio in order; characterised by `SelectWithoutTheatrical` and `SelectFirstTheatrical`, and computed by the loop `SelectAspectRatios` |
| Imdb.SelectWithoutTheatrical | imdb.py:298-333 | without a surviving "(theatrical ratio)" entry, the result is every surviving ratio in document order |
| Imdb.SelectFirstTheatrical | imdb.py:315-326 | the first surviving theatrical entry's ratio is returned alone, whatever follows it |
| Imdb.SelectFirstTheatricalFrom | imdb.py:300-326 | the same from any starting entry up to the theatrical one |
| Imdb.SelectRatiosStep | imdb.py:300-328 | one turn of the entry loop: skip, return the theatrical ratio, or add the ratio before the rest |
| Imdb.PrependAllPrepend | imdb.py:328 | appending a ratio to the collected list commutes with selecting the rest |
| Imdb.SelectAspectRatios | imdb.py:298-333 | the entry loop with its `continue`s and early return computes `SelectRatios` |
| Imdb.Locate | imdb.py:106-228 | a given number goes straight to `TitleUrl(number)` with that number; without one, a page is located exactly when there is a title and the search page has a non-empty first link holding a number, and it is `BaseUrl` + `TitlePath` of that link, with the link's number; a located page always comes with a non-empty number |
| Imdb.SearchLinkLocatesTitle | imdb.py:106-215 | a search whose first link is "<prefix>/title/<id>/?<query>" locates `TitleUrl(id)` and `id`, the same as a lookup by the number `id` |
| Imdb.MainRatio | imdb.py:243-262 | a title-page ratio is present only when the aspect item has text that parses to a non-zero ratio, and is that ratio |
| Imdb.LocateTitlePage | imdb.py:106-231 | the number-or-search stage computes `Locate`: a number goes straight to its title URL; without a title, search page, link or number in the link it stops |
| Imdb.TechnicalFallback | imdb.py:266-344 | the technical-page fallback: nothing without the page, its aspect-ratio container or more than one entry, else `SelectRatios` of the entries; computed by `FetchTechnicalRatios`, used by `RatiosOnlyFromTechnicalPage` |
| Imdb.OriginalAspectRatio | imdb.py:88-352 | `getOriginalAspectRatio` over the fetched pages: `Locate`, then the title page's ratio, else the technical fallback; characterised by `NoNumberNoTitle`, `NumberWinsOverTitle`, `MainRatioWins`, `RatiosOnlyFromTechnicalPage` and `OriginalAspectRatioTexts`, and computed by `GetOriginalAspectRatio` |
| Imdb.FetchTechnicalRatios | imdb.py:266-344 | the technical fallback computes `TechnicalFallback`: nothing without the page, the container or more than one entry |
| Imdb.GetOriginalAspectRatio | imdb.py:88-352 | the whole scraper computes `OriginalAspectRatio` over the fetched pages |
| Imdb.RatioTextOf | imdb.py:258 | `str(n)` of a non-zero `n` is a ratio text that `int()` reads back as `n` |
| Imdb.SelectRatiosTexts | imdb.py:315-333 | the entry selection only yields ratio texts |
| Imdb.SelectRatiosTextsFrom | imdb.py:300-333 | the same for the entries from any index on |
| Imdb.PrependTexts | imdb.py:328 | adding a ratio text to a list of ratio texts keeps it a list of ratio texts |
| Imdb.OriginalAspectRatioTexts | imdb.py:88-352 | every text `getOriginalAspectRatio` returns is `str(n)` of a non-zero `n` |
| Imdb.NoNumberNoTitle | imdb.py:117-120 | with neither an IMDb number nor a title there is no ratio |
| Imdb.NumberWinsOverTitle | imdb.py:106-115 | with an IMDb number the title does not matter |
| Imdb.MainRatioWins | imdb.py:247-266 | a ratio on the title page is returned as it is, without the technical page |
| Imdb.RatiosOnlyFromTechnicalPage | imdb.py:266-333 | a list result only comes from a technical page with more than one entry, after the title page had no ratio |
| Zoom.CalculateZoom | addon.py:326-329 | the zoom is at least 1, exactly 1 for ratios up to 177, and `ratio / 177` above |
| Zoom.ApplyStep | addon.py:331-368 | `apply_zoom` on the gate: the same-ratio, rate-limit and fullscreen checks, the request, the commit and the notification; characterised by `GateUpdate`, `RequestSent`, `AppliedAndNotified`, `SameRatioSkipped`, `RateLimited`, `NotFullscreenSkipped`, `FailedRequestKeepsGate`, `RepeatSkipped` and `RateLimitAfterCommit`, and computed by `ZoomApplier.ApplyZoom` |
| Zoom.GateUpdate | addon.py:331-363 | the gate moves to the current time and ratio exactly when all checks pass and the request returns normally; otherwise it is unchanged |
| Zoom.RequestSent | addon.py:333-358 | a SetViewMode request is made exactly when the same-ratio, rate-limit and fullscreen checks pass, and carries the calculated zoom |
| Zoom.AppliedAndNotified | addon.py:354-366 | a notification is asked for exactly on a commit of a ratio wider than 16:9; `True` is returned exactly on a commit whose notification, if any, does not raise |
| Zoom.SameRatioSkipped | addon.py:333-336 | the ratio already applied is skipped with no request and no change |
| Zoom.RateLimited | addon.py:338-341 | within 500 ms of the last zoom nothing happens |
| Zoom.NotFullscreenSkipped | addon.py:308-324 | outside fullscreen video playback nothing happens |
| Zoom.FailedRequestKeepsGate | addon.py:345-368 | a SetViewMode request that raises returns `False` and leaves the gate as it was |
| Zoom.RepeatSkipped | addon.py:333-363 | once a ratio is committed, applying it again does nothing, at any time |
| Zoom.RateLimitAfterCommit | addon.py:337-363 | after a commit no ratio gets through for the next 500 ms |
| Zoom.InitialGateRateLimited | addon.py:304-306 | with the initial zoom time of 0, calls in the clock's first 500 ms are rate limited |
| Zoom.ZoomApplier.constructor | addon.py:304-306 | a new applier has last zoom time 0 and no applied ratio |
| Zoom.ZoomApplier.ApplyZoom | addon.py:331-368 | `apply_zoom` returns, sends and leaves the fields as `ApplyStep` of the old fields says |
| Cache.MakeKey | addon.py:254-260 | `_make_key`: "imdb:" and the id when there is one, else the stripped, lower-cased title with " (year)" for a non-zero year; characterised by `IdKeyIgnoresTitleAndYear`, `IdKeysApart`, `TitleKeyCaseInsensitive`, `TitleKeyIgnoresOuterSpace` and `YearsKeepKeysApart` |
| Cache.IdKeyIgnoresTitleAndYear | addon.py:254-256 | with an IMDb id the key depends on the id alone |
| Cache.IdKeysApart | addon.py:255-256 | different IMDb ids give different keys |
| Cache.TitleKeyCaseInsensitive | addon.py:257 | title keys ignore ASCII letter case |
| Cache.TitleKeyIgnoresOuterSpace | addon.py:257 | title keys ignore surrounding whitespace |
| Cache.YearsKeepKeysApart | addon.py:258-259 | a title in two different (non-zero) years gives two keys |
| Cache.Lookup | addon.py:265-266 | a get finds a value exactly when the key is in the map, and returns that value |
| Cache.GetAfterStore | addon.py:262-274 | a get with the arguments of a store returns the stored ratio |
| Cache.GetByIdAfterStore | addon.py:262-274 | a ratio stored under an IMDb id is found with any title and year |
| Cache.GetOtherCaseAfterStore | addon.py:257-273 | a ratio stored under a title is found with the title in another ASCII letter case |
| Cache.StoreOverwrites | addon.py:273 | a second store under the same key replaces the first |
| Cache.StoreKeepsOtherKeys | addon.py:273 | a store leaves every other key as it was |
| Cache.StoreOtherYearKeepsEntry | addon.py:258-273 | storing a title for one year leaves the entry for another year alone |
| Cache.RatioCache.constructor | addon.py:182-192 | the map is the loaded file when enabled with a path and empty otherwise; without a path the cache is disabled |
| Cache.RatioCache.Get | addon.py:262-268 | `get` is `Lookup` of the key `_make_key` builds |
| Cache.RatioCache.Store | addon.py:270-276 | `store` sets the key to the ratio and changes nothing else |
| Cache.RatioCache.Clear | addon.py:241-252 | `clear` always empties the map and returns `True` only when there is a path whose file exists and is removed without error |
| Providers.IsLocalFile | addon.py:72-82 | a local file is a non-empty, non-remote, existing path that is absolute (or holds ':' on Windows) |
| Providers.AbsolutePathLocalIffExists | addon.py:72-82 | an absolute POSIX path is local exactly when it exists |
| Providers.RemoteNeverLocal | addon.py:75-76 | http, https, smb, nfs and ftp URLs are never local |
| Providers.RelativeNeverLocal | addon.py:77-82 | outside Windows a path not starting with '/' is never local |
| Providers.FirstSome | addon.py:173-178 | the result is `None` exactly when every result is, and otherwise the first present one |
| Providers.FirstSomeFrom | addon.py:508-516 | the same from any index on |
| Providers.FirstNonNone | addon.py:508-516 | the loop over the results returns `FirstSome` of them |
| Providers.FirstSomeOfTwo | addon.py:173-178 | of two results, the first is taken when present |
| Providers.FirstSomeOfFour | addon.py:508-513 | of four results, the first present one is taken, in order |
| Providers.KodiRatio | addon.py:86-178 | the label's ratio when it has one, else the JSON-RPC ratio |
| Providers.GetKodiAspectRatio | addon.py:91-178 | collecting both results and returning the first non-`None` computes `KodiRatio` |
| Providers.LabelRatio | addon.py:93-115 | the ratio read from the `VideoPlayer.VideoAspect` label: `None` for an empty or unresolved label or one that does not clean to a number, else its rounded hundredths; characterised by `LabelOfCleanDecimal`, `LabelWithArSuffix`, `LabelWithColon` and the two label examples |
| Providers.DecimalWordText | addon.py:101 | "N.F" holds no whitespace, no 'A' and no ':' |
| Providers.CleanDecimalRatio | addon.py:101-104 | a cleaned "N.FF" reads as exactly `100N + FF` |
| Providers.LabelOfCleanDecimal | addon.py:98-106 | a label that is not empty, not the label name, and cleans to "N.F" reads as the rounded hundredths of N.F |
| Providers.ArSuffixRemoved | addon.py:101 | removing "AR" from a text without 'A' followed by "AR" gives the text |
| Providers.LabelWithArSuffix | addon.py:99-106 | a label "N.FFAR" reads as `100N + FF` |
| Providers.ColonCut | addon.py:101 | removing "AR" and cutting at the first ':' keeps the part before the colon |
| Providers.LabelWithColon | addon.py:99-106 | a label "N.F:rest" reads as the rounded hundredths of N.F |
| Providers.ArLabelExample | addon.py:99-106 | "1.85AR" reads as 185 |
| Providers.ColonLabelExample | addon.py:99-106 | "2.35:1" reads as 235 |
| Providers.ImdbRatio | addon.py:289-300 | `IMDbProvider.get_aspect_ratio`: `int()` of the scraper's text or of the first text of its list; characterised by `ImdbRatioOfScraped` and `ImdbRatioOfList` |
| Providers.ImdbRatioOfScraped | addon.py:289-300 | the provider yields a ratio exactly when the scraper returned a text (the single one or the first of the list), and that ratio is non-zero and spells the text |
| Providers.ImdbRatioOfList | addon.py:293-297 | a list result is read as its first ratio |
| Addon.ReadSettings | addon.py:393-401 | `_read_settings`: automatic execution (on when reading raises) and the IMDb fallback (off when reading raises), each on only for "true"; characterised by `SettingDefaults` |
| Addon.CacheEnabled | addon.py:403-407 | `_get_cache_enabled`: on for "true" and when reading raises; characterised by `SettingDefaults` |
| Addon.SettingDefaults | addon.py:393-408 | automatic execution and the cache default to on, the IMDb fallback to off; only "true" turns a setting on |
| Addon.FileTitle | addon.py:424 | the title taken from a path holds no '/' |
| Addon.FileTitleOf | addon.py:424 | the file `dir/name.ext` is titled `name`, dots inside it included |
| Addon.TitleYear | addon.py:410-427 | the year is always the tag's year |
| Addon.EpisodeUsesShowTitle | addon.py:415-417 | an episode is looked up by its show title, even an empty one |
| Addon.TitleBeforeOriginalTitle | addon.py:419 | a non-episode uses its title, else its original title |
| Addon.UntitledUsesFileName | addon.py:421-424 | an untitled non-episode playing `dir/name.ext` is looked up as `name` |
| Addon.PrefixImdbNumber | addon.py:442-443 | a number made only of ASCII digits gets "tt" in front; anything else is kept |
| Addon.PrefixAgreesWithScraper | addon.py:440-443 | the prefixed number gives the scraper the same id as the number as read, and is empty only when that is |
| Addon.Detect | addon.py:429-519 | `_detect_aspect_ratio`: nothing without a playing video or an info tag, else the first of cache, scraper, Kodi and file to have a ratio, with the scraper's ratio written to the cache under the lookup key; characterised by `DetectionPriority`, `DetectedRatioNonZero`, `NothingWithoutVideo`, `CacheHitWins`, `FallbackOffUsesKodi`, `NoSourceNoRatio`, `ImdbWriteThrough`, `SecondDetectionHitsCache` and `CacheHitStillOverwritten`, and computed by `Service.DetectAspectRatio` |
| Addon.CachedSource | addon.py:450-459 | a cached ratio is consulted only with the IMDb fallback on, and is never 0 |
| Addon.ImdbSource | addon.py:461-471 | the scraper's ratio is consulted only with the IMDb fallback on, and is never 0 |
| Addon.KodiSource | addon.py:478-485 | Kodi's ratio as used is never 0 |
| Addon.FileSource | addon.py:488-503 | the file source never has a ratio |
| Addon.DetectedRatioNonZero | addon.py:429-516 | a detected ratio is never 0 |
| Addon.NothingWithoutVideo | addon.py:431-437 | without a playing video or an info tag nothing is detected and the cache is untouched |
| Addon.DetectionPriority | addon.py:508-516 | the detected ratio is the cache's if present, else the scraper's, else Kodi's |
| Addon.CacheHitWins | addon.py:450-456 | a non-zero cached ratio is the answer, whatever the other sources say |
| Addon.FallbackOffUsesKodi | addon.py:472-485 | with the IMDb fallback off the cache is untouched and the answer is Kodi's |
| Addon.NoSourceNoRatio | addon.py:515-516 | when no source has a ratio, nothing is detected |
| Addon.ImdbWriteThrough | addon.py:463-468 | the scraper's ratio is stored under the key the lookup used, no other key changes, and without it the map is untouched |
| Addon.SecondDetectionHitsCache | addon.py:450-468 | a second detection of the same item finds the first scrape's ratio in the cache |
| Addon.CacheHitStillOverwritten | addon.py:450-468 | on a cache hit the scraper is still asked and overwrites the entry, while the cached value is returned |
| Addon.ApplyZoomState | addon.py:545-546 | `apply_zoom(ratio, self)` on the service state: `ApplyStep` on the gate, with the zoom sent and the notice asked for appended; computed by `Service.ApplyDetectedRatio` |
| Addon.AvStarted | addon.py:531-550 | `on_av_started`: the applied ratio forgotten, then the original view when automatic execution is off, else status "on", detection and the zoom of a detected ratio; characterised by `DisabledShowsOriginal`, `SameRatioAppliedAgainOnStart`, `RateLimitOutlivesStop` and `StartCommitsDetectedRatio`, and computed by `Service.OnAvStarted` |
| Addon.PlaybackStopped | addon.py:564-576 | `onPlayBackStopped` and `onPlayBackEnded`: status "off" and the applied ratio forgotten; characterised by `StopKeepsZoomTime` and `RateLimitOutlivesStop` |
| Addon.ShowOriginalState | addon.py:578-594 | showing the original view sets the status "off", sends zoom 1.0, notifies when the request returns normally, and keeps the gate and cache |
| Addon.StopKeepsZoomTime | addon.py:564-576 | stopping sets the status "off" and forgets the applied ratio, keeping the time of the last zoom and everything else |
| Addon.DisabledShowsOriginal | addon.py:536-541 | with automatic execution off, a start shows the original view and neither detects nor zooms |
| Addon.SameRatioAppliedAgainOnStart | addon.py:534-546 | a start forgets the previous ratio, so the same ratio detected for a new video is zoomed again |
| Addon.RateLimitOutlivesStop | addon.py:531-576 | a start within 500 ms of the last zoom sends nothing, even after a stop in between |
| Addon.StartCommitsDetectedRatio | addon.py:542-546 | a start that zooms commits the detected ratio at the current time, sends its zoom and notifies for ratios wider than 16:9 |
| Addon.Service.constructor | addon.py:372-381 | a new service has a fresh gate and a cache enabled by `enable_cache` and holding what was loaded |
| Addon.Service.DetectAspectRatio | addon.py:429-519 | the detection method returns the ratio and leaves the cache as `Detect` says |
| Addon.Service.ShowOriginal | addon.py:578-594 | `show_original` changes the state as `ShowOriginalState` says |
| Addon.Service.OnAvStarted | addon.py:531-550 | `on_av_started` changes the state as `AvStarted` says |
| Addon.Service.ApplyDetectedRatio | addon.py:545-546 | applying a ratio changes the gate, requests and notifications as `apply_zoom` does |
| Addon.Service.OnPlayBackStopped | addon.py:564-569 | the status goes "off" and the applied ratio is forgotten |
| Addon.Service.OnPlayBackEnded | addon.py:571-576 | the status goes "off" and the applied ratio is forgotten |

## Left out

- HTTP and HTML are not modelled: `_fetch_with_retry`, `requests` and BeautifulSoup are outside the model. A fetched page is an abstract `Imdb.Page` holding what the searches find. The two search strategies of imdb.py:137-187 are collapsed into the one link they yield.
- Addon.Host.jsonRpcRatio: the JSON-RPC `Player.GetItem` request and the walk through its JSON answer (addon.py:117-167) are reduced to the ratio they yield or `None`.
- The cache file is not modelled: `get_writable_cache_path`, `translate_profile_path`, `_ensure_dir`, `_load` and `_save` touch only the file. What `_load` reads is a parameter, with every value assumed to be an integer.
- Floating point: `float` is read as exact rational arithmetic. Exponents, `inf`, `nan`, underscores and Unicode digits are not accepted, and IEEE rounding is not modelled. Results can therefore differ by one hundredth where the double nearest a value ending in 5 thousandths lies below it: "71:40" gives 178 in the model, while in IEEE double arithmetic `int((71 / 40 + 0.005) * 100)` is 177.
- Strings.Lower, Strings.IsDigits: ASCII only. `lower()` folds only A-Z and `isdigit()` accepts only 0-9, so titles that differ in non-ASCII letter case get different cache keys in the model, and a number written in non-ASCII digits is not given the "tt" prefix.
- Imdb.TitlePathOfLink, Imdb.TitlePathOfQueryFreeLink, Imdb.HrefNumberOfLink, Imdb.SearchLinkLocatesTitle: stated for ids that start with "tt" and hold no '/' or '?'. Other links are covered only by the shape guarantees of `TitlePath` and `HrefImdbNumber`; a link whose id is "title", say, holds a second "/title/" and yields no number.
- Addon.FileTitle: `os.path.basename` follows POSIX. The Windows separator `\` is not modelled.
- Exceptions raised by the player or info-tag queries, and the catch-all handlers around them, are not modelled. Only the JSON-RPC requests, the notification, reading a setting and removing the cache file may raise in the model.
- Logging (`xbmc.log`) and the text and duration of notifications are not modelled. A notice records that a notification was asked for, and which zoom it reports.
- The window property is not modelled beyond the status string the service sets.
- The clock is `Host.nowMs`: it stands for `time.time()` in milliseconds.
- `main`, `clear_cache` with its dialogs, and the "toggle" argument of `Service()` (addon.py:384-388, 597-632) are not modelled: they are entry points that only call the modelled operations.
- `on_av_change` is not modelled, because `onAVChange` never calls it (addon.py:525-529).
- Providers.LabelWithColon: states the value as the rounded hundredths of N.F and not in closed form, because a fraction may have more than two digits there.
