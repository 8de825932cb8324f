/**
 * The `Service` player of addon.py (371-576): reading the settings, the title
 * and year of the playing item, the choice of a ratio among the IMDb cache,
 * the IMDb scraper, Kodi's own metadata and the file (429-519), and the
 * playback handlers that reset the zoom gate and apply the zoom (531-576).
 *
 * Everything the service asks Kodi is a field of `Host`: the player flags and
 * window, the info tag, the info labels, the settings, the clock, the file
 * system, the pages the scraper would fetch, and whether the JSON-RPC request
 * and the notification return normally. What the service changes (the zoom
 * gate, the cache map, the status window property, the SetViewMode requests
 * and the notifications asked for) is gathered in `ServiceState`.
 */
module Addon {
  import opened Wrappers
  import opened Strings
  import opened Numbers
  import opened Imdb
  import opened Zoom
  import opened Cache
  import opened Providers

  // ---------------------------------------------------------------------------
  // Settings

  /** The three add-on settings as `getSetting` returns them; `None` where the
      call raises. */
  datatype Settings = Settings(
    automaticallyExecute: Option<string>,
    enableImdbFallback: Option<string>,
    enableCache: Option<string>)

  /** A boolean setting: the text "true", or `onError` when reading it raises. */
  function SettingIs(value: Option<string>, onError: bool): (b: bool)
    ensures value.None? ==> b == onError
    ensures value.Some? ==> (b <==> value.value == "true")
  {
    match value
    case None => onError
    case Some(v) => v == "true"
  }

  /** `_read_settings()`: automatic execution (on when the setting cannot be
      read) and the IMDb fallback (off when it cannot be read). */
  function ReadSettings(s: Settings): (bool, bool) {
    (SettingIs(s.automaticallyExecute, true), SettingIs(s.enableImdbFallback, false))
  }

  /** `_get_cache_enabled()`: on when the setting cannot be read. */
  function CacheEnabled(s: Settings): bool {
    SettingIs(s.enableCache, true)
  }

  /** Only the exact text "true" turns a setting on; a setting that cannot be
      read leaves automatic execution and the cache on and the IMDb fallback off. */
  lemma SettingDefaults(s: Settings)
    ensures ReadSettings(s).0 <==> s.automaticallyExecute.None? || s.automaticallyExecute == Some("true")
    ensures ReadSettings(s).1 <==> s.enableImdbFallback == Some("true")
    ensures CacheEnabled(s) <==> s.enableCache.None? || s.enableCache == Some("true")
  {
  }

  // ---------------------------------------------------------------------------
  // Title and year of the playing item

  /** What `getVideoInfoTag()` reports, with an absent text as "" and an
      absent year as 0. */
  datatype VideoInfoTag = VideoInfoTag(
    mediaType: string,
    tvShowTitle: string,
    title: string,
    originalTitle: string,
    year: int,
    filenameAndPath: string)

  /** `os.path.basename(path).rsplit(".", 1)[0]`: the file name without its
      directory and last extension. */
  function FileTitle(path: string): (t: string)
    ensures '/' !in t
  {
    BeforeLast(AfterLastChar(path, '/'), '.')
  }

  /** The file of `dir/name.ext` is titled `name`, dots inside it included. */
  lemma FileTitleOf(dir: string, name: string, ext: string)
    requires '/' !in name && '/' !in ext && '.' !in ext
    ensures FileTitle(dir + ['/'] + name + ['.'] + ext) == name
  {
    var file := name + ['.'] + ext;
    assert '/' !in file;
    assert dir + ['/'] + name + ['.'] + ext == dir + ['/'] + file;
    AfterLastCharAfter(dir, '/', file);
    BeforeLastAfter(name, '.', ext);
  }

  /** `_extract_title_year(tag)`: an episode is looked up by its show; anything
      else by its title, its original title, or else its file name. */
  function TitleYear(tag: VideoInfoTag): (r: (string, int))
    ensures r.1 == tag.year
  {
    if tag.mediaType == "episode" then (tag.tvShowTitle, tag.year)
    else
      var title := if tag.title != [] then tag.title else tag.originalTitle;
      if title == [] && tag.filenameAndPath != [] then (FileTitle(tag.filenameAndPath), tag.year)
      else (title, tag.year)
  }

  /** An episode is looked up by its show title alone, even when that is empty. */
  lemma EpisodeUsesShowTitle(tag: VideoInfoTag)
    requires tag.mediaType == "episode"
    ensures TitleYear(tag) == (tag.tvShowTitle, tag.year)
  {
  }

  /** A non-episode keeps its title, or else its original title. */
  lemma TitleBeforeOriginalTitle(tag: VideoInfoTag)
    requires tag.mediaType != "episode"
    ensures tag.title != [] ==> TitleYear(tag).0 == tag.title
    ensures tag.title == [] && tag.originalTitle != [] ==> TitleYear(tag).0 == tag.originalTitle
  {
  }

  /** An untitled non-episode playing `dir/name.ext` is looked up as `name`. */
  lemma UntitledUsesFileName(tag: VideoInfoTag, dir: string, name: string, ext: string)
    requires tag.mediaType != "episode" && tag.title == [] && tag.originalTitle == []
    requires tag.filenameAndPath == dir + ['/'] + name + ['.'] + ext
    requires '/' !in name && '/' !in ext && '.' !in ext
    ensures TitleYear(tag) == (name, tag.year)
  {
    FileTitleOf(dir, name, ext);
  }

  // ---------------------------------------------------------------------------
  // The IMDb number

  /** addon.py:442-443: a number made only of digits gets the "tt" prefix. */
  function PrefixImdbNumber(number: string): (n: string)
    ensures IsDigits(number) ==> n == "tt" + number
    ensures !IsDigits(number) ==> n == number
  {
    if number != [] && IsDigits(number) then "tt" + number else number
  }

  /** The service's prefixing and the scraper's id normalisation agree: the
      scraper builds the same URLs from the prefixed number as from the number as read. */
  lemma PrefixAgreesWithScraper(number: string)
    ensures NormalizeImdbId(PrefixImdbNumber(number)) == NormalizeImdbId(number)
    ensures PrefixImdbNumber(number) == [] <==> number == []
  {
  }

  // ---------------------------------------------------------------------------
  // Ratio detection

  /** What the host answers during one handler call. */
  datatype Host = Host(
    player: Player,
    infoTag: Option<VideoInfoTag>,
    imdbLabel: string,
    settings: Settings,
    videoAspect: string,
    jsonRpcRatio: Option<int>,
    isWindows: bool,
    pathExists: (string -> bool),
    fetch: (string -> Option<Page>),
    nowMs: int,
    setViewModeOk: bool,
    notifyOk: bool)

  /** What `apply_zoom` meets when the service is the player. */
  function EnvOf(h: Host): Env {
    Env(h.nowMs, h.player, h.setViewModeOk, h.notifyOk)
  }

  /** The cache key of the playing item. */
  function ItemKey(h: Host, tag: VideoInfoTag): string {
    MakeKey(TitleYear(tag).0, TitleYear(tag).1, PrefixImdbNumber(h.imdbLabel))
  }

  function ImdbFallback(h: Host): bool {
    ReadSettings(h.settings).1
  }

  /** 1a) The cached ratio, consulted only with the IMDb fallback on. */
  function CachedSource(h: Host, tag: VideoInfoTag, entries: map<string, int>): (r: Option<int>)
    ensures r.Some? ==> r.value != 0
  {
    if ImdbFallback(h) then Truthy(Lookup(entries, ItemKey(h, tag))) else None
  }

  /** 1b) The scraper's ratio, consulted only with the IMDb fallback on. */
  function ImdbSource(h: Host, tag: VideoInfoTag): (r: Option<int>)
    ensures r.Some? ==> r.value != 0
  {
    if ImdbFallback(h) then
      Truthy(ImdbRatio(OriginalAspectRatio(TitleYear(tag).0, PrefixImdbNumber(h.imdbLabel), h.fetch)))
    else None
  }

  /** 2) Kodi's own metadata. */
  function KodiSource(h: Host): (r: Option<int>)
    ensures r.Some? ==> r.value != 0
  {
    Truthy(KodiRatio(h.videoAspect, h.jsonRpcRatio))
  }

  /** 3) The file's own metadata, read only from a local file. */
  function FileSource(h: Host, tag: VideoInfoTag): (r: Option<int>)
    ensures r == None
  {
    var path := tag.filenameAndPath;
    if IsLocalFile(path, h.isWindows, h.pathExists) then Truthy(ExtractFromFile(path)) else None
  }

  /** The outcome of `_detect_aspect_ratio`: the ratio and the cache map after it. */
  datatype Detection = Detection(ratio: Option<int>, entries: map<string, int>)

  /** `_detect_aspect_ratio()`: nothing when no video plays or there is no info
      tag; otherwise the first of the four sources that has a ratio, with the
      scraper's ratio written to the cache under the key used to read it. */
  function Detect(h: Host, entries: map<string, int>): Detection {
    if !h.player.playingVideo || h.infoTag.None? then Detection(None, entries)
    else
      var tag := h.infoTag.value;
      var imdb := ImdbSource(h, tag);
      var stored := if imdb.Some? then entries[ItemKey(h, tag) := imdb.value] else entries;
      Detection(FirstSome([CachedSource(h, tag, entries), imdb, KodiSource(h), FileSource(h, tag)]), stored)
  }

  /** A detected ratio is never 0: every source is read as a truthy value. */
  lemma DetectedRatioNonZero(h: Host, entries: map<string, int>)
    ensures Detect(h, entries).ratio.Some? ==> Detect(h, entries).ratio.value != 0
  {
    if h.player.playingVideo && h.infoTag.Some? {
      var tag := h.infoTag.value;
      FirstSomeOfFour(CachedSource(h, tag, entries), ImdbSource(h, tag), KodiSource(h), FileSource(h, tag));
    }
  }

  /** Without a playing video or an info tag nothing is detected or stored. */
  lemma NothingWithoutVideo(h: Host, entries: map<string, int>)
    requires !h.player.playingVideo || h.infoTag.None?
    ensures Detect(h, entries) == Detection(None, entries)
  {
  }

  /** The sources in order of priority: the cache, then the scraper, then
      Kodi's metadata; the file never decides, since it never has a ratio. */
  lemma DetectionPriority(h: Host, entries: map<string, int>)
    requires h.player.playingVideo && h.infoTag.Some?
    ensures var tag := h.infoTag.value;
            var c, i, k := CachedSource(h, tag, entries), ImdbSource(h, tag), KodiSource(h);
            Detect(h, entries).ratio == if c.Some? then c else if i.Some? then i else k
  {
    var tag := h.infoTag.value;
    FirstSomeOfFour(CachedSource(h, tag, entries), ImdbSource(h, tag), KodiSource(h), FileSource(h, tag));
  }

  /** A truthy ratio found in the cache is the answer, whatever the other sources. */
  lemma CacheHitWins(h: Host, entries: map<string, int>)
    requires h.player.playingVideo && h.infoTag.Some? && ImdbFallback(h)
    requires var k := ItemKey(h, h.infoTag.value); k in entries && entries[k] != 0
    ensures Detect(h, entries).ratio == Some(entries[ItemKey(h, h.infoTag.value)])
  {
    DetectionPriority(h, entries);
  }

  /** With the IMDb fallback off, the cache and the scraper are not consulted:
      the map is untouched and the answer is Kodi's. */
  lemma FallbackOffUsesKodi(h: Host, entries: map<string, int>)
    requires h.player.playingVideo && h.infoTag.Some? && !ImdbFallback(h)
    ensures Detect(h, entries) == Detection(KodiSource(h), entries)
  {
    DetectionPriority(h, entries);
  }

  /** With no source having a ratio, nothing is detected. */
  lemma NoSourceNoRatio(h: Host, entries: map<string, int>)
    requires h.player.playingVideo && h.infoTag.Some?
    requires CachedSource(h, h.infoTag.value, entries).None? && ImdbSource(h, h.infoTag.value).None?
    requires KodiSource(h).None?
    ensures Detect(h, entries).ratio.None?
  {
    DetectionPriority(h, entries);
  }

  /** The scraper's ratio is written through under the key the lookup used,
      and nothing else in the map changes; without one the map is untouched. */
  lemma ImdbWriteThrough(h: Host, entries: map<string, int>, key: string)
    requires h.player.playingVideo && h.infoTag.Some?
    ensures var tag := h.infoTag.value;
            var after := Detect(h, entries).entries;
            && (ImdbSource(h, tag).Some? ==> Lookup(after, ItemKey(h, tag)) == ImdbSource(h, tag))
            && (ImdbSource(h, tag).None? ==> after == entries)
            && (key != ItemKey(h, tag) ==> Lookup(after, key) == Lookup(entries, key))
  {
  }

  /** A second detection for the same item and answers finds the scraper's
      ratio of the first one in the cache. */
  lemma SecondDetectionHitsCache(h: Host, entries: map<string, int>)
    requires h.player.playingVideo && h.infoTag.Some?
    requires ImdbSource(h, h.infoTag.value).Some?
    ensures Detect(h, Detect(h, entries).entries).ratio == ImdbSource(h, h.infoTag.value)
  {
    var tag := h.infoTag.value;
    var after := Detect(h, entries).entries;
    assert CachedSource(h, tag, after) == ImdbSource(h, tag);
    DetectionPriority(h, after);
  }

  /** The scraper is asked even on a cache hit and overwrites the cached value,
      while the cached value is the answer. */
  lemma CacheHitStillOverwritten(h: Host, entries: map<string, int>)
    requires h.player.playingVideo && h.infoTag.Some? && ImdbFallback(h)
    requires var k := ItemKey(h, h.infoTag.value); k in entries && entries[k] != 0
    requires ImdbSource(h, h.infoTag.value).Some?
    ensures var k := ItemKey(h, h.infoTag.value);
            && Detect(h, entries).ratio == Some(entries[k])
            && Detect(h, entries).entries[k] == ImdbSource(h, h.infoTag.value).value
  {
    CacheHitWins(h, entries);
  }

  // ---------------------------------------------------------------------------
  // The service and its handlers

  /** The notifications the service asks for. */
  datatype Notice = OriginalView | ZoomApplied(zoom: real)

  /** What the handlers change: the zoom gate, the cache map, the
      `removeblackbars_status` window property, the zoom of every SetViewMode
      request sent, and every notification asked for. */
  datatype ServiceState = ServiceState(
    gate: Gate,
    entries: map<string, int>,
    status: string,
    viewModes: seq<real>,
    notices: seq<Notice>)

  /** `show_original()`: status "off", a request for zoom 1.0 and, when that
      request returns normally, the "Original view" notification. */
  function ShowOriginalState(s: ServiceState, h: Host): (t: ServiceState)
    ensures t.gate == s.gate && t.entries == s.entries && t.status == "off"
    ensures t.viewModes == s.viewModes + [1.0]
    ensures t.notices == s.notices + (if h.setViewModeOk then [OriginalView] else [])
  {
    s.(status := "off", viewModes := s.viewModes + [1.0],
       notices := s.notices + if h.setViewModeOk then [OriginalView] else [])
  }

  /** `apply_zoom(ratio, self)` and what it sends. */
  function ApplyZoomState(s: ServiceState, ratio: int, h: Host): ServiceState {
    var step := ApplyStep(s.gate, ratio, EnvOf(h));
    s.(gate := step.gate,
       viewModes := s.viewModes + (if step.viewZoom.Some? then [step.viewZoom.value] else []),
       notices := s.notices + (if step.notified then [ZoomApplied(CalculateZoom(ratio))] else []))
  }

  /** `on_av_started()`: the last applied ratio is forgotten first; then, with
      automatic execution off, the original view is shown; otherwise the status
      goes "on", a ratio is detected and, if there is one, the zoom applied. */
  function AvStarted(s: ServiceState, h: Host): ServiceState {
    var reset := s.(gate := s.gate.(lastAppliedRatio := None));
    if !ReadSettings(h.settings).0 then ShowOriginalState(reset, h)
    else
      var d := Detect(h, s.entries);
      var started := reset.(status := "on", entries := d.entries);
      if d.ratio.Some? && d.ratio.value != 0 then ApplyZoomState(started, d.ratio.value, h)
      else started
  }

  /** `onPlayBackStopped()` and `onPlayBackEnded()`: status "off" and the last
      applied ratio forgotten. */
  function PlaybackStopped(s: ServiceState): ServiceState {
    s.(status := "off", gate := s.gate.(lastAppliedRatio := None))
  }

  /** Stopping keeps the time of the last zoom and all but the status and the
      last applied ratio. */
  lemma StopKeepsZoomTime(s: ServiceState)
    ensures var t := PlaybackStopped(s);
            && t.gate == Gate(s.gate.lastZoomTimeMs, None) && t.status == "off"
            && t.entries == s.entries && t.viewModes == s.viewModes && t.notices == s.notices
  {
  }

  /** With automatic execution off, a start shows the original view and
      neither detects nor zooms: the cache and the zoom time stay as they were. */
  lemma DisabledShowsOriginal(s: ServiceState, h: Host)
    requires !ReadSettings(h.settings).0
    ensures var t := AvStarted(s, h);
            && t.status == "off" && t.entries == s.entries
            && t.gate == Gate(s.gate.lastZoomTimeMs, None)
            && t.viewModes == s.viewModes + [1.0]
  {
  }

  /** A start always forgets the previous ratio: when the same ratio is
      detected again for a new video and the gate's other checks pass, the
      zoom is requested again. */
  lemma SameRatioAppliedAgainOnStart(s: ServiceState, h: Host, ratio: int)
    requires ReadSettings(h.settings).0
    requires s.gate.lastAppliedRatio == Some(ratio)
    requires Detect(h, s.entries).ratio == Some(ratio)
    requires h.nowMs - s.gate.lastZoomTimeMs >= RateLimitMs && IsVideoPlayingFullscreen(h.player)
    ensures AvStarted(s, h).viewModes == s.viewModes + [CalculateZoom(ratio)]
  {
    DetectedRatioNonZero(h, s.entries);
  }

  /** A start within 500 ms of the last zoom requests no zoom, even after the
      playback was stopped in between: no handler resets the zoom time. */
  lemma RateLimitOutlivesStop(s: ServiceState, h: Host)
    requires ReadSettings(h.settings).0
    requires h.nowMs - s.gate.lastZoomTimeMs < RateLimitMs
    ensures var t := AvStarted(PlaybackStopped(s), h);
            && t.viewModes == s.viewModes && t.notices == s.notices
            && t.gate == Gate(s.gate.lastZoomTimeMs, None)
  {
  }

  /** A start that zooms leaves the gate on the detected ratio at the current
      time, requests its zoom and, for a ratio wider than 16:9, asks for a
      notification of that zoom. */
  lemma StartCommitsDetectedRatio(s: ServiceState, h: Host, ratio: int)
    requires ReadSettings(h.settings).0
    requires Detect(h, s.entries).ratio == Some(ratio)
    requires h.nowMs - s.gate.lastZoomTimeMs >= RateLimitMs && IsVideoPlayingFullscreen(h.player)
    requires h.setViewModeOk
    ensures var t := AvStarted(s, h);
            && t.gate == Gate(h.nowMs, Some(ratio)) && t.status == "on"
            && t.viewModes == s.viewModes + [CalculateZoom(ratio)]
            && t.notices == s.notices + (if ratio > WidescreenRatio then [ZoomApplied(CalculateZoom(ratio))] else [])
  {
    DetectedRatioNonZero(h, s.entries);
  }

  /** The Kodi add-on service: the zoom gate, the ratio cache, and what it
      has set and sent. */
  class Service {
    const zoom: ZoomApplier
    const cache: RatioCache
    var status: string
    var viewModes: seq<real>
    var notices: seq<Notice>

    /** `Service()`: a fresh gate and a cache enabled by the `enable_cache`
        setting; `hasPath` and `loaded` are what the cache finds on disk and
        `status` is the window property already set. */
    constructor (settings: Settings, hasPath: bool, loaded: map<string, int>, status: string)
      ensures fresh(zoom) && fresh(cache)
      ensures State() == ServiceState(InitialGate,
                                      if CacheEnabled(settings) && hasPath then loaded else map[],
                                      status, [], [])
      ensures cache.enabled == (CacheEnabled(settings) && hasPath)
    {
      zoom := new ZoomApplier();
      var cacheEnabled := CacheEnabled(settings);
      cache := new RatioCache(cacheEnabled, hasPath, loaded);
      this.status := status;
      viewModes := [];
      notices := [];
    }

    function State(): ServiceState
      reads this, zoom, cache
    {
      ServiceState(zoom.State(), cache.entries, status, viewModes, notices)
    }

    /** `_detect_aspect_ratio()`, as the code performs it. */
    method DetectAspectRatio(h: Host) returns (ratio: Option<int>)
      modifies cache
      ensures Detection(ratio, cache.entries) == Detect(h, old(cache.entries))
      ensures cache.enabled == old(cache.enabled)
    {
      if !h.player.playingVideo || h.infoTag.None? {
        return None;
      }
      var tag := h.infoTag.value;
      var (title, year) := TitleYear(tag);
      var imdbNumber := PrefixImdbNumber(h.imdbLabel);
      var (_, imdbFallback) := ReadSettings(h.settings);
      var cached: Option<int> := None;
      var imdb: Option<int> := None;
      if imdbFallback {
        var hit := cache.Get(title, year, imdbNumber);
        cached := Truthy(hit);
        var scraped := GetOriginalAspectRatio(title, imdbNumber, h.fetch);
        imdb := Truthy(ImdbRatio(scraped));
        if imdb.Some? {
          cache.Store(title, year, imdb.value, imdbNumber);
        }
      }
      var kodi := GetKodiAspectRatio(h.videoAspect, h.jsonRpcRatio);
      var path := tag.filenameAndPath;
      var file: Option<int> := None;
      if IsLocalFile(path, h.isWindows, h.pathExists) {
        file := Truthy(ExtractFromFile(path));
      }
      ratio := FirstNonNone([cached, imdb, Truthy(kodi), file]);
    }

    /** `show_original()` */
    method ShowOriginal(h: Host)
      modifies this
      ensures State() == ShowOriginalState(old(State()), h)
    {
      status := "off";
      viewModes := viewModes + [1.0];
      if h.setViewModeOk {
        notices := notices + [OriginalView];
      }
    }

    /** `on_av_started()` */
    method OnAvStarted(h: Host)
      modifies this, zoom, cache
      ensures State() == AvStarted(old(State()), h)
      ensures cache.enabled == old(cache.enabled)
    {
      zoom.lastAppliedRatio := None;
      var (enabled, _) := ReadSettings(h.settings);
      if !enabled {
        status := "off";
        ShowOriginal(h);
        return;
      }
      status := "on";
      var ratio := DetectAspectRatio(h);
      if ratio.Some? && ratio.value != 0 {
        ApplyDetectedRatio(ratio.value, h);
      }
    }

    /** `self.zoom.apply_zoom(ratio, self)`, with the request and the
        notification it sends. */
    method ApplyDetectedRatio(ratio: int, h: Host)
      modifies this, zoom
      ensures State() == ApplyZoomState(old(State()), ratio, h)
    {
      var applied, viewZoom, notified := zoom.ApplyZoom(ratio, EnvOf(h));
      if viewZoom.Some? {
        viewModes := viewModes + [viewZoom.value];
      }
      if notified {
        notices := notices + [ZoomApplied(CalculateZoom(ratio))];
      }
    }

    /** `onPlayBackStopped()` */
    method OnPlayBackStopped()
      modifies this, zoom
      ensures State() == PlaybackStopped(old(State()))
    {
      status := "off";
      zoom.lastAppliedRatio := None;
    }

    /** `onPlayBackEnded()` */
    method OnPlayBackEnded()
      modifies this, zoom
      ensures State() == PlaybackStopped(old(State()))
    {
      status := "off";
      zoom.lastAppliedRatio := None;
    }
  }
}
