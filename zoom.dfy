/**
 * `ZoomApplier` (addon.py:303-368): the zoom for a detected ratio, and the
 * gate that decides whether a zoom request is sent at all. The gate has two
 * fields, the time of the last zoom and the last ratio applied; its checks run
 * in a fixed order (same ratio, rate limit, fullscreen playback), and only a
 * request that returns normally commits the new state.
 */
module Zoom {
  import opened Wrappers

  /** `ZOOM_RATE_LIMIT_MS`: the least time between two zoom changes. */
  const RateLimitMs: int := 500
  /** The Kodi window id of fullscreen video. */
  const FullscreenVideoWindow: int := 12005
  /** 16:9 in hundredths; narrower ratios are shown unzoomed. */
  const WidescreenRatio: int := 177

  /** What the gate asks the player and the GUI: `isPlayingVideo()`, the
      current window id and `isPlaying()`. */
  datatype Player = Player(playingVideo: bool, windowId: int, playing: bool)

  /** `_is_video_playing_fullscreen(player)` */
  predicate IsVideoPlayingFullscreen(p: Player) {
    p.playingVideo && p.windowId == FullscreenVideoWindow && p.playing
  }

  /** `_calculate_zoom(r)`: `r / 177` for ratios wider than 16:9, else exactly 1. */
  function CalculateZoom(ratio: int): (z: real)
    ensures z >= 1.0
    ensures z == 1.0 <==> ratio <= WidescreenRatio
    ensures ratio > WidescreenRatio ==> z * 177.0 == ratio as real
  {
    if ratio > WidescreenRatio then ratio as real / 177.0 else 1.0
  }

  /** The two fields of a `ZoomApplier`. */
  datatype Gate = Gate(lastZoomTimeMs: int, lastAppliedRatio: Option<int>)

  /** The state `ZoomApplier()` starts in. */
  const InitialGate: Gate := Gate(0, None)

  /** What one `apply_zoom` call meets: the clock in milliseconds, the player,
      and whether the SetViewMode request and the notification return normally
      (`false`: they raise). */
  datatype Env = Env(nowMs: int, player: Player, setViewModeOk: bool, notifyOk: bool)

  /** The outcome of one call: its return value, the new gate, the zoom of the
      SetViewMode request if one was made, and whether a notification was asked for. */
  datatype Step = Step(applied: bool, gate: Gate, viewZoom: Option<real>, notified: bool)

  /** `apply_zoom(r, player)` on a gate. */
  function ApplyStep(g: Gate, ratio: int, env: Env): Step {
    if g.lastAppliedRatio == Some(ratio) then Step(false, g, None, false)
    else if env.nowMs - g.lastZoomTimeMs < RateLimitMs then Step(false, g, None, false)
    else if !IsVideoPlayingFullscreen(env.player) then Step(false, g, None, false)
    else
      var z := CalculateZoom(ratio);
      if !env.setViewModeOk then Step(false, g, Some(z), false)
      else if z > 1.0 then Step(env.notifyOk, Gate(env.nowMs, Some(ratio)), Some(z), true)
      else Step(true, Gate(env.nowMs, Some(ratio)), Some(z), false)
  }

  /** Every check passes and the SetViewMode request returns normally. */
  predicate Commits(g: Gate, ratio: int, env: Env) {
    && g.lastAppliedRatio != Some(ratio)
    && env.nowMs - g.lastZoomTimeMs >= RateLimitMs
    && IsVideoPlayingFullscreen(env.player)
    && env.setViewModeOk
  }

  /** The gate moves to the current time and ratio exactly when the call
      commits, and is otherwise left as it was. */
  lemma GateUpdate(g: Gate, ratio: int, env: Env)
    ensures ApplyStep(g, ratio, env).gate
         == if Commits(g, ratio, env) then Gate(env.nowMs, Some(ratio)) else g
  {
  }

  /** A request carries the computed zoom, and is made exactly when the three
      checks pass. */
  lemma RequestSent(g: Gate, ratio: int, env: Env)
    ensures var s := ApplyStep(g, ratio, env);
            && (s.viewZoom.Some? <==>
                  g.lastAppliedRatio != Some(ratio) && env.nowMs - g.lastZoomTimeMs >= RateLimitMs
                  && IsVideoPlayingFullscreen(env.player))
            && (s.viewZoom.Some? ==> s.viewZoom.value == CalculateZoom(ratio))
  {
  }

  /** `True` is returned exactly when the call commits and the notification,
      if one is due, does not raise; a notification is due exactly for ratios
      wider than 16:9. */
  lemma AppliedAndNotified(g: Gate, ratio: int, env: Env)
    ensures var s := ApplyStep(g, ratio, env);
            && (s.notified <==> Commits(g, ratio, env) && ratio > WidescreenRatio)
            && (s.applied <==> Commits(g, ratio, env) && (ratio <= WidescreenRatio || env.notifyOk))
  {
  }

  /** The ratio already applied is skipped before anything else is asked. */
  lemma SameRatioSkipped(g: Gate, ratio: int, env: Env)
    requires g.lastAppliedRatio == Some(ratio)
    ensures ApplyStep(g, ratio, env) == Step(false, g, None, false)
  {
  }

  /** Within 500 ms of the last zoom nothing happens. */
  lemma RateLimited(g: Gate, ratio: int, env: Env)
    requires env.nowMs - g.lastZoomTimeMs < RateLimitMs
    ensures ApplyStep(g, ratio, env) == Step(false, g, None, false)
  {
  }

  /** Outside fullscreen video playback nothing happens. */
  lemma NotFullscreenSkipped(g: Gate, ratio: int, env: Env)
    requires !IsVideoPlayingFullscreen(env.player)
    ensures ApplyStep(g, ratio, env) == Step(false, g, None, false)
  {
  }

  /** A SetViewMode request that raises leaves the gate as it was. */
  lemma FailedRequestKeepsGate(g: Gate, ratio: int, env: Env)
    requires !env.setViewModeOk
    ensures !ApplyStep(g, ratio, env).applied && ApplyStep(g, ratio, env).gate == g
  {
  }

  /** Once a ratio is committed, applying it again does nothing, at any time. */
  lemma RepeatSkipped(g: Gate, ratio: int, e1: Env, e2: Env)
    requires Commits(g, ratio, e1)
    ensures var g1 := ApplyStep(g, ratio, e1).gate;
            ApplyStep(g1, ratio, e2) == Step(false, g1, None, false)
  {
  }

  /** After a commit, no other ratio gets through for the next 500 ms. */
  lemma RateLimitAfterCommit(g: Gate, r1: int, r2: int, e1: Env, e2: Env)
    requires Commits(g, r1, e1) && e2.nowMs < e1.nowMs + RateLimitMs
    ensures var g1 := ApplyStep(g, r1, e1).gate;
            ApplyStep(g1, r2, e2) == Step(false, g1, None, false)
  {
  }

  /** With the initial time of 0, a call in the first half second of the
      clock is rate limited. */
  lemma InitialGateRateLimited(ratio: int, env: Env)
    requires env.nowMs < RateLimitMs
    ensures ApplyStep(InitialGate, ratio, env) == Step(false, InitialGate, None, false)
  {
  }

  /** The zoom state of the service, updated in place by `apply_zoom` and
      reset by the playback handlers. */
  class ZoomApplier {
    var lastZoomTimeMs: int
    var lastAppliedRatio: Option<int>

    constructor ()
      ensures State() == InitialGate
    {
      lastZoomTimeMs := 0;
      lastAppliedRatio := None;
    }

    function State(): Gate
      reads this
    {
      Gate(lastZoomTimeMs, lastAppliedRatio)
    }

    /** `apply_zoom(detected_ratio, player)`, as the code performs it. */
    method ApplyZoom(ratio: int, env: Env) returns (applied: bool, viewZoom: Option<real>, notified: bool)
      modifies this
      ensures Step(applied, State(), viewZoom, notified) == ApplyStep(old(State()), ratio, env)
    {
      viewZoom, notified := None, false;
      if lastAppliedRatio == Some(ratio) {
        return false, viewZoom, notified;
      }
      var nowMs := env.nowMs;
      if nowMs - lastZoomTimeMs < RateLimitMs {
        return false, viewZoom, notified;
      }
      if !IsVideoPlayingFullscreen(env.player) {
        return false, viewZoom, notified;
      }
      var zoomAmount := CalculateZoom(ratio);
      viewZoom := Some(zoomAmount);
      if !env.setViewModeOk {
        return false, viewZoom, notified;
      }
      lastZoomTimeMs := nowMs;
      lastAppliedRatio := Some(ratio);
      if zoomAmount > 1.0 {
        notified := true;
        if !env.notifyOk {
          return false, viewZoom, notified;
        }
      }
      return true, viewZoom, notified;
    }
  }
}
