/** A fixed-window counter seen from outside: what any sliding interval of time can hold.

    The limiter keeps one such counter for the whole Worker and one per family.  This module knows
    nothing about either; it turns the step rule of one counter into a bound on every interval. */
module FixedWindow {

  const WINDOW_MS := 1_000

  datatype Window = Window(count: nat, start: int)

  /** One request reaching the counter: when, and whether it was granted. */
  datatype Tick = Tick(now: int, hit: bool)

  /** The window in force at `now`: a second after its start it begins afresh. */
  function Roll(w: Window, now: int): Window {
    if now - w.start >= WINDOW_MS then Window(0, now) else w
  }

  /** What one request may do to the counter: nothing, a roll, or a roll and one unit below the cap. */
  ghost predicate Step(w: Window, t: Tick, w': Window, cap: nat) {
    var r := Roll(w, t.now);
    if t.hit then r.count < cap && w' == Window(r.count + 1, r.start) else w' == w || w' == r
  }

  /** `ws[k]` is the counter just before `ticks[k]`; the cap is kept from position `i` until time `b`. */
  ghost predicate Follows(ws: seq<Window>, ticks: seq<Tick>, cap: nat, i: nat, b: int) {
    && |ws| == |ticks| + 1
    && forall k {:trigger ticks[k]} :: i <= k < |ticks| && ticks[k].now < b ==> Step(ws[k], ticks[k], ws[k + 1], cap)
  }

  ghost predicate Ordered(ticks: seq<Tick>) {
    forall j, k :: 0 <= j <= k < |ticks| ==> ticks[j].now <= ticks[k].now
  }

  /** Granted requests from position `i` on whose time lies in the half-open interval [a, b). */
  ghost function Hits(ticks: seq<Tick>, i: nat, a: int, b: int): nat
    requires i <= |ticks|
    decreases |ticks| - i
  {
    if i == |ticks| then 0
    else (if ticks[i].hit && a <= ticks[i].now < b then 1 else 0) + Hits(ticks, i + 1, a, b)
  }

  /** Whole windows needed to cover `len` milliseconds: the ceiling of len / 1000. */
  function Windows(len: int): nat {
    if len <= 0 then 0 else (len + WINDOW_MS - 1) / WINDOW_MS
  }

  lemma WindowsExactly(len: int)
    ensures len > 0 ==> 1000 * (Windows(len) - 1) < len <= 1000 * Windows(len)
    ensures len <= 0 ==> Windows(len) == 0
  {
  }

  function Spare(cap: nat, count: nat): nat {
    if count < cap then cap - count else 0
  }

  lemma {:induction false} NoHitsOutside(ticks: seq<Tick>, i: nat, a: int, b: int)
    requires i <= |ticks| && Ordered(ticks)
    requires i < |ticks| ==> b <= ticks[i].now
    ensures Hits(ticks, i, a, b) == 0
    decreases |ticks| - i
  {
    if i < |ticks| {
      NoHitsOutside(ticks, i + 1, a, b);
    }
  }

  lemma MoreWindows(cap: nat, small: nat, large: nat)
    requires small <= large
    ensures cap * small <= cap * large
  {
  }

  /** The cap of a window begun at `now` is one of those counted from the window before it. */
  lemma NewWindowPaid(cap: nat, start: int, now: int, b: int)
    requires start + WINDOW_MS <= now < b
    ensures cap + cap * Windows(b - now - WINDOW_MS) <= cap * Windows(b - start - WINDOW_MS)
  {
    assert Windows(b - now) == 1 + Windows(b - now - WINDOW_MS);
    assert cap * (1 + Windows(b - now - WINDOW_MS)) == cap + cap * Windows(b - now - WINDOW_MS);
    MoreWindows(cap, Windows(b - now), Windows(b - start - WINDOW_MS));
  }

  /** A counter that has spent `count` of the window begun at `start` has the rest of that window
      and one full cap for each later second before `b`. */
  lemma {:induction false} HitsFromWindow(ws: seq<Window>, ticks: seq<Tick>, cap: nat, i: nat, a: int, b: int)
    requires Follows(ws, ticks, cap, i, b) && Ordered(ticks) && i <= |ticks|
    requires i < |ticks| ==> ws[i].start <= ticks[i].now
    ensures Hits(ticks, i, a, b) <= Spare(cap, ws[i].count) + cap * Windows(b - ws[i].start - WINDOW_MS)
    decreases |ticks| - i
  {
    if i < |ticks| {
      var w, w', now := ws[i], ws[i + 1], ticks[i].now;
      if b <= now {
        NoHitsOutside(ticks, i, a, b);
      } else {
        assert Step(w, ticks[i], w', cap);
        HitsFromWindow(ws, ticks, cap, i + 1, a, b);
        if w'.start != w.start {
          NewWindowPaid(cap, w.start, now, b);
        }
      }
    }
  }

  /** Any interval [a, b) holds at most one cap more than one cap per started second. */
  lemma {:induction false} SlidingBound(ws: seq<Window>, ticks: seq<Tick>, cap: nat, i: nat, a: int, b: int)
    requires Follows(ws, ticks, cap, i, b) && Ordered(ticks) && i <= |ticks|
    requires i < |ticks| ==> ws[i].start <= ticks[i].now
    ensures Hits(ticks, i, a, b) <= cap * (1 + Windows(b - a))
    decreases |ticks| - i
  {
    if i < |ticks| {
      var w, w', now := ws[i], ws[i + 1], ticks[i].now;
      assert now < b ==> Step(w, ticks[i], w', cap);
      if b <= now {
        NoHitsOutside(ticks, i, a, b);
      } else if now < a || (w' == w && !ticks[i].hit) {
        SlidingBound(ws, ticks, cap, i + 1, a, b);
      } else {
        HitsFromWindow(ws, ticks, cap, i + 1, a, b);
        assert w'.start > now - WINDOW_MS;
        MoreWindows(cap, Windows(b - w'.start - WINDOW_MS), Windows(b - a));
        assert cap * (1 + Windows(b - a)) == cap + cap * Windows(b - a);
      }
    }
  }
}
