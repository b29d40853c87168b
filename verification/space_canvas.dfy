/**
 * The per-frame motion step of the canvas (`tick` in src/components/SpaceCanvas.tsx).
 * Every moving comet advances by its velocity and wraps around the viewport,
 * with a margin of 50 pixels on every side; a pinned comet is returned as it is.
 * The viewport size is a parameter (width `w`, height `h`).
 */
module SpaceCanvas {
  import opened Types

  /** How far past an edge a comet travels before it reappears on the opposite side. */
  const Margin: real := 50.0

  /** The comet lies in the wrap band: `[-50, w+50]` horizontally and `[-50, h+50]` vertically. */
  predicate InBand(c: Comet, w: real, h: real) {
    -Margin <= c.x <= w + Margin && -Margin <= c.y <= h + Margin
  }

  /**
   * The wrap of one coordinate against the extent of its axis: first the test
   * against the low edge, then the test against the high edge, in this order.
   */
  function Wrap(n: real, extent: real): (r: real)
    // inside the band the coordinate is kept
    ensures -Margin <= n <= extent + Margin ==> r == n
    // past the low edge it reappears at the high edge, and the high-edge test does not undo that
    ensures n < -Margin ==> r == extent + Margin
    // past the high edge it reappears at the low edge
    ensures extent + Margin < n && -Margin <= n ==> r == -Margin
    // for any extent a viewport can have, the result is in the band
    ensures -2.0 * Margin <= extent ==> -Margin <= r <= extent + Margin
  {
    var n' := if n < -Margin then extent + Margin else n;
    if n' > extent + Margin then -Margin else n'
  }

  /** One comet over one frame. */
  function Step(c: Comet, w: real, h: real): (r: Comet)
    // only the position can change: id, text, velocity, createdAt and color are kept
    ensures r == c.(x := r.x, y := r.y)
    ensures c.Stationary() ==> r == c
    ensures !c.Stationary() ==> r.x == Wrap(c.x + c.vx, w) && r.y == Wrap(c.y + c.vy, h)
    ensures !c.Stationary() && 0.0 <= w && 0.0 <= h ==> InBand(r, w, h)
  {
    if c.vx == 0.0 && c.vy == 0.0 then c
    else c.(x := Wrap(c.x + c.vx, w), y := Wrap(c.y + c.vy, h))
  }

  /** The whole list over one frame: `prev.map(...)`. */
  function Tick(cs: seq<Comet>, w: real, h: real): (r: seq<Comet>)
    ensures |r| == |cs|
    ensures forall i :: 0 <= i < |cs| ==> r[i] == Step(cs[i], w, h)
  {
    if cs == [] then [] else [Step(cs[0], w, h)] + Tick(cs[1..], w, h)
  }

  /** `n` frames in a row. */
  function Ticks(cs: seq<Comet>, w: real, h: real, n: nat): seq<Comet>
    decreases n
  {
    if n == 0 then cs else Ticks(Tick(cs, w, h), w, h, n - 1)
  }

  /** A moving comet whose new coordinate on an axis stays inside the band simply moves by its velocity. */
  lemma StepMovesInsideBand(c: Comet, w: real, h: real)
    requires !c.Stationary()
    requires -Margin <= c.x + c.vx <= w + Margin
    requires -Margin <= c.y + c.vy <= h + Margin
    ensures Step(c, w, h).x == c.x + c.vx && Step(c, w, h).y == c.y + c.vy
  {
  }

  /** A list of pinned comets is a fixed point of the tick. */
  lemma {:induction false} TickStationaryFixed(cs: seq<Comet>, w: real, h: real)
    requires forall i :: 0 <= i < |cs| ==> cs[i].Stationary()
    ensures Tick(cs, w, h) == cs
  {
    if cs != [] {
      TickStationaryFixed(cs[1..], w, h);
    }
  }

  /** However many frames pass, a list of pinned comets does not change. */
  lemma {:induction false} TicksStationaryFixed(cs: seq<Comet>, w: real, h: real, n: nat)
    requires forall i :: 0 <= i < |cs| ==> cs[i].Stationary()
    ensures Ticks(cs, w, h, n) == cs
  {
    if n > 0 {
      TickStationaryFixed(cs, w, h);
      TicksStationaryFixed(cs, w, h, n - 1);
    }
  }

  /** The tick keeps the ids at their positions, so a list with unique ids keeps them unique. */
  lemma TickKeepsIds(cs: seq<Comet>, w: real, h: real)
    ensures SameIds(cs, Tick(cs, w, h))
    ensures UniqueIds(cs) ==> UniqueIds(Tick(cs, w, h))
  {
  }

  /** Once every comet lies in the band, every comet still lies in it after a frame. */
  lemma TickKeepsBand(cs: seq<Comet>, w: real, h: real)
    requires 0.0 <= w && 0.0 <= h
    requires forall i :: 0 <= i < |cs| ==> InBand(cs[i], w, h)
    ensures forall i :: 0 <= i < |cs| ==> InBand(Tick(cs, w, h)[i], w, h)
  {
  }

  /** Frame after frame, the band stays invariant. */
  lemma {:induction false} TicksKeepBand(cs: seq<Comet>, w: real, h: real, n: nat)
    requires 0.0 <= w && 0.0 <= h
    requires forall i :: 0 <= i < |cs| ==> InBand(cs[i], w, h)
    ensures |Ticks(cs, w, h, n)| == |cs|
    ensures forall i :: 0 <= i < |cs| ==> InBand(Ticks(cs, w, h, n)[i], w, h)
    decreases n
  {
    if n > 0 {
      TickKeepsBand(cs, w, h);
      TicksKeepBand(Tick(cs, w, h), w, h, n - 1);
    }
  }

  /** Worked cases on a 1000-pixel-wide viewport: plain motion, wrap at the right and at the left edge. */
  lemma WrapExamples()
    ensures Step(Comet("a", "t", 100.0, 10.0, 2.0, 0.0, None, None), 1000.0, 800.0).x == 102.0
    ensures Step(Comet("a", "t", 1051.0, 10.0, 1.0, 0.0, None, None), 1000.0, 800.0).x == -50.0
    ensures Step(Comet("a", "t", -51.0, 10.0, -1.0, 0.0, None, None), 1000.0, 800.0).x == 1050.0
  {
  }
}
