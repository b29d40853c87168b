/** The record every part of the canvas works on: one comet, as `src/types.ts` declares it. */
module Types {

  /** An optional field of the record (`createdAt?`, `color?`). */
  datatype Option<T> = None | Some(value: T)

  /**
   * A comet: an idea label floating on the canvas.
   * Coordinates and velocities are real numbers (pixels, and pixels per frame);
   * a comet whose velocity is zero on both axes is pinned in place.
   */
  datatype Comet = Comet(
    id: string,
    text: string,
    x: real,
    y: real,
    vx: real,
    vy: real,
    createdAt: Option<string>,
    color: Option<string>)
  {
    /** Zero velocity on both axes: the motion step leaves such a comet alone. */
    predicate Stationary() {
      vx == 0.0 && vy == 0.0
    }
  }

  /** No two comets of the list share an id. */
  ghost predicate UniqueIds(cs: seq<Comet>) {
    forall i, j :: 0 <= i < j < |cs| ==> cs[i].id != cs[j].id
  }

  /** The two lists carry the same ids at the same positions. */
  ghost predicate SameIds(a: seq<Comet>, b: seq<Comet>) {
    |a| == |b| && forall i :: 0 <= i < |a| ==> a[i].id == b[i].id
  }

  /** `id` belongs to no comet of the list. */
  predicate FreshId(cs: seq<Comet>, id: string) {
    forall c :: c in cs ==> c.id != id
  }
}
