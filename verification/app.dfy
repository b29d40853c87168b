/**
 * The list of comets held by the application (src/App.tsx) and the four ways the user
 * changes it: add a comet, remove one (by id), drop one after a drag (it is pinned there),
 * clear them all. The canvas also rewrites the list on every frame with the tick.
 *
 * The identifier source and the random number source are parameters: `id` stands for the
 * UUID the browser generates, and `rx`, `ry`, `rvx`, `rvy` for the four random draws,
 * each in `[0, 1)`. The viewport size is `w` by `h`.
 */
module App {
  import opened Types
  import SpaceCanvas

  /** Half the side of the square around the viewport's centre in which a new comet appears. */
  const Spread: real := 100.0

  /** Half the range of a new comet's velocity on each axis. */
  const MaxSpeed: real := 0.4

  /** A value the random number source can return: in `[0, 1)`. */
  predicate IsDraw(r: real) {
    0.0 <= r < 1.0
  }

  /** The comet created for `text`: near the centre of the viewport, drifting slowly. */
  function NewComet(id: string, text: string, w: real, h: real, rx: real, ry: real, rvx: real, rvy: real): (c: Comet)
    ensures c.id == id && c.text == text && c.createdAt == None && c.color == None
    // within 100 pixels of the centre, on each axis
    ensures IsDraw(rx) ==> w / 2.0 - Spread <= c.x < w / 2.0 + Spread
    ensures IsDraw(ry) ==> h / 2.0 - Spread <= c.y < h / 2.0 + Spread
    // at most 0.4 pixels per frame, on each axis
    ensures IsDraw(rvx) ==> -MaxSpeed <= c.vx < MaxSpeed
    ensures IsDraw(rvy) ==> -MaxSpeed <= c.vy < MaxSpeed
    // it starts pinned only when both velocity draws are exactly one half
    ensures c.Stationary() <==> rvx == 0.5 && rvy == 0.5
  {
    Comet(id, text,
      w / 2.0 + (rx - 0.5) * 200.0,
      h / 2.0 + (ry - 0.5) * 200.0,
      (rvx - 0.5) * 0.8,
      (rvy - 0.5) * 0.8,
      None, None)
  }

  /** The list without the comets whose id is `id`, the others in their order: `prev.filter(c => c.id !== id)`. */
  function Without(cs: seq<Comet>, id: string): (r: seq<Comet>)
    ensures forall c :: c in r <==> c in cs && c.id != id
    ensures FreshId(r, id)
    ensures |r| <= |cs|
  {
    if cs == [] then []
    else (if cs[0].id != id then [cs[0]] else []) + Without(cs[1..], id)
  }

  /** The comet dropped at `(x, y)`: moved there and pinned, `{ ...c, x, y, vx: 0, vy: 0 }`. */
  function Pin(c: Comet, x: real, y: real): (r: Comet)
    ensures r.Stationary() && r.x == x && r.y == y
    ensures r.id == c.id && r.text == c.text && r.createdAt == c.createdAt && r.color == c.color
  {
    c.(x := x, y := y, vx := 0.0, vy := 0.0)
  }

  /** The list after a drop: every comet with id `id` is pinned at `(x, y)`, the others are kept as they are. */
  function Updated(cs: seq<Comet>, id: string, x: real, y: real): (r: seq<Comet>)
    ensures |r| == |cs|
    ensures forall i :: 0 <= i < |cs| && cs[i].id == id ==> r[i] == Pin(cs[i], x, y)
    ensures forall i :: 0 <= i < |cs| && cs[i].id != id ==> r[i] == cs[i]
  {
    if cs == [] then [] else [if cs[0].id == id then Pin(cs[0], x, y) else cs[0]] + Updated(cs[1..], id, x, y)
  }

  /** Putting a comet in front of a list keeps the ids unique when its id is new to the list. */
  lemma UniqueIdsCons(c: Comet, cs: seq<Comet>)
    requires UniqueIds(cs) && FreshId(cs, c.id)
    ensures UniqueIds([c] + cs)
  {
    forall i, j | 0 <= i < j < |[c] + cs| ensures ([c] + cs)[i].id != ([c] + cs)[j].id {
      if i == 0 {
        assert ([c] + cs)[j] == cs[j - 1] && cs[j - 1] in cs;
      } else {
        assert ([c] + cs)[i] == cs[i - 1] && ([c] + cs)[j] == cs[j - 1];
      }
    }
  }

  /** Adding a comet whose id is new keeps the ids unique. */
  lemma AddKeepsUnique(cs: seq<Comet>, c: Comet)
    requires UniqueIds(cs) && FreshId(cs, c.id)
    ensures UniqueIds(cs + [c])
  {
    forall i, j | 0 <= i < j < |cs + [c]| ensures (cs + [c])[i].id != (cs + [c])[j].id {
      assert (cs + [c])[i] == cs[i];
      if j == |cs| {
        assert cs[i] in cs;
      }
    }
  }

  /** Removing by an id no comet has changes nothing. */
  lemma {:induction false} WithoutAbsent(cs: seq<Comet>, id: string)
    requires FreshId(cs, id)
    ensures Without(cs, id) == cs
  {
    if cs != [] {
      assert cs[0] in cs;
      WithoutAbsent(cs[1..], id);
    }
  }

  /** Removing twice by the same id is removing once. */
  lemma WithoutIdempotent(cs: seq<Comet>, id: string)
    ensures Without(Without(cs, id), id) == Without(cs, id)
  {
    WithoutAbsent(Without(cs, id), id);
  }

  /** The removal keeps the order: removing from a concatenation removes from each part. */
  lemma {:induction false} WithoutAppend(a: seq<Comet>, b: seq<Comet>, id: string)
    ensures Without(a + b, id) == Without(a, id) + Without(b, id)
  {
    if a != [] {
      assert (a + b)[1..] == a[1..] + b;
      WithoutAppend(a[1..], b, id);
    } else {
      assert a + b == b;
    }
  }

  /** The removal keeps the ids unique. */
  lemma {:induction false} WithoutUnique(cs: seq<Comet>, id: string)
    requires UniqueIds(cs)
    ensures UniqueIds(Without(cs, id))
  {
    if cs != [] {
      var rest := cs[1..];
      assert UniqueIds(rest) by {
        forall i, j | 0 <= i < j < |rest| ensures rest[i].id != rest[j].id {
          assert rest[i] == cs[i + 1] && rest[j] == cs[j + 1];
        }
      }
      WithoutUnique(rest, id);
      if cs[0].id != id {
        forall c | c in Without(rest, id) ensures c.id != cs[0].id {
          var k :| 0 <= k < |rest| && rest[k] == c;
          assert cs[k + 1] == c;
        }
        UniqueIdsCons(cs[0], Without(rest, id));
      } else {
        assert [] + Without(rest, id) == Without(rest, id);
      }
    }
  }

  /** With unique ids, removing the id of a comet of the list removes exactly that one comet. */
  lemma {:induction false} WithoutRemovesOne(cs: seq<Comet>, id: string)
    requires UniqueIds(cs) && !FreshId(cs, id)
    ensures |Without(cs, id)| == |cs| - 1
  {
    var rest := cs[1..];
    assert UniqueIds(rest) by {
      forall i, j | 0 <= i < j < |rest| ensures rest[i].id != rest[j].id {
        assert rest[i] == cs[i + 1] && rest[j] == cs[j + 1];
      }
    }
    if cs[0].id == id {
      assert FreshId(rest, id) by {
        forall c | c in rest ensures c.id != id {
          var k :| 0 <= k < |rest| && rest[k] == c;
          assert cs[k + 1] == c;
        }
      }
      WithoutAbsent(rest, id);
    } else {
      var c :| c in cs && c.id == id;
      assert c in rest;
      WithoutRemovesOne(rest, id);
    }
  }

  /** A drop keeps every id at its place, hence keeps the ids unique. */
  lemma UpdatedKeepsIds(cs: seq<Comet>, id: string, x: real, y: real)
    ensures SameIds(cs, Updated(cs, id, x, y))
    ensures UniqueIds(cs) ==> UniqueIds(Updated(cs, id, x, y))
  {
  }

  /** A drop on an id no comet has changes nothing. */
  lemma UpdatedAbsent(cs: seq<Comet>, id: string, x: real, y: real)
    requires FreshId(cs, id)
    ensures Updated(cs, id, x, y) == cs
  {
    forall i | 0 <= i < |cs| ensures Updated(cs, id, x, y)[i] == cs[i] {
      assert cs[i] in cs;
    }
  }

  /** A dropped comet is where it was dropped, and the next frame leaves it there. */
  lemma UpdatedStaysPut(cs: seq<Comet>, id: string, x: real, y: real, w: real, h: real, i: nat)
    requires i < |cs| && cs[i].id == id
    ensures SpaceCanvas.Tick(Updated(cs, id, x, y), w, h)[i] == Updated(cs, id, x, y)[i]
    ensures Updated(cs, id, x, y)[i].x == x && Updated(cs, id, x, y)[i].y == y
  {
  }

  /** Dropping a comet and then removing it is removing it. */
  lemma {:induction false} UpdatedThenRemoved(cs: seq<Comet>, id: string, x: real, y: real)
    ensures Without(Updated(cs, id, x, y), id) == Without(cs, id)
  {
    if cs != [] {
      UpdatedThenRemoved(cs[1..], id, x, y);
      assert Updated(cs, id, x, y)[1..] == Updated(cs[1..], id, x, y);
    }
  }

  /** The application state: the list of comets on the canvas. */
  class App {
    var comets: seq<Comet>

    /** No two comets share an id. */
    ghost predicate Valid()
      reads this
    {
      UniqueIds(comets)
    }

    /** The application starts with no comet. */
    constructor()
      ensures comets == [] && Valid()
    {
      comets := [];
    }

    /** `addComet`: the new comet is appended at the end of the list. */
    method AddComet(text: string, id: string, w: real, h: real, rx: real, ry: real, rvx: real, rvy: real)
      modifies this
      ensures comets == old(comets) + [NewComet(id, text, w, h, rx, ry, rvx, rvy)]
      ensures old(Valid()) && FreshId(old(comets), id) ==> Valid()
    {
      var comet := NewComet(id, text, w, h, rx, ry, rvx, rvy);
      if Valid() && FreshId(comets, id) {
        AddKeepsUnique(comets, comet);
      }
      comets := comets + [comet];
    }

    /** `removeComet`: every comet with id `id` is dropped from the list. */
    method RemoveComet(id: string)
      modifies this
      ensures comets == Without(old(comets), id)
      ensures old(Valid()) ==> Valid()
    {
      if Valid() {
        WithoutUnique(comets, id);
      }
      comets := Without(comets, id);
    }

    /** `updateComet`, at the end of a drag: the comet with id `id` is pinned at `(x, y)`. */
    method UpdateComet(id: string, x: real, y: real)
      modifies this
      ensures comets == Updated(old(comets), id, x, y)
      ensures old(Valid()) ==> Valid()
    {
      UpdatedKeepsIds(comets, id, x, y);
      comets := Updated(comets, id, x, y);
    }

    /** `onClearAll`: the list becomes empty. */
    method ClearAll()
      modifies this
      ensures comets == [] && Valid()
    {
      comets := [];
    }

    /** One animation frame of the canvas: every comet takes one motion step. */
    method Advance(w: real, h: real)
      modifies this
      ensures comets == SpaceCanvas.Tick(old(comets), w, h)
      ensures old(Valid()) ==> Valid()
    {
      SpaceCanvas.TickKeepsIds(comets, w, h);
      comets := SpaceCanvas.Tick(comets, w, h);
    }
  }
}
