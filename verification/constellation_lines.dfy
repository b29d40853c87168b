/**
 * The constellation lines (src/components/ConstellationLines.tsx): every pair of comets
 * closer than a threshold is joined by a line whose opacity grows as the two get closer.
 *
 * The distance is the square root of the squared Euclidean distance. The square root is
 * the host's, so it is a parameter `sqrt`; `IsSqrt` is all the model assumes of it.
 *
 * Which pairs the double loop visits does not depend on what the comets are, only on
 * their number `n` and on the test applied to each pair; that part (`RowPairs`,
 * `PairsBefore`, `Pairs`) is stated for an arbitrary test `joined`.
 */
module ConstellationLines {
  import opened Types

  /** The threshold used when the caller gives none. */
  const DefaultThreshold: real := 200.0

  /** A line of the drawing: its key, its two end points and its opacity. */
  datatype Line = Line(key: string, x1: real, y1: real, x2: real, y2: real, opacity: real)

  // ---------------------------------------------------------------------------------
  // Distances
  // ---------------------------------------------------------------------------------

  /** `u * u`. */
  function Sq(u: real): real {
    u * u
  }

  /** The host's square root is non-negative on non-negative arguments. */
  ghost predicate RootNonNeg(sqrt: real -> real) {
    forall a :: 0.0 <= a ==> 0.0 <= sqrt(a)
  }

  /**
   * What the model assumes of the host's square root, on non-negative arguments:
   * its result is non-negative, it is strictly increasing, and it undoes squaring.
   */
  ghost predicate IsSqrt(sqrt: real -> real) {
    && RootNonNeg(sqrt)
    && (forall a, b :: 0.0 <= a < b ==> sqrt(a) < sqrt(b))
    && (forall r :: 0.0 <= r ==> sqrt(Sq(r)) == r)
  }

  /** `dx * dx + dy * dy` for the two comets. */
  function SqDist(a: Comet, b: Comet): real {
    Sq(a.x - b.x) + Sq(a.y - b.y)
  }

  /** The Euclidean distance between the two comets. */
  function Distance(a: Comet, b: Comet, sqrt: real -> real): real {
    sqrt(SqDist(a, b))
  }

  /** The pair is joined: its distance is strictly below the threshold. */
  predicate Near(a: Comet, b: Comet, t: real, sqrt: real -> real) {
    Distance(a, b, sqrt) < t
  }

  /** The line drawn between `a` (first end) and `b` (second end) of a joined pair. */
  function LineFor(a: Comet, b: Comet, t: real, sqrt: real -> real): (l: Line)
    requires RootNonNeg(sqrt) && Near(a, b, t, sqrt)
    // a pair can only be near under a positive threshold, so the division is safe
    ensures 0.0 < t
    // the opacity of a drawn line lies in (0, 1]
    ensures 0.0 < l.opacity <= 1.0
  {
    SqDistNonNeg(a, b);
    Ratio(Distance(a, b, sqrt), t);
    Line(a.id + "-" + b.id, a.x, a.y, b.x, b.y, 1.0 - Distance(a, b, sqrt) / t)
  }

  // ---------------------------------------------------------------------------------
  // The pairs the double loop joins, for any test `joined` on `n` indices
  // ---------------------------------------------------------------------------------

  /** `p` comes before `q` in the order in which the double loop visits pairs. */
  predicate LexLess(p: (nat, nat), q: (nat, nat)) {
    p.0 < q.0 || (p.0 == q.0 && p.1 < q.1)
  }

  /** The pairs `(i, j')`, `i < j' < j`, that the inner loop has joined once it reaches `j`, in visiting order. */
  function RowPairs(n: nat, joined: (nat, nat) -> bool, i: nat, j: nat): (r: seq<(nat, nat)>)
    requires i < j <= n
    ensures forall k :: 0 <= k < |r| ==> r[k].0 == i < r[k].1 < j && joined(r[k].0, r[k].1)
    decreases j
  {
    if j == i + 1 then []
    else RowPairs(n, joined, i, j - 1) + (if joined(i, j - 1) then [(i, j - 1)] else [])
  }

  /** The pairs that the double loop has joined before row `i`, in visiting order. */
  function PairsBefore(n: nat, joined: (nat, nat) -> bool, i: nat): (r: seq<(nat, nat)>)
    requires i <= n
    ensures forall k :: 0 <= k < |r| ==> r[k].0 < i && r[k].0 < r[k].1 < n && joined(r[k].0, r[k].1)
  {
    if i == 0 then [] else PairsBefore(n, joined, i - 1) + RowPairs(n, joined, i - 1, n)
  }

  /** All pairs `(i, j)`, `i < j < n`, that pass the test, in the order of the double loop. */
  function Pairs(n: nat, joined: (nat, nat) -> bool): seq<(nat, nat)> {
    PairsBefore(n, joined, n)
  }

  /** A row holds at most as many pairs as the inner loop has steps, in strictly increasing order of the second index. */
  lemma {:induction false} RowPairsOrdered(n: nat, joined: (nat, nat) -> bool, i: nat, j: nat)
    requires i < j <= n
    ensures |RowPairs(n, joined, i, j)| < j - i
    ensures forall a, b :: 0 <= a < b < |RowPairs(n, joined, i, j)| ==>
      RowPairs(n, joined, i, j)[a].1 < RowPairs(n, joined, i, j)[b].1
    decreases j
  {
    if j > i + 1 {
      RowPairsOrdered(n, joined, i, j - 1);
    }
  }

  /** Before row `i` there are at most `i(2n - i - 1)/2` pairs: the steps of the inner loop so far. */
  lemma {:induction false} PairsBeforeCount(n: nat, joined: (nat, nat) -> bool, i: nat)
    requires i <= n
    ensures 2 * |PairsBefore(n, joined, i)| <= i * (2 * n - i - 1)
  {
    if i > 0 {
      PairsBeforeCount(n, joined, i - 1);
      RowPairsOrdered(n, joined, i - 1, n);
      assert (i - 1) * (2 * n - i) + 2 * (n - i) == i * (2 * n - i - 1);
    }
  }

  /** When every pair passes the test, a row holds one pair per step of the inner loop. */
  lemma {:induction false} RowPairsAll(n: nat, joined: (nat, nat) -> bool, i: nat, j: nat)
    requires i < j <= n && forall a, b :: joined(a, b)
    ensures |RowPairs(n, joined, i, j)| == j - i - 1
    decreases j
  {
    if j > i + 1 {
      RowPairsAll(n, joined, i, j - 1);
    }
  }

  /** When every pair passes the test, there are exactly `i(2n - i - 1)/2` pairs before row `i`. */
  lemma {:induction false} PairsBeforeAll(n: nat, joined: (nat, nat) -> bool, i: nat)
    requires i <= n && forall a, b :: joined(a, b)
    ensures 2 * |PairsBefore(n, joined, i)| == i * (2 * n - i - 1)
  {
    if i > 0 {
      PairsBeforeAll(n, joined, i - 1);
      RowPairsAll(n, joined, i - 1, n);
      assert (i - 1) * (2 * n - i) + 2 * (n - i) == i * (2 * n - i - 1);
    }
  }

  /** The double loop visits exactly n(n-1)/2 pairs: with a test every pair passes, that many are kept. */
  lemma PairsVisited(n: nat)
    ensures 2 * |Pairs(n, (a: nat, b: nat) => true)| == n * (n - 1)
  {
    PairsBeforeAll(n, (a: nat, b: nat) => true, n);
  }

  /** The pairs come in strictly increasing lexicographic order. */
  predicate LexSorted(ps: seq<(nat, nat)>) {
    forall a, b :: 0 <= a < b < |ps| ==> LexLess(ps[a], ps[b])
  }

  /** Two sorted lists, every pair of the first before every pair of the second, are sorted end to end. */
  lemma LexSortedAppend(ps: seq<(nat, nat)>, qs: seq<(nat, nat)>)
    requires LexSorted(ps) && LexSorted(qs)
    requires forall a, b :: 0 <= a < |ps| && 0 <= b < |qs| ==> LexLess(ps[a], qs[b])
    ensures LexSorted(ps + qs)
  {
    forall a, b | 0 <= a < b < |ps + qs| ensures LexLess((ps + qs)[a], (ps + qs)[b]) {
      if b < |ps| {
        assert (ps + qs)[a] == ps[a] && (ps + qs)[b] == ps[b];
      } else if a < |ps| {
        assert (ps + qs)[a] == ps[a] && (ps + qs)[b] == qs[b - |ps|];
      } else {
        assert (ps + qs)[a] == qs[a - |ps|] && (ps + qs)[b] == qs[b - |ps|];
      }
    }
  }

  /** The pairs before row `i` come in strictly increasing lexicographic order. */
  lemma {:induction false} PairsBeforeOrdered(n: nat, joined: (nat, nat) -> bool, i: nat)
    requires i <= n
    ensures LexSorted(PairsBefore(n, joined, i))
  {
    if i > 0 {
      PairsBeforeOrdered(n, joined, i - 1);
      RowPairsOrdered(n, joined, i - 1, n);
      LexSortedAppend(PairsBefore(n, joined, i - 1), RowPairs(n, joined, i - 1, n));
    }
  }

  /** Completeness of a row: every `j' < j` joined with `i` is in the row. */
  lemma {:induction false} RowPairsComplete(n: nat, joined: (nat, nat) -> bool, i: nat, j: nat, j': nat)
    requires i < j' < j <= n && joined(i, j')
    ensures (i, j') in RowPairs(n, joined, i, j)
    decreases j
  {
    if j' < j - 1 {
      RowPairsComplete(n, joined, i, j - 1, j');
    }
  }

  /** Completeness before row `i`: every pair that passes the test and whose first index is below `i` is there. */
  lemma {:induction false} PairsBeforeComplete(n: nat, joined: (nat, nat) -> bool, i: nat, p: (nat, nat))
    requires i <= n && p.0 < i && p.0 < p.1 < n && joined(p.0, p.1)
    ensures p in PairsBefore(n, joined, i)
  {
    if p.0 == i - 1 {
      RowPairsComplete(n, joined, i - 1, n, p.1);
    } else {
      PairsBeforeComplete(n, joined, i - 1, p);
    }
  }

  /**
   * Soundness and completeness of the double loop: a pair is visited and kept exactly when
   * `i < j < n` and it passes the test; it is kept once (the pairs come in strictly increasing
   * lexicographic order); there are at most n(n-1)/2 of them.
   */
  lemma PairsSoundComplete(n: nat, joined: (nat, nat) -> bool, p: (nat, nat))
    ensures p in Pairs(n, joined) <==> p.0 < p.1 < n && joined(p.0, p.1)
    ensures forall a, b :: 0 <= a < b < |Pairs(n, joined)| ==>
      LexLess(Pairs(n, joined)[a], Pairs(n, joined)[b]) && Pairs(n, joined)[a] != Pairs(n, joined)[b]
    ensures 2 * |Pairs(n, joined)| <= n * (n - 1)
  {
    PairsBeforeOrdered(n, joined, n);
    PairsBeforeCount(n, joined, n);
    if p.0 < p.1 < n && joined(p.0, p.1) {
      PairsBeforeComplete(n, joined, n, p);
    }
  }

  /** Fewer than two comets give no pair at all. */
  lemma NoPairsUnderTwo(n: nat, joined: (nat, nat) -> bool)
    requires n < 2
    ensures Pairs(n, joined) == []
  {
    if n == 1 {
      assert RowPairs(n, joined, 0, 1) == [];
    }
  }

  /** `line` is defined on every pair that passes the test. */
  ghost predicate DefinedOn<L>(joined: (nat, nat) -> bool, line: (nat, nat) --> L) {
    forall a, b :: joined(a, b) ==> line.requires(a, b)
  }

  /** `ls` holds the images under `line` of the pairs `ps`, in the same order. */
  ghost predicate Images<L>(ls: seq<L>, ps: seq<(nat, nat)>, line: (nat, nat) --> L) {
    && |ls| == |ps|
    && forall k :: 0 <= k < |ps| ==> line.requires(ps[k].0, ps[k].1) && ls[k] == line(ps[k].0, ps[k].1)
  }

  /**
   * The images, under `line`, of the pairs `(i, j')`, `i < j' < j`, that the inner loop has
   * joined once it reaches `j`: what the inner loop has pushed.
   */
  function RowLines<L>(n: nat, joined: (nat, nat) -> bool, line: (nat, nat) --> L, i: nat, j: nat): seq<L>
    requires i < j <= n && DefinedOn(joined, line)
    decreases j
  {
    if j == i + 1 then []
    else RowLines(n, joined, line, i, j - 1) + (if joined(i, j - 1) then [line(i, j - 1)] else [])
  }

  /** What the double loop has pushed before row `i`. */
  function LinesBefore<L>(n: nat, joined: (nat, nat) -> bool, line: (nat, nat) --> L, i: nat): seq<L>
    requires i <= n && DefinedOn(joined, line)
  {
    if i == 0 then [] else LinesBefore(n, joined, line, i - 1) + RowLines(n, joined, line, i - 1, n)
  }

  /** Images of two lists of pairs, put end to end, are the images of the two lists end to end. */
  lemma ImagesAppend<L>(ls: seq<L>, ps: seq<(nat, nat)>, ms: seq<L>, qs: seq<(nat, nat)>, line: (nat, nat) --> L)
    requires Images(ls, ps, line) && Images(ms, qs, line)
    ensures Images(ls + ms, ps + qs, line)
  {
    forall k | 0 <= k < |ps + qs|
      ensures line.requires((ps + qs)[k].0, (ps + qs)[k].1) && (ls + ms)[k] == line((ps + qs)[k].0, (ps + qs)[k].1)
    {
      if k < |ps| {
        assert (ls + ms)[k] == ls[k] && (ps + qs)[k] == ps[k];
      } else {
        assert (ls + ms)[k] == ms[k - |ps|] && (ps + qs)[k] == qs[k - |ps|];
      }
    }
  }

  /** What a row pushes is the image of the row's pairs. */
  lemma {:induction false} RowLinesMatch<L>(n: nat, joined: (nat, nat) -> bool, line: (nat, nat) --> L, i: nat, j: nat)
    requires i < j <= n && DefinedOn(joined, line)
    ensures Images(RowLines(n, joined, line, i, j), RowPairs(n, joined, i, j), line)
    decreases j
  {
    if j > i + 1 {
      RowLinesMatch(n, joined, line, i, j - 1);
      var last: seq<(nat, nat)> := if joined(i, j - 1) then [(i, j - 1)] else [];
      var lastL := if joined(i, j - 1) then [line(i, j - 1)] else [];
      ImagesAppend(RowLines(n, joined, line, i, j - 1), RowPairs(n, joined, i, j - 1), lastL, last, line);
    }
  }

  /** What the double loop pushes before row `i` is the image of the pairs before row `i`. */
  lemma {:induction false} LinesBeforeMatch<L>(n: nat, joined: (nat, nat) -> bool, line: (nat, nat) --> L, i: nat)
    requires i <= n && DefinedOn(joined, line)
    ensures Images(LinesBefore(n, joined, line, i), PairsBefore(n, joined, i), line)
  {
    if i > 0 {
      LinesBeforeMatch(n, joined, line, i - 1);
      RowLinesMatch(n, joined, line, i - 1, n);
      ImagesAppend(LinesBefore(n, joined, line, i - 1), PairsBefore(n, joined, i - 1),
                   RowLines(n, joined, line, i - 1, n), RowPairs(n, joined, i - 1, n), line);
    }
  }

  // ---------------------------------------------------------------------------------
  // The lines of the drawing
  // ---------------------------------------------------------------------------------

  /** The pair `(i, j)` of indices of the list is joined. */
  predicate NearPair(cs: seq<Comet>, t: real, sqrt: real -> real, p: (nat, nat)) {
    p.0 < p.1 < |cs| && Near(cs[p.0], cs[p.1], t, sqrt)
  }

  /** The threshold test of the loop, as a test on pairs of indices. */
  function Joined(cs: seq<Comet>, t: real, sqrt: real -> real): (nat, nat) -> bool {
    (i: nat, j: nat) => NearPair(cs, t, sqrt, (i, j))
  }

  /** The line the loop pushes for a joined pair of indices. */
  function LineAt(cs: seq<Comet>, t: real, sqrt: real -> real): (nat, nat) --> Line {
    (i: nat, j: nat) requires RootNonNeg(sqrt) && NearPair(cs, t, sqrt, (i, j)) => LineFor(cs[i], cs[j], t, sqrt)
  }

  /** The lines of the drawing, in the order in which the double loop pushes them. */
  function Lines(cs: seq<Comet>, t: real, sqrt: real -> real): (r: seq<Line>)
    requires RootNonNeg(sqrt)
    // one line per joined pair
    ensures |r| == |Pairs(|cs|, Joined(cs, t, sqrt))|
    // every line is drawn with an opacity in (0, 1]
    ensures forall k :: 0 <= k < |r| ==> 0.0 < r[k].opacity <= 1.0
  {
    LineAtDefined(cs, t, sqrt);
    LinesBeforeMatch(|cs|, Joined(cs, t, sqrt), LineAt(cs, t, sqrt), |cs|);
    LinesBefore(|cs|, Joined(cs, t, sqrt), LineAt(cs, t, sqrt), |cs|)
  }

  /**
   * The double loop of ConstellationLines: for `i` from 0, run the inner loop of row `i`.
   * The result is the drawing `Lines`.
   */
  method BuildLines(comets: seq<Comet>, sqrt: real -> real, threshold: real := DefaultThreshold) returns (lines: seq<Line>)
    requires RootNonNeg(sqrt)
    ensures lines == Lines(comets, threshold, sqrt)
  {
    LineAtDefined(comets, threshold, sqrt);
    lines := [];
    var n := |comets|;
    for i := 0 to n
      invariant lines == LinesBefore(n, Joined(comets, threshold, sqrt), LineAt(comets, threshold, sqrt), i)
    {
      lines := PushRow(comets, threshold, sqrt, i, lines);
    }
  }

  /** The drawing's own call uses the default threshold of 200. */
  method BuildDefaultLines(comets: seq<Comet>, sqrt: real -> real) returns (lines: seq<Line>)
    requires RootNonNeg(sqrt)
    ensures lines == Lines(comets, DefaultThreshold, sqrt)
  {
    lines := BuildLines(comets, sqrt);
  }

  /**
   * The inner loop of row `i`: for `j` from `i + 1`, push the line of `(i, j)` when the distance
   * of the pair is below the threshold.
   */
  method PushRow(comets: seq<Comet>, threshold: real, sqrt: real -> real, i: nat, lines: seq<Line>)
    returns (lines': seq<Line>)
    requires RootNonNeg(sqrt) && i < |comets|
    ensures lines' == lines + RowLines(|comets|, Joined(comets, threshold, sqrt), LineAt(comets, threshold, sqrt), i, |comets|)
  {
    lines' := lines;
    var n := |comets|;
    ghost var joined, lineAt := Joined(comets, threshold, sqrt), LineAt(comets, threshold, sqrt);
    for j := i + 1 to n
      invariant lines' == lines + RowLines(n, joined, lineAt, i, j)
    {
      RowLinesStep(comets, threshold, sqrt, i, j);
      AppendAssoc(lines, RowLines(n, joined, lineAt, i, j), if Near(comets[i], comets[j], threshold, sqrt) then [LineFor(comets[i], comets[j], threshold, sqrt)] else []);
      lines' := VisitPair(comets, threshold, sqrt, i, j, lines');
    }
  }

  /** The body of the inner loop: the distance of comets `i` and `j`, and the push of their line when it is below the threshold. */
  method VisitPair(comets: seq<Comet>, threshold: real, sqrt: real -> real, i: nat, j: nat, lines: seq<Line>)
    returns (lines': seq<Line>)
    requires RootNonNeg(sqrt) && i < j < |comets|
    ensures lines' == lines + if Near(comets[i], comets[j], threshold, sqrt) then [LineFor(comets[i], comets[j], threshold, sqrt)] else []
  {
    lines' := lines;
    var dx := comets[i].x - comets[j].x;
    var dy := comets[i].y - comets[j].y;
    var dist := sqrt(dx * dx + dy * dy);
    LoopDistance(comets[i], comets[j], threshold, sqrt, dx, dy);
    if dist < threshold {
      var strength := 1.0 - dist / threshold;
      var line := Line(comets[i].id + "-" + comets[j].id,
                       comets[i].x, comets[i].y, comets[j].x, comets[j].y, strength);
      LoopLine(comets[i], comets[j], threshold, sqrt, dist);
      lines' := lines' + [line];
    }
  }

  /** The line is defined on every joined pair: for such a pair it is `LineFor` of its two comets. */
  lemma LineAtDefined(cs: seq<Comet>, t: real, sqrt: real -> real)
    requires RootNonNeg(sqrt)
    ensures DefinedOn(Joined(cs, t, sqrt), LineAt(cs, t, sqrt))
  {
  }

  /** One step of the inner loop of row `i`, on the comets: the line of `(i, j)` is pushed exactly when the pair is near. */
  lemma RowLinesStep(cs: seq<Comet>, t: real, sqrt: real -> real, i: nat, j: nat)
    requires RootNonNeg(sqrt) && i < j < |cs|
    ensures DefinedOn(Joined(cs, t, sqrt), LineAt(cs, t, sqrt))
    ensures RowLines(|cs|, Joined(cs, t, sqrt), LineAt(cs, t, sqrt), i, j + 1)
      == RowLines(|cs|, Joined(cs, t, sqrt), LineAt(cs, t, sqrt), i, j)
        + (if Near(cs[i], cs[j], t, sqrt) then [LineFor(cs[i], cs[j], t, sqrt)] else [])
  {
    LineAtDefined(cs, t, sqrt);
  }

  /** What the loop body computes from `dx` and `dy` is the distance of the two comets, and its test is `Near`. */
  lemma LoopDistance(a: Comet, b: Comet, t: real, sqrt: real -> real, dx: real, dy: real)
    requires RootNonNeg(sqrt)
    requires dx == a.x - b.x && dy == a.y - b.y
    ensures sqrt(dx * dx + dy * dy) == Distance(a, b, sqrt)
    ensures 0.0 <= sqrt(dx * dx + dy * dy)
    ensures sqrt(dx * dx + dy * dy) < t <==> Near(a, b, t, sqrt)
  {
    assert dx * dx + dy * dy == SqDist(a, b);
    SqDistNonNeg(a, b);
  }

  /** The line the loop body builds for a pair below the threshold is `LineFor` of the pair. */
  lemma LoopLine(a: Comet, b: Comet, t: real, sqrt: real -> real, dist: real)
    requires RootNonNeg(sqrt) && dist == Distance(a, b, sqrt) && dist < t
    ensures Near(a, b, t, sqrt)
    ensures Line(a.id + "-" + b.id, a.x, a.y, b.x, b.y, 1.0 - dist / t) == LineFor(a, b, t, sqrt)
  {
  }

  /** Concatenation is associative. */
  lemma AppendAssoc<T>(a: seq<T>, b: seq<T>, c: seq<T>)
    ensures (a + b) + c == a + (b + c)
  {
  }

  /**
   * A pair of comets is joined exactly when `i < j` and their distance is strictly below the
   * threshold.
   */
  lemma JoinedSoundComplete(cs: seq<Comet>, t: real, sqrt: real -> real, p: (nat, nat))
    ensures p in Pairs(|cs|, Joined(cs, t, sqrt)) <==> p.0 < p.1 < |cs| && Near(cs[p.0], cs[p.1], t, sqrt)
  {
    PairsSoundComplete(|cs|, Joined(cs, t, sqrt), p);
  }

  /**
   * The drawing has one line per joined pair, in the same order: the line of pair `(i, j)`
   * is `LineFor` of the pair, so it has key `id_i-id_j`, runs from comet `i` to comet `j`,
   * and has opacity `1 - distance/threshold`, in (0, 1].
   * Hence there are at most n(n-1)/2 lines, and none with fewer than two comets.
   */
  lemma LinesOfPairs(cs: seq<Comet>, t: real, sqrt: real -> real)
    requires IsSqrt(sqrt)
    ensures |Lines(cs, t, sqrt)| == |Pairs(|cs|, Joined(cs, t, sqrt))|
    ensures 2 * |Lines(cs, t, sqrt)| <= |cs| * (|cs| - 1)
    ensures forall k :: 0 <= k < |Lines(cs, t, sqrt)| ==>
      var (i, j) := Pairs(|cs|, Joined(cs, t, sqrt))[k];
      var l := Lines(cs, t, sqrt)[k];
      && i < j < |cs|
      && Near(cs[i], cs[j], t, sqrt)
      && l == LineFor(cs[i], cs[j], t, sqrt)
      && l.key == cs[i].id + "-" + cs[j].id
      && l.x1 == cs[i].x && l.y1 == cs[i].y && l.x2 == cs[j].x && l.y2 == cs[j].y
      && 0.0 < l.opacity <= 1.0
  {
    var joined, lineAt := Joined(cs, t, sqrt), LineAt(cs, t, sqrt);
    var ps, ls := Pairs(|cs|, joined), Lines(cs, t, sqrt);
    LinesBeforeMatch(|cs|, joined, lineAt, |cs|);
    PairsSoundComplete(|cs|, joined, (0, 0));
    forall k | 0 <= k < |ps|
      ensures ls[k] == LineFor(cs[ps[k].0], cs[ps[k].1], t, sqrt)
      ensures 0.0 < ls[k].opacity <= 1.0
    {
      assert joined(ps[k].0, ps[k].1);
      OpacityRange(cs[ps[k].0], cs[ps[k].1], t, sqrt);
    }
  }

  /** A key `a-b` determines `a` and `b` when the first ids have the same length. */
  lemma KeyInjective(a: string, b: string, c: string, d: string)
    requires |a| == |c|
    ensures a + "-" + b == c + "-" + d ==> a == c && b == d
  {
    if a + "-" + b == c + "-" + d {
      assert a == (a + "-" + b)[..|a|] && c == (c + "-" + d)[..|c|];
      assert b == (a + "-" + b)[|a| + 1..] && d == (c + "-" + d)[|c| + 1..];
    }
  }

  /**
   * When the ids are unique and all of the same length (as generated UUIDs are), no two lines
   * of the drawing share a key.
   */
  lemma KeysDistinct(cs: seq<Comet>, t: real, sqrt: real -> real, len: nat)
    requires IsSqrt(sqrt) && UniqueIds(cs)
    requires forall k :: 0 <= k < |cs| ==> |cs[k].id| == len
    ensures forall a, b :: 0 <= a < b < |Lines(cs, t, sqrt)| ==> Lines(cs, t, sqrt)[a].key != Lines(cs, t, sqrt)[b].key
  {
    var ps, ls := Pairs(|cs|, Joined(cs, t, sqrt)), Lines(cs, t, sqrt);
    LinesOfPairs(cs, t, sqrt);
    PairsSoundComplete(|cs|, Joined(cs, t, sqrt), (0, 0));
    forall a, b | 0 <= a < b < |ls| ensures ls[a].key != ls[b].key {
      var i, j, i', j' := ps[a].0, ps[a].1, ps[b].0, ps[b].1;
      KeyInjective(cs[i].id, cs[j].id, cs[i'].id, cs[j'].id);
      assert i != i' || j != j';
      assert cs[i].id != cs[i'].id || cs[j].id != cs[j'].id;
    }
  }

  /** With ids of different lengths, two different pairs can get the same key: ids `a-b`, `c`, `a`, `b-c`. */
  lemma KeyClashExample()
    ensures "a-b" + "-" + "c" == "a" + "-" + "b-c"
  {
  }

  // ---------------------------------------------------------------------------------
  // Arithmetic of the distance and the opacity
  // ---------------------------------------------------------------------------------

  /** Squares are non-negative. */
  lemma SqNonNeg(u: real)
    ensures 0.0 <= Sq(u)
  {
  }

  /** A number and its opposite have the same square. */
  lemma SqNeg(u: real)
    ensures Sq(-u) == Sq(u)
  {
  }

  /** Only zero squares to zero (the square root undoes squaring, so squaring is injective on each sign). */
  lemma SqZero(u: real, sqrt: real -> real)
    requires IsSqrt(sqrt)
    ensures Sq(u) == 0.0 <==> u == 0.0
  {
    assert Sq(0.0) == 0.0;
    if u < 0.0 {
      SqNeg(u);
      assert sqrt(Sq(-u)) == -u;
    } else {
      assert sqrt(Sq(u)) == u;
    }
  }

  /** The squared distance is non-negative. */
  lemma SqDistNonNeg(a: Comet, b: Comet)
    ensures 0.0 <= SqDist(a, b)
  {
    SqNonNeg(a.x - b.x);
    SqNonNeg(a.y - b.y);
  }

  /** On non-negative arguments the square root preserves and reflects the order. */
  lemma SqrtOrder(sqrt: real -> real, a: real, b: real)
    requires IsSqrt(sqrt) && 0.0 <= a && 0.0 <= b
    ensures a < b <==> sqrt(a) < sqrt(b)
    ensures a <= b <==> sqrt(a) <= sqrt(b)
  {
  }

  /** The distance is non-negative, and zero exactly when the two comets are at the same place. */
  lemma DistanceSign(a: Comet, b: Comet, sqrt: real -> real)
    requires IsSqrt(sqrt)
    ensures 0.0 <= Distance(a, b, sqrt)
    ensures Distance(a, b, sqrt) == 0.0 <==> a.x == b.x && a.y == b.y
  {
    SqDistNonNeg(a, b);
    SqNonNeg(a.x - b.x);
    SqNonNeg(a.y - b.y);
    SqZero(a.x - b.x, sqrt);
    SqZero(a.y - b.y, sqrt);
    assert Sq(0.0) == 0.0 && sqrt(Sq(0.0)) == 0.0;
    SqrtOrder(sqrt, 0.0, SqDist(a, b));
  }

  /** The threshold test on the distance is the test `dx*dx + dy*dy < t*t` with `t > 0`; a pair at exactly the threshold is not joined. */
  lemma NearIffSquared(a: Comet, b: Comet, t: real, sqrt: real -> real)
    requires IsSqrt(sqrt)
    ensures Near(a, b, t, sqrt) <==> 0.0 < t && SqDist(a, b) < Sq(t)
  {
    DistanceSign(a, b, sqrt);
    SqDistNonNeg(a, b);
    if 0.0 < t {
      SqNonNeg(t);
      assert sqrt(Sq(t)) == t;
      SqrtOrder(sqrt, SqDist(a, b), Sq(t));
    }
  }

  /** Every joined pair is drawn with opacity in (0, 1], and the opacity is 1 exactly when the two comets coincide. */
  lemma OpacityRange(a: Comet, b: Comet, t: real, sqrt: real -> real)
    requires IsSqrt(sqrt) && Near(a, b, t, sqrt)
    ensures 0.0 < t
    ensures 0.0 < LineFor(a, b, t, sqrt).opacity <= 1.0
    ensures LineFor(a, b, t, sqrt).opacity == 1.0 <==> a.x == b.x && a.y == b.y
  {
    DistanceSign(a, b, sqrt);
    Ratio(Distance(a, b, sqrt), t);
    RatioZero(Distance(a, b, sqrt), t);
  }

  /** Of two joined pairs, the closer one (by squared distance, no square root needed) has the greater or equal opacity, and conversely. */
  lemma OpacityMonotone(a: Comet, b: Comet, c: Comet, d: Comet, t: real, sqrt: real -> real)
    requires IsSqrt(sqrt) && Near(a, b, t, sqrt) && Near(c, d, t, sqrt)
    ensures SqDist(a, b) <= SqDist(c, d) <==> LineFor(c, d, t, sqrt).opacity <= LineFor(a, b, t, sqrt).opacity
  {
    OpacityRange(a, b, t, sqrt);
    SqDistNonNeg(a, b);
    SqDistNonNeg(c, d);
    SqrtOrder(sqrt, SqDist(a, b), SqDist(c, d));
    RatioOrder(Distance(a, b, sqrt), Distance(c, d, sqrt), t);
  }

  /** A quotient of a non-negative real by a larger one lies in [0, 1). */
  lemma Ratio(d: real, t: real)
    requires 0.0 <= d < t
    ensures 0.0 <= d / t
    ensures d / t < 1.0
  {
  }

  /** Such a quotient is zero only for a zero numerator. */
  lemma RatioZero(d: real, t: real)
    requires 0.0 <= d < t
    ensures d / t == 0.0 <==> d == 0.0
  {
  }

  /** Dividing by a positive real preserves and reflects the order. */
  lemma RatioOrder(d1: real, d2: real, t: real)
    requires 0.0 < t
    ensures d1 <= d2 <==> d1 / t <= d2 / t
  {
  }

  /** Two comets 150 apart (along x) are joined under the default threshold, with opacity 0.25. */
  lemma JoinedExample(a: Comet, b: Comet, sqrt: real -> real)
    requires IsSqrt(sqrt)
    requires b.x == a.x + 150.0 && b.y == a.y
    ensures Near(a, b, DefaultThreshold, sqrt)
    ensures LineFor(a, b, DefaultThreshold, sqrt).opacity == 0.25
  {
    assert SqDist(a, b) == Sq(150.0) by {
      SqNeg(150.0);
      assert a.x - b.x == -150.0;
    }
    assert sqrt(Sq(150.0)) == 150.0;
  }

  /** Two comets exactly 200 apart are not joined under the default threshold. */
  lemma ThresholdExcludedExample(a: Comet, b: Comet, sqrt: real -> real)
    requires IsSqrt(sqrt)
    requires b.x == a.x + 200.0 && b.y == a.y
    ensures !Near(a, b, DefaultThreshold, sqrt)
  {
    assert SqDist(a, b) == Sq(200.0) by {
      SqNeg(200.0);
      assert a.x - b.x == -200.0;
    }
    assert sqrt(Sq(200.0)) == 200.0;
  }
}
