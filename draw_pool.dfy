/**
 * The counted-draw tile grid of the narrator console, as values.
 *
 * A grid is the sequence of its tiles (type, face-up flag, clickable flag),
 * the quota of tiles to reveal and three tallies. The transitions below are
 * the specification of the grid's methods (module HexGrid proves its
 * classes against them); the lemmas state what a draw promises.
 */
module DrawPool {
  import opened Wrappers

  /** Positions of the honeycomb layout: a centre, an inner ring of 6 and an outer ring of 12. */
  const Slots: nat := 19

  datatype TileType = Success | Complication

  /** One tile as the grid sees it. */
  datatype Cell = Cell(kind: TileType, revealed: bool, active: bool)

  /** The payload of the drawFinished signal. */
  datatype DrawResult = DrawResult(successes: nat, complications: nat)

  datatype Grid = Grid(cells: seq<Cell>, drawLimit: nat, drawnCount: nat,
                       successesDrawn: nat, complicationsDrawn: nat)

  /** A grid after one event, with the drawFinished signal if the event emitted it. */
  datatype Step = Step(grid: Grid, finished: Option<DrawResult>)

  /** A grid after a sequence of clicks, with every drawFinished signal emitted on the way. */
  datatype Trace = Trace(grid: Grid, events: seq<DrawResult>)

  // ---------------------------------------------------------------------
  // Building the pool

  /** `[t] * n` */
  function Repeat(t: TileType, n: nat): (r: seq<TileType>)
    ensures |r| == n
    ensures forall i :: 0 <= i < n ==> r[i] == t
    ensures multiset(r)[t] == n
    ensures forall u :: u != t ==> multiset(r)[u] == 0
  {
    if n == 0 then [] else Repeat(t, n - 1) + [t]
  }

  /** The tile list before the shuffle: the success tiles, then the complication tiles. */
  function InitialTypes(successes: nat, complications: nat): (r: seq<TileType>)
    ensures |r| == successes + complications
    ensures forall i :: 0 <= i < successes ==> r[i] == Success
    ensures forall i :: successes <= i < |r| ==> r[i] == Complication
    ensures multiset(r)[Success] == successes && multiset(r)[Complication] == complications
  {
    Repeat(Success, successes) + Repeat(Complication, complications)
  }

  function Min(a: nat, b: nat): nat
  {
    if a <= b then a else b
  }

  /** Newly placed tiles: face-down and not clickable, in the order given. */
  function FaceDown(kinds: seq<TileType>): seq<Cell>
  {
    seq(|kinds|, i requires 0 <= i < |kinds| => Cell(kinds[i], false, false))
  }

  function Kinds(cells: seq<Cell>): seq<TileType>
  {
    seq(|cells|, i requires 0 <= i < |cells| => cells[i].kind)
  }

  /** The grid after setup_grid, given the shuffled tile list: one tile per layout slot
      while slots last; the counters are left as they were. */
  function Layout(g: Grid, shuffled: seq<TileType>): Grid
  {
    g.(cells := FaceDown(shuffled[..Min(|shuffled|, Slots)]))
  }

  // ---------------------------------------------------------------------
  // Counting face-up tiles

  function Counts(c: Cell, t: TileType): nat
  {
    if c.revealed && c.kind == t then 1 else 0
  }

  /** Number of face-up tiles of type `t`. */
  function CountRevealed(cells: seq<Cell>, t: TileType): nat
  {
    if cells == [] then 0 else Counts(cells[0], t) + CountRevealed(cells[1..], t)
  }

  /** Number of face-up tiles. */
  function NumRevealed(cells: seq<Cell>): (r: nat)
    ensures r <= |cells|
  {
    if cells == [] then 0 else (if cells[0].revealed then 1 else 0) + NumRevealed(cells[1..])
  }

  predicate NoneRevealed(cells: seq<Cell>)
  {
    forall i :: 0 <= i < |cells| ==> !cells[i].revealed
  }

  predicate AnyActive(cells: seq<Cell>)
  {
    exists i :: 0 <= i < |cells| && cells[i].active
  }

  predicate AllActive(cells: seq<Cell>)
  {
    forall i :: 0 <= i < |cells| ==> cells[i].active
  }

  // ---------------------------------------------------------------------
  // Transitions

  /** HexTileItem.reveal: turns the tile face-up; a face-up tile is left as it is. */
  function Reveal(c: Cell): (r: Cell)
    ensures r.revealed && r.kind == c.kind && r.active == c.active
    ensures c.revealed ==> r == c
  {
    if c.revealed then c else c.(revealed := true)
  }

  /** HexTileItem.reset: face-down and not clickable. */
  function ResetTile(c: Cell): (r: Cell)
    ensures !r.revealed && !r.active && r.kind == c.kind
  {
    c.(revealed := false, active := false)
  }

  function SetActive(cells: seq<Cell>, b: bool): seq<Cell>
  {
    seq(|cells|, i requires 0 <= i < |cells| => cells[i].(active := b))
  }

  function ResetAll(cells: seq<Cell>): seq<Cell>
  {
    seq(|cells|, i requires 0 <= i < |cells| => ResetTile(cells[i]))
  }

  /** The grid as the view's constructor leaves it. */
  function NewGrid(): Grid
  {
    Grid([], 0, 0, 0, 0)
  }

  /** start_interactive_draw: set the quota, zero the tallies, make every tile clickable. */
  function StartDraw(g: Grid, n: nat): Grid
  {
    Grid(SetActive(g.cells, true), n, 0, 0, 0)
  }

  /** on_tile_revealed: count a tile of type `t`; at the quota, disable every tile and
      emit the tallies. */
  function CountTile(g: Grid, t: TileType): Step
  {
    var drawn := g.drawnCount + 1;
    var s := if t == Success then g.successesDrawn + 1 else g.successesDrawn;
    var c := if t == Success then g.complicationsDrawn else g.complicationsDrawn + 1;
    if drawn >= g.drawLimit then
      Step(Grid(SetActive(g.cells, false), g.drawLimit, drawn, s, c), Some(DrawResult(s, c)))
    else
      Step(Grid(g.cells, g.drawLimit, drawn, s, c), None)
  }

  /** The guard of mousePressEvent. */
  predicate Clickable(g: Grid, k: nat)
  {
    k < |g.cells| && g.cells[k].active && !g.cells[k].revealed
  }

  /** mousePressEvent. `hit` is the tile under the pointer: None, or an index that is not
      a tile of the grid, when the click lands on no tile. */
  function Click(g: Grid, hit: Option<nat>): Step
  {
    if hit.Some? && Clickable(g, hit.value) then
      var k := hit.value;
      CountTile(g.(cells := g.cells[k := Reveal(g.cells[k])]), g.cells[k].kind)
    else
      Step(g, None)
  }

  /** Clicks in order, collecting the drawFinished signals. */
  function Run(g: Grid, hits: seq<Option<nat>>): Trace
    decreases |hits|
  {
    if hits == [] then Trace(g, [])
    else
      var step := Click(g, hits[0]);
      var rest := Run(step.grid, hits[1..]);
      Trace(rest.grid, (if step.finished.Some? then [step.finished.value] else []) + rest.events)
  }

  /** reset_grid: zero the quota and the tallies, turn every tile face-down. */
  function ResetGrid(g: Grid): Grid
  {
    Grid(ResetAll(g.cells), 0, 0, 0, 0)
  }

  // ---------------------------------------------------------------------
  // Invariants of a draw

  /** The drawn count is the sum of the two tallies. */
  predicate Counted(g: Grid)
  {
    g.drawnCount == g.successesDrawn + g.complicationsDrawn
  }

  /** The tallies count exactly the face-up tiles of each type. */
  predicate Tallied(g: Grid)
  {
    g.successesDrawn == CountRevealed(g.cells, Success)
    && g.complicationsDrawn == CountRevealed(g.cells, Complication)
  }

  /** The quota is never overrun, and a tile is clickable only while it is not reached. */
  predicate WithinQuota(g: Grid)
  {
    g.drawnCount <= g.drawLimit && (AnyActive(g.cells) ==> g.drawnCount < g.drawLimit)
  }

  predicate Inv(g: Grid)
  {
    Counted(g) && Tallied(g) && WithinQuota(g)
  }

  // ---------------------------------------------------------------------
  // Lemmas about counting

  lemma {:induction false} RevealedSplits(cells: seq<Cell>)
    ensures NumRevealed(cells) == CountRevealed(cells, Success) + CountRevealed(cells, Complication)
  {
    if cells != [] {
      RevealedSplits(cells[1..]);
    }
  }

  /** Replacing one tile changes the count of type `t` by the difference of the two tiles' shares. */
  lemma {:induction false} CountAfterUpdate(cells: seq<Cell>, k: nat, c: Cell, t: TileType)
    requires k < |cells|
    ensures CountRevealed(cells[k := c], t) + Counts(cells[k], t) == CountRevealed(cells, t) + Counts(c, t)
  {
    if k == 0 {
      assert cells[k := c][1..] == cells[1..];
    } else {
      assert cells[k := c][1..] == cells[1..][k - 1 := c];
      CountAfterUpdate(cells[1..], k - 1, c, t);
    }
  }

  lemma {:induction false} SetActiveKeepsCounts(cells: seq<Cell>, b: bool, t: TileType)
    ensures CountRevealed(SetActive(cells, b), t) == CountRevealed(cells, t)
  {
    if cells != [] {
      assert SetActive(cells, b)[1..] == SetActive(cells[1..], b);
      SetActiveKeepsCounts(cells[1..], b, t);
    }
  }

  lemma {:induction false} NoneRevealedCountsZero(cells: seq<Cell>, t: TileType)
    requires NoneRevealed(cells)
    ensures CountRevealed(cells, t) == 0 && NumRevealed(cells) == 0
  {
    if cells != [] {
      NoneRevealedCountsZero(cells[1..], t);
    }
  }

  /** Fewer face-up tiles than tiles means some tile is face-down. */
  lemma {:induction false} SomeFaceDown(cells: seq<Cell>) returns (k: nat)
    requires NumRevealed(cells) < |cells|
    ensures k < |cells| && !cells[k].revealed
  {
    if cells[0].revealed {
      k := SomeFaceDown(cells[1..]);
      k := k + 1;
    } else {
      k := 0;
    }
  }

  // ---------------------------------------------------------------------
  // Lemmas about the transitions

  /** setup_grid: the shuffled list is a permutation of `successes` success tiles and
      `complications` complication tiles, and the grid keeps at most Slots of them, a prefix
      of the shuffled list, face-down; an empty list gives an empty grid. */
  lemma LayoutComposition(g: Grid, successes: nat, complications: nat, shuffled: seq<TileType>)
    requires multiset(shuffled) == multiset(InitialTypes(successes, complications))
    ensures var r := Layout(g, shuffled);
      && |r.cells| == Min(successes + complications, Slots)
      && Kinds(r.cells) == shuffled[..|r.cells|]
      && NoneRevealed(r.cells) && !AnyActive(r.cells)
      && multiset(Kinds(r.cells)) <= multiset(InitialTypes(successes, complications))
      && (successes + complications <= Slots ==>
            multiset(Kinds(r.cells))[Success] == successes
            && multiset(Kinds(r.cells))[Complication] == complications)
      && r.drawLimit == g.drawLimit && r.drawnCount == g.drawnCount
      && r.successesDrawn == g.successesDrawn && r.complicationsDrawn == g.complicationsDrawn
  {
    var m := Min(|shuffled|, Slots);
    assert |shuffled| == successes + complications by {
      assert |multiset(shuffled)| == |shuffled|;
    }
    var r := Layout(g, shuffled);
    assert Kinds(r.cells) == shuffled[..m];
    assert shuffled == shuffled[..m] + shuffled[m..];
    calc {
      multiset(shuffled);
      multiset(shuffled[..m] + shuffled[m..]);
      multiset(shuffled[..m]) + multiset(shuffled[m..]);
    }
    if successes + complications <= Slots {
      assert shuffled[..m] == shuffled;
    }
  }

  /** start_interactive_draw sets the quota, zeroes the tallies and activates every tile,
      changing neither the tiles' types nor their faces. With a quota of at least 1 the draw
      invariant holds, provided no tile is face-up yet. */
  lemma StartDrawPrepares(g: Grid, n: nat)
    ensures var r := StartDraw(g, n);
      && |r.cells| == |g.cells| && Kinds(r.cells) == Kinds(g.cells) && AllActive(r.cells)
      && (forall i :: 0 <= i < |r.cells| ==> r.cells[i].revealed == g.cells[i].revealed)
      && r.drawLimit == n && r.drawnCount == 0 && r.successesDrawn == 0 && r.complicationsDrawn == 0
      && Counted(r) && (1 <= n ==> WithinQuota(r))
      && (1 <= n && NoneRevealed(g.cells) ==> Inv(r))
  {
    var r := StartDraw(g, n);
    assert Kinds(r.cells) == Kinds(g.cells);
    if 1 <= n && NoneRevealed(g.cells) {
      assert NoneRevealed(r.cells);
      NoneRevealedCountsZero(r.cells, Success);
      NoneRevealedCountsZero(r.cells, Complication);
    }
  }

  /** What a click does: on a clickable tile it turns that tile face-up and counts it once,
      in the tally of its type; on anything else it changes nothing and emits nothing.
      Either way no face-up tile is turned back and no tile changes type. */
  lemma ClickEffect(g: Grid, hit: Option<nat>)
    ensures var r := Click(g, hit).grid;
      && |r.cells| == |g.cells| && Kinds(r.cells) == Kinds(g.cells) && r.drawLimit == g.drawLimit
      && (forall i :: 0 <= i < |g.cells| && g.cells[i].revealed ==> r.cells[i].revealed)
      && if hit.Some? && Clickable(g, hit.value) then
           var k := hit.value;
           && r.cells[k].revealed
           && (forall i :: 0 <= i < |g.cells| && i != k ==> r.cells[i].revealed == g.cells[i].revealed)
           && NumRevealed(r.cells) == NumRevealed(g.cells) + 1
           && r.drawnCount == g.drawnCount + 1
           && (g.cells[k].kind == Success ==>
                 r.successesDrawn == g.successesDrawn + 1 && r.complicationsDrawn == g.complicationsDrawn)
           && (g.cells[k].kind == Complication ==>
                 r.successesDrawn == g.successesDrawn && r.complicationsDrawn == g.complicationsDrawn + 1)
         else
           Click(g, hit) == Step(g, None)
  {
    var r := Click(g, hit).grid;
    if hit.Some? && Clickable(g, hit.value) {
      var k := hit.value;
      var up := g.cells[k := Reveal(g.cells[k])];
      assert r.cells == up || r.cells == SetActive(up, false);
      assert Kinds(r.cells) == Kinds(g.cells);
      forall t: TileType
        ensures CountRevealed(r.cells, t) + Counts(g.cells[k], t) == CountRevealed(g.cells, t) + Counts(up[k], t)
      {
        CountAfterUpdate(g.cells, k, up[k], t);
        SetActiveKeepsCounts(up, false, t);
      }
      RevealedSplits(g.cells);
      RevealedSplits(r.cells);
    } else {
      assert Kinds(r.cells) == Kinds(g.cells);
    }
  }

  /** A click keeps the draw invariant. When it emits drawFinished, the draw had not yet
      reached its quota, now has reached it exactly, every tile is disabled, and the signal
      carries the tallies of face-up tiles. Without the signal, an unfinished draw stays
      unfinished and a fully clickable grid stays fully clickable. */
  lemma ClickPreservesInv(g: Grid, hit: Option<nat>)
    requires Inv(g)
    ensures var s := Click(g, hit);
      && Inv(s.grid)
      && (s.finished.Some? ==>
            && g.drawnCount < g.drawLimit
            && s.grid.drawnCount == g.drawLimit
            && !AnyActive(s.grid.cells)
            && s.finished.value == DrawResult(CountRevealed(s.grid.cells, Success),
                                              CountRevealed(s.grid.cells, Complication)))
      && (s.finished.None? && g.drawnCount < g.drawLimit ==> s.grid.drawnCount < g.drawLimit)
      && (s.finished.None? && AllActive(g.cells) ==> AllActive(s.grid.cells))
  {
    ClickEffect(g, hit);
    var s := Click(g, hit);
    if hit.Some? && Clickable(g, hit.value) {
      var k := hit.value;
      var up := g.cells[k := Reveal(g.cells[k])];
      assert g.cells[k].active;
      assert AnyActive(g.cells);
      forall t: TileType
        ensures CountRevealed(s.grid.cells, t) + Counts(g.cells[k], t) == CountRevealed(g.cells, t) + Counts(up[k], t)
      {
        CountAfterUpdate(g.cells, k, up[k], t);
        SetActiveKeepsCounts(up, false, t);
      }
    }
  }

  /** Once no tile is clickable (in particular once the quota is reached), no click changes
      anything or emits anything. */
  lemma FrozenGridIgnoresClicks(g: Grid, hit: Option<nat>)
    requires !AnyActive(g.cells)
    ensures Click(g, hit) == Step(g, None)
  {
  }

  lemma {:induction false} FrozenRun(g: Grid, hits: seq<Option<nat>>)
    requires !AnyActive(g.cells)
    ensures Run(g, hits) == Trace(g, [])
    decreases |hits|
  {
    if hits != [] {
      FrozenGridIgnoresClicks(g, hits[0]);
      FrozenRun(g, hits[1..]);
    }
  }

  /** Any sequence of clicks keeps the draw invariant and never turns a tile face-down; the
      drawFinished signal fires exactly once if the run takes an unfinished draw to its
      quota and never otherwise, and carries the final tallies of face-up tiles. */
  lemma {:induction false} RunPreservesInv(g: Grid, hits: seq<Option<nat>>)
    requires Inv(g)
    ensures var t := Run(g, hits);
      && Inv(t.grid)
      && t.grid.drawLimit == g.drawLimit && |t.grid.cells| == |g.cells|
      && g.drawnCount <= t.grid.drawnCount
      && NumRevealed(t.grid.cells) == t.grid.drawnCount
      && Kinds(t.grid.cells) == Kinds(g.cells)
      && (forall i :: 0 <= i < |g.cells| && g.cells[i].revealed ==> t.grid.cells[i].revealed)
      && |t.events| == (if g.drawnCount < g.drawLimit && t.grid.drawnCount == g.drawLimit then 1 else 0)
      && (forall e :: e in t.events ==>
            e == DrawResult(CountRevealed(t.grid.cells, Success), CountRevealed(t.grid.cells, Complication)))
    decreases |hits|
  {
    var t := Run(g, hits);
    if hits == [] {
      RevealedSplits(g.cells);
    } else {
      var s := Click(g, hits[0]);
      ClickEffect(g, hits[0]);
      ClickPreservesInv(g, hits[0]);
      if s.finished.Some? {
        FrozenRun(s.grid, hits[1..]);
        RevealedSplits(s.grid.cells);
      } else {
        RunPreservesInv(s.grid, hits[1..]);
      }
    }
  }

  /** A counted draw with quota n >= 1 on a grid with no face-up tile: whatever tiles are
      clicked and in whatever order, the number of face-up tiles is the drawn count and never
      exceeds n, and drawFinished fires at most once, exactly when n tiles are face-up,
      carrying the tallies of those tiles, which add up to n. */
  lemma CountedDraw(g: Grid, n: nat, hits: seq<Option<nat>>)
    requires NoneRevealed(g.cells) && 1 <= n
    ensures var t := Run(StartDraw(g, n), hits);
      && NumRevealed(t.grid.cells) == t.grid.drawnCount <= n
      && |t.events| <= 1
      && (|t.events| == 1 <==> t.grid.drawnCount == n)
      && (t.events != [] ==>
            && t.events[0] == DrawResult(CountRevealed(t.grid.cells, Success),
                                         CountRevealed(t.grid.cells, Complication))
            && t.events[0].successes + t.events[0].complications == n)
  {
    StartDrawPrepares(g, n);
    RunPreservesInv(StartDraw(g, n), hits);
    var t := Run(StartDraw(g, n), hits);
    if t.events != [] {
      assert t.events[0] in t.events;
    }
  }

  /** While a draw whose quota fits the grid is unfinished and every tile is still enabled,
      some tile can be clicked: the quota is always reachable. */
  lemma UnfinishedDrawCanContinue(g: Grid) returns (k: nat)
    requires Inv(g) && AllActive(g.cells)
    requires g.drawnCount < g.drawLimit <= |g.cells|
    ensures Clickable(g, k)
  {
    RevealedSplits(g.cells);
    k := SomeFaceDown(g.cells);
  }

  /** When every tile is face-up, the face-up tiles of a type are all the tiles of that type. */
  lemma {:induction false} AllRevealedCounts(cells: seq<Cell>, t: TileType)
    requires NumRevealed(cells) == |cells|
    ensures CountRevealed(cells, t) == multiset(Kinds(cells))[t]
  {
    if cells != [] {
      assert Kinds(cells) == [cells[0].kind] + Kinds(cells[1..]);
      AllRevealedCounts(cells[1..], t);
    }
  }

  /** The draw can always be finished: from an unfinished draw whose quota fits the grid and
      whose tiles are all enabled, clicking some face-down tile at each step reaches the
      quota in exactly quota - drawn clicks, and drawFinished fires once. */
  lemma {:induction false} CanReachQuota(g: Grid) returns (hits: seq<Option<nat>>)
    requires Inv(g) && AllActive(g.cells)
    requires g.drawnCount < g.drawLimit <= |g.cells|
    ensures |hits| == g.drawLimit - g.drawnCount
    ensures var t := Run(g, hits); |t.events| == 1 && t.grid.drawnCount == g.drawLimit
    decreases g.drawLimit - g.drawnCount
  {
    var k := UnfinishedDrawCanContinue(g);
    var s := Click(g, Some(k));
    ClickEffect(g, Some(k));
    ClickPreservesInv(g, Some(k));
    if s.finished.Some? {
      hits := [Some(k)];
      assert hits[1..] == [];
    } else {
      var rest := CanReachQuota(s.grid);
      hits := [Some(k)] + rest;
      assert hits[1..] == rest;
    }
  }

  /** The tally of a full draw: on a grid freshly laid out from `successes` success tiles and
      `complications` complication tiles (at most 19 in all), a draw whose quota is the whole
      grid emits exactly (successes, complications), whatever the click order, and it emits
      it exactly when every tile is face-up. */
  lemma FullDrawTally(g: Grid, successes: nat, complications: nat, shuffled: seq<TileType>,
                      hits: seq<Option<nat>>)
    requires multiset(shuffled) == multiset(InitialTypes(successes, complications))
    requires 1 <= successes + complications <= Slots
    ensures var t := Run(StartDraw(Layout(g, shuffled), successes + complications), hits);
      && (t.events != [] <==> NumRevealed(t.grid.cells) == |t.grid.cells|)
      && (t.events != [] ==> t.events == [DrawResult(successes, complications)])
  {
    var n := successes + complications;
    var l := Layout(g, shuffled);
    LayoutComposition(g, successes, complications, shuffled);
    StartDrawPrepares(l, n);
    CountedDraw(l, n, hits);
    RunPreservesInv(StartDraw(l, n), hits);
    var t := Run(StartDraw(l, n), hits);
    if t.events != [] {
      AllRevealedCounts(t.grid.cells, Success);
      AllRevealedCounts(t.grid.cells, Complication);
    }
  }

  /** reset_grid turns every tile face-down and disabled, keeps their types, and zeroes the
      quota and the tallies, so the draw invariant holds again. */
  lemma ResetGridClears(g: Grid)
    ensures var r := ResetGrid(g);
      && |r.cells| == |g.cells| && Kinds(r.cells) == Kinds(g.cells)
      && NoneRevealed(r.cells) && !AnyActive(r.cells)
      && r.drawLimit == 0 && r.drawnCount == 0 && r.successesDrawn == 0 && r.complicationsDrawn == 0
      && Inv(r)
  {
    var r := ResetGrid(g);
    assert Kinds(r.cells) == Kinds(g.cells);
    NoneRevealedCountsZero(r.cells, Success);
    NoneRevealedCountsZero(r.cells, Complication);
  }
}
