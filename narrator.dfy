/**
 * The narrator console's rules around a counted draw: the quota check made
 * before a draw starts (begin_interactive_draw) and the danger rule applied to
 * the final tally (display_final_results). Widgets, labels and messages are
 * not modelled; a rejected quota is reported as a QuotaError.
 */
module Narrator {
  import opened Wrappers
  import opened DrawPool
  import opened HexGrid

  /** Why begin_interactive_draw refused to start a draw. */
  datatype QuotaError = ZeroTiles | TooManyTiles(requested: nat, available: nat)

  /** The checks of begin_interactive_draw: a quota of 0 and a quota above the number of
      tiles in the grid are refused, in that order; any other quota is accepted. */
  function CheckQuota(numToDraw: nat, totalTiles: nat): (r: Result<nat, QuotaError>)
    ensures r.Ok? <==> 1 <= numToDraw <= totalTiles
    ensures r.Ok? ==> r.value == numToDraw
    ensures numToDraw == 0 ==> r == Err(ZeroTiles)
    ensures 0 < numToDraw && totalTiles < numToDraw ==> r == Err(TooManyTiles(numToDraw, totalTiles))
  {
    if numToDraw == 0 then Err(ZeroTiles)
    else if numToDraw > totalTiles then Err(TooManyTiles(numToDraw, totalTiles))
    else Ok(numToDraw)
  }

  /** begin_interactive_draw: a refused quota leaves the grid as it was; an accepted one
      starts the draw. */
  method BeginInteractiveDraw(view: HexGridDraw, numToDraw: nat) returns (r: Result<nat, QuotaError>)
    requires view.Valid()
    modifies view, view.tiles
    ensures view.Valid() && view.tiles == old(view.tiles)
    ensures r == CheckQuota(numToDraw, |view.tiles|)
    ensures r.Err? ==> view.State() == old(view.State())
    ensures r.Ok? ==> view.State() == StartDraw(old(view.State()), numToDraw)
  {
    var totalTiles := |view.tiles|;
    if numToDraw == 0 {
      return Err(ZeroTiles);
    }
    if numToDraw > totalTiles {
      return Err(TooManyTiles(numToDraw, totalTiles));
    }
    view.StartInteractiveDraw(numToDraw);
    r := Ok(numToDraw);
  }

  /** A quota that passes the check, started on a grid with no face-up tile, gives a draw
      that keeps the draw invariant, has every tile clickable and can reach its quota: the
      returned clicks, one per tile to reveal, finish the draw with drawFinished emitted once
      and carrying tallies that add up to the quota. */
  lemma AcceptedQuotaCanFinish(g: Grid, numToDraw: nat) returns (hits: seq<Option<nat>>)
    requires CheckQuota(numToDraw, |g.cells|).Ok?
    requires NoneRevealed(g.cells)
    ensures var s := StartDraw(g, numToDraw);
      && Inv(s) && AllActive(s.cells) && s.drawnCount < s.drawLimit <= |s.cells|
      && |hits| == numToDraw
      && var t := Run(s, hits);
         && |t.events| == 1 && NumRevealed(t.grid.cells) == numToDraw
         && t.events[0].successes + t.events[0].complications == numToDraw
  {
    StartDrawPrepares(g, numToDraw);
    var s := StartDraw(g, numToDraw);
    hits := CanReachQuota(s);
    CountedDraw(g, numToDraw, hits);
  }

  /** The danger rule of display_final_results: at danger 1 to 4 the hero leaves the scene
      when the complications drawn reach the danger level; at danger 0 (or any other level)
      never. */
  function LeavesScene(danger: nat, complications: nat): (leaves: bool)
    ensures leaves <==> 1 <= danger <= 4 && danger <= complications
  {
    if danger > 0 then
      || (danger == 1 && complications >= 1)
      || (danger == 2 && complications >= 2)
      || (danger == 3 && complications >= 3)
      || (danger == 4 && complications >= 4)
    else
      false
  }
}
