/**
 * The tile objects and the grid view of the narrator console (HexTileItem and
 * HexGridDraw), whose methods update their fields in place. Each method is
 * proved to move the view's abstract state, State(), as the transition of the
 * same name in module DrawPool says.
 */
module HexGrid {
  import opened Wrappers
  import opened DrawPool

  /** random.shuffle: some permutation of the list, chosen arbitrarily. Each round swaps the
      last unplaced element with an arbitrary unplaced one, so every order can come out; no
      distribution is modelled. */
  method Shuffle(s: seq<TileType>) returns (r: seq<TileType>)
    ensures multiset(r) == multiset(s)
  {
    r := s;
    var i := |r|;
    while i > 1
      invariant 0 <= i <= |r| == |s|
      invariant multiset(r) == multiset(s)
    {
      var j :| 0 <= j < i;
      r := r[i - 1 := r[j]][j := r[i - 1]];
      i := i - 1;
    }
  }

  /** A clickable, flippable tile of the grid. */
  class HexTile {
    const tileType: TileType
    var isRevealed: bool
    var isActive: bool

    function View(): Cell
      reads this
    {
      Cell(tileType, isRevealed, isActive)
    }

    /** A new tile is face-down and not clickable. */
    constructor (tileType: TileType)
      ensures View() == Cell(tileType, false, false)
    {
      this.tileType := tileType;
      isRevealed := false;
      isActive := false;
    }

    method Reveal()
      modifies this
      ensures View() == DrawPool.Reveal(old(View()))
    {
      if isRevealed {
        return;
      }
      isRevealed := true;
    }

    method Reset()
      modifies this
      ensures View() == ResetTile(old(View()))
    {
      isRevealed := false;
      isActive := false;
    }
  }

  /** The tiles' views, in grid order. */
  function CellsOf(tiles: seq<HexTile>): seq<Cell>
    reads tiles
  {
    seq(|tiles|, i requires 0 <= i < |tiles| reads tiles => tiles[i].View())
  }

  /** The grid view: its tiles, the quota and the three tallies. */
  class HexGridDraw {
    var tiles: seq<HexTile>
    var drawLimit: nat
    var drawnCount: nat
    var successesDrawn: nat
    var complicationsDrawn: nat

    /** Every tile object occupies one slot of the layout. */
    ghost predicate Valid()
      reads this
    {
      |tiles| <= Slots && forall i, j :: 0 <= i < j < |tiles| ==> tiles[i] != tiles[j]
    }

    function State(): Grid
      reads this, tiles
    {
      Grid(CellsOf(tiles), drawLimit, drawnCount, successesDrawn, complicationsDrawn)
    }

    constructor ()
      ensures Valid() && State() == NewGrid()
    {
      tiles := [];
      drawLimit, drawnCount, successesDrawn, complicationsDrawn := 0, 0, 0, 0;
    }

    /** setup_grid: replaces the tiles by new face-down ones, one per layout slot while slots
        last, taken in order from a shuffle of the success and complication tiles. */
    method SetupGrid(successes: nat, complications: nat) returns (ghost shuffled: seq<TileType>)
      modifies this
      ensures Valid()
      ensures forall t :: t in tiles ==> fresh(t)
      ensures multiset(shuffled) == multiset(InitialTypes(successes, complications))
      ensures State() == Layout(old(State()), shuffled)
    {
      tiles := [];
      var tileTypes := InitialTypes(successes, complications);
      tileTypes := Shuffle(tileTypes);
      shuffled := tileTypes;
      if tileTypes == [] {
        return;
      }
      for i := 0 to |tileTypes|
        invariant |tiles| == i <= Slots
        invariant forall a, b :: 0 <= a < b < |tiles| ==> tiles[a] != tiles[b]
        invariant forall t :: t in tiles ==> fresh(t)
        invariant CellsOf(tiles) == FaceDown(tileTypes[..i])
        invariant drawLimit == old(drawLimit) && drawnCount == old(drawnCount)
        invariant successesDrawn == old(successesDrawn) && complicationsDrawn == old(complicationsDrawn)
      {
        if i >= Slots {
          break;
        }
        ghost var placed := CellsOf(tiles);
        var tile := new HexTile(tileTypes[i]);
        tiles := tiles + [tile];
        assert CellsOf(tiles) == placed + [Cell(tileTypes[i], false, false)];
        assert tileTypes[..i + 1] == tileTypes[..i] + [tileTypes[i]];
      }
    }

    /** The loop over the tiles that sets every tile's clickable flag to `b`. */
    method SetAllActive(b: bool)
      requires Valid()
      modifies tiles
      ensures CellsOf(tiles) == SetActive(old(CellsOf(tiles)), b)
    {
      for i := 0 to |tiles|
        invariant forall j :: 0 <= j < i ==> tiles[j].View() == old(tiles[j].View()).(active := b)
        invariant forall j :: i <= j < |tiles| ==> tiles[j].View() == old(tiles[j].View())
      {
        tiles[i].isActive := b;
      }
    }

    /** start_interactive_draw */
    method StartInteractiveDraw(numToDraw: nat)
      requires Valid()
      modifies this, tiles
      ensures Valid() && tiles == old(tiles)
      ensures State() == StartDraw(old(State()), numToDraw)
    {
      drawLimit := numToDraw;
      drawnCount := 0;
      successesDrawn := 0;
      complicationsDrawn := 0;
      SetAllActive(true);
    }

    /** on_tile_revealed */
    method OnTileRevealed(tileType: TileType) returns (finished: Option<DrawResult>)
      requires Valid()
      modifies this, tiles
      ensures Valid() && tiles == old(tiles)
      ensures Step(State(), finished) == CountTile(old(State()), tileType)
    {
      drawnCount := drawnCount + 1;
      if tileType == Success {
        successesDrawn := successesDrawn + 1;
      } else {
        complicationsDrawn := complicationsDrawn + 1;
      }
      if drawnCount >= drawLimit {
        SetAllActive(false);
        finished := Some(DrawResult(successesDrawn, complicationsDrawn));
      } else {
        finished := None;
      }
    }

    /** mousePressEvent: `hit` is the index of the tile under the pointer; None, or an index
        that is not a tile of the grid, when the click lands on no tile. */
    method MousePress(hit: Option<nat>) returns (finished: Option<DrawResult>)
      requires Valid()
      modifies this, tiles
      ensures Valid() && tiles == old(tiles)
      ensures Step(State(), finished) == Click(old(State()), hit)
    {
      if hit.Some? && hit.value < |tiles| && tiles[hit.value].isActive && !tiles[hit.value].isRevealed {
        var k := hit.value;
        var item := tiles[k];
        item.Reveal();
        assert CellsOf(tiles) == old(CellsOf(tiles))[k := DrawPool.Reveal(old(CellsOf(tiles))[k])];
        finished := OnTileRevealed(item.tileType);
      } else {
        finished := None;
      }
    }

    /** reset_grid */
    method ResetGrid()
      requires Valid()
      modifies this, tiles
      ensures Valid() && tiles == old(tiles)
      ensures State() == DrawPool.ResetGrid(old(State()))
    {
      drawnCount := 0;
      drawLimit := 0;
      successesDrawn := 0;
      complicationsDrawn := 0;
      for i := 0 to |tiles|
        invariant tiles == old(tiles)
        invariant drawnCount == drawLimit == successesDrawn == complicationsDrawn == 0
        invariant forall j :: 0 <= j < i ==> tiles[j].View() == ResetTile(old(tiles[j].View()))
        invariant forall j :: i <= j < |tiles| ==> tiles[j].View() == old(tiles[j].View())
      {
        tiles[i].Reset();
      }
    }
  }
}
