# Not The End: counted-draw tile grid and hero record, in Dafny

This project models two parts of the "Not The End" tabletop companion.

1. The narrator console's **counted draw** (`nte_tool_v1.py`). The narrator sets up a grid of hexagonal tiles: one success tile per trait used and one complication tile per point of difficulty. The tiles are shuffled, and at most 19 are kept, one per slot of the honeycomb layout. The narrator then starts a draw with a quota of tiles to reveal. Each click on a clickable face-down tile turns it face-up and counts it. When the quota is reached, every tile is disabled and the tally (successes, complications) is emitted. The console refuses a quota of 0 and a quota larger than the grid. From the number of complications and the danger level it decides whether the hero leaves the scene.
2. The **hero sheet** (`src/hero_model.py`). A new hero has a fixed default sheet with 19 empty trait slots. `to_dict` exposes the attributes. `from_dict` rebuilds a hero from a dictionary.

Modules:

- `Wrappers` (`wrappers.dfy`): `Option` and `Result`.
- `DrawPool` (`draw_pool.dfy`): the grid as a value. It holds the tiles (`Cell`: type, face-up, clickable), the quota and the three tallies. It defines the transitions each grid method performs, the draw invariants (`Counted`, `Tallied`, `WithinQuota`) and the lemmas about draws. `Run` feeds a whole sequence of clicks through `Click`.
- `HexGrid` (`hex_grid.dfy`): the classes `HexTile` and `HexGridDraw`, whose methods update fields in place. `HexGridDraw.State()` is the grid's abstract value. Every method ensures that the new `State()` is the `DrawPool` transition applied to the old one. So every lemma about the transitions also holds of the objects.
- `Narrator` (`narrator.dfy`): the quota check of `begin_interactive_draw` and the danger rule of `display_final_results`.
- `HeroModel` (`hero_model.dfy`): the class `Hero`. The source reads and writes a hero's attributes by name (`setattr`, `hasattr`, the instance dictionary that `to_dict` returns). So the model keeps them as a map from attribute name to a `Value`. `Value` is a tagged union with one constructor per kind of attribute.

Behaviour of the code that the model keeps:

- `setup_grid` keeps at most 19 tiles, one per layout slot, so the grid holds min(successes + complications, 19) tiles.
- A click that lands on no tile does nothing.
- `begin_interactive_draw` compares the quota with 0 using `==`, then refuses a quota above the number of tiles.

## Model

| member | source | states |
|---|---|---|
| `DrawPool.Repeat` | nte_tool_v1.py:108 | `[t] * n` has length n, holds only t, and its multiset has n copies of t and nothing else |
| `DrawPool.InitialTypes` | nte_tool_v1.py:108 | before the shuffle the list has `successes` success tiles followed by `complications` complication tiles, and its multiset has exactly those counts |
| `DrawPool.Reveal` | nte_tool_v1.py:55-60 | a revealed tile is face-up with its type and clickable flag unchanged, and an already face-up tile is left as it is (idempotence) |
| `DrawPool.ResetTile` | nte_tool_v1.py:65-68 | a reset tile is face-down and not clickable and keeps its type |
| `DrawPool.LayoutComposition` | nte_tool_v1.py:103-159 | after setup the grid holds min(successes + complications, 19) tiles, face-down and disabled, which are a prefix of a permutation of the initial list; their multiset is contained in the initial one and equal to it when at most 19 tiles are asked for; an empty list gives an empty grid; the counters are not touched |
| `DrawPool.StartDrawPrepares` | nte_tool_v1.py:173-180 | starting a draw sets the quota, zeroes the three counters and activates every tile, changing no tile's type or face; with quota >= 1 the quota invariant holds, and the full draw invariant holds on a grid with no face-up tile |
| `DrawPool.ClickEffect` | nte_tool_v1.py:165-170 | a click on an active face-down tile turns that tile and no other face-up, adds one to the drawn count and one to the tally of the tile's type, and adds one face-up tile; any other click changes nothing and emits nothing; face-up tiles never turn back and no tile changes type |
| `DrawPool.ClickPreservesInv` | nte_tool_v1.py:182-193 | a click keeps drawn = successes + complications, the tallies equal to the face-up tiles of each type, and drawn <= quota; drawFinished fires only on the click that reaches the quota, after which every tile is disabled, and it carries the face-up tallies |
| `DrawPool.FrozenGridIgnoresClicks` | nte_tool_v1.py:168 | once no tile is active (in particular after the quota is reached), no click reveals or counts anything |
| `DrawPool.RunPreservesInv` | nte_tool_v1.py:165-193 | over any sequence of clicks the draw invariant holds, no tile turns back or changes type, the number of face-up tiles equals the drawn count, and drawFinished fires exactly once if the run reaches the quota from below and never otherwise, always carrying the final tallies |
| `DrawPool.CountedDraw` | nte_tool_v1.py:173-193 | a draw with quota n >= 1 started on a face-down grid reveals at most n tiles whatever the click order; drawFinished fires at most once, exactly when n distinct tiles are face-up, and its two counts add up to n |
| `DrawPool.UnfinishedDrawCanContinue` | nte_tool_v1.py:168 | while a draw whose quota fits the grid is unfinished and all tiles are enabled, some tile passes the click guard |
| `DrawPool.CanReachQuota` | nte_tool_v1.py:165-193 | from an unfinished draw whose quota fits the grid, with every tile enabled, some sequence of exactly quota - drawn clicks reaches the quota and emits drawFinished once |
| `DrawPool.AllRevealedCounts` | nte_tool_v1.py:184-187 | when every tile is face-up, the tally of face-up tiles of a type is the number of tiles of that type |
| `DrawPool.FullDrawTally` | nte_tool_v1.py:103-193 | on a grid freshly set up from s successes and c complications (s + c between 1 and 19), a draw with quota s + c emits drawFinished exactly when every tile is face-up, and then emits exactly (s, c), whatever the click order |
| `DrawPool.ResetGridClears` | nte_tool_v1.py:195-202 | reset turns every tile face-down and disabled, keeps the tile types, zeroes quota and counters, and re-establishes the draw invariant |
| `HexGrid.Shuffle` | nte_tool_v1.py:109 | the shuffled list is a permutation of the input (same multiset) |
| `HexGrid.HexTile.constructor` | nte_tool_v1.py:31-41 | a new tile has the given type and is face-down and not clickable |
| `HexGrid.HexTile.Reveal` | nte_tool_v1.py:55-63 | the tile object's new view is `DrawPool.Reveal` of its old view |
| `HexGrid.HexTile.Reset` | nte_tool_v1.py:65-71 | the tile object's new view is `DrawPool.ResetTile` of its old view |
| `HexGrid.HexGridDraw.constructor` | nte_tool_v1.py:88-99 | a new view has no tiles, quota 0 and zero counters |
| `HexGrid.HexGridDraw.SetupGrid` | nte_tool_v1.py:103-159 | the tiles are replaced by fresh, distinct tile objects whose state is `Layout` of a permutation of the initial list; the counters are unchanged |
| `HexGrid.HexGridDraw.SetAllActive` | nte_tool_v1.py:179-180 | the loop over the tiles sets every tile's clickable flag and changes nothing else |
| `HexGrid.HexGridDraw.StartInteractiveDraw` | nte_tool_v1.py:173-180 | the new state is `StartDraw` of the old one with the given quota |
| `HexGrid.HexGridDraw.OnTileRevealed` | nte_tool_v1.py:182-193 | the new state and the emitted drawFinished signal are `CountTile` of the old state and the tile type |
| `HexGrid.HexGridDraw.MousePress` | nte_tool_v1.py:165-171 | the new state and the emitted signal are `Click` of the old state and the tile under the pointer |
| `HexGrid.HexGridDraw.ResetGrid` | nte_tool_v1.py:195-202 | the new state is `ResetGrid` of the old one |
| `Narrator.CheckQuota` | nte_tool_v1.py:440-451 | a quota is accepted iff 1 <= quota <= number of tiles; 0 is refused first, then a quota above the grid size |
| `Narrator.BeginInteractiveDraw` | nte_tool_v1.py:440-456 | a refused quota leaves the grid unchanged; an accepted one starts the draw with that quota |
| `Narrator.AcceptedQuotaCanFinish` | nte_tool_v1.py:445-453 | an accepted quota on a face-down grid starts a draw that keeps the invariant with every tile clickable, and there is a sequence of exactly quota clicks that finishes it: drawFinished fires once, with quota tiles face-up and tallies adding up to the quota |
| `Narrator.LeavesScene` | nte_tool_v1.py:469-478 | the hero leaves the scene iff the danger is 1 to 4 and the complications reach it; danger 0 never |
| `HeroModel.EmptyTraits` | src/hero_model.py:23-37 | the default hive has exactly 19 slots, archetype, q1..q6 and a1..a12, each with text "" and 0 tokens |
| `HeroModel.FreshHeroSheet` | src/hero_model.py:13-57 | a new hero has exactly the ten attributes, name "New Hero", empty concept, no resources, scars, lessons or misfortunes, adrenaline and confusion 0, and the 19 empty trait slots |
| `HeroModel.Hero.constructor` | src/hero_model.py:13-57 | the new hero's attributes are the default sheet stamped with the given time |
| `HeroModel.Hero.ToDict` | src/hero_model.py:59-62 | last_updated is restamped and the returned dictionary is the hero's attributes |
| `HeroModel.Hero.FromDict` | src/hero_model.py:64-71 | the new hero's attributes are the defaults overlaid with the input's entries for existing attributes |
| `HeroModel.FromDictFields` | src/hero_model.py:67-71 | from_dict ignores input keys that are not attributes, replaces a present attribute by the input value, and keeps the default of an absent one |
| `HeroModel.FromDictReplacesTraitsWholesale` | src/hero_model.py:69-70 | a one-slot traits entry replaces the whole 19-slot hive (no merge) |
| `HeroModel.RoundTrip` | src/hero_model.py:59-71 | from_dict of a hero's dictionary gives back every attribute of that hero |
| `HeroModel.SaveThenLoad` | src/hero_model.py:125-133 | saving then loading a hero (without the file) yields a hero equal in every attribute, name and resources included |

## Left out

- Everything in `nte_player_v1.py`: it is not part of this model.
- Hexagon geometry and layout coordinates (floating point), Qt rendering, brushes, pens, hover highlighting, `centerOn`, `resizeEvent` and the stylesheet: UI with no effect on the draw. Only the fact that the layout has 19 slots is kept.
- The widget wiring of `NarratorApp`: the constructor, `populate_mock_players`, `on_player_changed`, `update_grid_setup`, `reset_test`, the labels, spin boxes and sliders. The values they pass are parameters of the modelled operations.
- The drawFinished signal and the result labels: the signal is the return value of `OnTileRevealed` and `MousePress`, and the result text is left out except for the leaves-the-scene rule.
- `itemAt`: the item under the pointer is given as an optional tile index.
- `random.shuffle`: modelled as an arbitrary permutation, with no probability distribution.
- `datetime.utcnow()`: the clock reading is a string parameter of the `Hero` constructor and of `ToDict`; its format is not modelled.
- `save_to_file` and `load_from_file`: JSON file I/O and the missing-file or bad-JSON path that returns None. `SaveThenLoad` composes `ToDict` and `FromDict` without the file.
- `hasattr` in `from_dict` also accepts the names of the class's methods and of Python's built-in attributes. The model treats only the ten instance attributes as attributes.
- `to_dict` returns the live instance dictionary, so later changes to the hero show through it. The model returns the dictionary as a value.
- The order of dictionary keys, which JSON output preserves, is not modelled.
- A trait slot or scar is a dictionary of any keys in the source. The model gives it exactly the two keys the source uses, text and tokens.
