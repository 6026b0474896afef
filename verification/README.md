# Emojam: verified model of the emoji terrain, the game area and the player list

Emojam is a multiplayer guessing game played in the browser. This project models its three parts that carry logic, in Dafny.

- **The emoji terrain** (`src/pages/EmojiTerrain.jsx`) is the animated background.
  - A 2048×2048 canvas is drawn as an 8×8 atlas of glyphs.
  - A 200×200 grid of instanced tiles each show one randomly chosen glyph.
  - 5000 "actions" repeatedly pick an idle tile, lift it to height 30 with a random spin, and tween it back to its rest pose.
  - Modules `GlyphAtlas` (atlas.dfy), `TileGrid` (grid.dfy), `TileAnimation` (animation.dfy), `Scheduling` (scheduling.dfy) and `Terrain` (terrain.dfy) model it.
  - `Terrain.TextTerrain` is a class over arrays: the `inAction` flags, the scratch vectors `v`/`v2`, the per-tile dummies, the instance matrix slots, and the state of each action.
  - The tween callbacks `onStart`, `onUpdate` and `onComplete` are its methods.
- **The game area** (`src/components/GameArea.jsx`) is modelled by module `GameArea` (game_area.dfy). It covers:
  - which screen is shown for the game status;
  - the plural of a count;
  - the wrong-guess feedback;
  - the winner or tie at game over;
  - the leaderboard rows.
- **The player list** (`src/components/PlayerList.jsx`) is modelled by module `PlayerList` (player_list.dfy). It shows the count, a placeholder or the rows in score order, the highlight, and the avatar initial.

Both components sort a copy of the player list by descending score. That sort is module `Players` (players.dfy): a stable insertion sort, with its permutation, order and stability proved. JavaScript's `Array.prototype.sort` is stable, so equal scores keep their input order.

Randomness is never modelled as a distribution. Each `Math.random()` draw is a caller-supplied real in [0, 1).

- The tile choice of `getFreeLetterIndex` gets a finite sequence of such draws.
- The noise height and the `lookAt` orientation of each tile are caller-supplied functions `height` and `aim`.
- A three.js matrix is represented by the pose it is composed from, because `updateMatrix` is a deterministic function of position and rotation.

## Model

| member | source | states |
|---|---|---|
| GlyphAtlas.CellInGrid | src/pages/EmojiTerrain.jsx:76-78 | For i < 64, the cell (i % 8, i / 8) lies in the 8×8 grid and gives i back as row·8 + column. |
| GlyphAtlas.CellIndexInverse | src/pages/EmojiTerrain.jsx:76-78 | Every cell of the 8×8 grid is the cell of exactly the index row·8 + column, which is below 64. |
| GlyphAtlas.CellInjective | src/pages/EmojiTerrain.jsx:76-78 | Distinct glyph indices map to distinct atlas cells. |
| GlyphAtlas.GlyphCentreInsideCell | src/pages/EmojiTerrain.jsx:69-80 | The glyph centre x lies strictly inside column i % 8. The flipped y lies strictly inside row i / 8 counted from the bottom, which is row 7 − i / 8 counted from the top. |
| GlyphAtlas.CanvasCellOfCentre | src/pages/EmojiTerrain.jsx:69-85 | For i < 64 the centre lies on the canvas, and the cell containing it is the cell reserved for glyph i. For i ≥ 64 the centre is above the canvas, so that glyph is clipped. |
| GlyphAtlas.GlyphInCanvasCellInverse | src/pages/EmojiTerrain.jsx:76-85 | Each canvas cell holds the glyph whose centre falls in it, so the canvas layout is a bijection with indices 0..63. |
| GlyphAtlas.AtlasImage | src/pages/EmojiTerrain.jsx:72-86 | The atlas image has one entry per cell of the 8×8 grid. `DrawAtlas` proves that the canvas loop produces it, and `GlyphInCanvasCellInverse` and `SampleReadsDrawnGlyph` say which glyph each cell holds. |
| GlyphAtlas.DrawAtlas | src/pages/EmojiTerrain.jsx:72-86 | After the clear and the drawing loop, the canvas equals the atlas image. Each cell holds the glyph of its index when that index is below the alphabet length, and is clear otherwise. |
| GlyphAtlas.ShaderMatchesCanvas | src/pages/EmojiTerrain.jsx:124-127 | For an attribute value within −0.1..0.9 of an integer i, the shader's `floor(v + 0.1)`, `mod(·, 8.)` and `floor(·/8.)` give the column i % 8 and row i / 8 that the canvas loop used. |
| GlyphAtlas.ShaderCell | src/pages/EmojiTerrain.jsx:124-127 | The shader's (u, v) is a whole column in [0, 8) and a whole row, whatever the attribute value. `ShaderMatchesCanvas` says which cell that is for a glyph index. |
| GlyphAtlas.SampledPixelOfCell | src/pages/EmojiTerrain.jsx:124-128 | `SampledPixel`, the canvas pixel behind `texture2D(map, iUv)`: for shader cell (u, v) and plane uv (mu, mv), it is ((u + mu)·256, (7 − v + 1 − mv)·256). The texture's vertical flip is undone, so it lies in canvas column u and canvas row 7 − v. `CentreSamplesGlyphCentre` and `SampleReadsDrawnGlyph` build on it. |
| GlyphAtlas.CentreSamplesGlyphCentre | src/pages/EmojiTerrain.jsx:124-128 | The centre of a tile samples exactly the canvas pixel its glyph was centred on at lines 79-80, once the texture's vertical flip is applied. |
| GlyphAtlas.SampleReadsDrawnGlyph | src/pages/EmojiTerrain.jsx:124-129 | For i below 64 and the alphabet length, every uv in [0,1)×(0,1] samples the canvas cell into which glyph i was drawn, and that cell holds alphabet[i]. |
| GlyphAtlas.RandInt | src/pages/EmojiTerrain.jsx:97 | `randInt(low, high)` lies in [low, high]. |
| GlyphAtlas.LetterIndices | src/pages/EmojiTerrain.jsx:96-98 | There is one index per tile. Each index lies in [0, alphabet.length − 1], and the alphabet's 51 entries fit the 64 atlas cells. |
| GlyphAtlas.EveryTileShowsItsGlyph | src/pages/EmojiTerrain.jsx:96-98 | Every tile's glyph index addresses a drawn cell. At every uv in [0,1)×(0,1], the shader reads that tile's own glyph back. |
| TileGrid.Slot | src/pages/EmojiTerrain.jsx:170 | The instance slot z·dim + x of an in-grid cell is in [0, dim²). |
| TileGrid.SlotInRange | src/pages/EmojiTerrain.jsx:147-170 | The slot of (x, z) is in range, and x and z are recovered from it by % and /. |
| TileGrid.SlotOnto | src/pages/EmojiTerrain.jsx:147-170 | Every slot in [0, dim²) is the slot of some grid cell, so the map is onto. |
| TileGrid.SlotInjective | src/pages/EmojiTerrain.jsx:147-170 | Distinct grid cells get distinct slots. |
| TileGrid.CentreSymmetric | src/pages/EmojiTerrain.jsx:149-150 | pos(x) + pos(dim − 1 − x) = 0, so the grid is symmetric about the origin; neighbouring tiles are 1 apart. |
| TileGrid.RestTile | src/pages/EmojiTerrain.jsx:147-179 | The record for (x, z) sits at the centred grid position, carries its noise height both as `y` and as `pos.y`, and has zero roll. `BuildGrid` places it at slot z·dim + x. |
| TileGrid.BuildGrid | src/pages/EmojiTerrain.jsx:147-181 | The nested loop produces dim² records. The record for (x, z) sits at position z·dim + x of `finals`, and the matrix in that same slot is its rest pose. Every record has its own height in pos.y, a centred grid position and zero roll. |
| TileAnimation.LerpBetween | src/pages/EmojiTerrain.jsx:210-214 | `MathUtils.lerp` meets its endpoints at 0 and 1 and stays between them for t in [0, 1]. |
| TileAnimation.AnimatedPose | src/pages/EmojiTerrain.jsx:206-216 | The pose written by `onUpdate` keeps the tile's x and z. `AnimationEndpoints` and `AnimationStaysOverTile` state its ends and its height range. |
| TileAnimation.AnimationEndpoints | src/pages/EmojiTerrain.jsx:206-215 | At val = 0 the pose is height 30 with rotation v2. At val = 1 it is the rest pose: position `letter.pos` with y = `letter.y`, and rotation `letter.rot`. |
| TileAnimation.AnimationStaysOverTile | src/pages/EmojiTerrain.jsx:209-214 | During the tween, x and z stay those of the tile, and the height stays between the rest height and 30. |
| TileAnimation.StartRotation | src/pages/EmojiTerrain.jsx:195-198 | A sign draw of exactly 0.5 gives no spin. Otherwise every component of v2 has the sign of the draw minus 0.5. `StartRotationRange` gives the magnitudes. |
| TileAnimation.SpinAngleRange | src/pages/EmojiTerrain.jsx:195-198 | One start-rotation component lies in [1.5π, 3π) when the sign draw is above 0.5, in (−3π, −1.5π] when below, and is 0 at exactly 0.5. |
| TileAnimation.StartRotationRange | src/pages/EmojiTerrain.jsx:195-198 | All three components of v2 share that range and sign. |
| TileAnimation.InitialDelay | src/pages/EmojiTerrain.jsx:264-266 | Kick-off delays lie in [1000, 10000). |
| TileAnimation.RescheduleDelay | src/pages/EmojiTerrain.jsx:218-221 | Re-schedule delays lie in [0, 10000). |
| Scheduling.DrawIndex | src/pages/EmojiTerrain.jsx:186 | `Math.floor(Math.random() * finals.length)` is a valid tile index. |
| Scheduling.GetFreeLetterIndex | src/pages/EmojiTerrain.jsx:185-188 | The result is a tile whose flag is clear at selection time and one of the drawn indices. It is `None` exactly when every supplied draw hits a busy tile. |
| Scheduling.AllBusyNeverSelects | src/pages/EmojiTerrain.jsx:185-188 | With every flag set, no draw ever selects a tile, so the recursion can only end if some tile is idle. |
| Scheduling.ClearFlagsTakeFirstDraw | src/pages/EmojiTerrain.jsx:185-188 | With every flag clear, as after construction, the first draw is taken. |
| Scheduling.RunningTiles | src/pages/EmojiTerrain.jsx:203-205 | The tiles being animated: one per running action at most, and each belongs to a running action. |
| Scheduling.BusyCountBounded | src/pages/EmojiTerrain.jsx:203-219 | When every busy flag is owned by a running action, at most as many tiles are busy as there are actions. |
| Scheduling.IdleTileExists | src/pages/EmojiTerrain.jsx:183-188 | When the flags are owned and there are fewer actions than tiles, some tile is idle. |
| Scheduling.SelectKeepsBusyOwned | src/pages/EmojiTerrain.jsx:190-202 | Selecting a tile and scheduling the tween keeps "every busy tile is owned by a running action". |
| Scheduling.StartKeepsBusyOwned | src/pages/EmojiTerrain.jsx:203-205 | `onStart` keeps that invariant. |
| Scheduling.CompleteKeepsBusyOwned | src/pages/EmojiTerrain.jsx:218-219 | Clearing the flag in `onComplete` keeps that invariant. |
| Scheduling.ClaimKeepsExclusive | src/pages/EmojiTerrain.jsx:185-205 | With the flag set at selection, exclusive ownership is preserved. Exclusive ownership means each tile is busy exactly when one scheduled or running action holds it, and no two actions hold the same tile. |
| Scheduling.StartKeepsExclusive | src/pages/EmojiTerrain.jsx:203-205 | `onStart` preserves exclusive ownership. |
| Scheduling.ReleaseKeepsExclusive | src/pages/EmojiTerrain.jsx:218-219 | `onComplete`'s release preserves exclusive ownership. |
| Scheduling.ExclusiveBoundsBusy | src/pages/EmojiTerrain.jsx:183 | Under exclusive ownership, the busy count is at most the number of actions. |
| Scheduling.HeldTiles | src/pages/EmojiTerrain.jsx:190-205 | The tiles held by scheduled or running actions: at most one per action, and each is held by some action. |
| Scheduling.InitialStateOwned | src/pages/EmojiTerrain.jsx:177-183 | All flags clear and no action invoked satisfies both invariants. |
| Terrain.TextTerrain.constructor | src/pages/EmojiTerrain.jsx:94-183 | The terrain has the grid of rest records and matrices, one random glyph per tile, every flag clear, every v and v2 at the origin, and every action not yet invoked. |
| Terrain.TextTerrain.Action | src/pages/EmojiTerrain.jsx:184-202 | The selected tile is the first drawn tile whose flag is clear. Only its v2 and this action's state change. The flags are untouched. "Every busy tile is owned by a running action" is preserved. |
| Terrain.TextTerrain.OnStart | src/pages/EmojiTerrain.jsx:203-205 | The action's tile is flagged busy and the action runs. Both invariants are preserved. |
| Terrain.TextTerrain.OnUpdate | src/pages/EmojiTerrain.jsx:206-216 | Only the action's own tile changes: its v, its dummy and instance slot idx. Those are set to the interpolated pose. |
| Terrain.TextTerrain.Release | src/pages/EmojiTerrain.jsx:218-219 | The running tile's flag is cleared and the action's slot becomes free; nothing else changes. Both the owned-flags invariant and exclusive ownership are preserved. |
| Terrain.TextTerrain.OnComplete | src/pages/EmojiTerrain.jsx:218-221 | The tile's flag is cleared and the same action is re-invoked with a delay in [0, 10000) against the updated flags. The new flags, action states and v2 vectors are given in full: only the newly picked tile's v2 changes. The owned-flags invariant is preserved. |
| Terrain.TextTerrain.KickOff | src/pages/EmojiTerrain.jsx:264-266 | Every action is invoked once, in order, with a delay in [1000, 10000). Each selects against the flags as constructed, since no flag is set during kick-off. The v2 vectors end as `SpinsAfter` of the picks. |
| Terrain.SpinsAfter | src/pages/EmojiTerrain.jsx:195-198 | The v2 vectors after a run of actions, each writing its start rotation into the tile it picked. The vector count is unchanged. |
| Terrain.SpinsAfterSnoc | src/pages/EmojiTerrain.jsx:195-198 | One more action overwrites only the v2 of the tile it picked. |
| Terrain.SpinsAfterUnpicked | src/pages/EmojiTerrain.jsx:195-198 | A tile no action picked keeps its v2. |
| Terrain.SpinsAfterLastPick | src/pages/EmojiTerrain.jsx:195-198 | A picked tile holds the start rotation drawn by the last action that picked it. |
| Terrain.SpinsAfterLastWriter | src/pages/EmojiTerrain.jsx:264-266 | For the kick-off, over all tiles: an unpicked tile keeps its v2, and a picked tile holds its last picker's start rotation. Earlier pickers' rotations are lost. |
| Terrain.TextTerrain.ActionClaiming | src/pages/EmojiTerrain.jsx:184-205 | The corrected action: the flag is set when the tile is selected, and exclusive ownership is preserved. |
| Terrain.TextTerrain.OnCompleteClaiming | src/pages/EmojiTerrain.jsx:218-221 | `onComplete` followed by the corrected action. The pick is made against the flags with the old tile released. The new flags, v2 vectors and action states are given in full for both outcomes, and a failed pick leaves the slot unscheduled. Exclusive ownership is preserved. |
| Terrain.SharedTileScenario | src/pages/EmojiTerrain.jsx:185-220 | As written: two actions on one tile both start animating it. When the first completes, the tile reads idle and is selected again while the second is still animating it. |
| Terrain.ClaimingScenario | src/pages/EmojiTerrain.jsx:185-205 | With claiming at selection, the second action finds the tile busy and selects nothing. |
| Terrain.SourceConfigurationLeavesIdleTile | src/pages/EmojiTerrain.jsx:183-188 | With 200² tiles (line 94) and 5000 actions, while the flags are owned some tile is idle, so `getFreeLetterIndex` can always succeed. |
| Players.SortByScore | src/components/GameArea.jsx:28 | The sorted copy has as many players as the input. `SortPermutes`, `SortOrders` and `SortIsStable` state that it is a stable descending permutation. |
| Players.InsertPermutes | src/components/GameArea.jsx:28 | Inserting adds exactly the inserted player to the multiset. |
| Players.InsertKeepsOrder | src/components/GameArea.jsx:28 | Inserting into a descending list keeps it descending. |
| Players.InsertIsStable | src/components/GameArea.jsx:28 | Insertion puts the player ahead of those with an equal score and leaves each score class otherwise unchanged. |
| Players.SortPermutes | src/components/GameArea.jsx:28 | The sorted list is a permutation of the players, with the same multiset and the same length. |
| Players.SortOrders | src/components/PlayerList.jsx:4 | The sorted list is non-increasing in score. |
| Players.SortIsStable | src/components/PlayerList.jsx:4 | For every score, the players with that score keep their input order. |
| Players.SortOfSortedIsIdentity | src/components/GameArea.jsx:28 | A list already in descending order is unchanged by the sort. |
| Players.SortIsIdempotent | src/components/GameArea.jsx:28 | Sorting the sorted list changes nothing. |
| GameArea.SelectScreen | src/components/GameArea.jsx:53-270 | Each screen is chosen exactly when its own condition holds and every earlier condition of the priority chain fails. |
| GameArea.SpinnerIsTheFallback | src/components/GameArea.jsx:53-270 | The spinner shows exactly when no other condition holds. "waiting" shows the lobby and "playing" shows the round even when `gameOver` is set. |
| GameArea.PlayerNoun | src/components/GameArea.jsx:212-213 | "s" is appended exactly when the count is not 1, both for the lobby's player count (line 69) and for the correct guessers. |
| GameArea.Step | src/components/GameArea.jsx:42-51 | The effect as written, as a transition on the result, `showWrongGuess`, the pending timer and the input. After a new result, a timer is pending exactly when that result is wrong. A pending timer always belongs to a wrong result that shows the banner. |
| GameArea.WrongGuessFeedback | src/components/GameArea.jsx:42-51 | A result with `correct === false` shows the wrong-guess banner and clears the input, and the timer then hides it. A correct result never shows the banner, so it never shows together with "Correct!". Any other result leaves the banner flag and the input as they were. The input is enabled whenever the banner is up. |
| GameArea.StaleWrongBanner | src/components/GameArea.jsx:42-51 | As written: a wrong result, then a correct one, then `null` leave the banner showing with no wrong result in effect. It still shows after a timer event, because the cleanup cancelled the timer. |
| GameArea.StepHiding | src/components/GameArea.jsx:42-51 | The effect with a cleanup that also hides the banner. After a new result, the banner flag is set exactly when that result is wrong, and "the banner belongs to a wrong result with its timer pending" is preserved. |
| GameArea.BannerOnlyForWrongResult | src/components/GameArea.jsx:42-51 | With the hiding cleanup, over any sequence of results and timer events, the banner shows only while the current result is wrong and its timer is pending. |
| GameArea.InitialBannerOwned | src/components/GameArea.jsx:23 | The initial state (`showWrongGuess` false, no result, no timer) satisfies both timer invariants and shows no banner. |
| GameArea.TopScoreIsMaximum | src/components/GameArea.jsx:224 | `sortedPlayers[0].score` is the highest score of the players. |
| GameArea.TopScorersAreTheLeaders | src/components/GameArea.jsx:225 | The top scorers are exactly the players with the highest score, in input order. The list is non-empty when there are players. |
| GameArea.WinnerIsALeader | src/components/GameArea.jsx:226 | `isWinner` holds exactly when some player with the highest score has the current username. |
| GameArea.GameOverBanner | src/components/GameArea.jsx:232-250 | The banner is a tie exactly when there is not exactly one top scorer. It is "You win!" exactly when the single top scorer is the current user. Otherwise it names that top scorer, who is not the current user. |
| GameArea.WinnerOrTie | src/components/GameArea.jsx:232-250 | A single winner is announced exactly when one player has the highest score, as "You" exactly when it is the current user. Otherwise the tie lists every top scorer joined by ", ". With no players the tie branch is taken with an empty list. |
| GameArea.LeaderboardRows | src/components/GameArea.jsx:299-313 | One row per player, in list order. Row i has rank i + 1 and player i's name and score, and is marked "(You)" exactly when the name is the current user's. |
| GameArea.LeaderboardRanks | src/components/GameArea.jsx:299-313 | Row i shows rank i + 1, and "(You)" appears exactly on the current user's rows. Ranks increase while scores do not, and every player has a row. |
| PlayerList.UpperAscii | src/components/PlayerList.jsx:34 | `toUpperCase` on one character maps a–z to A–Z and leaves every other character alone. |
| PlayerList.Initial | src/components/PlayerList.jsx:34 | The avatar is at most one character and is empty exactly for an empty name. Otherwise it is the upper case of the first character: never an ASCII lower-case letter, and the first character itself when that is not a–z. |
| PlayerList.InitialIsStable | src/components/PlayerList.jsx:34 | The initial of an initial is itself. Names whose first letters differ only in case share an initial. |
| PlayerList.Render | src/components/PlayerList.jsx:4-41 | The header count is the number of players, and the placeholder shows exactly when there are none. `RenderShowsEveryPlayer` states the rows. |
| PlayerList.RenderShowsEveryPlayer | src/components/PlayerList.jsx:4-41 | The count is `players.length`, and the placeholder shows exactly when there are none. Otherwise the rows are non-increasing in score, every player has a row, and a row is highlighted and marked "(You)" exactly when it is the current user's. |
| PlayerList.RenderIgnoresPresorting | src/components/PlayerList.jsx:4 | Passing an already sorted list renders the same view as the raw list. |

## Left out

- The SimplexNoise height, the triangle normal, `lookAt` and the zeroed roll (src/pages/EmojiTerrain.jsx:145, 151-167) are floating-point geometry inside three.js. They are the opaque functions `height` and `aim`; only the zeroed roll and the centred position are stated.
- Texture filtering and wrapping are not modelled. A uv sample reads exactly one canvas pixel, and only uv in [0,1)×(0,1] is stated. The plane's edges (u = 1 or v = 0) fall on the neighbouring cell's border, and linear filtering and mipmaps blend neighbouring cells there.
- Real arithmetic stands for 32-bit floats and doubles. Rounding in `Float32Array`, the shader, lerp and the matrices is not modelled. `GlyphAtlas.ShaderMatchesCanvas` allows an error of −0.1..0.9 on the attribute value, which is what `floor(v + 0.1)` tolerates.
- Matrices are not modelled as 4×4 arrays. A matrix slot holds the pose it is composed from (`updateMatrix`, `setMatrixAt`).
- The tween library's clock, easing, the 10000 ms duration, the `delay` timer and the interleaving of 5000 actions are not modelled. Only the discrete transitions are: selection, `onStart`, `onUpdate` with any val in [0, 1], and `onComplete`. The callers choose their order.
- Scheduling.GetFreeLetterIndex: the source keeps drawing until it finds an idle tile. The model takes a finite sequence of draws and returns `None` when all of them hit busy tiles. Terrain.TextTerrain.Action then schedules nothing.
- Terrain.TextTerrain.Action: promises only that the tile is idle at selection time, not exclusive ownership, because the source sets the flag later, in `onStart` (see Findings).
- The grid and the action pool are parameters (`dim`, `pool`). The source's values, 200 and 5000, appear in `Terrain.SourceConfigurationLeavesIdleTile`.
- `getY`'s scale factors (0.01, 7.5), the `mediators` objects as separate allocations, and `letter.dummy` as a three.js object are not modelled. Each tile's `v`, `v2` and dummy are elements of the arrays `lerped`, `spins` and `dummies`.
- Canvas text rendering (font, colour, alignment) is not modelled. The canvas is a sequence of 64 cells, each holding the glyph drawn centred in it or nothing. Texture colour space, anisotropy and the rest of the shaders (alpha test, blending) are not modelled either.
- Renderer, camera, OrbitControls, fog, the animation loop, the resize handler and the cleanup (src/pages/EmojiTerrain.jsx:233-308) are WebGL and DOM plumbing.
- The 1.5 s hide timer is not timed. The wrong-guess effect is a transition system over new results and timer firings, which may come in any order. React's render batching is not modelled, and neither is the component unmounting with a timer pending.
- The emoji clue splitting with GraphemeSplitter (src/components/GameArea.jsx:38-39) is a foreign library. The focus effect (lines 32-36) is DOM.
- `sortedPlayers` is component state filled by an effect after render. The model computes it directly from `players`, so the render before the effect runs, which still shows the previous order, is not modelled.
- PlayerList.UpperAscii: `toUpperCase` is modelled for ASCII letters only. Non-ASCII case mapping, and `charAt` returning half of a UTF-16 surrogate pair, are not modelled.
- The "the input array is not mutated" property of both sorts holds by construction: Dafny sequences are values, so `SortByScore` cannot change its argument.
- Markup, CSS classes, icons, countdown seconds, round and theme text are not modelled. Neither are the callbacks `onStartGame`, `submitGuess` and `setGuessInput`, except for the clearing of the input.
- src/pages/Game.jsx, src/pages/Home.jsx, src/components/Chat.jsx, src/components/Countdown.jsx, src/pages/NotFound.jsx, src/App.jsx and vite.config.js are not part of this model. They are socket, HTTP, routing and markup code.

## Findings

| source | as written | input that shows it | evidently intended | confidence | as-written member | corrected member |
|---|---|---|---|---|---|---|
| src/pages/EmojiTerrain.jsx:185-205 | `getFreeLetterIndex` only avoids tiles whose `inAction` is set, and the flag is set in `onStart`, after the tween's delay | two actions select the same idle tile while both are still in their delay windows (at kick-off no flag is set for the first 1000 ms, so all 5000 actions choose among all tiles); both then animate that tile, and the first `onComplete` clears the flag while the second still runs, so a third action can pick it again | a tile is animated by at most one action at a time: claim the tile (`inAction = true`) when it is selected | not executed | Terrain.SharedTileScenario | Terrain.TextTerrain.ActionClaiming |
| src/components/GameArea.jsx:42-51 | the effect's cleanup only cancels the hide timer, and a result that is not a wrong guess leaves `showWrongGuess` as it was | a wrong guess, then a correct guess within 1.5 s (the timer is cancelled and the banner stays set but hidden by `!guessResult?.correct`), then the next round's `setGuessResult(null)` (src/pages/Game.jsx:119): "Wrong guess, try again!" shows with no wrong guess in effect and no timer left to hide it | the banner shows only while the current result is a wrong guess: the cleanup also hides it | not executed | GameArea.StaleWrongBanner | GameArea.BannerOnlyForWrongResult |
