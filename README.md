# Match orchestration of a local-multiplayer arena game, in Dafny

This project models the game manager of a local four-player arena game (`GameManagerScript`).
The manager holds the match phase register (main menu, character select, character spawning,
in game, victory screen). It decides when the players on the selection screen are ready. It then
places the chosen characters into a compacted roster at fixed spawn locations, one timed wait per
selector, and binds one HUD box to each joined player. Finally it polls the roster until at most
one character has lives left, and moves to the victory screen.

Layout:

- `game_types.dfy` (`GameTypes`): phases, selectors, characters as ids, positions.
- `counting.dfy` (`Counting`): `Count` and `Positions` over sequences. Every counting loop of the
  manager is proved against these.
- `readiness.dfy` (`Readiness`): the readiness verdict and what it means.
- `spawning.dfy` (`Spawning`): the spawn order, the roster and the positions after spawning.
- `monitor.dfy` (`Monitor`): the win condition.
- `hud.dfy` (`Hud`): the HUD boxes after initialisation.
- `game_manager.dfy` (`GameManager`): the class `GameManagerScript`. It has the phase field, the
  selector, roster and HUD arrays (length 4), the characters' positions and active flags, and one
  method per operation. Each method is proved against the functions above.

Modelling choices:

- A coroutine is a method. Its suspension points are loop iterations.
- `SpawnCharacters` returns the number of timed waits it performed.
- `GameOngoing` takes a schedule of frames: the remaining-lives query of every character at each
  poll. Lives are owned by the characters, so they are an input and not manager state.
- The ghost field `phaseLog` records every phase written through `SetGameState`, in order. This is
  how the contracts state the order of the phase transitions.
- Engine objects are values: a character is an id, and a HUD box is a record of its position,
  rotation, canvas parenting and represented character. `null` is `None`.
- Engine floats are exact reals.
- The ready count runs over all four selectors.
- The HUD slot and its x offset (`225 + 450*i`) are keyed by selector index, not by rank among
  active selectors, because line 155 of `GameManagerScript.cs` advances the counter for every
  selector.
- `SpawnCharacters` spawns every selector that has a chosen character, whether or not the selector
  is active. The model does the same.

## Model

| member | source | states |
|---|---|---|
| GameManager.GameManagerScript.constructor | Assets/_myScenes/CharacterSelectionScreen/Scripts/GameManagerScript.cs:8-32 | Starts in `mainMenu` (the enum default), unpaused, with empty roster and HUD slots and four selectors and spawn locations |
| GameManager.GameManagerScript.SetGameState | Assets/_myScenes/CharacterSelectionScreen/Scripts/GameManagerScript.cs:265-273 | Covers both the getter (`GetGameState`, lines 265-268) and the setter: the phase read back by `GetGameState` is the one written, and the write is appended to the phase history |
| GameManager.GameManagerScript.CheckIfReadyToStartGame | Assets/_myScenes/CharacterSelectionScreen/Scripts/GameManagerScript.cs:205-235 | Result is true iff the active count equals the ready count (over all selectors) and the active count is positive |
| Readiness.NoActiveNeverReady | Assets/_myScenes/CharacterSelectionScreen/Scripts/GameManagerScript.cs:226-234 | With no active selector the verdict is false |
| Readiness.ReadyMeansEveryJoinedPlayerReady | Assets/_myScenes/CharacterSelectionScreen/Scripts/GameManagerScript.cs:205-235 | When only active selectors can be ready, the verdict is true iff someone joined and every joined player is ready (both directions) |
| Readiness.StaleReadyFlagCountsForJoinedPlayer | Assets/_myScenes/CharacterSelectionScreen/Scripts/GameManagerScript.cs:218-227 | A ready flag on an inactive selector lets the match start while an active selector is not ready |
| Counting.CountIsCardinality | Assets/_myScenes/CharacterSelectionScreen/Scripts/GameManagerScript.cs:207-224 | Each counting loop's count equals the size of the set of matching indices |
| GameManager.GameManagerScript.SpawnCharacters | Assets/_myScenes/CharacterSelectionScreen/Scripts/GameManagerScript.cs:94-124 | Exactly 4 timed waits; phase goes `characterSpawning` then `inGame`; roster, positions and active set become the spawn functions of the old state |
| GameManager.GameManagerScript.PlaceCharacter | Assets/_myScenes/CharacterSelectionScreen/Scripts/GameManagerScript.cs:108-118 | Writes one roster slot, moves that character to the slot's spawn location and activates it, nothing else |
| Spawning.SpawnOrder | Assets/_myScenes/CharacterSelectionScreen/Scripts/GameManagerScript.cs:98-121 | The number of characters placed equals the number of selectors with a chosen character |
| Spawning.SpawnOrderFollowsSelectors | Assets/_myScenes/CharacterSelectionScreen/Scripts/GameManagerScript.cs:100-110 | Spawn position k holds the choice of the k-th selector (in increasing index order) that has one |
| Spawning.RosterSlotOfSelector | Assets/_myScenes/CharacterSelectionScreen/Scripts/GameManagerScript.cs:98-119 | A selector with a choice lands in the roster slot counting the earlier selectors with a choice; the slot counter advances only on placement |
| Spawning.SpawnedRosterIsCompacted | Assets/_myScenes/CharacterSelectionScreen/Scripts/GameManagerScript.cs:98-121 | Spawning into an empty roster fills exactly slots 0..N-1, with the chosen characters in strictly increasing selector order |
| Spawning.PlaceAll | Assets/_myScenes/CharacterSelectionScreen/Scripts/GameManagerScript.cs:111-115 | Only placed characters change position; every placed character gets a position |
| Spawning.PlacedAtOwnSlot | Assets/_myScenes/CharacterSelectionScreen/Scripts/GameManagerScript.cs:111-115 | With distinct characters, the character in roster slot k stands on `spawnLocations[k]` |
| Spawning.SpawnOrderDistinct | Assets/_myScenes/CharacterSelectionScreen/Scripts/GameManagerScript.cs:100-109 | Distinct choices give a roster without repetition |
| GameManager.GameManagerScript.OneCharacterLeft | Assets/_myScenes/CharacterSelectionScreen/Scripts/GameManagerScript.cs:174-185 | Result is true iff at most one roster entry is non-null with remaining lives above -1 |
| Monitor.AtMostOneAliveIffNoTwoAlive | Assets/_myScenes/CharacterSelectionScreen/Scripts/GameManagerScript.cs:174-185 | At most one left iff no two distinct roster slots are both alive |
| Monitor.AliveCountIsCardinality | Assets/_myScenes/CharacterSelectionScreen/Scripts/GameManagerScript.cs:176-184 | The alive count is the number of non-null slots whose lives exceed -1 |
| Monitor.EmptySlotNeverCounts | Assets/_myScenes/CharacterSelectionScreen/Scripts/GameManagerScript.cs:179 | Emptying a slot lowers the alive count by exactly that slot's contribution; null entries never count |
| GameManager.GameManagerScript.GameOngoing | Assets/_myScenes/CharacterSelectionScreen/Scripts/GameManagerScript.cs:127-134 | Polls until at most one is left; every earlier poll saw two or more; then sets `victoryScreen`; changes nothing while polling |
| GameManager.GameManagerScript.InitialiseInGameUI | Assets/_myScenes/CharacterSelectionScreen/Scripts/GameManagerScript.cs:143-157 | Slot i is written for each active selector i, at offset x = 225 + 450*i, bound to that selector's character; other slots untouched |
| Hud.HudCountIsPlayersActive | Assets/_myScenes/CharacterSelectionScreen/Scripts/GameManagerScript.cs:143-157 | From an empty HUD, exactly as many boxes are created as there are active selectors |
| Hud.HudBindsRosterSlot | Assets/_myScenes/CharacterSelectionScreen/Scripts/GameManagerScript.cs:151-155 | The box for selector i portrays the character that spawning put in roster slot RosterSlot(i), the number of earlier selectors with a choice, which need not be slot i |
| Hud.NonNullPrefixIffActivePrefix | Assets/_myScenes/CharacterSelectionScreen/Scripts/GameManagerScript.cs:143-157 | From an empty HUD, the non-null boxes come first iff the active selectors do |
| Hud.GapInHudAfterInit | Assets/_myScenes/CharacterSelectionScreen/Scripts/GameManagerScript.cs:143-157 | With players at selector indices 0 and 2, the match may start and the HUD has a null box before a non-null one |
| Hud.AsWrittenTarget | Assets/_myScenes/CharacterSelectionScreen/Scripts/GameManagerScript.cs:160-171 | The slot the as-written refresh dereferences at non-null box j is at most j: the number of non-null boxes before j |
| Hud.AsWrittenReadsNullIffGap | Assets/_myScenes/CharacterSelectionScreen/Scripts/GameManagerScript.cs:160-171 | Both directions: some non-null box sends the as-written refresh to a null slot exactly when the non-null boxes do not form a prefix |
| Hud.PrefixBoxesAreOwnTargets | Assets/_myScenes/CharacterSelectionScreen/Scripts/GameManagerScript.cs:160-171 | When the non-null boxes form a prefix, the as-written refresh at each non-null box dereferences that box itself |
| Hud.ChaseNullBox | Assets/_myScenes/CharacterSelectionScreen/Scripts/GameManagerScript.cs:160-171 | A non-null box whose as-written target lies before it leads, by following targets back, to a box whose target is null |
| Hud.AsWrittenRefreshHitsGap | Assets/_myScenes/CharacterSelectionScreen/Scripts/GameManagerScript.cs:160-171 | On the HUD of `GapInHudAfterInit`, the refresh at the box in slot 2 dereferences slot 1, which is null |
| Counting.CountFullIffAll | Assets/_myScenes/CharacterSelectionScreen/Scripts/GameManagerScript.cs:160-171 | A prefix counts all its elements exactly when every element satisfies the predicate |
| Counting.CountPrefixMono | Assets/_myScenes/CharacterSelectionScreen/Scripts/GameManagerScript.cs:160-171 | A counter that advances on matching elements never decreases along the array |
| GameManager.GameManagerScript.UpdateInGameUI | Assets/_myScenes/CharacterSelectionScreen/Scripts/GameManagerScript.cs:160-171 | As written: its counter is `AsWrittenTarget` at every step; given that the non-null boxes form a prefix (the only case with no null dereference, by `AsWrittenReadsNullIffGap`), it refreshes exactly the non-null boxes in order |
| GameManager.GameManagerScript.RefreshInGameUI | Assets/_myScenes/CharacterSelectionScreen/Scripts/GameManagerScript.cs:160-171 | Corrected: refreshes each non-null box exactly once, in index order, with no precondition on gaps |
| GameManager.GameManagerScript.TogglePause | Assets/_myScenes/CharacterSelectionScreen/Scripts/GameManagerScript.cs:237-263 | Flips the pause flag; pausing ends at time scale 0, resuming sets it to 1 |
| GameManager.GameManagerScript.StartGameplayLoop | Assets/_myScenes/CharacterSelectionScreen/Scripts/GameManagerScript.cs:71-91 | Does nothing unless the phase is `charSelect` and the readiness check passes; otherwise spawn, HUD binding and polling in that order, with phases `characterSpawning`, `inGame`, then `victoryScreen` |
| GameManager.TwoPlayerMatch | Assets/_myScenes/CharacterSelectionScreen/Scripts/GameManagerScript.cs:71-91 | Players at indices 0 and 2: roster [10, 12], HUD boxes at slots 0 and 2, victory when one is left |

## Findings

| source | as written | input that shows it | evidently intended | confidence | as-written member | corrected member |
|---|---|---|---|---|---|---|
| Assets/_myScenes/CharacterSelectionScreen/Scripts/GameManagerScript.cs:160-171 | The index of the box to refresh advances only on non-null boxes, but is used to index the whole array. | Players at selector indices 0 and 2 (HUD = [box, null, box, null]). The second non-null box makes it refresh `inGameUIObjects[1]`, which is null. | Refresh every non-null box, e.g. by advancing the index on every box or by using the loop element. | medium, not executed; the failure needs active selectors with a gap, which depends on how players join | GameManager.GameManagerScript.UpdateInGameUI, Hud.AsWrittenReadsNullIffGap, Hud.GapInHudAfterInit, Hud.AsWrittenRefreshHitsGap | GameManager.GameManagerScript.RefreshInGameUI |

## Left out

- `LerpUI` (lines 188-203) and its two concurrent launches (lines 78-79): float easing of UI panels
  driven by the frame clock, run as engine coroutines. The model treats no engine concurrency.
- TogglePause: states only the pause flag flip and the time scale the toggle ends with. The eased
  ramp of the time scale over frames (lines 241-256) is float arithmetic and is not modelled.
- `Awake`, `Start` and `Update` (lines 37-68): engine lifecycle. The singleton, and the copy of
  the selectors from `InputManager` (not part of this model), are out. The constructor takes the
  selectors directly. The per-frame call of the HUD refresh from `Update` is out.
- GameOngoing: the coroutine polls forever. The model polls a finite frame schedule; when the
  schedule runs out first, the coroutine counts as still suspended, with nothing changed.
- SpawnCharacters: counts the timed waits. The wait length (`timeBetweenCharSpawns`, 0.2 s) and
  the final one-frame yield before `inGame` carry no state and are not modelled.
- `Instantiate`, `SetParent`, `GetComponent` and the `Quaternion`/`Vector3` maths are values:
  a box records its position, its Euler rotation (0, 0, -90) and that it was parented to the canvas.
- `InGameUIScript.UpdateHUD` and `BaseCharacterBehaviour.GetRemainingLives` are not part of this
  model. A refresh is recorded as the index of the box refreshed, and lives are an input function.
- `print`, and the winner/camera/menu steps left as comments after the victory transition: output
  and unimplemented behaviour.
- Unity's destroyed-object null semantics, and two gameplay loops started at once, are not
  modelled. Every operation runs to completion in sequence.
