/** The game manager: the phase register, and the roster and HUD arrays it fills in place
    while it takes a match from character selection to the victory screen. */
module GameManager {
  import opened GameTypes
  import opened Counting
  import opened Readiness
  import opened Spawning
  import opened Monitor
  import opened Hud

  class GameManagerScript {
    var theGameState: GameState
    /** Every phase written through SetGameState, oldest first. */
    ghost var phaseLog: seq<GameState>
    var paused: bool
    var timeScale: real

    /** The players' selectors, read-only to the manager. */
    const selectors: array<Selector>
    /** The HUD boxes, one slot per selector index. */
    const inGameUIObjects: array<Option<HudElement>>
    /** The roster of spawned characters. */
    const inGameChars: array<Option<CharId>>
    /** Where the k-th spawned character is placed. */
    const spawnLocations: seq<Vec3>
    /** The manager's own position, which HUD boxes are offset from. */
    const position: Vec3

    /** The characters' positions and active flags, as far as the manager writes them. */
    var charPosition: map<CharId, Vec3>
    var activeChars: set<CharId>

    predicate Valid() {
      && selectors.Length == Capacity
      && inGameUIObjects.Length == Capacity
      && inGameChars.Length == Capacity
      && |spawnLocations| == Capacity
    }

    constructor (sel: seq<Selector>, spawn: seq<Vec3>, managerPosition: Vec3,
                 positions: map<CharId, Vec3>, active: set<CharId>)
      requires |sel| == Capacity && |spawn| == Capacity
      ensures Valid()
      ensures fresh(selectors) && fresh(inGameUIObjects) && fresh(inGameChars)
      ensures selectors[..] == sel && spawnLocations == spawn && position == managerPosition
      ensures theGameState == MainMenu && phaseLog == [] && !paused && timeScale == 1.0
      ensures forall k :: 0 <= k < Capacity ==> inGameChars[k] == None && inGameUIObjects[k] == None
      ensures charPosition == positions && activeChars == active
    {
      selectors := new Selector[Capacity](i requires 0 <= i < Capacity => sel[i]);
      inGameUIObjects := new Option<HudElement>[Capacity](_ => None);
      inGameChars := new Option<CharId>[Capacity](_ => None);
      spawnLocations := spawn;
      position := managerPosition;
      theGameState := MainMenu;
      phaseLog := [];
      paused := false;
      timeScale := 1.0;
      charPosition := positions;
      activeChars := active;
    }

    function GetGameState(): GameState
      reads this
    {
      theGameState
    }

    /** Unconditional write of the phase register. */
    method SetGameState(gs: GameState)
      modifies this`theGameState, this`phaseLog
      ensures GetGameState() == gs && phaseLog == old(phaseLog) + [gs]
    {
      theGameState := gs;
      phaseLog := phaseLog + [gs];
    }

    /** Counts active selectors, then ready selectors, and compares the two counts. */
    method CheckIfReadyToStartGame() returns (ready: bool)
      ensures ready == ReadyToStart(selectors[..])
    {
      var playersActive := 0;
      var playersReady := 0;
      for i := 0 to selectors.Length
        invariant playersActive == PlayersActive(selectors[..i])
      {
        CountSnoc(selectors[..], i, IsActive);
        if selectors[i].active {
          playersActive := playersActive + 1;
        }
      }
      for i := 0 to selectors.Length
        invariant playersReady == PlayersReady(selectors[..i])
      {
        CountSnoc(selectors[..], i, IsReady);
        if selectors[i].ready {
          playersReady := playersReady + 1;
        }
      }
      assert selectors[..selectors.Length] == selectors[..];
      ready := playersActive == playersReady && playersActive > 0;
    }

    /** The spawn coroutine. Each loop iteration begins with one timed wait, `waits` counts them.
        The slot counter `i` advances only when a character is placed. */
    method SpawnCharacters() returns (waits: nat)
      requires Valid()
      modifies this`theGameState, this`phaseLog, this`charPosition, this`activeChars, inGameChars
      ensures waits == Capacity
      ensures theGameState == InGame && phaseLog == old(phaseLog) + [CharacterSpawning, InGame]
      ensures inGameChars[..] == RosterAfterSpawn(old(inGameChars[..]), SpawnOrder(selectors[..]))
      ensures charPosition == PlaceAll(old(charPosition), SpawnOrder(selectors[..]), spawnLocations)
      ensures activeChars == old(activeChars) + Members(SpawnOrder(selectors[..]))
    {
      SetGameState(CharacterSpawning);
      ghost var sel := selectors[..];
      var i := 0;
      waits := 0;
      for j := 0 to selectors.Length
        invariant i == |SpawnOrder(sel[..j])| && waits == j
        invariant inGameChars[..] == RosterAfterSpawn(old(inGameChars[..]), SpawnOrder(sel[..j]))
        invariant charPosition == PlaceAll(old(charPosition), SpawnOrder(sel[..j]), spawnLocations)
        invariant activeChars == old(activeChars) + Members(SpawnOrder(sel[..j]))
        invariant theGameState == CharacterSpawning && phaseLog == old(phaseLog) + [CharacterSpawning]
      {
        // suspension point: the timed wait before each selector
        waits := waits + 1;
        ghost var before := SpawnOrder(sel[..j]);
        SpawnOrderSnoc(sel, j);
        var selector := selectors[j];
        if selector.chosen.Some? {
          var c := selector.chosen.value;
          RosterAfterSpawnSnoc(old(inGameChars[..]), before, c);
          PlaceAllSnoc(old(charPosition), before, c, spawnLocations);
          PlaceCharacter(i, c);
          i := i + 1;
        }
      }
      assert sel[..selectors.Length] == sel;
      // suspension point: one frame before the phase moves on
      SetGameState(InGame);
    }

    /** Stores `c` in roster slot `slot`, moves it to that slot's spawn location and activates it. */
    method PlaceCharacter(slot: nat, c: CharId)
      requires Valid() && slot < Capacity
      modifies inGameChars, this`charPosition, this`activeChars
      ensures inGameChars[..] == old(inGameChars[..])[slot := Some(c)]
      ensures charPosition == old(charPosition)[c := spawnLocations[slot]]
      ensures activeChars == old(activeChars) + {c}
    {
      inGameChars[slot] := Some(c);
      charPosition := charPosition[c := spawnLocations[slot]];
      activeChars := activeChars + {c};
    }

    /** One poll of the win condition over the roster, with `lives` the characters' remaining lives. */
    method OneCharacterLeft(lives: CharId -> int) returns (oneLeft: bool)
      ensures oneLeft == AtMostOneAlive(inGameChars[..], lives)
    {
      var charactersLeft := 0;
      for k := 0 to inGameChars.Length
        invariant charactersLeft == AliveCount(inGameChars[..k], lives)
      {
        CountSnoc(inGameChars[..], k, AliveIn(lives));
        var character := inGameChars[k];
        if character.Some? && lives(character.value) > -1 {
          charactersLeft := charactersLeft + 1;
        }
      }
      assert inGameChars[..inGameChars.Length] == inGameChars[..];
      oneLeft := charactersLeft <= 1;
    }

    /** The win-condition coroutine. `frames[f]` gives the characters' remaining lives at the f-th
        poll; between polls the coroutine yields one frame. `polls` is the number of polls that found
        two or more characters left. When the schedule runs out first, the coroutine is still
        suspended and nothing has changed. */
    method GameOngoing(frames: seq<CharId -> int>) returns (polls: nat)
      modifies this`theGameState, this`phaseLog
      ensures polls <= |frames|
      ensures forall f :: 0 <= f < polls ==> !AtMostOneAlive(inGameChars[..], frames[f])
      ensures polls < |frames| ==> AtMostOneAlive(inGameChars[..], frames[polls])
      ensures polls < |frames| ==> theGameState == VictoryScreen && phaseLog == old(phaseLog) + [VictoryScreen]
      ensures polls == |frames| ==> theGameState == old(theGameState) && phaseLog == old(phaseLog)
    {
      polls := 0;
      while polls < |frames|
        invariant polls <= |frames|
        invariant forall f :: 0 <= f < polls ==> !AtMostOneAlive(inGameChars[..], frames[f])
        invariant theGameState == old(theGameState) && phaseLog == old(phaseLog)
      {
        var oneLeft := OneCharacterLeft(frames[polls]);
        if oneLeft {
          SetGameState(VictoryScreen);
          return;
        }
        // suspension point: one frame until the next poll
        polls := polls + 1;
      }
    }

    /** Creates a HUD box for every active selector. The counter `i` advances for every selector,
        so box i belongs to selector i. */
    method InitialiseInGameUI()
      requires Valid()
      modifies inGameUIObjects
      ensures inGameUIObjects[..] == HudAfterInit(position, selectors[..], old(inGameUIObjects[..]))
    {
      var i := 0;
      while i < selectors.Length
        invariant 0 <= i <= selectors.Length
        invariant forall k :: 0 <= k < i ==>
                    inGameUIObjects[k] == HudAfterInit(position, selectors[..], old(inGameUIObjects[..]))[k]
        invariant forall k :: i <= k < inGameUIObjects.Length ==> inGameUIObjects[k] == old(inGameUIObjects[k])
      {
        if selectors[i].active {
          inGameUIObjects[i] := Some(NewHud(position, i, selectors[i]));
        }
        i := i + 1;
      }
    }

    /** The per-frame HUD refresh as written: the counter that picks the box to refresh advances
        only on non-null boxes, so the box it dereferences is non-null only when the non-null boxes
        come first (AsWrittenTarget is that box; Hud.AsWrittenReadsNullIffGap shows that any gap
        sends it to a null slot). Returns the indices of the boxes refreshed, in order. */
    method UpdateInGameUI() returns (refreshed: seq<nat>)
      requires NonNullPrefix(inGameUIObjects[..])
      ensures refreshed == Positions(inGameUIObjects[..], IsSome)
    {
      refreshed := [];
      var i := 0;
      for j := 0 to inGameUIObjects.Length
        invariant refreshed == Positions(inGameUIObjects[..j], IsSome)
        invariant i == |refreshed| == AsWrittenTarget(inGameUIObjects[..], j)
        invariant (forall k :: 0 <= k < j ==> inGameUIObjects[k].Some?) ==> i == j
      {
        assert inGameUIObjects[..j + 1][..j] == inGameUIObjects[..j];
        if inGameUIObjects[j].Some? {
          assert forall k :: 0 <= k < j ==> inGameUIObjects[..][k].Some?;
          var hud := inGameUIObjects[i].value;
          refreshed := refreshed + [i];
          i := i + 1;
        }
      }
      assert inGameUIObjects[..inGameUIObjects.Length] == inGameUIObjects[..];
    }

    /** The per-frame HUD refresh with the counter advanced on every box: refreshes each non-null
        box exactly once, in index order, whatever the gaps. */
    method RefreshInGameUI() returns (refreshed: seq<nat>)
      ensures refreshed == Positions(inGameUIObjects[..], IsSome)
    {
      refreshed := [];
      for j := 0 to inGameUIObjects.Length
        invariant refreshed == Positions(inGameUIObjects[..j], IsSome)
      {
        assert inGameUIObjects[..j + 1][..j] == inGameUIObjects[..j];
        if inGameUIObjects[j].Some? {
          var hud := inGameUIObjects[j].value;
          refreshed := refreshed + [j];
        }
      }
      assert inGameUIObjects[..inGameUIObjects.Length] == inGameUIObjects[..];
    }

    /** Pausing ends with the time scale at 0, resuming sets it back to 1 at once. */
    method TogglePause()
      modifies this`paused, this`timeScale
      ensures paused == !old(paused)
      ensures timeScale == if old(paused) then 1.0 else 0.0
    {
      if !paused {
        timeScale := 0.0;
      } else {
        timeScale := 1.0;
      }
      paused := !paused;
    }

    /** The gameplay coroutine: only from character selection and only when the readiness check
        passes, spawn the characters, bind the HUD, then poll for the winner. */
    method StartGameplayLoop(frames: seq<CharId -> int>) returns (started: bool, waits: nat, polls: nat)
      requires Valid()
      modifies this`theGameState, this`phaseLog, this`charPosition, this`activeChars
      modifies inGameChars, inGameUIObjects
      ensures started == (old(theGameState) == CharSelect && ReadyToStart(selectors[..]))
      ensures !started ==>
                && theGameState == old(theGameState) && phaseLog == old(phaseLog)
                && inGameChars[..] == old(inGameChars[..]) && inGameUIObjects[..] == old(inGameUIObjects[..])
                && charPosition == old(charPosition) && activeChars == old(activeChars)
      ensures started ==>
                && waits == Capacity
                && inGameChars[..] == RosterAfterSpawn(old(inGameChars[..]), SpawnOrder(selectors[..]))
                && charPosition == PlaceAll(old(charPosition), SpawnOrder(selectors[..]), spawnLocations)
                && activeChars == old(activeChars) + Members(SpawnOrder(selectors[..]))
                && inGameUIObjects[..] == HudAfterInit(position, selectors[..], old(inGameUIObjects[..]))
                && polls <= |frames|
                && (forall f :: 0 <= f < polls ==> !AtMostOneAlive(inGameChars[..], frames[f]))
                && (polls < |frames| ==> AtMostOneAlive(inGameChars[..], frames[polls]))
                && phaseLog == old(phaseLog) + [CharacterSpawning, InGame] +
                               (if polls < |frames| then [VictoryScreen] else [])
                && theGameState == (if polls < |frames| then VictoryScreen else InGame)
    {
      started, waits, polls := false, 0, 0;
      if GetGameState() == CharSelect {
        var ready := CheckIfReadyToStartGame();
        if ready {
          started := true;
          waits := SpawnCharacters();
          InitialiseInGameUI();
          polls := GameOngoing(frames);
        }
      }
    }
  }

  /** Selectors 0 and 2 joined and are ready with characters 10 and 12; at the first poll character 12
      has no lives left. The match starts, the roster is compacted to [10, 12], HUD boxes sit in
      slots 0 and 2 (keyed by selector index), and the phase ends on the victory screen. */
  method TwoPlayerMatch(spawn: seq<Vec3>, origin: Vec3, lives: CharId -> int)
    returns (roster: seq<Option<CharId>>, hud: seq<Option<HudElement>>, final: GameState)
    requires |spawn| == Capacity
    requires lives(10) == 2 && lives(12) == -1
    ensures roster == [Some(10), Some(12), None, None]
    ensures |hud| == Capacity
    ensures hud[0].Some? && hud[1] == None && hud[2].Some? && hud[3] == None
    ensures hud[0].value.represented == Some(10) && hud[2].value.represented == Some(12)
    ensures hud[2].value.position.x == origin.x + 1125.0
    ensures final == VictoryScreen
  {
    var sel := [Selector(true, true, Some(10)), Selector(false, false, None),
                Selector(true, true, Some(12)), Selector(false, false, None)];
    GapInHudAfterInit(origin);
    SpawnOrderSnoc(sel, 0);
    SpawnOrderSnoc(sel, 1);
    SpawnOrderSnoc(sel, 2);
    SpawnOrderSnoc(sel, 3);
    assert sel[..4] == sel;
    assert SpawnOrder(sel) == [10, 12];
    var gm := new GameManagerScript(sel, spawn, origin, map[], {});
    gm.SetGameState(CharSelect);
    var frames := [lives];
    var started, waits, polls := gm.StartGameplayLoop(frames);
    roster := gm.inGameChars[..];
    hud := gm.inGameUIObjects[..];
    final := gm.GetGameState();
    assert roster == [Some(10), Some(12), None, None];
    AtMostOneAliveIffNoTwoAlive(roster, lives);
    assert forall k :: 0 <= k < |roster| && Alive(roster[k], lives) ==> k == 0;
    assert AtMostOneAlive(roster, lives);
    assert frames[0] == lives;
    assert polls == 0;
  }
}
