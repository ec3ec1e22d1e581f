/** The in-game HUD: one status box per joined player, bound to that player's character. */
module Hud {
  import opened GameTypes
  import opened Counting
  import opened Readiness
  import opened Spawning

  /** A HUD box as the binder leaves it: position, rotation (Euler angles in degrees), whether it
      was parented under the canvas, and the character it portrays. */
  datatype HudElement = HudElement(position: Vec3, rotation: Vec3, onCanvas: bool, represented: Option<CharId>)

  /** Offset of the box created for selector index i from the manager's own position. */
  function HudOffset(i: nat): Vec3 {
    Vec3(225.0 + 450.0 * (i as real), 100.0, 0.0)
  }

  const HudRotation: Vec3 := Vec3(0.0, 0.0, -90.0)

  /** The box created for selector index i. */
  function NewHud(origin: Vec3, i: nat, s: Selector): HudElement {
    HudElement(origin.Plus(HudOffset(i)), HudRotation, true, s.chosen)
  }

  /** The HUD slots after the binder ran: slot i is replaced for every active selector i, other
      slots keep what they held. */
  function HudAfterInit(origin: Vec3, sel: seq<Selector>, hud: seq<Option<HudElement>>): seq<Option<HudElement>>
    requires |sel| == |hud|
  {
    seq(|hud|, i requires 0 <= i < |hud| => if sel[i].active then Some(NewHud(origin, i, sel[i])) else hud[i])
  }

  function EmptyHud(n: nat): seq<Option<HudElement>> {
    seq(n, _ => None)
  }

  /** The non-null slots come first. */
  predicate NonNullPrefix(h: seq<Option<HudElement>>) {
    forall i, j :: 0 <= i < j < |h| && h[j].Some? ==> h[i].Some?
  }

  /** The active selectors come first. */
  predicate ActivePrefix(sel: seq<Selector>) {
    forall i, j :: 0 <= i < j < |sel| && sel[j].active ==> sel[i].active
  }

  /** Starting from an empty HUD, the binder creates exactly one box per active selector. */
  lemma HudCountIsPlayersActive(origin: Vec3, sel: seq<Selector>)
    ensures Count(HudAfterInit(origin, sel, EmptyHud(|sel|)), IsSome) == PlayersActive(sel)
  {
    var h := HudAfterInit(origin, sel, EmptyHud(|sel|));
    CountIsCardinality(h, IsSome);
    CountIsCardinality(sel, IsActive);
    assert IndexSet(h, IsSome) == IndexSet(sel, IsActive);
  }

  /** Boxes are keyed by selector index, not by rank among active selectors: the box created for
      selector i (which sits 225 + 450 i to the right of the manager, see HudOffset) portrays the
      character the spawn sequence put in roster slot RosterSlot(sel, i), the number of earlier
      selectors with a choice. */
  lemma HudBindsRosterSlot(origin: Vec3, sel: seq<Selector>, roster: seq<Option<CharId>>, i: nat)
    requires |sel| == |roster| && i < |sel|
    requires sel[i].chosen.Some?
    ensures NewHud(origin, i, sel[i]).represented == RosterAfterSpawn(roster, SpawnOrder(sel))[RosterSlot(sel, i)]
  {
    RosterSlotOfSelector(sel, i);
  }

  /** Starting from an empty HUD, the non-null boxes form a prefix exactly when the active
      selectors do. */
  lemma NonNullPrefixIffActivePrefix(origin: Vec3, sel: seq<Selector>)
    ensures NonNullPrefix(HudAfterInit(origin, sel, EmptyHud(|sel|))) <==> ActivePrefix(sel)
  {
    var h := HudAfterInit(origin, sel, EmptyHud(|sel|));
    assert forall i :: 0 <= i < |sel| ==> (h[i].Some? <==> sel[i].active);
  }

  /** Selectors 0 and 2 joined, both ready, with characters 10 and 12: the match may start, and the
      HUD the binder leaves has a null slot before a non-null one. */
  lemma GapInHudAfterInit(origin: Vec3)
    ensures var sel := [Selector(true, true, Some(10)), Selector(false, false, None),
                        Selector(true, true, Some(12)), Selector(false, false, None)];
            && ReadyToStart(sel)
            && !NonNullPrefix(HudAfterInit(origin, sel, EmptyHud(4)))
  {
    var sel := [Selector(true, true, Some(10)), Selector(false, false, None),
                Selector(true, true, Some(12)), Selector(false, false, None)];
    CountSnoc(sel, 0, IsActive);
    CountSnoc(sel, 1, IsActive);
    CountSnoc(sel, 2, IsActive);
    CountSnoc(sel, 3, IsActive);
    CountSnoc(sel, 0, IsReady);
    CountSnoc(sel, 1, IsReady);
    CountSnoc(sel, 2, IsReady);
    CountSnoc(sel, 3, IsReady);
    assert sel[..4] == sel;
    var h := HudAfterInit(origin, sel, EmptyHud(4));
    assert h[1] == None && h[2].Some?;
  }

  /** The slot the as-written refresh dereferences when it meets the non-null box in slot j: its
      counter has advanced once per non-null box before j. */
  function AsWrittenTarget(h: seq<Option<HudElement>>, j: nat): (t: nat)
    requires j <= |h|
    ensures t <= j
  {
    Count(h[..j], IsSome)
  }

  /** Some non-null box sends the as-written refresh to a null slot. */
  predicate ReadsNullBox(h: seq<Option<HudElement>>) {
    exists j :: 0 <= j < |h| && h[j].Some? && h[AsWrittenTarget(h, j)].None?
  }

  /** Following the as-written counter back from a non-null box whose target lies before it always
      ends on a null slot: each non-null target lies before its own box and has a smaller target. */
  lemma {:induction false} ChaseNullBox(h: seq<Option<HudElement>>, j: nat)
    requires j < |h| && h[j].Some? && AsWrittenTarget(h, j) < j
    ensures ReadsNullBox(h)
    decreases j
  {
    var t := AsWrittenTarget(h, j);
    if h[t].Some? {
      CountSnoc(h, t, IsSome);
      CountPrefixMono(h, t + 1, j, IsSome);
      ChaseNullBox(h, t);
    }
  }

  /** When the non-null boxes come first, every non-null box is its own as-written target. */
  lemma PrefixBoxesAreOwnTargets(h: seq<Option<HudElement>>, j: nat)
    requires NonNullPrefix(h) && j < |h| && h[j].Some?
    ensures AsWrittenTarget(h, j) == j
  {
    CountFullIffAll(h[..j], IsSome);
  }

  /** The as-written refresh dereferences a null slot exactly when the non-null boxes do not come
      first. */
  lemma AsWrittenReadsNullIffGap(h: seq<Option<HudElement>>)
    ensures ReadsNullBox(h) <==> !NonNullPrefix(h)
  {
    if NonNullPrefix(h) {
      forall j | 0 <= j < |h| && h[j].Some?
        ensures h[AsWrittenTarget(h, j)].Some?
      {
        PrefixBoxesAreOwnTargets(h, j);
      }
    } else {
      var i, j :| 0 <= i < j < |h| && h[j].Some? && !h[i].Some?;
      CountFullIffAll(h[..j], IsSome);
      assert h[..j][i] == h[i];
      ChaseNullBox(h, j);
    }
  }

  /** On the HUD of GapInHudAfterInit the as-written refresh, meeting the box in slot 2, has counted
      one non-null box and dereferences slot 1, which is null. */
  lemma AsWrittenRefreshHitsGap(origin: Vec3)
    ensures var sel := [Selector(true, true, Some(10)), Selector(false, false, None),
                        Selector(true, true, Some(12)), Selector(false, false, None)];
            var h := HudAfterInit(origin, sel, EmptyHud(4));
            h[2].Some? && AsWrittenTarget(h, 2) == 1 && h[1] == None
  {
    var sel := [Selector(true, true, Some(10)), Selector(false, false, None),
                Selector(true, true, Some(12)), Selector(false, false, None)];
    var h := HudAfterInit(origin, sel, EmptyHud(4));
    CountSnoc(h, 0, IsSome);
    CountSnoc(h, 1, IsSome);
  }
}
