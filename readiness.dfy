/** When the character-selection phase may hand over to spawning. */
module Readiness {
  import opened GameTypes
  import opened Counting

  predicate IsActive(s: Selector) {
    s.active
  }

  predicate IsReady(s: Selector) {
    s.ready
  }

  /** Selectors whose game object is active, i.e. players who joined. */
  function PlayersActive(sel: seq<Selector>): nat {
    Count(sel, IsActive)
  }

  /** Selectors flagged ready, counted over ALL selectors, joined or not. */
  function PlayersReady(sel: seq<Selector>): nat {
    Count(sel, IsReady)
  }

  /** The readiness verdict: as many ready selectors as active ones, and at least one active. */
  predicate ReadyToStart(sel: seq<Selector>) {
    PlayersActive(sel) == PlayersReady(sel) && PlayersActive(sel) > 0
  }

  /** Nobody joined: the match can never start. */
  lemma NoActiveNeverReady(sel: seq<Selector>)
    requires forall i :: 0 <= i < |sel| ==> !sel[i].active
    ensures !ReadyToStart(sel)
  {
    CountZeroIffNone(sel, IsActive);
  }

  /** When only joined players can be ready, the verdict means what it is meant to mean:
      somebody joined and every joined player is ready. */
  lemma ReadyMeansEveryJoinedPlayerReady(sel: seq<Selector>)
    requires forall i :: 0 <= i < |sel| && sel[i].ready ==> sel[i].active
    ensures ReadyToStart(sel) <==>
            (exists i :: 0 <= i < |sel| && sel[i].active) &&
            (forall i :: 0 <= i < |sel| && sel[i].active ==> sel[i].ready)
  {
    CountImplied(sel, IsReady, IsActive);
    CountZeroIffNone(sel, IsActive);
  }

  /** Because ready selectors are counted over all four, a ready flag left on an inactive selector
      stands in for a joined player who is not ready: the verdict is true although selector 0 is
      active and not ready. */
  lemma StaleReadyFlagCountsForJoinedPlayer()
    ensures var sel := [Selector(true, false, None), Selector(false, true, None),
                        Selector(false, false, None), Selector(false, false, None)];
            ReadyToStart(sel) && sel[0].active && !sel[0].ready
  {
    var sel := [Selector(true, false, None), Selector(false, true, None),
                Selector(false, false, None), Selector(false, false, None)];
    CountSnoc(sel, 0, IsActive);
    CountSnoc(sel, 1, IsActive);
    CountSnoc(sel, 2, IsActive);
    CountSnoc(sel, 3, IsActive);
    CountSnoc(sel, 0, IsReady);
    CountSnoc(sel, 1, IsReady);
    CountSnoc(sel, 2, IsReady);
    CountSnoc(sel, 3, IsReady);
    assert sel[..4] == sel;
  }
}
