/** The win condition polled while the match is in progress. */
module Monitor {
  import opened GameTypes
  import opened Counting

  /** A roster entry still in the match: non-null, and its character's remaining lives above -1.
      `lives` is the remaining-lives query of every character at the moment of the poll. */
  predicate Alive(e: Option<CharId>, lives: CharId -> int) {
    e.Some? && lives(e.value) > -1
  }

  function AliveIn(lives: CharId -> int): Option<CharId> -> bool {
    e => Alive(e, lives)
  }

  function AliveCount(roster: seq<Option<CharId>>, lives: CharId -> int): nat {
    Count(roster, AliveIn(lives))
  }

  /** The poll's verdict: at most one character is left. */
  predicate AtMostOneAlive(roster: seq<Option<CharId>>, lives: CharId -> int) {
    AliveCount(roster, lives) <= 1
  }

  /** The verdict holds exactly when no two distinct roster slots are both alive. */
  lemma AtMostOneAliveIffNoTwoAlive(roster: seq<Option<CharId>>, lives: CharId -> int)
    ensures AtMostOneAlive(roster, lives) <==>
            forall i, j :: 0 <= i < |roster| && 0 <= j < |roster| && Alive(roster[i], lives) && Alive(roster[j], lives)
                           ==> i == j
  {
    CountAtMostOneIffUnique(roster, AliveIn(lives));
  }

  /** The roster slots whose character is still in the match. */
  function AliveSlots(roster: seq<Option<CharId>>, lives: CharId -> int): set<int> {
    set i | 0 <= i < |roster| && roster[i].Some? && lives(roster[i].value) > -1
  }

  /** Reference definition: the alive count is the number of non-null slots whose character
      has more than -1 lives left. */
  lemma AliveCountIsCardinality(roster: seq<Option<CharId>>, lives: CharId -> int)
    ensures AliveCount(roster, lives) == |AliveSlots(roster, lives)|
  {
    CountIsCardinality(roster, AliveIn(lives));
    assert IndexSet(roster, AliveIn(lives)) == AliveSlots(roster, lives);
  }

  /** An empty slot never counts: emptying a slot lowers the count by that slot's contribution,
      and what sits in an empty slot's place before does not matter. */
  lemma EmptySlotNeverCounts(roster: seq<Option<CharId>>, k: nat, lives: CharId -> int)
    requires k < |roster|
    ensures AliveCount(roster[k := None], lives) ==
            AliveCount(roster, lives) - (if Alive(roster[k], lives) then 1 else 0)
  {
    CountUpdate(roster, k, None, AliveIn(lives));
  }
}
