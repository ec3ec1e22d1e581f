/** What the spawn sequence does to the roster and to the characters it places. */
module Spawning {
  import opened GameTypes
  import opened Counting

  /** The selector holds a chosen character (a non-null `chosenCharacter`). */
  predicate HasChoice(s: Selector) {
    s.chosen.Some?
  }

  /** The characters to spawn, in the order the selectors are visited (index 0 to 3),
      skipping selectors with no chosen character. */
  function SpawnOrder(sel: seq<Selector>): (order: seq<CharId>)
    ensures |order| == Count(sel, HasChoice)
  {
    if |sel| == 0 then []
    else
      var n := |sel| - 1;
      SpawnOrder(sel[..n]) + (if sel[n].chosen.Some? then [sel[n].chosen.value] else [])
  }

  /** The k-th character of the spawn order is the choice of the k-th selector that has one,
      selectors taken in increasing index order. */
  lemma {:induction false} SpawnOrderFollowsSelectors(sel: seq<Selector>)
    ensures forall k :: 0 <= k < |SpawnOrder(sel)| ==>
              sel[Positions(sel, HasChoice)[k]].chosen == Some(SpawnOrder(sel)[k])
  {
    if |sel| > 0 {
      var n := |sel| - 1;
      SpawnOrderFollowsSelectors(sel[..n]);
      assert forall i :: 0 <= i < n ==> sel[..n][i] == sel[i];
    }
  }

  /** The roster after spawning: slot k holds the k-th character of `order`; later slots are
      left as they were. */
  function RosterAfterSpawn(roster: seq<Option<CharId>>, order: seq<CharId>): seq<Option<CharId>>
    requires |order| <= |roster|
  {
    seq(|roster|, k requires 0 <= k < |roster| => if k < |order| then Some(order[k]) else roster[k])
  }

  /** The characters occurring in `order`. */
  function Members(order: seq<CharId>): set<CharId> {
    set c | c in order
  }

  /** Positions after moving the k-th character of `order` to `spawn[k]`, in order. */
  function PlaceAll(pos: map<CharId, Vec3>, order: seq<CharId>, spawn: seq<Vec3>): (r: map<CharId, Vec3>)
    requires |order| <= |spawn|
    ensures r.Keys == pos.Keys + Members(order)
    ensures forall c :: c in pos && c !in order ==> r[c] == pos[c]
  {
    if |order| == 0 then pos
    else
      var n := |order| - 1;
      PlaceAll(pos, order[..n], spawn)[order[n] := spawn[n]]
  }

  /** Visiting one more selector extends the spawn order by its chosen character, if any. */
  lemma SpawnOrderSnoc(sel: seq<Selector>, j: nat)
    requires j < |sel|
    ensures sel[j].chosen.Some? ==> SpawnOrder(sel[..j + 1]) == SpawnOrder(sel[..j]) + [sel[j].chosen.value]
    ensures sel[j].chosen.None? ==> SpawnOrder(sel[..j + 1]) == SpawnOrder(sel[..j])
  {
    assert sel[..j + 1][..j] == sel[..j];
  }

  /** Placing one more character writes exactly the next roster slot. */
  lemma RosterAfterSpawnSnoc(roster: seq<Option<CharId>>, order: seq<CharId>, c: CharId)
    requires |order| < |roster|
    ensures RosterAfterSpawn(roster, order + [c]) == RosterAfterSpawn(roster, order)[|order| := Some(c)]
  {
  }

  /** Placing one more character moves it to the next spawn location. */
  lemma PlaceAllSnoc(pos: map<CharId, Vec3>, order: seq<CharId>, c: CharId, spawn: seq<Vec3>)
    requires |order| < |spawn|
    ensures PlaceAll(pos, order + [c], spawn) == PlaceAll(pos, order, spawn)[c := spawn[|order|]]
    ensures Members(order + [c]) == Members(order) + {c}
  {
  }

  predicate Distinct(order: seq<CharId>) {
    forall k, l :: 0 <= k < l < |order| ==> order[k] != order[l]
  }

  /** No two selectors hold the same chosen character. */
  predicate DistinctChoices(sel: seq<Selector>) {
    forall i, j :: 0 <= i < j < |sel| && sel[i].chosen.Some? ==> sel[i].chosen != sel[j].chosen
  }

  /** The roster slot the selector at index i is given: the number of earlier selectors with a
      chosen character. */
  function RosterSlot(sel: seq<Selector>, i: nat): nat
    requires i <= |sel|
  {
    Count(sel[..i], HasChoice)
  }

  /** The selector at index i, if it has a chosen character, lands in roster slot
      "number of selectors before i with a chosen character". */
  lemma {:induction false} RosterSlotOfSelector(sel: seq<Selector>, i: nat)
    requires i < |sel| && sel[i].chosen.Some?
    ensures RosterSlot(sel, i) < |SpawnOrder(sel)|
    ensures SpawnOrder(sel)[RosterSlot(sel, i)] == sel[i].chosen.value
  {
    var n := |sel| - 1;
    var init, v := SpawnOrder(sel[..n]), sel[n].chosen;
    assert SpawnOrder(sel) == init + (if v.Some? then [v.value] else []);
    if i < n {
      assert sel[..n][..i] == sel[..i];
      assert sel[..n][i] == sel[i];
      RosterSlotOfSelector(sel[..n], i);
    } else {
      assert sel[..n] == sel[..i];
      assert |init| == Count(sel[..i], HasChoice);
    }
  }

  /** Distinct choices give a spawn order without repetition. */
  lemma SpawnOrderDistinct(sel: seq<Selector>)
    requires DistinctChoices(sel)
    ensures Distinct(SpawnOrder(sel))
  {
    var order, idx := SpawnOrder(sel), Positions(sel, HasChoice);
    SpawnOrderFollowsSelectors(sel);
    forall k, l | 0 <= k < l < |order| ensures order[k] != order[l] {
      assert idx[k] < idx[l];
    }
  }

  /** Each placed character stands on the spawn location of the roster slot it was given. */
  lemma {:induction false} PlacedAtOwnSlot(pos: map<CharId, Vec3>, order: seq<CharId>, spawn: seq<Vec3>)
    requires |order| <= |spawn| && Distinct(order)
    ensures forall k :: 0 <= k < |order| ==> PlaceAll(pos, order, spawn)[order[k]] == spawn[k]
  {
    if |order| > 0 {
      var n := |order| - 1;
      PlacedAtOwnSlot(pos, order[..n], spawn);
    }
  }

  /** Spawning into an empty roster fills exactly the first N slots, N being the number of selectors
      with a chosen character, and slot k is the k-th such selector's character (selectors taken
      in increasing index order). */
  lemma SpawnedRosterIsCompacted(sel: seq<Selector>, roster: seq<Option<CharId>>)
    requires |sel| == |roster|
    requires forall k :: 0 <= k < |roster| ==> roster[k] == None
    ensures var r := RosterAfterSpawn(roster, SpawnOrder(sel));
            var idx := Positions(sel, HasChoice);
            && (forall k :: 0 <= k < |r| ==> (r[k].Some? <==> k < Count(sel, HasChoice)))
            && (forall k :: 0 <= k < |idx| ==> r[k] == sel[idx[k]].chosen)
            && (forall k, l :: 0 <= k < l < |idx| ==> idx[k] < idx[l])
  {
    SpawnOrderFollowsSelectors(sel);
  }
}
