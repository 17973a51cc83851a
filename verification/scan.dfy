/** The two loops the providers run over their contract lists, given which
    entries match: one that stops at the first match (`break`), and one
    without a `break`, which ends holding the last match. */
module Scans {
  import opened Wrappers

  /** The loop with `break`: the first index whose entry matches. */
  function FirstWhere(hits: seq<bool>): (r: Option<nat>)
    ensures r.Some? ==> r.value < |hits| && hits[r.value] && forall j :: 0 <= j < r.value ==> !hits[j]
    ensures r.None? ==> forall j :: 0 <= j < |hits| ==> !hits[j]
  {
    FirstFrom(0, hits)
  }

  /** The rest of the loop with `break`, from index `i` on. */
  function FirstFrom(i: nat, hits: seq<bool>): (r: Option<nat>)
    requires i <= |hits|
    ensures r.Some? ==> i <= r.value < |hits| && hits[r.value] && forall j :: i <= j < r.value ==> !hits[j]
    ensures r.None? ==> forall j :: i <= j < |hits| ==> !hits[j]
    decreases |hits| - i
  {
    if i == |hits| then None else if hits[i] then Some(i) else FirstFrom(i + 1, hits)
  }

  /** The loop without `break`: every match overwrites the one held so far. */
  function LastFrom(i: nat, hits: seq<bool>, held: Option<nat>): Option<nat>
    requires i <= |hits|
    decreases |hits| - i
  {
    if i == |hits| then held else LastFrom(i + 1, hits, if hits[i] then Some(i) else held)
  }

  /** The loop without `break`, started with nothing held. */
  function LastWhere(hits: seq<bool>): Option<nat> {
    LastFrom(0, hits, None)
  }

  /** Started at `i` holding the last match below `i` (or nothing when there
      is none), the loop ends holding the last match of all. */
  lemma {:induction false} LastFromHolds(i: nat, hits: seq<bool>, held: Option<nat>)
    requires i <= |hits|
    requires held.Some? ==> held.value < i && hits[held.value] && forall j :: held.value < j < i ==> !hits[j]
    requires held.None? ==> forall j :: 0 <= j < i ==> !hits[j]
    ensures var r := LastFrom(i, hits, held);
            (r.Some? ==> r.value < |hits| && hits[r.value] && forall j :: r.value < j < |hits| ==> !hits[j]) &&
            (r.None? <==> forall j :: 0 <= j < |hits| ==> !hits[j])
    decreases |hits| - i
  {
    if i < |hits| {
      var next := if hits[i] then Some(i) else held;
      LastFromHolds(i + 1, hits, next);
    }
  }

  /** The loop without `break` ends on the last match, and on none only when
      nothing matches. */
  lemma LastWhereIsLast(hits: seq<bool>)
    ensures var r := LastWhere(hits);
            (r.Some? ==> r.value < |hits| && hits[r.value] && forall j :: r.value < j < |hits| ==> !hits[j]) &&
            (r.None? <==> forall j :: 0 <= j < |hits| ==> !hits[j])
  {
    LastFromHolds(0, hits, None);
  }

  /** With a single match both loops end on it. */
  lemma SingleHit(hits: seq<bool>, k: nat)
    requires k < |hits| && hits[k] && forall j :: 0 <= j < |hits| && j != k ==> !hits[j]
    ensures FirstWhere(hits) == Some(k) && LastWhere(hits) == Some(k)
  {
    LastWhereIsLast(hits);
  }
}
