/** The reconciliation diff: `categorize` of the newer `Manager` and its
    inline twin in the older `replace`. Existing objects are indexed by id;
    each incoming object is an add, an update (strictly newer version) or a
    skip; the existing objects no incoming object claimed are deleted. */
module Reconcile {
  import opened Wrappers
  import opened JavaText
  import opened Model
  import Ids

  /** A `HashMap<Long, T>` from (possibly null) ids to objects. */
  type Index = map<Option<Long>, DatabaseObject>

  /** The first loop: `put` every existing object under its id, a later one
      replacing an earlier one with the same id. */
  function IndexOf(existing: seq<DatabaseObject>): (m: Index)
    ensures forall k :: k in m <==> exists i :: 0 <= i < |existing| && existing[i].id == k
    ensures forall k :: k in m ==> m[k].id == k && m[k] in existing
    decreases |existing|
  {
    if |existing| == 0 then map[]
    else
      var last := existing[|existing| - 1];
      var m := IndexOf(existing[..|existing| - 1]);
      assert forall o :: o in existing[..|existing| - 1] ==> o in existing;
      m[last.id := last]
  }

  /** What `categorize` decides for one incoming object. */
  datatype Outcome = Add | Update | Skip

  /** Incoming object `i` is the first to name an id that was indexed. */
  predicate Claims(index: Index, incoming: seq<DatabaseObject>, i: int)
    requires 0 <= i < |incoming|
  {
    incoming[i].id in index && forall j :: 0 <= j < i ==> incoming[j].id != incoming[i].id
  }

  /** The outcome of incoming object `i`: a claim is an update when strictly
      newer and a skip otherwise; anything else, including a second object
      naming an already claimed id, is an add. */
  function OutcomeAt(index: Index, incoming: seq<DatabaseObject>, i: int): Outcome
    requires 0 <= i < |incoming|
  {
    if !Claims(index, incoming, i) then Add
    else if incoming[i].version > index[incoming[i].id].version then Update
    else Skip
  }

  /** The first `n` incoming objects with the given outcome, in order. */
  function WithOutcome(index: Index, incoming: seq<DatabaseObject>, outcome: Outcome, n: nat): (r: seq<DatabaseObject>)
    requires n <= |incoming|
    ensures |r| <= n
    ensures forall o :: o in r ==> exists i :: 0 <= i < n && incoming[i] == o && OutcomeAt(index, incoming, i) == outcome
  {
    if n == 0 then []
    else WithOutcome(index, incoming, outcome, n - 1) +
         (if OutcomeAt(index, incoming, n - 1) == outcome then [incoming[n - 1]] else [])
  }

  /** The ids named by the first `n` incoming objects. */
  function IdsOf(incoming: seq<DatabaseObject>, n: nat): (ids: set<Option<Long>>)
    requires n <= |incoming|
    ensures forall k :: k in ids <==> exists j :: 0 <= j < n && incoming[j].id == k
  {
    if n == 0 then {} else IdsOf(incoming, n - 1) + {incoming[n - 1].id}
  }

  /** The result of `categorize`: adds, updates, and the index entries left
      over, which become the deletes. */
  datatype Categories = Categories(adds: seq<DatabaseObject>, updates: seq<DatabaseObject>, remaining: Index)

  /** One turn of the second loop: a hit removes the map entry and is an
      update when strictly newer; a miss is an add. */
  function Step(o: DatabaseObject, c: Categories): Categories {
    if o.id in c.remaining then
      var existingObject := c.remaining[o.id];
      var updates := if o.version > existingObject.version then c.updates + [o] else c.updates;
      Categories(c.adds, updates, c.remaining - {o.id})
    else Categories(c.adds + [o], c.updates, c.remaining)
  }

  /** The second loop from incoming object `n` on. */
  function CategorizeFrom(incoming: seq<DatabaseObject>, n: nat, c: Categories): Categories
    requires n <= |incoming|
    decreases |incoming| - n
  {
    if n == |incoming| then c else CategorizeFrom(incoming, n + 1, Step(incoming[n], c))
  }

  /** `categorize(existing, incoming)`. */
  function Categorize(existing: seq<DatabaseObject>, incoming: seq<DatabaseObject>): Categories {
    CategorizeFrom(incoming, 0, Categories([], [], IndexOf(existing)))
  }

  /** The loop state after `n` incoming objects: the index without the ids
      seen so far, and the adds and updates among those objects. */
  predicate LoopState(index: Index, incoming: seq<DatabaseObject>, n: nat, c: Categories)
    requires n <= |incoming|
  {
    c.remaining == index - IdsOf(incoming, n) &&
    c.adds == WithOutcome(index, incoming, Add, n) &&
    c.updates == WithOutcome(index, incoming, Update, n)
  }

  /** A hit in the loop's map is exactly a claim, and finds the indexed object. */
  lemma StepHit(index: Index, incoming: seq<DatabaseObject>, n: nat, c: Categories)
    requires n < |incoming| && LoopState(index, incoming, n, c)
    ensures incoming[n].id in c.remaining <==> Claims(index, incoming, n)
    ensures incoming[n].id in c.remaining ==> c.remaining[incoming[n].id] == index[incoming[n].id]
  {
  }

  /** One turn of the loop keeps the loop state. */
  lemma LoopStep(index: Index, incoming: seq<DatabaseObject>, n: nat, c: Categories)
    requires n < |incoming| && LoopState(index, incoming, n, c)
    ensures LoopState(index, incoming, n + 1, Step(incoming[n], c))
  {
    var o := incoming[n];
    var next := Step(o, c);
    StepHit(index, incoming, n, c);
    assert next.remaining == index - IdsOf(incoming, n + 1) by {
      assert IdsOf(incoming, n + 1) == IdsOf(incoming, n) + {o.id};
    }
    assert next.adds == WithOutcome(index, incoming, Add, n + 1);
    assert next.updates == WithOutcome(index, incoming, Update, n + 1);
  }

  /** The loop computes the per-object outcomes. */
  lemma {:induction false} CategorizeFromState(index: Index, incoming: seq<DatabaseObject>, n: nat, c: Categories)
    requires n <= |incoming| && LoopState(index, incoming, n, c)
    ensures LoopState(index, incoming, |incoming|, CategorizeFrom(incoming, n, c))
    decreases |incoming| - n
  {
    if n < |incoming| {
      LoopStep(index, incoming, n, c);
      CategorizeFromState(index, incoming, n + 1, Step(incoming[n], c));
    }
  }

  /** `categorize` places each incoming object by its own outcome: the adds
      and updates are exactly the incoming objects with those outcomes, in
      input order, and the leftover index is the existing ids no incoming
      object named. */
  lemma CategorizeIsOutcomes(existing: seq<DatabaseObject>, incoming: seq<DatabaseObject>)
    ensures var index := IndexOf(existing);
            var c := Categorize(existing, incoming);
            c.adds == WithOutcome(index, incoming, Add, |incoming|) &&
            c.updates == WithOutcome(index, incoming, Update, |incoming|) &&
            c.remaining == index - IdsOf(incoming, |incoming|)
  {
    CategorizeFromState(IndexOf(existing), incoming, 0, Categories([], [], IndexOf(existing)));
  }

  /** The number of the first `n` incoming objects with each outcome adds up to `n`. */
  lemma {:induction false} OutcomesPartition(index: Index, incoming: seq<DatabaseObject>, n: nat)
    requires n <= |incoming|
    ensures |WithOutcome(index, incoming, Add, n)| + |WithOutcome(index, incoming, Update, n)|
            + |WithOutcome(index, incoming, Skip, n)| == n
  {
    if n > 0 {
      OutcomesPartition(index, incoming, n - 1);
    }
  }

  /** The three outcomes of one incoming object, as the source decides them. */
  lemma OutcomeCases(existing: seq<DatabaseObject>, incoming: seq<DatabaseObject>, i: int)
    requires 0 <= i < |incoming|
    ensures var index := IndexOf(existing);
            var o := incoming[i];
            (OutcomeAt(index, incoming, i) == Add <==>
               (forall e :: e in existing ==> e.id != o.id) || exists j :: 0 <= j < i && incoming[j].id == o.id) &&
            (OutcomeAt(index, incoming, i) == Update <==>
               Claims(index, incoming, i) && o.version > index[o.id].version) &&
            (OutcomeAt(index, incoming, i) == Skip <==>
               Claims(index, incoming, i) && o.version <= index[o.id].version)
  {
    var index := IndexOf(existing);
    var o := incoming[i];
    if o.id !in index {
      forall e | e in existing ensures e.id != o.id {
        var k :| 0 <= k < |existing| && existing[k] == e;
      }
    }
  }

  /** A second incoming object naming an id already claimed lands in the
      adds, since the first claim removed the map entry. */
  lemma RepeatedIdIsAdded(existing: seq<DatabaseObject>, incoming: seq<DatabaseObject>, i: int, j: int)
    requires 0 <= i < j < |incoming| && incoming[i].id == incoming[j].id
    ensures incoming[j] in Categorize(existing, incoming).adds
  {
    var index := IndexOf(existing);
    CategorizeIsOutcomes(existing, incoming);
    assert OutcomeAt(index, incoming, j) == Add;
    InWithOutcome(index, incoming, Add, |incoming|, j);
  }

  /** An object with outcome `outcome` is listed under it. */
  lemma {:induction false} InWithOutcome(index: Index, incoming: seq<DatabaseObject>, outcome: Outcome, n: nat, i: int)
    requires 0 <= i < n <= |incoming| && OutcomeAt(index, incoming, i) == outcome
    ensures incoming[i] in WithOutcome(index, incoming, outcome, n)
  {
    if i < n - 1 {
      InWithOutcome(index, incoming, outcome, n - 1, i);
    }
  }

  /** With no id named twice among the incoming objects, none is named
      twice among those of one outcome. */
  lemma {:induction false} WithOutcomeDistinct(index: Index, incoming: seq<DatabaseObject>, outcome: Outcome, n: nat)
    requires n <= |incoming| && IdsDistinct(incoming)
    ensures IdsDistinct(WithOutcome(index, incoming, outcome, n))
  {
    if n > 0 {
      WithOutcomeDistinct(index, incoming, outcome, n - 1);
      var front := WithOutcome(index, incoming, outcome, n - 1);
      var r := WithOutcome(index, incoming, outcome, n);
      if OutcomeAt(index, incoming, n - 1) == outcome {
        assert r == front + [incoming[n - 1]];
        forall i | 0 <= i < |front| ensures front[i].id != incoming[n - 1].id {
          assert front[i] in front;
        }
      } else {
        assert r == front;
      }
    }
  }

  /** Two id-distinct sequences naming disjoint ids concatenate to an
      id-distinct sequence. */
  lemma ConcatDistinct(a: seq<DatabaseObject>, b: seq<DatabaseObject>)
    requires IdsDistinct(a) && IdsDistinct(b) && IdSet(a) !! IdSet(b)
    ensures IdsDistinct(a + b)
  {
    forall i, j | 0 <= i < j < |a + b| ensures (a + b)[i].id != (a + b)[j].id {
      if j < |a| {
        assert (a + b)[i] == a[i] && (a + b)[j] == a[j];
      } else if i >= |a| {
        assert (a + b)[i] == b[i - |a|] && (a + b)[j] == b[j - |a|];
      } else {
        assert (a + b)[i] == a[i] && a[i] in a;
        assert (a + b)[j] == b[j - |a|] && b[j - |a|] in b;
        assert a[i].id in IdSet(a) && b[j - |a|].id in IdSet(b);
      }
    }
  }

  /** With distinct incoming ids, the adds and updates of `categorize` name
      no id twice, and only incoming ids. */
  lemma AddsAndUpdatesDistinct(existing: seq<DatabaseObject>, incoming: seq<DatabaseObject>)
    requires IdsDistinct(incoming)
    ensures var c := Categorize(existing, incoming);
            IdsDistinct(c.adds + c.updates) && IdSet(c.adds + c.updates) <= IdSet(incoming)
  {
    var index := IndexOf(existing);
    var c := Categorize(existing, incoming);
    CategorizeIsOutcomes(existing, incoming);
    WithOutcomeDistinct(index, incoming, Add, |incoming|);
    WithOutcomeDistinct(index, incoming, Update, |incoming|);
    forall x, y | x in c.adds && y in c.updates ensures x.id != y.id {
      var i :| 0 <= i < |incoming| && incoming[i] == x && OutcomeAt(index, incoming, i) == Add;
      var j :| 0 <= j < |incoming| && incoming[j] == y && OutcomeAt(index, incoming, j) == Update;
      assert i != j;
    }
    ConcatDistinct(c.adds, c.updates);
    forall k | k in IdSet(c.adds + c.updates) ensures k in IdSet(incoming) {
      var o :| o in c.adds + c.updates && o.id == k;
      assert o in incoming;
    }
  }

  /** Existing object `i` is the last one with its id. */
  predicate LastWithId(existing: seq<DatabaseObject>, i: int)
    requires 0 <= i < |existing|
  {
    forall j :: i < j < |existing| ==> existing[j].id != existing[i].id
  }

  /** The delete list: the existing objects left in the map, one per id, in
      the order of the existing objects. */
  function DeleteList(existing: seq<DatabaseObject>, remaining: Index): (r: seq<DatabaseObject>)
    ensures forall o :: o in r ==> o in existing && o.id in remaining
    decreases |existing|
  {
    if |existing| == 0 then []
    else
      var last := existing[|existing| - 1];
      var front := existing[..|existing| - 1];
      DeleteList(front, remaining - {last.id}) + (if last.id in remaining then [last] else [])
  }

  /** The ids named by a sequence of objects. */
  function IdSet(objects: seq<DatabaseObject>): set<Option<Long>> {
    set o | o in objects :: o.id
  }

  /** No id is named twice. */
  predicate IdsDistinct(objects: seq<DatabaseObject>) {
    forall i, j :: 0 <= i < j < |objects| ==> objects[i].id != objects[j].id
  }

  /** The delete list names no id twice. */
  lemma {:induction false} DeleteListDistinct(existing: seq<DatabaseObject>, remaining: Index)
    ensures IdsDistinct(DeleteList(existing, remaining))
    decreases |existing|
  {
    if |existing| > 0 {
      var last := existing[|existing| - 1];
      var rest := DeleteList(existing[..|existing| - 1], remaining - {last.id});
      DeleteListDistinct(existing[..|existing| - 1], remaining - {last.id});
      var tail: seq<DatabaseObject> := if last.id in remaining then [last] else [];
      assert DeleteList(existing, remaining) == rest + tail;
      forall i, j | 0 <= i < j < |rest + tail| ensures (rest + tail)[i].id != (rest + tail)[j].id {
        assert (rest + tail)[i] == rest[i] && rest[i] in rest;
        if j >= |rest| {
          assert (rest + tail)[j] == last;
          assert rest[i].id in remaining - {last.id};
        } else {
          assert (rest + tail)[j] == rest[j];
          assert rest[i].id != rest[j].id;
        }
      }
    }
  }

  /** The ids of the delete list are the keys of `remaining` that some
      existing object names. */
  lemma {:induction false} DeleteListIds(existing: seq<DatabaseObject>, remaining: Index)
    ensures IdSet(DeleteList(existing, remaining)) == remaining.Keys * IdSet(existing)
    decreases |existing|
  {
    if |existing| > 0 {
      var last := existing[|existing| - 1];
      var front := existing[..|existing| - 1];
      var rest := DeleteList(front, remaining - {last.id});
      DeleteListIds(front, remaining - {last.id});
      assert existing == front + [last];
      assert IdSet(existing) == IdSet(front) + {last.id};
      var tail := if last.id in remaining then [last] else [];
      assert IdSet(rest + tail) == IdSet(rest) + IdSet(tail);
    }
  }

  /** The delete list of `categorize`: the existing objects whose id no
      incoming object named, one per id. */
  function Deletes(existing: seq<DatabaseObject>, incoming: seq<DatabaseObject>): seq<DatabaseObject> {
    DeleteList(existing, Categorize(existing, incoming).remaining)
  }

  /** The delete list is a subset of the existing objects, names no id
      twice, and names exactly the existing ids no incoming object names. */
  lemma DeletesAreUnclaimed(existing: seq<DatabaseObject>, incoming: seq<DatabaseObject>)
    ensures var d := Deletes(existing, incoming);
            (forall o :: o in d ==> o in existing) &&
            IdsDistinct(d) &&
            IdSet(d) == IdSet(existing) - IdSet(incoming)
  {
    var index := IndexOf(existing);
    CategorizeIsOutcomes(existing, incoming);
    var remaining := Categorize(existing, incoming).remaining;
    DeleteListDistinct(existing, remaining);
    DeleteListIds(existing, remaining);
    assert index.Keys == IdSet(existing) by {
      forall k | k in IdSet(existing) ensures k in index {
        var o :| o in existing && o.id == k;
        var i :| 0 <= i < |existing| && existing[i] == o;
      }
    }
    assert IdsOf(incoming, |incoming|) == IdSet(incoming) by {
      forall k | k in IdSet(incoming) ensures k in IdsOf(incoming, |incoming|) {
        var o :| o in incoming && o.id == k;
        var i :| 0 <= i < |incoming| && incoming[i] == o;
      }
    }
  }

  /** Some object's `SimpleIdWrapper` cannot be hashed. */
  predicate HashFails(objects: seq<DatabaseObject>) {
    exists i :: 0 <= i < |objects| && Ids.HashCode(Ids.Wrapper(0, objects[i].id)).Err?
  }

  /** The older `replace` keys the map by `SimpleIdWrapper`, whose
      `hashCode` dereferences the id: any null id, old or new, raises a
      NullPointerException before anything is applied. With non-null ids
      wrapper equality is id equality, so the diff is `categorize`'s. */
  function ReplaceCategorize(oldObjects: seq<DatabaseObject>, replacements: seq<DatabaseObject>)
    : (r: Result<(seq<DatabaseObject>, seq<DatabaseObject>, seq<DatabaseObject>)>)
    ensures r.Err? <==> exists o :: (o in oldObjects || o in replacements) && o.id.None?
    ensures r.Err? ==> r.error == NullPointer
  {
    if HashFails(oldObjects) || HashFails(replacements) then Err(NullPointer)
    else
      var c := Categorize(oldObjects, replacements);
      Ok((c.adds, c.updates, Deletes(oldObjects, replacements)))
  }

  /** With non-null ids the older `replace` makes the newer `categorize`'s
      decisions: adds, updates, and the unclaimed old objects as deletes. */
  lemma ReplaceMatchesCategorize(oldObjects: seq<DatabaseObject>, replacements: seq<DatabaseObject>)
    requires forall o :: o in oldObjects ==> o.id.Some?
    requires forall o :: o in replacements ==> o.id.Some?
    ensures var r := ReplaceCategorize(oldObjects, replacements);
            var c := Categorize(oldObjects, replacements);
            r.Ok? && r.value.0 == c.adds && r.value.1 == c.updates &&
            r.value.2 == DeleteList(oldObjects, c.remaining)
  {
  }
}
