/**
  How the admin managers keep their on-screen lists in step with the server
  without reloading: replace the entry with the edited id
  (`prev.map(p => p.id === id ? updated : p)`), put a created entry first
  (`[created, ...prev]`) and drop a deleted id (`prev.filter(p => p.id !== id)`).
 */
module ListSync {

  /** No two entries share an id. */
  predicate UniqueIds<T>(items: seq<T>, idOf: T -> nat) {
    forall i, j :: 0 <= i < j < |items| ==> idOf(items[i]) != idOf(items[j])
  }

  /** Some entry has the id. */
  predicate HasId<T>(items: seq<T>, idOf: T -> nat, id: nat) {
    exists i :: 0 <= i < |items| && idOf(items[i]) == id
  }

  /** `prev.map(p => (p.id === id ? updated : p))` */
  function ReplaceById<T>(items: seq<T>, idOf: T -> nat, id: nat, updated: T): (r: seq<T>)
    ensures |r| == |items|
    ensures forall i :: 0 <= i < |items| && idOf(items[i]) != id ==> r[i] == items[i]
    ensures forall i :: 0 <= i < |items| && idOf(items[i]) == id ==> r[i] == updated
  {
    if items == [] then []
    else [if idOf(items[0]) == id then updated else items[0]] + ReplaceById(items[1..], idOf, id, updated)
  }

  /** `[created, ...prev]` */
  function Prepend<T>(created: T, items: seq<T>): (r: seq<T>)
    ensures |r| == |items| + 1 && r[0] == created && r[1..] == items
  {
    [created] + items
  }

  /** `prev.filter(p => p.id !== id)` */
  function RemoveById<T>(items: seq<T>, idOf: T -> nat, id: nat): (r: seq<T>)
    ensures |r| <= |items|
    ensures forall i :: 0 <= i < |r| ==> r[i] in items && idOf(r[i]) != id
    ensures forall i :: 0 <= i < |items| && idOf(items[i]) != id ==> items[i] in r
  {
    if items == [] then []
    else (if idOf(items[0]) == id then [] else [items[0]]) + RemoveById(items[1..], idOf, id)
  }

  /** A list without the id is left as it is by a replace. */
  lemma ReplaceAbsent<T>(items: seq<T>, idOf: T -> nat, id: nat, updated: T)
    requires !HasId(items, idOf, id)
    ensures ReplaceById(items, idOf, id, updated) == items
  {
  }

  /** Replacing with an entry that keeps the id keeps every id in place, so unique ids stay unique. */
  lemma ReplaceKeepsIds<T>(items: seq<T>, idOf: T -> nat, id: nat, updated: T)
    requires idOf(updated) == id
    ensures var r := ReplaceById(items, idOf, id, updated);
      forall i :: 0 <= i < |r| ==> idOf(r[i]) == idOf(items[i])
    ensures UniqueIds(items, idOf) ==> UniqueIds(ReplaceById(items, idOf, id, updated), idOf)
  {
    var r := ReplaceById(items, idOf, id, updated);
    assert forall i :: 0 <= i < |r| ==> idOf(r[i]) == idOf(items[i]);
  }

  /** Applying the same replace twice is applying it once. */
  lemma ReplaceIdempotent<T>(items: seq<T>, idOf: T -> nat, id: nat, updated: T)
    requires idOf(updated) == id
    ensures ReplaceById(ReplaceById(items, idOf, id, updated), idOf, id, updated) == ReplaceById(items, idOf, id, updated)
  {
    ReplaceKeepsIds(items, idOf, id, updated);
  }

  /** Removal changes the list exactly when some entry has the id. */
  lemma {:induction false} RemoveChangesOnlyWithId<T>(items: seq<T>, idOf: T -> nat, id: nat)
    ensures RemoveById(items, idOf, id) == items <==> !HasId(items, idOf, id)
    decreases |items|
  {
    if items != [] {
      RemoveChangesOnlyWithId(items[1..], idOf, id);
      var rest := RemoveById(items[1..], idOf, id);
      if idOf(items[0]) == id {
        assert items[0] !in RemoveById(items, idOf, id);
      } else {
        assert HasId(items, idOf, id) <==> HasId(items[1..], idOf, id) by {
          if HasId(items, idOf, id) {
            var i :| 0 <= i < |items| && idOf(items[i]) == id;
            assert idOf(items[1..][i - 1]) == id;
          }
          if HasId(items[1..], idOf, id) {
            var i :| 0 <= i < |items[1..]| && idOf(items[1..][i]) == id;
            assert idOf(items[i + 1]) == id;
          }
        }
        assert RemoveById(items, idOf, id) == [items[0]] + rest;
        assert [items[0]] + rest == items <==> rest == items[1..] by {
          if [items[0]] + rest == items {
            assert rest == ([items[0]] + rest)[1..];
          }
        }
      }
    }
  }

  /** Removing twice is removing once, and nothing with the id is left. */
  lemma RemoveIdempotent<T>(items: seq<T>, idOf: T -> nat, id: nat)
    ensures !HasId(RemoveById(items, idOf, id), idOf, id)
    ensures RemoveById(RemoveById(items, idOf, id), idOf, id) == RemoveById(items, idOf, id)
  {
    var r := RemoveById(items, idOf, id);
    assert forall i :: 0 <= i < |r| ==> r[i] in r;
    RemoveChangesOnlyWithId(r, idOf, id);
  }

  /** A created entry removed again leaves the list as it would be without it. */
  lemma RemoveUndoesPrepend<T>(created: T, items: seq<T>, idOf: T -> nat)
    requires !HasId(items, idOf, idOf(created))
    ensures RemoveById(Prepend(created, items), idOf, idOf(created)) == items
  {
    var xs := Prepend(created, items);
    assert xs[1..] == items;
    RemoveChangesOnlyWithId(items, idOf, idOf(created));
  }

  /** Prepending an entry with a new id keeps ids unique. */
  lemma PrependUnique<T>(created: T, items: seq<T>, idOf: T -> nat)
    requires UniqueIds(items, idOf) && !HasId(items, idOf, idOf(created))
    ensures UniqueIds(Prepend(created, items), idOf)
  {
    var r := Prepend(created, items);
    forall i, j | 0 <= i < j < |r|
      ensures idOf(r[i]) != idOf(r[j])
    {
      assert r[j] == items[j - 1];
      if i > 0 {
        assert r[i] == items[i - 1];
      }
    }
  }

  /** Removal only drops entries, so unique ids stay unique. */
  lemma {:induction false} RemoveUnique<T>(items: seq<T>, idOf: T -> nat, id: nat)
    requires UniqueIds(items, idOf)
    ensures UniqueIds(RemoveById(items, idOf, id), idOf)
    decreases |items|
  {
    if items != [] {
      var tail := items[1..];
      TailUnique(items, idOf);
      RemoveUnique(tail, idOf, id);
      var rest := RemoveById(tail, idOf, id);
      if idOf(items[0]) != id {
        HeadNotInRest(items, idOf, id);
        var r := [items[0]] + rest;
        forall i, j | 0 <= i < j < |r| ensures idOf(r[i]) != idOf(r[j]) {
          assert r[j] == rest[j - 1];
          if i > 0 {
            assert r[i] == rest[i - 1];
          }
        }
      }
    }
  }

  lemma TailUnique<T>(items: seq<T>, idOf: T -> nat)
    requires items != [] && UniqueIds(items, idOf)
    ensures UniqueIds(items[1..], idOf)
  {
    var tail := items[1..];
    forall i, j | 0 <= i < j < |tail| ensures idOf(tail[i]) != idOf(tail[j]) {
      assert tail[i] == items[i + 1] && tail[j] == items[j + 1];
    }
  }

  lemma HeadNotInRest<T>(items: seq<T>, idOf: T -> nat, id: nat)
    requires items != [] && UniqueIds(items, idOf)
    ensures forall x :: x in RemoveById(items[1..], idOf, id) ==> idOf(x) != idOf(items[0])
  {
    var tail := items[1..];
    var rest := RemoveById(tail, idOf, id);
    forall x | x in rest ensures idOf(x) != idOf(items[0]) {
      var m :| 0 <= m < |rest| && rest[m] == x;
      assert x in tail;
      var k :| 0 <= k < |tail| && tail[k] == x;
      assert tail[k] == items[k + 1];
    }
  }
}
