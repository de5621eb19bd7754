/** Taking elements out of an order and putting them in. */
module Orders {

  /** The order without position `was`, or the same order when was is -1. */
  function Without<T>(order: seq<T>, was: int): (r: seq<T>)
    requires -1 <= was < |order|
    ensures |r| == if was < 0 then |order| else |order| - 1
  {
    if was < 0 then order else order[..was] + order[was + 1..]
  }

  function Insert<T>(order: seq<T>, e: T, at: nat): (r: seq<T>)
    requires at <= |order|
    ensures |r| == |order| + 1
  {
    order[..at] + [e] + order[at..]
  }

  /** Where an element stands; -1 if nowhere. */
  function IndexOf(order: seq<int>, sid: int): (k: int)
    ensures -1 <= k < |order|
    ensures k >= 0 ==> order[k] == sid
    ensures k == -1 <==> sid !in order
  {
    if order == [] then -1
    else if order[|order| - 1] == sid then |order| - 1
    else IndexOf(order[..|order| - 1], sid)
  }

  lemma IndexInOrder(order: seq<int>, sid: int)
    ensures -1 <= IndexOf(order, sid) < |order| && (IndexOf(order, sid) >= 0 <==> sid in order)
    ensures sid in order ==> order[IndexOf(order, sid)] == sid
  {
  }

  /** The order without an element, wherever it stands. */
  function Remove(order: seq<int>, sid: int): seq<int> {
    Without(order, IndexOf(order, sid))
  }

  lemma WithoutLength<T>(order: seq<T>, was: int)
    requires -1 <= was < |order|
    ensures |Without(order, was)| == if was < 0 then |order| else |order| - 1
  {
  }

  lemma WithoutFrom<T>(order: seq<T>, was: int, r: nat)
    requires -1 <= was < |order| && r < |Without(order, was)|
    ensures Without(order, was)[r] == order[if 0 <= was <= r then r + 1 else r]
  {
  }

  lemma InsertFrom<T>(order: seq<T>, e: T, at: nat, k: nat)
    requires at <= |order| && k <= |order|
    ensures Insert(order, e, at)[k] == if k < at then order[k] else if k == at then e else order[k - 1]
  {
  }

  /** An order around position k, and without it. */
  lemma AroundPosition<T>(order: seq<T>, k: nat)
    requires k < |order|
    ensures order == order[..k] + ([order[k]] + order[k + 1..]) && Without(order, k) == order[..k] + order[k + 1..]
  {
  }

  lemma WithoutNone<T>(order: seq<T>)
    ensures Without(order, -1) == order
  {
  }

  lemma RemoveIs(order: seq<int>, sid: int)
    ensures Remove(order, sid) == Without(order, IndexOf(order, sid))
  {
  }

  /** In an order without repetitions an element removed is gone. */
  lemma RemoveLeavesNone(order: seq<int>, sid: int)
    requires forall i, j :: 0 <= i < j < |order| ==> order[i] != order[j]
    ensures sid !in Remove(order, sid)
  {
    hide Without, IndexOf;
    var rest, was := Remove(order, sid), IndexOf(order, sid);
    IndexInOrder(order, sid);
    forall k | 0 <= k < |rest| ensures rest[k] != sid {
      WithoutFrom(order, was, k);
      assert sid in order ==> order[was] == sid;
    }
  }

  /** What was put in can be found and taken out. */
  lemma RemoveInserted(rest: seq<int>, sid: int, at: nat)
    requires at <= |rest| && sid !in rest
    ensures IndexOf(Insert(rest, sid, at), sid) == at && Remove(Insert(rest, sid, at), sid) == rest
  {
    hide Insert, Without, IndexOf;
    var order := Insert(rest, sid, at);
    forall k {:trigger order[k]} | 0 <= k < |order|
      ensures order[k] == if k < at then rest[k] else if k == at then sid else rest[k - 1] {
      InsertFrom(rest, sid, at, k);
    }
    IndexInOrder(order, sid);
    assert order[at] == sid;
    forall k | 0 <= k < |rest| ensures Without(order, at)[k] == rest[k] { WithoutFrom(order, at, k); }
  }
}
