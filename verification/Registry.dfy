/** What the task pool and the timer queue share: ids, and a queue that agrees with an id map. */
module Registry {

  /** An id counter that all objects of the process share. */
  class Counter {
    var next: nat

    constructor ()
      ensures next == 0
    {
      next := 0;
    }
  }

  ghost predicate HasId<T>(byId: map<int, T>, t: T)
  {
    exists a :: a in byId && byId[a] == t
  }

  /** The queue and the map hold the same entries, each of them once and under one id. */
  ghost predicate Agree<T>(queue: seq<T>, byId: map<int, T>)
  {
    && |queue| == |byId|
    && (forall a | a in byId :: byId[a] in queue)
    && (forall i | 0 <= i < |queue| :: HasId(byId, queue[i]))
    && (forall i, j | 0 <= i < j < |queue| :: queue[i] != queue[j])
    && (forall a, b | a in byId && b in byId && a != b :: byId[a] != byId[b])
  }

  lemma AgreeAfterPush<T>(queue: seq<T>, byId: map<int, T>, id: int, t: T)
    requires Agree(queue, byId) && id !in byId && t !in queue
    ensures Agree(queue + [t], byId[id := t])
  {
    forall i | 0 <= i < |queue|
      ensures HasId(byId[id := t], queue[i])
    {
      var a :| a in byId && byId[a] == queue[i];
      assert byId[id := t][a] == queue[i];
    }
    assert byId[id := t][id] == t;
  }

  function Without<T>(s: seq<T>, k: nat): (r: seq<T>)
    requires k < |s|
    ensures |r| == |s| - 1
    ensures forall i | 0 <= i < |r| :: r[i] == s[if i < k then i else i + 1]
  {
    s[..k] + s[k + 1..]
  }

  lemma WithoutOne<T>(s: seq<T>, k: nat, x: T)
    requires k < |s| && x in s && x != s[k]
    ensures x in Without(s, k)
  {
    var i :| 0 <= i < |s| && s[i] == x;
    assert Without(s, k)[if i < k then i else i - 1] == x;
  }

  lemma AgreeAfterPop<T>(queue: seq<T>, byId: map<int, T>, k: nat, id: int)
    requires Agree(queue, byId) && k < |queue| && id in byId && byId[id] == queue[k]
    ensures Agree(Without(queue, k), byId - {id})
    ensures forall a | a in byId - {id} :: byId[a] != queue[k]
  {
    hide Without;
    var rest, left := byId - {id}, Without(queue, k);
    assert byId == rest[id := queue[k]];
    assert |rest| == |byId| - 1;
    forall i | 0 <= i < |left|
      ensures HasId(rest, left[i])
    {
      var j := if i < k then i else i + 1;
      var a :| a in byId && byId[a] == queue[j];
      assert rest[a] == left[i];
    }
    forall a | a in rest
      ensures rest[a] in left
    {
      WithoutOne(queue, k, rest[a]);
    }
  }
}
