/** The sorted set as its callers see it: scores, recency, and deferred evictions. */
module ZSet {
  import opened Seqs
  import L = LruModel

  /** Scores by member, the LRU order of the members it still tracks, the members
      whose eviction is pending, and the capacity (0 is unbounded). */
  datatype ZSet = ZSet(scores: map<Key, int>, order: seq<Key>, pending: seq<Key>, capacity: nat)

  datatype Op = Insert(ele: Key, score: int) | Delete(ele: Key) | Search(ele: Key) | SetMaxMemory(max: int)

  function Empty(capacity: int): ZSet {
    ZSet(map[], [], [], if capacity > 0 then capacity else 0)
  }

  /** What agrees between any two calls. */
  ghost predicate Valid(z: ZSet) {
    && Distinct(z.order) && Distinct(z.pending)
    && Elems(z.order) !! Elems(z.pending)
    && Elems(z.order) <= z.scores.Keys <= Elems(z.order) + Elems(z.pending)
    && (z.capacity > 0 ==> |z.order| <= z.capacity)
  }

  function Step(z: ZSet, op: Op): ZSet {
    match op
    case Insert(ele, score) =>
      if ele in z.scores && z.scores[ele] == score then
        z.(order := L.Touch(z.order, ele))
      else
        var rest := Drop(z.order, {ele});
        var gone := Elems(z.pending) + L.Victim(rest, z.capacity);
        ZSet(z.scores[ele := score] - gone, Drop([ele] + rest, gone), [], z.capacity)
    case Delete(ele) => z.(scores := z.scores - {ele}, order := Drop(z.order, {ele}))
    case Search(ele) => z.(order := L.Touch(z.order, ele))
    case SetMaxMemory(c) =>
      if c < 0 then z
      else if c == 0 || |z.order| <= c then z.(capacity := c)
      else z.(order := z.order[..c], pending := z.pending + L.Reversed(z.order[c..]), capacity := c)
  }

  function Result(z: ZSet, op: Op): int {
    match op
    case Insert(ele, _) => if ele in z.scores then 0 else 1
    case Delete(ele) => if ele in z.scores then 1 else 0
    case Search(ele) => if ele in z.scores then z.scores[ele] else -1
    case SetMaxMemory(_) => 0
  }

  /** The recency order after an insertion that is not an equal-score one. */
  lemma {:induction false} InsertOrder(z: ZSet, ele: Key)
    requires Valid(z)
    ensures var rest := Drop(z.order, {ele});
      && Distinct(rest) && ele !in rest && (z.capacity > 0 ==> |rest| <= z.capacity)
      && ele !in L.Victim(rest, z.capacity) && L.Victim(rest, z.capacity) <= Elems(rest)
      && (0 < z.capacity == |rest| ==>
          var n := |rest| - 1;
          Elems(rest[..n]) == Elems(rest) - {rest[n]} && Drop(rest, {rest[n]}) == rest[..n])
  {
    DropDistinct(z.order, {ele});
    var rest := Drop(z.order, {ele});
    if 0 < z.capacity == |rest| {
      DropLast(rest);
    }
  }

  lemma {:induction false} TouchValid(z: ZSet, ele: Key)
    requires Valid(z)
    ensures Valid(z.(order := L.Touch(z.order, ele)))
  {
    DropDistinct(z.order, {ele});
    L.TouchCount(z.order, ele);
    assert ele in z.order ==> ele !in Drop(z.order, {ele});
  }

  lemma {:induction false} InsertValid(z: ZSet, ele: Key, score: int)
    requires Valid(z) && !(ele in z.scores && z.scores[ele] == score)
    ensures Valid(Step(z, Insert(ele, score)))
  {
    var rest := Drop(z.order, {ele});
    var victim := L.Victim(rest, z.capacity);
    var gone := Elems(z.pending) + victim;
    InsertOrder(z, ele);
    DropDistinct([ele] + rest, gone);
    var order := Drop([ele] + rest, gone);
    DropTwice([ele] + rest, victim, Elems(z.pending));
    assert victim + Elems(z.pending) == gone;
    if 0 < z.capacity == |rest| {
      DropConcat([ele], rest, victim);
      assert |Drop([ele] + rest, victim)| <= |rest|;
    }
  }

  lemma {:induction false} ShrinkValid(z: ZSet, c: nat)
    requires Valid(z) && 0 < c < |z.order|
    ensures Valid(Step(z, SetMaxMemory(c)))
  {
    var kept, cut := z.order[..c], z.order[c..];
    SplitDistinct(z.order, c);
    assert Elems(L.Reversed(cut)) == Elems(cut) by {
      forall x | x in cut ensures x in L.Reversed(cut) {
        var i :| 0 <= i < |cut| && cut[i] == x;
        assert L.Reversed(cut)[|cut| - 1 - i] == x;
      }
    }
    JoinDistinct(z.pending, L.Reversed(cut));
  }

  /** Every call keeps the views in agreement. */
  lemma {:induction false} StepValid(z: ZSet, op: Op)
    requires Valid(z)
    ensures Valid(Step(z, op))
  {
    match op
    case Insert(ele, score) =>
      if ele in z.scores && z.scores[ele] == score {
        TouchValid(z, ele);
      } else {
        InsertValid(z, ele, score);
      }
    case Delete(ele) =>
      DropDistinct(z.order, {ele});
    case Search(ele) =>
      TouchValid(z, ele);
    case SetMaxMemory(c) =>
      if 0 < c < |z.order| {
        ShrinkValid(z, c);
      }
  }

  /** Erase the old entry, put the new one, drain the evicted keys: the insertion above. */
  lemma {:induction false} InsertRefined(z: ZSet, l: L.Lru, ele: Key, score: int)
    requires Valid(z) && L.Valid(l)
    requires l.order == z.order && l.evicted == z.pending && l.capacity == z.capacity
    requires !(ele in z.scores && z.scores[ele] == score)
    ensures var m := L.Step(L.Step(l, L.Remove(ele)), L.Put(ele, score));
      && Step(z, Insert(ele, score)) ==
           ZSet(z.scores[ele := score] - Elems(m.evicted), Drop(m.order, Elems(m.evicted)), [], m.capacity)
  {
    hide Valid, L.Valid, Drop, Distinct;
    var rest := Drop(z.order, {ele});
    var victim := L.Victim(rest, z.capacity);
    InsertOrder(z, ele);
    var r := L.Step(l, L.Remove(ele));
    assert r.order == rest && r.evicted == z.pending && r.capacity == z.capacity;
    var m := L.Step(r, L.Put(ele, score));
    if 0 < z.capacity == |rest| {
      var n := |rest| - 1;
      assert m.order == [ele] + rest[..n];
      assert m.evicted == z.pending + [rest[n]];
      assert Elems(m.evicted) == Elems(z.pending) + victim;
      DropConcat([ele], rest, Elems(m.evicted));
      DropConcat([ele], rest[..n], Elems(m.evicted));
      DropTwice(rest, victim, Elems(m.evicted));
      assert victim + Elems(m.evicted) == Elems(m.evicted);
    } else {
      assert Elems(z.pending) + victim == Elems(m.evicted);
    }
  }

  /** Shrinking the cache alone: the capacity change above. */
  lemma {:induction false} SetMaxRefined(z: ZSet, l: L.Lru, c: int)
    requires L.Valid(l) && l.order == z.order && l.evicted == z.pending && l.capacity == z.capacity
    ensures var m := L.Step(l, L.SetCapacity(c));
      && Step(z, SetMaxMemory(c)) == ZSet(z.scores, m.order, m.evicted, m.capacity)
      && (forall k :: k in m.values ==> k in l.values && m.values[k] == l.values[k])
  {
    if c > 0 {
      L.ShrinkKeepsRecent(l.(capacity := c), c);
      L.ShrinkKeepsValues(l.(capacity := c), c);
      if |l.order| <= c {
        assert L.Reversed(l.order[|l.order|..]) == [];
      }
    }
  }
}
