/** The sorted set over whole runs of calls. */
module ZSetRuns {
  import opened Seqs
  import opened ZSet
  import L = LruModel
  import R = LruRuns
  import I = LruInclusion

  /** The state after a sequence of calls. */
  ghost function Run(z: ZSet, ops: seq<Op>): ZSet {
    if |ops| == 0 then z else Step(Run(z, ops[..|ops| - 1]), ops[|ops| - 1])
  }

  /** What the calls return. */
  ghost function Results(z: ZSet, ops: seq<Op>): (r: seq<int>)
    ensures |r| == |ops|
  {
    if |ops| == 0 then []
    else Results(z, ops[..|ops| - 1]) + [Result(Run(z, ops[..|ops| - 1]), ops[|ops| - 1])]
  }

  lemma {:induction false} RunSnoc(z: ZSet, ops: seq<Op>, op: Op)
    ensures Run(z, ops + [op]) == Step(Run(z, ops), op)
    ensures Results(z, ops + [op]) == Results(z, ops) + [Result(Run(z, ops), op)]
  {
    assert (ops + [op])[..|ops|] == ops;
  }

  lemma {:induction false} RunConcat(z: ZSet, a: seq<Op>, b: seq<Op>)
    ensures Run(z, a + b) == Run(Run(z, a), b)
  {
    hide Step;
    if |b| == 0 {
      assert a + b == a;
    } else {
      var n := |b| - 1;
      RunConcat(z, a, b[..n]);
      assert (a + b)[..|a| + n] == a + b[..n];
    }
  }

  lemma {:induction false} RunNone(z: ZSet)
    ensures Run(z, []) == z && Results(z, []) == []
  {
  }

  lemma {:induction false} EmptyValid(capacity: int)
    ensures Valid(Empty(capacity))
  {
  }

  lemma {:induction false} RunValid(z: ZSet, ops: seq<Op>)
    requires Valid(z)
    ensures Valid(Run(z, ops))
  {
    if |ops| > 0 {
      RunValid(z, ops[..|ops| - 1]);
      StepValid(Run(z, ops[..|ops| - 1]), ops[|ops| - 1]);
    }
  }

  /** The early return of InsertElement: the member is there with this very score. */
  predicate Same(z: ZSet, ele: Key, score: int) {
    ele in z.scores && z.scores[ele] == score
  }

  /** k survives the insertion of another member past the early return: it is not pending, and not the
      least recent one of a full cache. */
  ghost predicate Survives(z: ZSet, ele: Key, k: Key) {
    k !in z.pending && k !in L.Victim(Drop(z.order, {ele}), z.capacity)
  }

  /** After an insertion the member is there, with the new score, if and only if it already was with
      that score or its eviction was not pending; another one is there, with its old score, if and
      only if it was and the insertion returned early or it survives. */
  lemma {:induction false} MembersAfterInsert(z: ZSet, ele: Key, score: int, k: Key)
    requires Valid(z)
    ensures var y := Step(z, Insert(ele, score));
      && (ele in y.scores <==> Same(z, ele, score) || ele !in z.pending)
      && (ele in y.scores ==> y.scores[ele] == score)
      && (k != ele ==> (k in y.scores <==> k in z.scores && (Same(z, ele, score) || Survives(z, ele, k))))
      && (k != ele && k in y.scores ==> y.scores[k] == z.scores[k])
  {
    hide Valid, Drop;
    if !Same(z, ele, score) {
      InsertOrder(z, ele);
    }
  }

  lemma {:induction false} Settled(y: ZSet)
    requires Valid(y) && y.pending == []
    ensures y.scores.Keys == Elems(y.order) && |y.scores| == |y.order|
  {
    ElemsCount(y.order);
    assert |y.scores.Keys| == |y.scores|;
    assert Elems(y.pending) == {};
  }

  /** An insertion past the early return leaves nothing pending, every member tracked by the cache,
      and no more members than a positive capacity. */
  lemma {:induction false} InsertSettles(z: ZSet, ele: Key, score: int)
    requires Valid(z) && !Same(z, ele, score)
    ensures var y := Step(z, Insert(ele, score));
      && y.pending == [] && y.scores.Keys == Elems(y.order) && |y.scores| == |y.order|
      && (z.capacity > 0 ==> |y.scores| <= z.capacity)
  {
    StepValid(z, Insert(ele, score));
    Settled(Step(z, Insert(ele, score)));
  }

  /** The calls insert nothing past the early return. */
  ghost predicate Quiet(z: ZSet, ops: seq<Op>) {
    forall i :: 0 <= i < |ops| && ops[i].Insert? ==> Same(Run(z, ops[..i]), ops[i].ele, ops[i].score)
  }

  ghost function Deleted(ops: seq<Op>): set<Key> {
    set i | 0 <= i < |ops| && ops[i].Delete? :: ops[i].ele
  }

  lemma {:induction false} QuietStep(z: ZSet, op: Op)
    requires op.Insert? ==> Same(z, op.ele, op.score)
    ensures Step(z, op).scores == if op.Delete? then z.scores - {op.ele} else z.scores
    ensures z.pending <= Step(z, op).pending
  {
  }

  /** Until such an insertion, over any calls: no member leaves but by its deletion, however the capacity
      changes, and nothing that is pending is forgotten. */
  lemma {:induction false} DeferredUntilInsert(z: ZSet, ops: seq<Op>)
    requires Quiet(z, ops)
    ensures Run(z, ops).scores == z.scores - Deleted(ops)
    ensures z.pending <= Run(z, ops).pending
  {
    hide Step, Same;
    if |ops| > 0 {
      var n := |ops| - 1;
      var init, op := ops[..n], ops[n];
      assert Quiet(z, init) by {
        assert forall i :: 0 <= i < n ==> init[i] == ops[i] && init[..i] == ops[..i];
      }
      DeferredUntilInsert(z, init);
      QuietStep(Run(z, init), op);
      assert Deleted(ops) == Deleted(init) + if op.Delete? then {op.ele} else {};
    }
  }

  lemma {:induction false} DeletedAbsent(z: ZSet, a: Key)
    ensures a !in Step(z, Delete(a)).scores
  {
  }

  lemma {:induction false} LostSteps(a: Key, b: Key)
    requires a != b
    ensures var z := Step(Step(Step(Empty(0), Insert(a, 1)), Insert(b, 1)), SetMaxMemory(1));
      z.pending == [a] && a !in Step(Step(z, Delete(a)), Insert(a, 2)).scores
  {
    var z1 := ZSet(map[a := 1], [a], [], 0);
    assert Step(Empty(0), Insert(a, 1)) == z1;
    var z2 := Step(z1, Insert(b, 1));
    assert z2.order == [b, a] && z2.pending == [];
    assert a in Elems([a]);
  }

  /** An insertion that reports a new member and leaves it absent. */
  lemma {:induction false} LostInsertion(a: Key, b: Key)
    requires a != b
    ensures var ops := [Insert(a, 1), Insert(b, 1), SetMaxMemory(1), Delete(a), Insert(a, 2)];
      && Result(Run(Empty(0), ops[..4]), ops[4]) == 1
      && a !in Run(Empty(0), ops).scores
  {
    hide Step;
    var ops := [Insert(a, 1), Insert(b, 1), SetMaxMemory(1), Delete(a), Insert(a, 2)];
    assert ops[..1][..0] == [] && ops[..2][..1] == ops[..1] && ops[..3][..2] == ops[..2];
    assert ops[..4][..3] == ops[..3] && ops[..5] == ops;
    assert Run(Empty(0), ops[..1]) == Step(Empty(0), ops[0]);
    assert Run(Empty(0), ops[..2]) == Step(Run(Empty(0), ops[..1]), ops[1]);
    assert Run(Empty(0), ops[..3]) == Step(Run(Empty(0), ops[..2]), ops[2]);
    assert Run(Empty(0), ops[..4]) == Step(Run(Empty(0), ops[..3]), ops[3]);
    LostSteps(a, b);
    DeletedAbsent(Run(Empty(0), ops[..3]), a);
  }

  /** The call on the cache that a call on the sorted set amounts to. */
  function Lower(op: Op): L.Op {
    match op
    case Insert(ele, score) => L.Put(ele, score)
    case Delete(ele) => L.Remove(ele)
    case Search(ele) => L.Get(ele)
    case SetMaxMemory(c) => L.SetCapacity(c)
  }

  function LowerAll(ops: seq<Op>): (r: seq<L.Op>)
    ensures |r| == |ops| && forall i :: 0 <= i < |ops| ==> r[i] == Lower(ops[i])
  {
    seq(|ops|, i requires 0 <= i < |ops| => Lower(ops[i]))
  }

  /** Nothing pending and room left: the insertion removes nothing. */
  lemma {:induction false} Unpended(z: ZSet, ele: Key, score: int)
    requires !Same(z, ele, score) && z.pending == [] && L.Victim(Drop(z.order, {ele}), z.capacity) == {}
    ensures Step(z, Insert(ele, score)) ==
      ZSet(z.scores[ele := score], [ele] + Drop(z.order, {ele}), [], z.capacity)
  {
    hide Drop;
    var rest := Drop(z.order, {ele});
    assert Elems(z.pending) + L.Victim(rest, z.capacity) == {};
    DropNone([ele] + rest, {});
    assert z.scores[ele := score] - {} == z.scores[ele := score];
  }

  lemma {:induction false} InsertIsPut(z: ZSet, l: L.Lru, ele: Key, score: int)
    requires L.Valid(l) && Valid(z) && z == ZSet(l.values, l.order, [], l.capacity) && !Same(z, ele, score)
    ensures var m := L.Step(l, L.Put(ele, score));
      Step(z, Insert(ele, score)) == ZSet(m.values, m.order, [], l.capacity)
  {
    hide Drop, Valid, Distinct;
    var rest := Drop(l.order, {ele});
    InsertOrder(z, ele);
    if ele in l.order {
      L.TouchCount(l.order, ele);
      Unpended(z, ele, score);
    } else {
      DropNone(l.order, {ele});
      if 0 < l.capacity == |l.order| {
        var last := l.order[|l.order| - 1];
        assert Elems(z.pending) + L.Victim(rest, z.capacity) == {last};
        DropConcat([ele], rest, {last});
        DropNone([ele], {last});
        assert l.values[ele := score] - {last} == (l.values - {last})[ele := score];
      } else {
        Unpended(z, ele, score);
      }
    }
  }

  /** At a fixed capacity a call does to the members exactly what the cache call does to its entries. */
  lemma {:induction false} StepIsLru(z: ZSet, l: L.Lru, op: Op)
    requires L.Valid(l) && z == ZSet(l.values, l.order, [], l.capacity) && !op.SetMaxMemory?
    ensures var m := L.Step(l, Lower(op)); Step(z, op) == ZSet(m.values, m.order, [], l.capacity)
  {
    assert Valid(z);
    match op
    case Insert(ele, score) =>
      if Same(z, ele, score) {
        assert l.values[ele := score] == l.values;
      } else {
        InsertIsPut(z, l, ele, score);
      }
    case Delete(ele) =>
    case Search(ele) =>
  }

  /** A sorted set of fixed capacity is an LRU cache: for every run, its members, their scores and their
      recency order are those of the cache under the corresponding puts, removes and gets. */
  lemma {:induction false} FixedCapacityIsLru(capacity: nat, ops: seq<Op>)
    requires forall op :: op in ops ==> !op.SetMaxMemory?
    ensures var l := R.Run(L.EMPTY.(capacity := capacity), LowerAll(ops));
      L.Valid(l) && l.capacity == capacity
      && Run(Empty(capacity), ops) == ZSet(l.values, l.order, [], capacity)
  {
    var e := L.EMPTY.(capacity := capacity);
    R.RunValid(e, LowerAll(ops));
    if |ops| > 0 {
      var init, op := ops[..|ops| - 1], ops[|ops| - 1];
      assert op in ops && forall o :: o in init ==> o in ops;
      FixedCapacityIsLru(capacity, init);
      assert LowerAll(ops)[..|ops| - 1] == LowerAll(init);
      R.RunValid(e, LowerAll(init));
      StepIsLru(Run(Empty(capacity), init), R.Run(e, LowerAll(init)), op);
    }
  }

  /** More capacity never loses a member: what is held at capacity c is held, with the same score,
      at any larger one. */
  lemma {:induction false} CapacityMonotone(c: nat, d: nat, ops: seq<Op>)
    requires I.AtMost(c, d) && (forall op :: op in ops ==> !op.SetMaxMemory?)
    ensures var s, b := Run(Empty(c), ops), Run(Empty(d), ops);
      && (forall k :: k in s.scores ==> k in b.scores && s.scores[k] == b.scores[k])
      && s.order == Drop(b.order, Elems(b.order) - Elems(s.order))
  {
    hide Run, R.Run, LowerAll;
    FixedCapacityIsLru(c, ops);
    FixedCapacityIsLru(d, ops);
    assert forall op :: op in LowerAll(ops) ==> !op.SetCapacity?;
    I.Inclusion(c, d, LowerAll(ops));
  }

  /** At a fixed capacity the member an insertion pushes out was inserted or searched for before every
      one that stays. */
  lemma {:induction false} InsertEvictsOldest(capacity: nat, ops: seq<Op>, ele: Key, score: int, v: Key, k: Key)
    requires forall op :: op in ops ==> !op.SetMaxMemory?
    requires var z := Run(Empty(capacity), ops); var y := Step(z, Insert(ele, score));
      v in z.scores && v !in y.scores && k in z.scores && k in y.scores
    ensures v != ele && R.LastUse(LowerAll(ops), v) < R.LastUse(LowerAll(ops), k)
  {
    hide Run, R.Run, LowerAll, R.LastUse, Step, L.Step;
    FixedCapacityIsLru(capacity, ops);
    var z, l := Run(Empty(capacity), ops), R.Run(L.EMPTY.(capacity := capacity), LowerAll(ops));
    StepIsLru(z, l, Insert(ele, score));
    L.StepValid(l, L.Put(ele, score));
    R.VictimsAreOldest(capacity, LowerAll(ops), L.Put(ele, score), v);
  }

  /** The plain map a sorted set without evictions is. */
  ghost function PlainRun(ops: seq<Op>): map<Key, int> {
    if |ops| == 0 then map[]
    else
      var m := PlainRun(ops[..|ops| - 1]);
      match ops[|ops| - 1]
      case Insert(ele, score) => m[ele := score]
      case Delete(ele) => m - {ele}
      case _ => m
  }

  /** With no positive capacity ever set, no insertion is lost and no member evicted. */
  lemma {:induction false} UnboundedIsMap(ops: seq<Op>)
    requires forall op :: op in ops && op.SetMaxMemory? ==> op.max <= 0
    ensures var z := Run(Empty(0), ops);
      Valid(z) && z.scores == PlainRun(ops) && z.pending == [] && z.capacity == 0
  {
    hide Valid, Drop;
    EmptyValid(0);
    RunValid(Empty(0), ops);
    if |ops| > 0 {
      var init, op := ops[..|ops| - 1], ops[|ops| - 1];
      assert op in ops && forall o :: o in init ==> o in ops;
      UnboundedIsMap(init);
      var z := Run(Empty(0), init);
      if op.Insert? {
        if Same(z, op.ele, op.score) {
          assert z.scores[op.ele := op.score] == z.scores;
        } else {
          Unpended(z, op.ele, op.score);
        }
      }
    }
  }

  // What the calls return

  /** A deletion returns by how much it shrinks the set; an insertion the contrary of a deletion. */
  lemma {:induction false} ResultsByEffect(z: ZSet, ele: Key, score: int)
    ensures Result(z, Delete(ele)) == |z.scores| - |Step(z, Delete(ele)).scores|
    ensures Result(z, Insert(ele, score)) == 1 - Result(z, Delete(ele))
  {
    hide Drop;
    var rest := z.scores - {ele};
    assert rest.Keys == z.scores.Keys - {ele};
    assert |rest| == |rest.Keys| && |z.scores| == |z.scores.Keys|;
  }

  /** The results of the insertions minus those of the deletions. */
  ghost function Balance(ops: seq<Op>, results: seq<int>): int
    requires |results| == |ops|
  {
    if |ops| == 0 then 0
    else
      var n := |ops| - 1;
      Balance(ops[..n], results[..n]) +
      (match ops[n] case Insert(_, _) => results[n] case Delete(_) => -results[n] case _ => 0)
  }

  /** With no positive capacity ever set: the results add up to the number of members. */
  lemma {:induction false} ResultsAddUp(ops: seq<Op>)
    requires forall op :: op in ops && op.SetMaxMemory? ==> op.max <= 0
    ensures Balance(ops, Results(Empty(0), ops)) == |PlainRun(ops)|
  {
    hide Step;
    if |ops| > 0 {
      var n := |ops| - 1;
      var init, op := ops[..n], ops[n];
      assert op in ops && forall o :: o in init ==> o in ops;
      ResultsAddUp(init);
      UnboundedIsMap(init);
      assert Results(Empty(0), ops)[..n] == Results(Empty(0), init);
      var m := PlainRun(init);
      if op.Insert? {
        assert m[op.ele := op.score].Keys == m.Keys + {op.ele};
        assert |m[op.ele := op.score].Keys| == |m[op.ele := op.score]| && |m.Keys| == |m|;
      } else if op.Delete? {
        assert (m - {op.ele}).Keys == m.Keys - {op.ele};
        assert |(m - {op.ele}).Keys| == |m - {op.ele}| && |m.Keys| == |m|;
      }
    }
  }

  /** And a search returns the score inserted last and not deleted since, or -1. */
  lemma {:induction false} SearchReturns(ops: seq<Op>, ele: Key)
    requires forall op :: op in ops && op.SetMaxMemory? ==> op.max <= 0
    ensures var m := PlainRun(ops);
      Result(Run(Empty(0), ops), Search(ele)) == if ele in m then m[ele] else -1
  {
    UnboundedIsMap(ops);
  }
}
