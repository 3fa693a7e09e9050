/** The LRU cache over whole runs of calls. */
module LruRuns {
  import opened Options
  import opened Seqs
  import opened LruModel

  /** The state after a sequence of calls. */
  ghost function Run(l: Lru, ops: seq<Op>): Lru {
    if |ops| == 0 then l else Step(Run(l, ops[..|ops| - 1]), ops[|ops| - 1])
  }

  lemma {:induction false} RunValid(l: Lru, ops: seq<Op>)
    requires Valid(l)
    ensures Valid(Run(l, ops))
  {
    if |ops| > 0 {
      RunValid(l, ops[..|ops| - 1]);
      StepValid(Run(l, ops[..|ops| - 1]), ops[|ops| - 1]);
    }
  }

  predicate Uses(op: Op, k: Key) {
    (op.Get? || op.Put?) && op.key == k
  }

  /** When k was last asked for or put, in calls from the start; -1 is never. */
  ghost function LastUse(ops: seq<Op>, k: Key): int {
    if |ops| == 0 then -1
    else if Uses(ops[|ops| - 1], k) then |ops| - 1
    else LastUse(ops[..|ops| - 1], k)
  }

  lemma {:induction false} LastUseBounds(ops: seq<Op>, k: Key)
    ensures -1 <= LastUse(ops, k) < |ops|
    ensures LastUse(ops, k) >= 0 ==> Uses(ops[LastUse(ops, k)], k)
    ensures forall t :: LastUse(ops, k) < t < |ops| ==> !Uses(ops[t], k)
  {
    if |ops| > 0 && !Uses(ops[|ops| - 1], k) {
      LastUseBounds(ops[..|ops| - 1], k);
    }
  }

  /** Held keys were all used, and stand in the order of their last uses, latest first. */
  ghost predicate ByLastUse(order: seq<Key>, ops: seq<Op>) {
    && (forall i :: 0 <= i < |order| ==> LastUse(ops, order[i]) >= 0)
    && (forall i, j :: 0 <= i < j < |order| ==> LastUse(ops, order[i]) > LastUse(ops, order[j]))
  }

  lemma {:induction false} DropByLastUse(order: seq<Key>, d: set<Key>, ops: seq<Op>)
    requires ByLastUse(order, ops)
    ensures ByLastUse(Drop(order, d), ops)
  {
    if |order| > 0 {
      DropByLastUse(order[1..], d, ops);
      var rest := Drop(order[1..], d);
      forall j | 0 <= j < |rest|
        ensures LastUse(ops, order[0]) > LastUse(ops, rest[j])
      {
        assert rest[j] in order[1..];
        var m :| 0 <= m < |order[1..]| && order[1..][m] == rest[j];
        assert order[m + 1] == rest[j];
      }
      hide LastUse;
    }
  }

  /** A call that uses none of these keys leaves their last uses alone. */
  lemma {:induction false} UnusedByLastUse(order: seq<Key>, ops: seq<Op>)
    requires |ops| > 0 && ByLastUse(order, ops[..|ops| - 1])
    requires forall k :: k in order ==> !Uses(ops[|ops| - 1], k)
    ensures ByLastUse(order, ops)
  {
    forall i | 0 <= i < |order|
      ensures LastUse(ops, order[i]) == LastUse(ops[..|ops| - 1], order[i])
    {
      assert order[i] in order;
    }
  }

  /** The key a call uses goes in front of keys it does not use. */
  lemma {:induction false} FrontByLastUse(key: Key, rest: seq<Key>, ops: seq<Op>)
    requires |ops| > 0 && Uses(ops[|ops| - 1], key) && key !in rest
    requires ByLastUse(rest, ops[..|ops| - 1])
    ensures ByLastUse([key] + rest, ops)
  {
    assert forall k :: k in rest ==> !Uses(ops[|ops| - 1], k);
    UnusedByLastUse(rest, ops);
    forall i | 0 <= i < |rest|
      ensures LastUse(ops, rest[i]) < |ops| - 1
    {
      LastUseBounds(ops[..|ops| - 1], rest[i]);
      assert rest[i] in rest;
    }
  }

  /** Over every run of gets, puts, removes and capacity changes from an empty cache,
      the recency list is ordered by last use. */
  lemma {:induction false} RecencyOrder(capacity: nat, ops: seq<Op>)
    ensures ByLastUse(Run(EMPTY.(capacity := capacity), ops).order, ops)
  {
    hide LastUse, Drop, Shrink;
    if |ops| > 0 {
      var init, op := ops[..|ops| - 1], ops[|ops| - 1];
      var l := Run(EMPTY.(capacity := capacity), init);
      RecencyOrder(capacity, init);
      RunValid(EMPTY.(capacity := capacity), init);
      match op
      case Get(k) =>
        DropByLastUse(l.order, {k}, init);
        if k in l.order {
          FrontByLastUse(k, Drop(l.order, {k}), ops);
        } else {
          UnusedByLastUse(l.order, ops);
        }
      case Put(k, v) =>
        if k in l.order {
          DropByLastUse(l.order, {k}, init);
          FrontByLastUse(k, Drop(l.order, {k}), ops);
        } else if 0 < l.capacity == |l.order| {
          FrontByLastUse(k, l.order[..|l.order| - 1], ops);
        } else {
          FrontByLastUse(k, l.order, ops);
        }
      case Remove(k) =>
        DropByLastUse(l.order, {k}, init);
        UnusedByLastUse(Drop(l.order, {k}), ops);
      case SetCapacity(c) =>
        if c > 0 {
          ShrinkKeepsRecent(l.(capacity := c), c);
        }
        UnusedByLastUse(Step(l, op).order, ops);
    }
  }

  /** The n most recent keys are still held; the others are not, and are queued as evicted. */
  ghost predicate SplitAt(l: Lru, m: Lru, n: nat) {
    && n <= |l.order|
    && (forall i :: 0 <= i < n ==> l.order[i] in m.order)
    && (forall i :: n <= i < |l.order| ==> l.order[i] !in m.order && l.order[i] in m.evicted)
  }

  lemma {:induction false} PutSplits(l: Lru, k: Key, v: int)
    requires Valid(l)
    ensures SplitAt(l, Step(l, Put(k, v)),
                    if k !in l.order && 0 < l.capacity == |l.order| then |l.order| - 1 else |l.order|)
  {
    hide Drop;
    var m := Step(l, Put(k, v));
    if k in l.order {
      TouchCount(l.order, k);
      assert forall i :: 0 <= i < |l.order| ==> l.order[i] in Elems(m.order);
    } else if 0 < l.capacity == |l.order| {
      var n := |l.order| - 1;
      assert forall i :: 0 <= i < n ==> m.order[i + 1] == l.order[i];
      assert m.evicted[|l.evicted|] == l.order[n];
      assert l.order[n] !in l.order[..n];
    } else {
      assert forall i :: 0 <= i < |l.order| ==> m.order[i + 1] == l.order[i];
    }
  }

  lemma {:induction false} PutHeld(l: Lru, k: Key, v: int)
    ensures k in Step(l, Put(k, v)).order
  {
  }

  lemma {:induction false} SetCapacitySplits(l: Lru, c: int)
    requires Valid(l)
    ensures SplitAt(l, Step(l, SetCapacity(c)), if 0 < c < |l.order| then c else |l.order|)
  {
    if 0 < c < |l.order| {
      hide Shrink;
      var m := Step(l, SetCapacity(c));
      ShrinkKeepsRecent(l.(capacity := c), c);
      assert forall i :: 0 <= i < c ==> m.order[i] == l.order[i];
      forall i | c <= i < |l.order|
        ensures l.order[i] !in m.order && l.order[i] in m.evicted
      {
        var cut := l.order[c..];
        assert Reversed(cut)[|cut| - 1 - (i - c)] == l.order[i];
      }
    }
  }

  /** Whoever a put or a capacity change evicts was last used before everyone that stays,
      is queued as evicted, and is never the key being put. */
  lemma {:induction false} VictimsAreOldest(capacity: nat, ops: seq<Op>, op: Op, v: Key)
    requires op.Put? || op.SetCapacity?
    requires var l := Run(EMPTY.(capacity := capacity), ops); v in l.order && v !in Step(l, op).order
    ensures var l := Run(EMPTY.(capacity := capacity), ops);
      && (forall k :: k in l.order && k in Step(l, op).order ==> LastUse(ops, v) < LastUse(ops, k))
      && v in Step(l, op).evicted
      && (op.Put? ==> v != op.key && op.key in Step(l, op).order)
  {
    hide LastUse, Run, Step;
    var l := Run(EMPTY.(capacity := capacity), ops);
    RecencyOrder(capacity, ops);
    RunValid(EMPTY.(capacity := capacity), ops);
    match op {
      case Put(k, x) =>
        PutSplits(l, k, x);
        PutHeld(l, k, x);
      case SetCapacity(c) => SetCapacitySplits(l, c);
    }
    var m := Step(l, op);
    var n: nat :| SplitAt(l, m, n);
    var i :| 0 <= i < |l.order| && l.order[i] == v;
    assert !(l.order[i] in m.order);
    forall k | k in l.order && k in Step(l, op).order
      ensures LastUse(ops, v) < LastUse(ops, k)
    {
      var j :| 0 <= j < |l.order| && l.order[j] == k;
      assert l.order[j] in m.order;
    }
  }

  // What is held, and what a get returns

  /** The value of the last put of k. */
  ghost function LastPut(ops: seq<Op>, k: Key): Option<int> {
    if |ops| == 0 then None
    else
      match ops[|ops| - 1]
      case Put(key, v) => if key == k then Some(v) else LastPut(ops[..|ops| - 1], k)
      case _ => LastPut(ops[..|ops| - 1], k)
  }

  lemma {:induction false} StepValues(l: Lru, op: Op, k: Key)
    requires Valid(l) && k in Step(l, op).values
    ensures if op.Put? && op.key == k then Step(l, op).values[k] == op.value
            else k in l.values && Step(l, op).values[k] == l.values[k]
  {
    hide Shrink;
    if op.SetCapacity? && op.capacity > 0 {
      ShrinkKeepsValues(l.(capacity := op.capacity), op.capacity);
    }
  }

  /** Over every run a get returns the value last put under a held key, and -1 for any other. */
  lemma {:induction false} GetReturnsLastPut(capacity: nat, ops: seq<Op>, k: Key)
    ensures var l := Run(EMPTY.(capacity := capacity), ops);
      && (k in l.order <==> k in l.values)
      && (k in l.order ==> LastPut(ops, k) == Some(Result(l, Get(k))))
      && (k !in l.order ==> Result(l, Get(k)) == -1)
  {
    hide Step;
    var e := EMPTY.(capacity := capacity);
    var l := Run(e, ops);
    RunValid(e, ops);
    assert k in l.values <==> k in Elems(l.order);
    if |ops| > 0 && k in l.values {
      var init := ops[..|ops| - 1];
      RunValid(e, init);
      StepValues(Run(e, init), ops[|ops| - 1], k);
      GetReturnsLastPut(capacity, init, k);
    }
  }

  lemma {:induction false} StepLosesNothing(l: Lru, op: Op, k: Key)
    requires Valid(l) && !(op.Remove? && op.key == k)
    ensures k in l.evicted ==> k in Step(l, op).evicted
    ensures k in l.order ==> k in Step(l, op).order || k in Step(l, op).evicted
    ensures op.Put? && op.key == k ==> k in Step(l, op).order
  {
    hide Drop, Shrink;
    match op
    case Get(key) => TouchCount(l.order, key);
      assert k in Elems(Touch(l.order, key)) <==> k in Elems(l.order);
    case Put(key, v) =>
      PutSplits(l, key, v);
      PutHeld(l, key, v);
    case Remove(_) =>
    case SetCapacity(c) =>
      SetCapacitySplits(l, c);
      if c > 0 { ShrinkKeepsRecent(l.(capacity := c), c); }
  }

  /** Over every run what was put, and never removed, is held or queued as evicted. */
  lemma {:induction false} NothingLost(capacity: nat, ops: seq<Op>, k: Key)
    requires LastPut(ops, k).Some? && forall i :: 0 <= i < |ops| ==> !(ops[i].Remove? && ops[i].key == k)
    ensures var l := Run(EMPTY.(capacity := capacity), ops); k in l.order || k in l.evicted
  {
    hide Step;
    var e := EMPTY.(capacity := capacity);
    if |ops| > 0 {
      var init, op := ops[..|ops| - 1], ops[|ops| - 1];
      RunValid(e, init);
      StepLosesNothing(Run(e, init), op, k);
      if !(op.Put? && op.key == k) {
        NothingLost(capacity, init, k);
      }
    }
  }

  /** A capacity change reports success if and only if it takes effect; otherwise it changes nothing. */
  lemma {:induction false} SetCapacityReports(l: Lru, c: int)
    ensures Result(l, SetCapacity(c)) == -1 ==> Step(l, SetCapacity(c)) == l
    ensures Result(l, SetCapacity(c)) == if Step(l, SetCapacity(c)).capacity == c then 0 else -1
  {
    hide Shrink;
    if c > 0 {
      ShrinkKeepsRecent(l.(capacity := c), c);
    }
  }
}
