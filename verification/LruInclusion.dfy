/** The inclusion property of LRU: a larger cache holds whatever a smaller one does. */
module LruInclusion {
  import opened Seqs
  import opened LruModel
  import opened LruRuns

  /** c is no larger than d, where 0 means unbounded. */
  predicate AtMost(c: nat, d: nat) {
    d == 0 || 0 < c <= d
  }

  /** The small cache's keys are held by the big one, in the same order and with the same values,
      and the big one is not much fuller. */
  ghost predicate Included(s: Lru, b: Lru) {
    && s.order == Drop(b.order, Elems(b.order) - Elems(s.order))
    && (forall k :: k in s.values ==> k in b.values && s.values[k] == b.values[k])
    && (b.capacity > 0 ==> |b.order| - |s.order| <= b.capacity - s.capacity)
  }

  /** Dropping any set of keys will do. */
  lemma {:induction false} OrderIncluded(s: seq<Key>, b: seq<Key>, g: set<Key>)
    requires s == Drop(b, g)
    ensures s == Drop(b, Elems(b) - Elems(s))
  {
    DropSame(b, g, Elems(b) - Elems(s));
  }

  /** Moving a key of the big list to its front, and of the small list if it is there. */
  lemma {:induction false} TouchIncluded(s: seq<Key>, b: seq<Key>, k: Key)
    requires s == Drop(b, Elems(b) - Elems(s)) && k in b
    ensures var g := Elems(b) - Elems(s);
      && Touch(s, k) == Drop(Touch(b, k), g)
      && [k] + Drop(s, {k}) == Drop(Touch(b, k), g - {k})
  {
    var g := Elems(b) - Elems(s);
    var b' := Drop(b, {k});
    DropTwice(b, {k}, g);
    DropTwice(b, g, {k});
    assert {k} + g == g + {k};
    assert Drop(b', g) == Drop(s, {k});
    DropSame(b', g, g - {k});
    if k !in s {
      DropNone(s, {k});
    }
  }

  /** The last key of the big list is the last of the small list, if it is there. */
  lemma {:induction false} LastShared(b: seq<Key>, g: set<Key>)
    requires |b| > 0 && b[|b| - 1] !in g
    ensures var s := Drop(b, g); |s| > 0 && s[|s| - 1] == b[|b| - 1]
  {
    var n := |b| - 1;
    DropConcat(b[..n], [b[n]], g);
    assert b == b[..n] + [b[n]];
    assert Drop([b[n]], g) == [b[n]];
    hide Drop;
  }

  /** What a put leaves of the order before it adds its key. */
  function MakeRoom(order: seq<Key>, capacity: nat): seq<Key> {
    if 0 < capacity == |order| then order[..|order| - 1] else order
  }

  lemma {:induction false} MakeRoomDrops(order: seq<Key>, capacity: nat)
    requires Distinct(order)
    ensures MakeRoom(order, capacity) == Drop(order, Victim(order, capacity))
  {
    if 0 < capacity == |order| {
      DropLast(order);
    } else {
      DropNone(order, {});
    }
  }

  /** If the big cache evicts so does the small one, and then a key they share is the last of both. */
  lemma {:induction false} MakeRoomIncluded(s: seq<Key>, b: seq<Key>, c: nat, d: nat)
    requires Distinct(s) && Distinct(b) && s == Drop(b, Elems(b) - Elems(s))
    requires AtMost(c, d) && (c > 0 ==> |s| <= c) && (d > 0 ==> |b| <= d && |b| - |s| <= d - c)
    ensures MakeRoom(s, c) == Drop(MakeRoom(b, d), Elems(b) - Elems(s) + Victim(s, c))
    ensures d > 0 ==> |MakeRoom(b, d)| - |MakeRoom(s, c)| <= d - c
  {
    var g, x, y := Elems(b) - Elems(s), Victim(s, c), Victim(b, d);
    MakeRoomDrops(s, c);
    MakeRoomDrops(b, d);
    DropTwice(b, y, g + x);
    DropTwice(b, g, x);
    if 0 < d == |b| && b[|b| - 1] !in g {
      LastShared(b, g);
      assert y + (g + x) == g + x;
    } else {
      assert y + (g + x) == g + x;
    }
  }

  lemma {:induction false} PutOrder(l: Lru, k: Key, v: int)
    requires Valid(l)
    ensures var m := Step(l, Put(k, v));
      && m.order == (if k in l.order then Touch(l.order, k) else [k] + MakeRoom(l.order, l.capacity))
      && m.capacity == l.capacity
      && k in m.values && m.values[k] == v
      && (forall j :: j in m.order && j != k ==> j in l.values && j in m.values && m.values[j] == l.values[j])
      && (forall j :: j in m.values ==> j in m.order)
  {
    StepValid(l, Put(k, v));
    hide Drop;
  }

  /** A put of a key the big cache holds. */
  lemma {:induction false} PutShared(s: seq<Key>, b: seq<Key>, c: nat, k: Key)
    requires Distinct(s) && Distinct(b) && s == Drop(b, Elems(b) - Elems(s)) && k in b
    ensures var s' := if k in s then Touch(s, k) else [k] + MakeRoom(s, c);
      s' == Drop(Touch(b, k), Elems(Touch(b, k)) - Elems(s'))
  {
    hide Drop;
    var g, b' := Elems(b) - Elems(s), Touch(b, k);
    TouchIncluded(s, b, k);
    if k in s {
      OrderIncluded(Touch(s, k), b', g);
    } else {
      var x := Victim(s, c);
      MakeRoomDrops(s, c);
      DropNone(s, {k});
      DropConcat([k], s, x);
      DropNone([k], x);
      DropTwice(b', g - {k}, x);
      OrderIncluded([k] + MakeRoom(s, c), b', g - {k} + x);
    }
  }

  /** A put of a key neither cache holds. */
  lemma {:induction false} PutNew(s: seq<Key>, b: seq<Key>, c: nat, d: nat, k: Key)
    requires Distinct(s) && Distinct(b) && s == Drop(b, Elems(b) - Elems(s)) && k !in b
    requires AtMost(c, d) && (c > 0 ==> |s| <= c) && (d > 0 ==> |b| <= d && |b| - |s| <= d - c)
    ensures var s', b' := [k] + MakeRoom(s, c), [k] + MakeRoom(b, d);
      s' == Drop(b', Elems(b') - Elems(s')) && (d > 0 ==> |b'| - |s'| <= d - c)
  {
    hide Drop;
    MakeRoomIncluded(s, b, c, d);
    var g := Elems(b) - Elems(s) + Victim(s, c);
    DropConcat([k], MakeRoom(b, d), g);
    DropNone([k], g);
    OrderIncluded([k] + MakeRoom(s, c), [k] + MakeRoom(b, d), g);
  }

  lemma {:induction false} PutIncluded(s: Lru, b: Lru, k: Key, v: int)
    requires Valid(s) && Valid(b) && AtMost(s.capacity, b.capacity) && Included(s, b)
    ensures Included(Step(s, Put(k, v)), Step(b, Put(k, v)))
  {
    hide Drop, Step;
    PutOrder(s, k, v);
    PutOrder(b, k, v);
    assert forall j :: j in s.order ==> j in b.order;
    if k in b.order {
      PutShared(s.order, b.order, s.capacity, k);
      TouchCount(b.order, k);
      TouchCount(s.order, k);
    } else {
      PutNew(s.order, b.order, s.capacity, b.capacity, k);
    }
  }

  lemma {:induction false} DropCount(s: seq<Key>, k: Key)
    requires Distinct(s)
    ensures |Drop(s, {k})| == if k in s then |s| - 1 else |s|
  {
    if k in s {
      var i :| 0 <= i < |s| && s[i] == k;
      DropAt(s, i);
    } else {
      DropNone(s, {k});
    }
  }

  lemma {:induction false} RemoveIncluded(s: seq<Key>, b: seq<Key>, k: Key)
    requires Distinct(s) && Distinct(b) && s == Drop(b, Elems(b) - Elems(s))
    ensures var s', b' := Drop(s, {k}), Drop(b, {k});
      s' == Drop(b', Elems(b') - Elems(s')) && |b'| - |s'| <= |b| - |s|
  {
    var g := Elems(b) - Elems(s);
    DropTwice(b, {k}, g);
    DropTwice(b, g, {k});
    assert {k} + g == g + {k};
    OrderIncluded(Drop(s, {k}), Drop(b, {k}), g);
    DropCount(s, k);
    DropCount(b, k);
  }

  lemma {:induction false} StepIncluded(s: Lru, b: Lru, op: Op)
    requires Valid(s) && Valid(b) && AtMost(s.capacity, b.capacity) && Included(s, b) && !op.SetCapacity?
    ensures Included(Step(s, op), Step(b, op))
  {
    hide Drop;
    var g := Elems(b.order) - Elems(s.order);
    match op
    case Get(k) =>
      if k in b.order {
        TouchIncluded(s.order, b.order, k);
        TouchCount(b.order, k);
        TouchCount(s.order, k);
        OrderIncluded(Touch(s.order, k), Touch(b.order, k), g);
      }
    case Put(k, v) =>
      PutIncluded(s, b, k, v);
    case Remove(k) =>
      RemoveIncluded(s.order, b.order, k);
  }

  /** For every run of gets, puts and removes from empty: what a cache of capacity c holds, a cache of
      any larger capacity holds too, with the same values and in the same order. */
  lemma {:induction false} Inclusion(c: nat, d: nat, ops: seq<Op>)
    requires AtMost(c, d) && (forall op :: op in ops ==> !op.SetCapacity?)
    ensures var s, b := Run(EMPTY.(capacity := c), ops), Run(EMPTY.(capacity := d), ops);
      && Included(s, b) && s.capacity == c && b.capacity == d
      && Elems(s.order) <= Elems(b.order)
  {
    if |ops| > 0 {
      var init, op := ops[..|ops| - 1], ops[|ops| - 1];
      assert op in ops && forall o :: o in init ==> o in ops;
      Inclusion(c, d, init);
      RunValid(EMPTY.(capacity := c), init);
      RunValid(EMPTY.(capacity := d), init);
      StepIncluded(Run(EMPTY.(capacity := c), init), Run(EMPTY.(capacity := d), init), op);
    }
  }

  /** So every hit of the small cache is a hit of the big one, with the same result. */
  lemma {:induction false} HitsIncluded(c: nat, d: nat, ops: seq<Op>, k: Key)
    requires AtMost(c, d) && (forall op :: op in ops ==> !op.SetCapacity?)
    requires k in Run(EMPTY.(capacity := c), ops).values
    ensures k in Run(EMPTY.(capacity := d), ops).values
    ensures Result(Run(EMPTY.(capacity := c), ops), Get(k)) == Result(Run(EMPTY.(capacity := d), ops), Get(k))
  {
    hide Run;
    Inclusion(c, d, ops);
  }
}
