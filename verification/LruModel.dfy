/** The LRU policy on values: what each call of the cache does to the recency order. */
module LruModel {
  import opened Seqs

  /** Keys by recency (most recent first), their values, the capacity
      (0 is unbounded) and the evicted keys nobody has collected yet. */
  datatype Lru = Lru(order: seq<Key>, values: map<Key, int>, capacity: nat, evicted: seq<Key>)

  const EMPTY := Lru([], map[], 0, [])

  datatype Op = Get(key: Key) | Put(key: Key, value: int) | Remove(key: Key) | SetCapacity(capacity: int)

  ghost predicate Valid(l: Lru) {
    && Distinct(l.order)
    && l.values.Keys == Elems(l.order)
    && (l.capacity > 0 ==> |l.order| <= l.capacity)
  }

  /** Move a held key to the front. */
  function Touch(order: seq<Key>, key: Key): seq<Key> {
    if key in order then [key] + Drop(order, {key}) else order
  }

  /** The key that a full cache gives up for a new one. */
  function Victim(order: seq<Key>, capacity: nat): set<Key> {
    if 0 < capacity == |order| then {order[|order| - 1]} else {}
  }

  /** Drop the least recent key and queue it as evicted. */
  function EvictLast(l: Lru): Lru
    requires |l.order| > 0
  {
    var n := |l.order| - 1;
    l.(order := l.order[..n], values := l.values - {l.order[n]}, evicted := l.evicted + [l.order[n]])
  }

  /** Evict until at most n keys are left. */
  function Shrink(l: Lru, n: nat): Lru
    decreases |l.order|
  {
    if n < |l.order| then Shrink(EvictLast(l), n) else l
  }

  function Step(l: Lru, op: Op): Lru {
    match op
    case Get(k) => l.(order := Touch(l.order, k))
    case Put(k, v) =>
      if k in l.order then
        l.(order := Touch(l.order, k), values := l.values[k := v])
      else
        var m := if 0 < l.capacity == |l.order| then EvictLast(l) else l;
        m.(order := [k] + m.order, values := m.values[k := v])
    case Remove(k) => l.(order := Drop(l.order, {k}), values := l.values - {k})
    case SetCapacity(c) =>
      if c < 0 then l
      else if c == 0 then l.(capacity := 0)
      else Shrink(l.(capacity := c), c)
  }

  /** What the call returns. */
  function Result(l: Lru, op: Op): int {
    match op
    case Get(k) => if k in l.values then l.values[k] else -1
    case SetCapacity(c) => if c < 0 then -1 else 0
    case _ => 0
  }

  lemma {:induction false} EvictLastValid(l: Lru)
    requires Distinct(l.order) && l.values.Keys == Elems(l.order) && |l.order| > 0
    ensures var m := EvictLast(l); Distinct(m.order) && m.values.Keys == Elems(m.order)
  {
    var n := |l.order| - 1;
    assert l.order == l.order[..n] + [l.order[n]];
  }

  function Reversed(s: seq<Key>): (r: seq<Key>)
    ensures |r| == |s|
    ensures forall i :: 0 <= i < |s| ==> r[i] == s[|s| - 1 - i]
  {
    seq(|s|, i requires 0 <= i < |s| => s[|s| - 1 - i])
  }

  lemma {:induction false} ReversedSnoc(s: seq<Key>, k: Key)
    ensures Reversed(s + [k]) == [k] + Reversed(s)
  {
  }

  /** Shrinking keeps the n most recent keys in order and queues the others, least recent first. */
  lemma {:induction false} ShrinkKeepsRecent(l: Lru, n: nat)
    ensures var m := Shrink(l, n);
      && m.order == (if n < |l.order| then l.order[..n] else l.order)
      && m.evicted == l.evicted + Reversed(l.order[|m.order|..])
      && m.capacity == l.capacity
    decreases |l.order|
  {
    if n < |l.order| {
      var k := |l.order| - 1;
      var front := l.order[..k];
      ShrinkKeepsRecent(EvictLast(l), n);
      assert front[..n] == l.order[..n];
      assert l.order[n..] == front[n..] + [l.order[k]];
      ReversedSnoc(front[n..], l.order[k]);
      assert l.evicted + [l.order[k]] + Reversed(front[n..]) == l.evicted + Reversed(l.order[n..]);
    } else {
      assert Reversed(l.order[|l.order|..]) == [];
    }
  }

  /** The kept keys, and only they, keep their values. */
  lemma {:induction false} ShrinkKeepsValues(l: Lru, n: nat)
    requires Distinct(l.order) && l.values.Keys == Elems(l.order)
    ensures var m := Shrink(l, n);
      && Distinct(m.order) && m.values.Keys == Elems(m.order)
      && (forall k :: k in m.values ==> k in l.values && m.values[k] == l.values[k])
    decreases |l.order|
  {
    if n < |l.order| {
      EvictLastValid(l);
      ShrinkKeepsValues(EvictLast(l), n);
    }
  }

  lemma {:induction false} TouchCount(order: seq<Key>, key: Key)
    requires Distinct(order)
    ensures |Touch(order, key)| == |order| && Elems(Touch(order, key)) == Elems(order)
  {
    if key in order {
      var k :| 0 <= k < |order| && order[k] == key;
      DropAt(order, k);
    }
  }

  /** Every call keeps the order duplicate-free, indexed exactly and within capacity. */
  lemma {:induction false} StepValid(l: Lru, op: Op)
    requires Valid(l)
    ensures Valid(Step(l, op))
  {
    hide Drop, Shrink;
    match op
    case Get(k) =>
      DropDistinct(l.order, {k});
      TouchCount(l.order, k);
    case Put(k, v) =>
      if k in l.order {
        DropDistinct(l.order, {k});
        TouchCount(l.order, k);
      } else if 0 < l.capacity == |l.order| {
        EvictLastValid(l);
      }
    case Remove(k) =>
      DropDistinct(l.order, {k});
    case SetCapacity(c) =>
      if c > 0 {
        ShrinkKeepsRecent(l.(capacity := c), c);
        ShrinkKeepsValues(l.(capacity := c), c);
      }
  }

  lemma {:induction false} RemoveAbsent(l: Lru, key: Key)
    requires Valid(l) && key !in l.values
    ensures Step(l, Remove(key)) == l
  {
    DropNone(l.order, {key});
    assert l.values - {key} == l.values;
  }
}
