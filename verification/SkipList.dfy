/** The sorted set of skiplist.h: a skip list, a hash index of its nodes and an LRU cache. */
module SkipList {
  import opened Seqs
  import opened Order
  import opened SkipNodes
  import LruModel
  import Lru
  import D = DumpText
  import N = Numbers
  import Runs = ZSetRuns
  import Z = ZSet

  /** The hash index holds exactly the listed nodes, each under its own member. */
  ghost predicate Indexed(nodes: seq<Node>, nodeMap: map<Key, Node>) {
    && |nodes| > 0
    && (forall j :: 1 <= j < |nodes| ==> nodes[j].ele in nodeMap && nodeMap[nodes[j].ele] == nodes[j])
    && (forall k :: k in nodeMap ==> nodeMap[k].ele == k && nodeMap[k] in nodes[1..])
    && |nodeMap| == |nodes| - 1
  }

  lemma {:induction false} HeaderOnly(head: Node, maxLevel: nat)
    requires maxLevel > 0 && head.level == head.forward.Length == maxLevel
    requires forall i :: 0 <= i < maxLevel ==> head.forward[i] == null
    ensures Shaped([head], maxLevel) && AllLinked([head], maxLevel) && Within([head], 0)
    ensures Sorted(Entries([head])) && Indexed([head], map[]) && Arrays([head]) == {head.forward}
  {
    assert forall n :: n in [head] ==> n == head;
    assert [head][0].forward == head.forward;
  }

  lemma {:induction false} FreshCache(capacity: int)
    ensures var m := LruModel.Step(LruModel.EMPTY, LruModel.SetCapacity(capacity));
      && m == LruModel.EMPTY.(capacity := if capacity > 0 then capacity else 0)
      && Z.Valid(Z.Empty(capacity))
  {
  }

  /** The nodes with keys below e are those before the linear scan's stop. */
  lemma {:induction false} ScanStops(nodes: seq<Node>, e: Entry)
    requires |nodes| > 0 && Sorted(Entries(nodes))
    ensures forall k :: 1 <= k < |nodes| ==> (Less(nodes[k].Entry(), e) <==> k <= Rank(Entries(nodes), e))
  {
    RankSplits(Entries(nodes), e);
    forall k | 1 <= k < |nodes|
      ensures Less(nodes[k].Entry(), e) <==> k <= Rank(Entries(nodes), e)
    {
      assert Entries(nodes)[k - 1] == nodes[k].Entry();
    }
  }

  /** n is the last header-or-node taller than level i with a key below e; u is its index. */
  ghost predicate Precedes(nodes: seq<Node>, e: Entry, i: nat, u: nat, n: Node?) {
    |nodes| > 0 && LastTallBefore(nodes, Rank(Entries(nodes), e) + 1, i, u) && n == nodes[u]
  }

  lemma {:induction false} InsertIndexed(nodes: seq<Node>, nodeMap: map<Key, Node>, p: nat, node: Node)
    requires Indexed(nodes, nodeMap) && 1 <= p <= |nodes| && node.ele !in nodeMap
    ensures Indexed(InsertAt(nodes, p, node), nodeMap[node.ele := node])
  {
    var ns, m := InsertAt(nodes, p, node), nodeMap[node.ele := node];
    forall j | 1 <= j < |ns|
      ensures ns[j].ele in m && m[ns[j].ele] == ns[j]
    {
      assert ns[j] == if j < p then nodes[j] else if j == p then node else nodes[j - 1];
    }
    forall k | k in m
      ensures m[k].ele == k && m[k] in ns[1..]
    {
      if k == node.ele {
        assert ns[1..][p - 1] == node;
      } else {
        var j :| 0 <= j < |nodes[1..]| && nodes[1..][j] == nodeMap[k];
        assert ns[1..][if j < p - 1 then j else j + 1] == nodeMap[k];
      }
    }
  }

  /** Putting a new member at its rank keeps the level-0 order sorted. */
  lemma {:induction false} InsertEntries(nodes: seq<Node>, nodeMap: map<Key, Node>, p: nat, node: Node)
    requires Indexed(nodes, nodeMap) && Sorted(Entries(nodes)) && node.ele !in nodeMap
    requires p == Rank(Entries(nodes), node.Entry()) + 1
    ensures Entries(InsertAt(nodes, p, node)) == Entries(nodes)[..p - 1] + [node.Entry()] + Entries(nodes)[p - 1..]
    ensures Sorted(Entries(InsertAt(nodes, p, node)))
  {
    var c, e := Entries(nodes), node.Entry();
    InsertSorted(c, e);
    assert Entries(InsertAt(nodes, p, node)) == c[..p - 1] + [e] + c[p - 1..];
  }

  lemma {:induction false} RemoveEntries(nodes: seq<Node>, p: nat)
    requires 1 <= p < |nodes| && Sorted(Entries(nodes))
    ensures Entries(RemoveAt(nodes, p)) == Entries(nodes)[..p - 1] + Entries(nodes)[p..]
    ensures Sorted(Entries(RemoveAt(nodes, p)))
  {
    assert Entries(RemoveAt(nodes, p)) == Entries(nodes)[..p - 1] + Entries(nodes)[p..];
  }

  lemma {:induction false} IndexedDistinct(nodes: seq<Node>, nodeMap: map<Key, Node>, j: nat, k: nat)
    requires Indexed(nodes, nodeMap) && Private(nodes) && 1 <= j < |nodes| && 1 <= k < |nodes| && j != k
    ensures nodes[j].ele != nodes[k].ele
  {
    assert nodes[j].forward != nodes[k].forward;
  }

  lemma {:induction false} RemoveIndexed(nodes: seq<Node>, nodeMap: map<Key, Node>, p: nat)
    requires Indexed(nodes, nodeMap) && Private(nodes) && 1 <= p < |nodes|
    ensures Indexed(RemoveAt(nodes, p), nodeMap - {nodes[p].ele})
  {
    var ns, m := RemoveAt(nodes, p), nodeMap - {nodes[p].ele};
    assert |m| == |nodeMap| - 1;
    forall j | 1 <= j < |ns|
      ensures ns[j].ele in m && m[ns[j].ele] == ns[j]
    {
      var q := if j < p then j else j + 1;
      assert ns[j] == nodes[q];
      assert nodes[q] != nodes[p] by { IndexedDistinct(nodes, nodeMap, q, p); }
    }
    forall k | k in m
      ensures m[k].ele == k && m[k] in ns[1..]
    {
      var j :| 0 <= j < |nodes[1..]| && nodes[1..][j] == nodeMap[k];
      assert ns[1..][if j < p - 1 then j else j - 1] == nodeMap[k];
    }
  }

  /** A member's node stands at its rank. */
  lemma {:induction false} IndexedAt(nodes: seq<Node>, nodeMap: map<Key, Node>, ele: Key)
    requires Indexed(nodes, nodeMap) && Sorted(Entries(nodes)) && ele in nodeMap
    ensures var p := Rank(Entries(nodes), nodeMap[ele].Entry()) + 1;
      p < |nodes| && nodes[p] == nodeMap[ele]
  {
    var q :| 0 <= q < |nodes[1..]| && nodes[1..][q] == nodeMap[ele];
    assert Entries(nodes)[q] == nodeMap[ele].Entry();
    RankOf(Entries(nodes), q);
  }

  /** Ahead of the last node before a member on level i is the member's node, if it is that tall,
      and otherwise no node with that member. */
  lemma {:induction false} AheadOf(nodes: seq<Node>, nodeMap: map<Key, Node>, ele: Key, i: nat, u: nat)
    requires Indexed(nodes, nodeMap) && Sorted(Entries(nodes)) && ele in nodeMap
    requires LastTallBefore(nodes, Rank(Entries(nodes), nodeMap[ele].Entry()) + 1, i, u)
    ensures var n := At(nodes, NextTall(nodes, u + 1, i));
      if i < nodeMap[ele].level then n == nodeMap[ele] else n == null || n.ele != ele
  {
    hide Entries, Sorted;
    IndexedAt(nodes, nodeMap, ele);
    if i < nodeMap[ele].level {
      NextTallIs(nodes, u + 1, i, Rank(Entries(nodes), nodeMap[ele].Entry()) + 1);
    }
  }

  ghost function Scores(nodeMap: map<Key, Node>): map<Key, int> {
    map k | k in nodeMap :: nodeMap[k].score
  }

  /** The cache holds members only, with their scores. */
  ghost predicate Agrees(cache: map<Key, int>, nodeMap: map<Key, Node>) {
    forall k :: k in cache ==> k in nodeMap && cache[k] == nodeMap[k].score
  }

  lemma {:induction false} AgreesRemove(cache: map<Key, int>, nodeMap: map<Key, Node>, ele: Key)
    requires Agrees(cache, nodeMap)
    ensures Agrees(cache - {ele}, nodeMap - {ele})
    ensures ele !in nodeMap ==> ele !in cache && nodeMap - {ele} == nodeMap
  {
  }

  lemma {:induction false} AgreesPut(l: LruModel.Lru, nodeMap: map<Key, Node>, ele: Key, node: Node)
    requires LruModel.Valid(l) && Agrees(l.values, nodeMap) && ele !in nodeMap
    ensures Agrees(LruModel.Step(l, LruModel.Put(ele, node.score)).values, nodeMap[ele := node])
  {
  }

  lemma {:induction false} ScoresInsert(nodeMap: map<Key, Node>, ele: Key, node: Node, gone: set<Key>)
    ensures Scores((nodeMap - {ele})[ele := node] - gone) == Scores(nodeMap)[ele := node.score] - gone
  {
  }

  /** One more key drained. */
  lemma {:induction false} DrainOne(order: seq<Key>, nodeMap: map<Key, Node>, keys: seq<Key>, i: nat)
    requires i < |keys|
    ensures Drop(Drop(order, Elems(keys[..i])), {keys[i]}) == Drop(order, Elems(keys[..i + 1]))
    ensures nodeMap - Elems(keys[..i]) - {keys[i]} == nodeMap - Elems(keys[..i + 1])
  {
    DropTwice(order, Elems(keys[..i]), {keys[i]});
    assert Elems(keys[..i + 1]) == Elems(keys[..i]) + {keys[i]};
  }

  /** Nothing to drain. */
  lemma {:induction false} DrainNone(order: seq<Key>, nodeMap: map<Key, Node>, keys: seq<Key>)
    requires keys == []
    ensures Drop(order, Elems(keys)) == order && nodeMap - Elems(keys) == nodeMap
  {
    DropNone(order, Elems(keys));
  }

  class SkipList {
    const maxLevel: nat
    const header: Node
    const lru: Lru.LRUCache
    var length: nat
    var level: nat
    var nodeMap: map<Key, Node>

    ghost var nodes: seq<Node>  // level-0 order, the header first
    ghost var Repr: set<object>

    ghost predicate Owned()
      reads this
    {
      && this in Repr && lru in Repr && Arrays(nodes) <= Repr
      && this !in Arrays(nodes) && lru !in Arrays(nodes)
    }

    /** Chains, index and counters agree. */
    ghost predicate Linked()
      reads this, Arrays(nodes)
    {
      && Owned()
      && Shaped(nodes, maxLevel) && nodes[0] == header
      && level <= maxLevel && Within(nodes, level)
      && AllLinked(nodes, maxLevel)
      && Sorted(Entries(nodes))
      && Indexed(nodes, nodeMap)
      && length == |nodes| - 1
    }

    ghost predicate Agree()
      reads this, lru
    {
      Agrees(lru.cache, nodeMap)
    }

    ghost function State(): Z.ZSet
      reads this, lru
    {
      var m := lru.Model();
      Z.ZSet(Scores(nodeMap), m.order, m.evicted, m.capacity)
    }

    ghost predicate Valid()
      reads this, Arrays(nodes), lru
      ensures Valid() ==> Owned()
    {
      Linked() && lru.Valid() && Agree() && Z.Valid(State())
    }

    constructor (maxLevel: nat, maxCapacity: int := 0)
      requires maxLevel > 0
      ensures Valid() && fresh(Repr) && State() == Z.Empty(maxCapacity)
    {
      hide Shaped, AllLinked, Within, Sorted, Entries, Indexed, Drop, Elems, Distinct;
      hide LruModel.Shrink, LruModel.Step, Z.Valid;
      this.maxLevel := maxLevel;
      level := 0;
      length := 0;
      var head := new Node(Key(""), 0, maxLevel);
      HeaderOnly(head, maxLevel);
      header := head;
      var cache := new Lru.LRUCache();
      var _ := cache.SetCapacity(maxCapacity);
      lru := cache;
      nodeMap := map[];
      nodes := [head];
      Repr := {this, cache, head.forward};
      FreshCache(maxCapacity);
    }

    /** One level's share of the search loops: walk right while the next key is below e. */
    method Advance(curr: Node, i: nat, e: Entry, ghost c: nat) returns (r: Node, ghost u: nat)
      requires Linked() && c < |nodes| && curr == nodes[c] && i < curr.level
      requires c <= Rank(Entries(nodes), e)
      ensures Precedes(nodes, e, i, u, r)
      ensures u < |nodes| && u <= Rank(Entries(nodes), e) && i < r.level == r.forward.Length
    {
      hide Entries, NextTall;
      ghost var p := Rank(Entries(nodes), e) + 1;
      ScanStops(nodes, e);
      r, u := curr, c;
      assert LinkedAt(nodes, i);
      while r.forward[i] != null && Less(r.forward[i].Entry(), e)
        invariant u < p && u < |nodes| && r == nodes[u] && i < r.level
        decreases |nodes| - u
      {
        u := NextTall(nodes, u + 1, i);
        r := r.forward[i];
      }
    }

    /** The descent of InsertElement: for every level, the last node before e's place. */
    method FindUpdate(e: Entry) returns (update: array<Node?>, ghost us: seq<nat>)
      requires Linked()
      ensures fresh(update) && update.Length == maxLevel == |us|
      ensures forall i :: 0 <= i < maxLevel ==> Precedes(nodes, e, i, us[i], update[i])
    {
      hide Entries, LinkedAt, Indexed;
      update := new Node?[maxLevel](_ => null);
      us := seq(maxLevel, _ => 0);
      var curr, curLevel := header, maxLevel;
      ghost var c: nat := 0;
      while curLevel > 0
        invariant 0 <= curLevel <= maxLevel == |us|
        invariant c < |nodes| && curr == nodes[c] && curr.level >= curLevel && c <= Rank(Entries(nodes), e)
        invariant forall i :: curLevel <= i < maxLevel ==> Precedes(nodes, e, i, us[i], update[i])
      {
        curLevel := curLevel - 1;
        curr, c := Advance(curr, curLevel, e, c);
        update[curLevel] := curr;
        us := us[curLevel := c];
      }
    }

    /** Any height from 1 to the maximum: nothing below depends on which. */
    method GetRandomLevel() returns (h: nat)
      requires maxLevel > 0
      ensures 1 <= h <= maxLevel
    {
      h :| 1 <= h <= maxLevel;
    }

    /** Count the new node and enter it into the index. */
    method Record(node: Node, ghost ns: seq<Node>)
      modifies this
      ensures nodes == ns && Repr == old(Repr) + {node.forward}
      ensures level == (if node.level > old(level) then node.level else old(level)) && length == old(length) + 1
      ensures nodeMap == old(nodeMap)[node.ele := node]
    {
      level := if node.level > level then node.level else level;
      length := length + 1;
      nodeMap := nodeMap[node.ele := node];
      nodes := ns;
      Repr := Repr + {node.forward};
    }

    /** The middle of InsertElement: a new node takes its place on every level. */
    method InsertNode(ele: Key, score: int)
      requires Linked() && ele !in nodeMap
      modifies this, Arrays(nodes)
      ensures Linked() && Owned() && fresh(Repr - old(Repr))
      ensures ele in nodeMap && nodeMap == old(nodeMap)[ele := nodeMap[ele]] && nodeMap[ele].score == score
    {
      hide Entries, AllLinked, Indexed, LastTallBefore, InsertAt, Sorted, Private, Sized, Within;
      var e := Order.Entry(ele, score);
      var update, us := FindUpdate(e);
      var h := GetRandomLevel();
      var node := new Node(ele, score, h);
      ghost var p := Rank(Entries(nodes), e) + 1;
      assert node.forward !in Arrays(nodes) && update !in Arrays(nodes);
      Splice(update, node, nodes, p, us, maxLevel);
      InsertShaped(nodes, p, node, maxLevel);
      InsertWithin(nodes, p, node, level);
      InsertIndexed(nodes, nodeMap, p, node);
      InsertEntries(nodes, nodeMap, p, node);
      ghost var ns := InsertAt(nodes, p, node);
      assert this !in Arrays(ns);
      Record(node, ns);
      assert AllLinked(ns, maxLevel);
      assert Arrays(ns) <= Repr;
    }

    lemma {:induction false} TargetFits(ele: Key)
      requires Linked() && ele in nodeMap
      ensures nodeMap[ele].ele == ele && 1 <= nodeMap[ele].level <= level
    {
      IndexedAt(nodes, nodeMap, ele);
    }

    lemma {:induction false} Ahead(ele: Key, curr: Node, i: nat, u: nat)
      requires Linked() && ele in nodeMap && i < curr.level == curr.forward.Length && i < maxLevel
      requires Precedes(nodes, nodeMap[ele].Entry(), i, u, curr)
      ensures if i < nodeMap[ele].level then curr.forward[i] == nodeMap[ele]
              else curr.forward[i] == null || curr.forward[i].ele != ele
    {
      AheadOf(nodes, nodeMap, ele, i, u);
      assert LinkedAt(nodes, i);
      assert nodes[u].forward[i] == At(nodes, NextTall(nodes, u + 1, i));
    }

    /** The descent of the two delete methods, from the current level: the node, the highest
        level it is on, and its predecessors. */
    method Locate(ele: Key) returns (update: array<Node?>, node: Node, top: nat, ghost us: seq<nat>)
      requires Linked() && ele in nodeMap
      ensures fresh(update) && update.Length == maxLevel == |us|
      ensures node == nodeMap[ele] && top == node.level - 1
      ensures forall i :: 0 <= i <= top ==> Precedes(nodes, node.Entry(), i, us[i], update[i])
    {
      hide Entries, AllLinked, Indexed, LastTallBefore, Sorted, Private, Sized;
      ghost var target := nodeMap[ele];
      var score := nodeMap[ele].score;
      var e := Order.Entry(ele, score);
      update := new Node?[maxLevel](_ => null);
      us := seq(maxLevel, _ => 0);
      var curr, curLevel, found: Node? := header, level, null;
      top := maxLevel;
      ghost var c: nat := 0;
      TargetFits(ele);
      while curLevel > 0
        invariant 0 <= curLevel <= level && |us| == maxLevel
        invariant c < |nodes| && curr == nodes[c] && curr.level >= curLevel && c <= Rank(Entries(nodes), e)
        invariant forall i :: curLevel <= i < level ==> Precedes(nodes, e, i, us[i], update[i])
        invariant if curLevel < target.level then top == target.level - 1 && found == target else top == maxLevel
      {
        curLevel := curLevel - 1;
        curr, c := Advance(curr, curLevel, e, c);
        update[curLevel] := curr;
        us := us[curLevel := c];
        found := curr.forward[curLevel];
        Ahead(ele, curr, curLevel, c);
        if found != null && found.ele == ele && found.score == score && top == maxLevel {
          top := curLevel;
        }
      }
      node := found;
    }

    /** Take the node out of the index and the count. */
    method Forget(ele: Key, ghost ns: seq<Node>)
      requires length > 0
      modifies this`nodeMap, this`length, this`nodes
      ensures nodes == ns && length == old(length) - 1 && nodeMap == old(nodeMap) - {ele}
    {
      nodeMap := nodeMap - {ele};
      length := length - 1;
      nodes := ns;
    }

    /** The middle of the delete methods: a member's node leaves every level it is on. */
    method RemoveNode(ele: Key)
      requires Linked() && ele in nodeMap
      modifies this`nodeMap, this`length, this`nodes, Arrays(nodes)
      ensures Linked() && Owned() && nodeMap == old(nodeMap) - {ele}
    {
      hide Entries, AllLinked, Indexed, LastTallBefore, RemoveAt, Sorted, Private, Sized, Within, Arrays, Rank;
      var update, node, top, us := Locate(ele);
      ghost var p := Rank(Entries(nodes), node.Entry()) + 1;
      IndexedAt(nodes, nodeMap, ele);
      TargetFits(ele);
      Bypass(update, node, top, nodes, p, us, maxLevel);
      RemoveShaped(nodes, p, maxLevel);
      RemoveWithin(nodes, p, level);
      RemoveIndexed(nodes, nodeMap, p);
      RemoveEntries(nodes, p);
      ghost var ns := RemoveAt(nodes, p);
      assert this !in Arrays(ns);
      Forget(ele, ns);
      assert AllLinked(ns, maxLevel);
    }

    method DeleteElementInLock(ele: Key) returns (r: int)
      requires Linked() && Owned() && lru.Valid() && Agree()
      modifies Repr
      ensures Linked() && Owned() && lru.Valid() && Agree() && Repr == old(Repr)
      ensures r == if ele in old(nodeMap) then 1 else 0
      ensures nodeMap == old(nodeMap) - {ele}
      ensures lru.Model() == LruModel.Step(old(lru.Model()), LruModel.Remove(ele))
      ensures lru.lru == Drop(old(lru.lru), {ele}) && lru.deleteKeys == old(lru.deleteKeys)
      ensures lru.Model().capacity == old(lru.Model()).capacity
    {
      hide Linked, LruModel.Valid, Drop, Agrees, Lru.LRUCache.Valid;
      AgreesRemove(lru.cache, nodeMap, ele);
      if ele !in nodeMap {
        lru.ModelValid();
        LruModel.RemoveAbsent(lru.Model(), ele);
        return 0;
      }
      RemoveNode(ele);
      lru.Remove(ele);
      return 1;
    }

    method DeleteElement(ele: Key) returns (r: int)
      requires Valid()
      modifies Repr
      ensures Valid() && Repr == old(Repr)
      ensures State() == Z.Step(old(State()), Z.Delete(ele)) && r == Z.Result(old(State()), Z.Delete(ele))
    {
      hide Linked, Z.Valid, Drop, Elems;
      ghost var z := State();
      Z.StepValid(z, Z.Delete(ele));
      r := DeleteElementInLock(ele);
      assert Scores(nodeMap) == z.scores - {ele};
    }

    lemma {:induction false} SearchAbsent(ele: Key)
      requires Valid() && ele !in nodeMap
      ensures State().order == LruModel.Touch(State().order, ele)
    {
    }

    method SearchElement(ele: Key) returns (r: int)
      requires Valid()
      modifies lru
      ensures Valid()
      ensures State() == Z.Step(old(State()), Z.Search(ele)) && r == Z.Result(old(State()), Z.Search(ele))
    {
      hide Linked, Z.Valid, Drop;
      Z.StepValid(State(), Z.Search(ele));
      if ele !in nodeMap {
        SearchAbsent(ele);
        return -1;
      }
      var _ := lru.Get(ele);
      return nodeMap[ele].score;
    }

    method Length() returns (n: nat)
      requires Valid()
      ensures n == |State().scores|
    {
      assert Scores(nodeMap).Keys == nodeMap.Keys;
      assert |Scores(nodeMap).Keys| == |Scores(nodeMap)| && |nodeMap.Keys| == |nodeMap|;
      return length;
    }

    /** The configured maximum is passed in. */
    method SetMaxMemory(max: int) returns (r: int)
      requires Valid()
      modifies lru
      ensures Valid()
      ensures State() == Z.Step(old(State()), Z.SetMaxMemory(max)) && r == 0
    {
      hide Linked, Z.Valid, Z.Step, LruModel.Step, LruModel.Valid, Elems, Distinct;
      Z.StepValid(State(), Z.SetMaxMemory(max));
      lru.ModelValid();
      Z.SetMaxRefined(State(), lru.Model(), max);
      var _ := lru.SetCapacity(max);
      return 0;
    }

    /** Delete every queued member, whether or not it is still present, and clear the queue. */
    method Drain()
      requires Linked() && Owned() && lru.Valid() && Agree()
      modifies Repr
      ensures Linked() && Owned() && lru.Valid() && Agree() && Repr == old(Repr)
      ensures nodeMap == old(nodeMap) - Elems(old(lru.deleteKeys))
      ensures lru.lru == Drop(old(lru.lru), Elems(old(lru.deleteKeys)))
      ensures lru.deleteKeys == [] && lru.Model().capacity == old(lru.Model()).capacity
    {
      hide Linked, Drop, Elems, Agrees, LruModel.Step, Lru.LRUCache.Valid;
      var keys := lru.deleteKeys;
      DrainNone(lru.lru, nodeMap, keys[..0]);
      var i := 0;
      while i < |keys|
        invariant 0 <= i <= |keys|
        invariant Linked() && Owned() && lru.Valid() && Agree() && Repr == old(Repr)
        invariant nodeMap == old(nodeMap) - Elems(keys[..i])
        invariant lru.lru == Drop(old(lru.lru), Elems(keys[..i]))
        invariant lru.Model().capacity == old(lru.Model()).capacity
      {
        DrainOne(old(lru.lru), old(nodeMap), keys, i);
        var _ := DeleteElementInLock(keys[i]);
        i := i + 1;
      }
      assert keys[..i] == keys;
      lru.ClearDeleteKeys();
    }

    /** The equal-score path: only the recency changes. */
    method Touch(ele: Key)
      requires Valid() && ele in nodeMap
      modifies lru
      ensures Valid() && State() == Z.Step(old(State()), Z.Insert(ele, nodeMap[ele].score))
    {
      hide Linked, Z.Valid, Drop;
      Z.StepValid(State(), Z.Insert(ele, nodeMap[ele].score));
      var _ := lru.Get(ele);
    }

    /** The rest of InsertElement: erase an old entry, link and cache the new one, drain. */
    method Reinsert(ele: Key, score: int)
      requires Valid() && !(ele in nodeMap && nodeMap[ele].score == score)
      modifies Repr
      ensures Valid() && fresh(Repr - old(Repr))
      ensures State() == Z.Step(old(State()), Z.Insert(ele, score))
    {
      hide Linked, Z.Valid, Z.Step, Drop, Elems, LruModel.Step, LruModel.Valid, Lru.LRUCache.Valid, Agrees;
      ghost var z, l := State(), lru.Model();
      Z.StepValid(z, Z.Insert(ele, score));
      lru.ModelValid();
      Z.InsertRefined(z, l, ele, score);
      if ele in nodeMap {
        var _ := DeleteElementInLock(ele);
      } else {
        AgreesRemove(lru.cache, nodeMap, ele);
        LruModel.RemoveAbsent(l, ele);
      }
      lru.ModelValid();
      ghost var m, k := lru.Model(), nodeMap;
      assert k == old(nodeMap) - {ele};
      InsertNode(ele, score);
      AgreesPut(m, k, ele, nodeMap[ele]);
      lru.Put(ele, score);
      ScoresInsert(old(nodeMap), ele, nodeMap[ele], Elems(lru.deleteKeys));
      Drain();
    }

    method InsertElement(ele: Key, score: int) returns (ans: int)
      requires Valid()
      modifies Repr
      ensures Valid() && fresh(Repr - old(Repr))
      ensures State() == Z.Step(old(State()), Z.Insert(ele, score))
      ensures ans == Z.Result(old(State()), Z.Insert(ele, score))
    {
      ans := 1;
      if ele in nodeMap {
        ans := 0;
        if nodeMap[ele].score == score {
          Touch(ele);
          return;
        }
      }
      Reinsert(ele, score);
    }

    /** The level-0 order. */
    ghost function Contents(): seq<Entry>
      reads this, Arrays(nodes), lru
      requires Valid()
    {
      Entries(nodes)
    }

    /** The level-0 order lists exactly the members with their scores. */
    lemma {:induction false} ContentsAreMembers()
      requires Valid()
      ensures Sorted(Contents())
      ensures forall e: Entry :: e in Contents() <==> e.ele in State().scores && State().scores[e.ele] == e.score
      ensures length == |Contents()| == |State().scores|
    {
      forall e | e in Contents()
        ensures e.ele in nodeMap && nodeMap[e.ele].score == e.score
      {
        var k :| 0 <= k < |Contents()| && Contents()[k] == e;
        assert nodes[k + 1].ele in nodeMap;
      }
      forall e: Entry | e.ele in nodeMap && nodeMap[e.ele].score == e.score
        ensures e in Contents()
      {
        IndexedAt(nodes, nodeMap, e.ele);
        var p := Rank(Entries(nodes), nodeMap[e.ele].Entry()) + 1;
        assert Contents()[p - 1] == e;
      }
      assert Scores(nodeMap).Keys == nodeMap.Keys;
      assert |Scores(nodeMap).Keys| == |Scores(nodeMap)| && |nodeMap.Keys| == |nodeMap|;
    }

    /** It does, by ascending scores, and by ascending members among equal ones. */
    lemma {:induction false} ContentsAreScores()
      requires Valid()
      ensures Sorted(Contents()) && Ascending(Contents())
      ensures forall e: Entry :: e in Contents() <==> e.ele in State().scores && State().scores[e.ele] == e.score
      ensures length == |Contents()| == |State().scores|
    {
      hide Valid, State, Contents, Sorted, Ascending;
      ContentsAreMembers();
      SortedAscends(Contents());
    }

    /** DisplayList's walk along one level: exactly the level-0 entries of nodes taller than it. */
    method Chain(i: nat) returns (s: seq<Entry>)
      requires Valid() && i < maxLevel
      ensures s == Taller(nodes, 1, i) && Sorted(s) && Ascending(s)
    {
      hide Taller, NextTall, Entries, Indexed, Z.Valid, Lru.LRUCache.Valid, Agrees, Sorted, Ascending, Private;
      assert LinkedAt(nodes, i);
      assert nodes[0].forward.Length == maxLevel;
      var node := header.forward[i];
      ghost var k := NextTall(nodes, 1, i);
      TallerSkips(nodes, 1, i);
      s := [];
      while node != null
        invariant k <= |nodes| && node == At(nodes, k) && (node != null ==> i < node.level)
        invariant s + Taller(nodes, k, i) == Taller(nodes, 1, i)
        decreases |nodes| - k
      {
        TallerHead(nodes, k, i);
        TallerSkips(nodes, k + 1, i);
        assert nodes[k].forward[i] == At(nodes, NextTall(nodes, k + 1, i));
        s := s + [node.Entry()];
        k := NextTall(nodes, k + 1, i);
        node := node.forward[i];
      }
      TallerEnd(nodes, k, i);
      TallerSorted(nodes, 1, i);
      SortedAscends(s);
    }

    /** Level 0 carries the whole order. */
    lemma {:induction false} BottomLevel()
      requires Valid()
      ensures maxLevel > 0 && Taller(nodes, 1, 0) == Contents()
    {
      AllTaller(nodes, 1);
    }

    /** Every level, bottom up. */
    method DisplayList() returns (levels: seq<seq<Entry>>)
      requires Valid()
      ensures |levels| == maxLevel
      ensures forall i :: 0 <= i < maxLevel ==> levels[i] == Taller(nodes, 1, i) && Ascending(levels[i])
      ensures forall i :: 0 <= i < maxLevel - 1 ==> Subsequence(levels[i + 1], levels[i])
      ensures maxLevel > 0 && levels[0] == Contents()
    {
      hide Valid, Taller, Sorted, Ascending, Subsequence, Contents;
      BottomLevel();
      levels := [];
      for i := 0 to maxLevel
        invariant |levels| == i
        invariant forall l :: 0 <= l < i ==> levels[l] == Taller(nodes, 1, l) && Ascending(levels[l])
      {
        var s := Chain(i);
        levels := levels + [s];
      }
      forall i | 0 <= i < maxLevel - 1
        ensures Subsequence(levels[i + 1], levels[i])
      {
        TallerThins(nodes, 1, i);
      }
    }

    /** The text of DumpFile and Save. */
    method DumpFile() returns (text: string)
      requires Valid()
      ensures text == D.Text(Contents())
    {
      hide NextTall, Indexed, Z.Valid, Lru.LRUCache.Valid, Agrees, Sorted, Private, D.Line;
      assert LinkedAt(nodes, 0);
      assert nodes[0].forward.Length == maxLevel;
      var node := header.forward[0];
      ghost var k := 1;
      NextTallIs(nodes, 1, 0, 1);
      text := "";
      while node != null
        invariant 1 <= k <= |nodes| && node == At(nodes, k)
        invariant text == D.Text(Contents()[..k - 1])
        decreases |nodes| - k
      {
        D.TextSnoc(Contents()[..k - 1], Contents()[k - 1]);
        assert Contents()[..k] == Contents()[..k - 1] + [Contents()[k - 1]];
        NextTallIs(nodes, k + 1, 0, k + 1);
        assert nodes[k].forward[0] == At(nodes, NextTall(nodes, k + 1, 0));
        text := text + D.Line(node.Entry());
        k := k + 1;
        node := node.forward[0];
      }
      assert Contents()[..k - 1] == Contents();
    }

    /** Read lines, keep the two strings across them, insert what parses. */
    method LoadFile(text: string)
      requires Valid()
      modifies Repr
      ensures Valid() && fresh(Repr - old(Repr))
      ensures State() == Runs.Run(old(State()), D.LoadOps(text))
    {
      hide Valid, Z.Step, Runs.Run, D.Loads, D.Lines, D.Split, N.Stoi;
      var lines := D.Lines(text);
      var key, val := "", "";
      ghost var ops: seq<Z.Op> := [];
      Runs.RunNone(State());
      assert lines[0..] == lines;
      var i := 0;
      while i < |lines|
        invariant 0 <= i <= |lines|
        invariant Valid() && Owned() && fresh(Repr - old(Repr))
        invariant ops + D.Loads(lines[i..], key, val) == D.LoadOps(text)
        invariant State() == Runs.Run(old(State()), ops)
      {
        D.LoadsOne(lines, i, key, val);
        match D.Split(lines[i]) {
          case Some(p) => key, val := p.0, p.1;
          case None =>
        }
        i := i + 1;
        if key != "" && val != "" && N.Stoi(val).Some? {
          var v := N.Stoi(val).value;
          var _ := InsertElement(Key(key), v);
          Runs.RunSnoc(old(State()), ops, Z.Insert(Key(key), v));
          ops := ops + [Z.Insert(Key(key), v)];
        }
      }
      D.LoadsNone(lines, i, key, val);
      assert ops == D.LoadOps(text);
    }
  }
}
