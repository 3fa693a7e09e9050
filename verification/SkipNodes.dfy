/** Skip-list nodes and their per-level chains, as seen from the level-0 order. */
module SkipNodes {
  import opened Seqs
  import opened Order

  /** A node and its array of forward pointers, one per level it takes part in. */
  class Node {
    const ele: Key
    const score: int
    const level: nat
    const forward: array<Node?>

    constructor (ele: Key, score: int, level: nat)
      ensures this.ele == ele && this.score == score && this.level == level
      ensures fresh(forward) && forward.Length == level
      ensures forall i :: 0 <= i < level ==> forward[i] == null
    {
      this.ele := ele;
      this.score := score;
      this.level := level;
      this.forward := new Node?[level](_ => null);
    }

    function Entry(): Entry { Order.Entry(ele, score) }
  }

  /** The entries of the nodes behind the header. */
  ghost function Entries(nodes: seq<Node>): (c: seq<Entry>)
    requires |nodes| > 0
    ensures |c| == |nodes| - 1
    ensures forall k :: 0 <= k < |c| ==> c[k] == nodes[k + 1].Entry()
  {
    seq(|nodes| - 1, k requires 0 <= k < |nodes| - 1 => nodes[k + 1].Entry())
  }

  /** The first index from k on whose node is taller than level i, or |nodes|. */
  ghost function NextTall(nodes: seq<Node>, k: nat, i: nat): (r: nat)
    requires k <= |nodes|
    ensures k <= r <= |nodes|
    ensures r < |nodes| ==> nodes[r].level > i
    ensures forall m :: k <= m < r ==> nodes[m].level <= i
    decreases |nodes| - k
  {
    if k == |nodes| || nodes[k].level > i then k else NextTall(nodes, k + 1, i)
  }

  lemma {:induction false} NextTallIs(nodes: seq<Node>, k: nat, i: nat, r: nat)
    requires k <= r <= |nodes|
    requires r < |nodes| ==> nodes[r].level > i
    requires forall m :: k <= m < r ==> nodes[m].level <= i
    ensures NextTall(nodes, k, i) == r
  {
  }

  ghost function At(nodes: seq<Node>, r: nat): Node? {
    if r < |nodes| then nodes[r] else null
  }

  ghost function Arrays(nodes: seq<Node>): set<object> {
    set n | n in nodes :: n.forward
  }

  /** Every node has one forward pointer per level. */
  ghost predicate Sized(nodes: seq<Node>) {
    forall j {:trigger nodes[j].forward} :: 0 <= j < |nodes| ==> nodes[j].forward.Length == nodes[j].level
  }

  /** No two nodes share a pointer array. */
  ghost predicate Private(nodes: seq<Node>) {
    forall j, k {:trigger nodes[j].forward, nodes[k].forward} ::
      0 <= j < k < |nodes| ==> nodes[j].forward != nodes[k].forward
  }

  /** Header first, heights within bounds, one private pointer array per node. */
  ghost predicate Shaped(nodes: seq<Node>, maxLevel: nat) {
    && |nodes| > 0 && nodes[0].level == maxLevel > 0
    && (forall j :: 0 <= j < |nodes| ==> 1 <= nodes[j].level <= maxLevel)
    && Sized(nodes) && Private(nodes)
  }

  /** Level i: every node taller than i points to the next node taller than i. */
  ghost predicate LinkedAt(nodes: seq<Node>, i: nat)
    requires Sized(nodes)
    reads Arrays(nodes)
  {
    forall j {:trigger nodes[j].forward} :: 0 <= j < |nodes| && i < nodes[j].level ==>
      nodes[j].forward[i] == At(nodes, NextTall(nodes, j + 1, i))
  }

  /** No node behind the header takes part in a level from `level` up. */
  ghost predicate Within(nodes: seq<Node>, level: nat) {
    forall j :: 1 <= j < |nodes| ==> nodes[j].level <= level
  }

  /** Every level's chain is complete. */
  ghost predicate AllLinked(nodes: seq<Node>, maxLevel: nat)
    requires Sized(nodes)
    reads Arrays(nodes)
  {
    forall l :: 0 <= l < maxLevel ==> LinkedAt(nodes, l)
  }

  function InsertAt(nodes: seq<Node>, p: nat, node: Node): (ns: seq<Node>)
    requires p <= |nodes|
    ensures |ns| == |nodes| + 1 && ns[p] == node
    ensures forall k :: 0 <= k < p ==> ns[k] == nodes[k]
    ensures forall k :: p < k <= |nodes| ==> ns[k] == nodes[k - 1]
    ensures forall n :: n in ns ==> n == node || n in nodes
  {
    nodes[..p] + [node] + nodes[p..]
  }

  /** u is the last node before position p that takes part in level i. */
  ghost predicate LastTallBefore(nodes: seq<Node>, p: nat, i: nat, u: nat) {
    u < p <= |nodes| && i < nodes[u].level && forall m :: u < m < p ==> nodes[m].level <= i
  }

  /** A new node at p, and the level's links around it. */
  lemma {:induction false} NextAfterInsert(nodes: seq<Node>, p: nat, node: Node, i: nat, j: nat)
    requires p <= |nodes| && j <= |nodes| + 1
    ensures var ns := InsertAt(nodes, p, node);
      && (j > p ==> NextTall(ns, j, i) == NextTall(nodes, j - 1, i) + 1)
      && (j <= p ==>
          var r := NextTall(nodes, j, i);
          NextTall(ns, j, i) == if r < p then r else if node.level > i then p else r + 1)
  {
    hide InsertAt, NextTall;
    var ns := InsertAt(nodes, p, node);
    if j > p {
      NextTallIs(ns, j, i, NextTall(nodes, j - 1, i) + 1);
    } else {
      var r := NextTall(nodes, j, i);
      NextTallIs(ns, j, i, if r < p then r else if node.level > i then p else r + 1);
    }
  }

  /** The node at p gone, and the level's links around it. */
  lemma {:induction false} NextAfterRemove(nodes: seq<Node>, p: nat, i: nat, j: nat)
    requires p < |nodes| && j < |nodes|
    ensures var ns := RemoveAt(nodes, p);
      && (j > p ==> NextTall(ns, j, i) == NextTall(nodes, j + 1, i) - 1)
      && (j <= p ==>
          var r := NextTall(nodes, j, i);
          NextTall(ns, j, i) == if r < p then r else if r == p then NextTall(nodes, p + 1, i) - 1 else r - 1)
  {
    hide RemoveAt, NextTall;
    var ns := RemoveAt(nodes, p);
    if j > p {
      NextTallIs(ns, j, i, NextTall(nodes, j + 1, i) - 1);
    } else {
      var r := NextTall(nodes, j, i);
      if r < p {
        NextTallIs(ns, j, i, r);
      } else {
        var q := if r == p then NextTall(nodes, p + 1, i) else r;
        NextTallIs(ns, j, i, q - 1);
      }
    }
  }

  /** Levels the new node does not reach keep their links. */
  lemma {:induction false} UnaffectedByInsert(nodes: seq<Node>, p: nat, node: Node, i: nat)
    requires p <= |nodes| && node.level <= i
    requires node.forward.Length == node.level
    requires Sized(nodes)
    requires LinkedAt(nodes, i)
    ensures LinkedAt(InsertAt(nodes, p, node), i)
  {
    hide InsertAt, NextTall;
    var ns := InsertAt(nodes, p, node);
    forall j | 0 <= j < |ns| && i < ns[j].level
      ensures ns[j].forward[i] == At(ns, NextTall(ns, j + 1, i))
    {
      NextAfterInsert(nodes, p, node, i, j + 1);
    }
  }

  lemma {:induction false} UnaffectedByRemove(nodes: seq<Node>, p: nat, i: nat)
    requires p < |nodes| && nodes[p].level <= i
    requires Sized(nodes)
    requires LinkedAt(nodes, i)
    ensures LinkedAt(RemoveAt(nodes, p), i)
  {
    hide RemoveAt, NextTall;
    var ns := RemoveAt(nodes, p);
    forall j | 0 <= j < |ns| && i < ns[j].level
      ensures ns[j].forward[i] == At(ns, NextTall(ns, j + 1, i))
    {
      NextAfterRemove(nodes, p, i, j + 1);
    }
  }

  /** Who follows whom on level i once `node` stands at p: only the predecessor u is redirected. */
  lemma {:induction false} SuccessorsAfterInsert(nodes: seq<Node>, p: nat, node: Node, i: nat, u: nat, j: nat)
    requires LastTallBefore(nodes, p, i, u) && i < node.level && j <= |nodes|
    requires i < InsertAt(nodes, p, node)[j].level
    ensures var ns := InsertAt(nodes, p, node);
      At(ns, NextTall(ns, j + 1, i)) ==
        if j == u then node
        else if j == p then At(nodes, NextTall(nodes, u + 1, i))
        else if j < p then At(nodes, NextTall(nodes, j + 1, i))
        else At(nodes, NextTall(nodes, j, i))
  {
    hide InsertAt, NextTall;
    NextAfterInsert(nodes, p, node, i, j + 1);
    if j == p {
      NextTallIs(nodes, p, i, NextTall(nodes, u + 1, i));
    }
  }

  /** Who follows whom on level i once the node at p is gone: only its predecessor u is redirected. */
  lemma {:induction false} SuccessorsAfterRemove(nodes: seq<Node>, p: nat, i: nat, u: nat, j: nat)
    requires LastTallBefore(nodes, p, i, u) && p < |nodes| && i < nodes[p].level && j < |nodes| - 1
    requires i < RemoveAt(nodes, p)[j].level
    ensures var ns := RemoveAt(nodes, p);
      At(ns, NextTall(ns, j + 1, i)) ==
        if j == u then At(nodes, NextTall(nodes, p + 1, i))
        else if j < p then At(nodes, NextTall(nodes, j + 1, i))
        else At(nodes, NextTall(nodes, j + 2, i))
  {
    hide RemoveAt, NextTall;
    NextAfterRemove(nodes, p, i, j + 1);
    if j == u {
      NextTallIs(nodes, u + 1, i, p);
    }
  }

  /** Level i is linked, except that node u may point anywhere. */
  ghost predicate LinkedBut(nodes: seq<Node>, i: nat, u: nat)
    requires Sized(nodes)
    reads Arrays(nodes)
  {
    forall j {:trigger nodes[j].forward} :: 0 <= j < |nodes| && j != u && i < nodes[j].level ==>
      nodes[j].forward[i] == At(nodes, NextTall(nodes, j + 1, i))
  }

  /** Level i is linked around `node` once u points to it and it to u's old successor. */
  lemma {:induction false} LinkedAfterInsert(node: Node, i: nat, nodes: seq<Node>, p: nat, u: nat)
    requires LastTallBefore(nodes, p, i, u) && i < node.level
    requires Sized(nodes) && Sized(InsertAt(nodes, p, node)) && node.forward.Length == node.level
    requires LinkedBut(nodes, i, u)
    requires nodes[u].forward[i] == node && node.forward[i] == At(nodes, NextTall(nodes, u + 1, i))
    ensures LinkedAt(InsertAt(nodes, p, node), i)
  {
    hide InsertAt, NextTall, At;
    var ns := InsertAt(nodes, p, node);
    forall j | 0 <= j < |ns| && i < ns[j].level
      ensures ns[j].forward[i] == At(ns, NextTall(ns, j + 1, i))
    {
      SuccessorsAfterInsert(nodes, p, node, i, u, j);
      if j != p {
        var k := if j < p then j else j - 1;
        assert ns[j].forward == nodes[k].forward;
      }
    }
  }

  /** Level i is linked around the gap once u points to the removed node's successor. */
  lemma {:induction false} LinkedAfterRemove(i: nat, nodes: seq<Node>, p: nat, u: nat)
    requires LastTallBefore(nodes, p, i, u) && p < |nodes| && i < nodes[p].level
    requires Sized(nodes) && Sized(RemoveAt(nodes, p))
    requires LinkedBut(nodes, i, u)
    requires nodes[u].forward[i] == At(nodes, NextTall(nodes, p + 1, i))
    ensures LinkedAt(RemoveAt(nodes, p), i)
  {
    hide RemoveAt, NextTall, At;
    var ns := RemoveAt(nodes, p);
    forall j | 0 <= j < |ns| && i < ns[j].level
      ensures ns[j].forward[i] == At(ns, NextTall(ns, j + 1, i))
    {
      SuccessorsAfterRemove(nodes, p, i, u, j);
      var k := if j < p then j else j + 1;
      assert ns[j].forward == nodes[k].forward;
    }
  }

  /** One round of the insertion loop: splice `node` into level i behind `pred`. */
  method Link(pred: Node, node: Node, i: nat, ghost nodes: seq<Node>, ghost p: nat, ghost u: nat)
    requires p <= |nodes| && Sized(nodes) && Private(nodes) && Sized(InsertAt(nodes, p, node))
    requires node.forward.Length == node.level && node.forward !in Arrays(nodes)
    requires LastTallBefore(nodes, p, i, u) && pred == nodes[u] && i < node.level
    requires LinkedAt(nodes, i)
    modifies pred.forward, node.forward
    ensures LinkedAt(InsertAt(nodes, p, node), i)
    ensures forall l :: l != i && old(LinkedAt(nodes, l)) ==> LinkedAt(nodes, l)
    ensures forall l :: l != i && old(LinkedAt(InsertAt(nodes, p, node), l)) ==> LinkedAt(InsertAt(nodes, p, node), l)
  {
    hide InsertAt, NextTall, At;
    assert nodes[u].forward.Length == nodes[u].level;
    var next := pred.forward[i];
    pred.forward[i] := node;
    node.forward[i] := next;
    assert LinkedBut(nodes, i, u);
    LinkedAfterInsert(node, i, nodes, p, u);
  }

  /** One round of the deletion loop: bypass the node at p on level i. */
  method Unlink(pred: Node, node: Node, i: nat, ghost nodes: seq<Node>, ghost p: nat, ghost u: nat)
    requires p < |nodes| && Sized(nodes) && Sized(RemoveAt(nodes, p)) && Private(nodes)
    requires LastTallBefore(nodes, p, i, u) && pred == nodes[u] && node == nodes[p] && i < node.level
    requires LinkedAt(nodes, i)
    modifies pred.forward
    ensures LinkedAt(RemoveAt(nodes, p), i)
    ensures forall l :: l != i && old(LinkedAt(nodes, l)) ==> LinkedAt(nodes, l)
    ensures forall l :: l != i && old(LinkedAt(RemoveAt(nodes, p), l)) ==> LinkedAt(RemoveAt(nodes, p), l)
  {
    hide RemoveAt, NextTall, At;
    assert nodes[u].forward != nodes[p].forward;
    pred.forward[i] := node.forward[i];
    assert LinkedBut(nodes, i, u);
    LinkedAfterRemove(i, nodes, p, u);
  }

  lemma {:induction false} InsertShaped(nodes: seq<Node>, p: nat, node: Node, maxLevel: nat)
    requires Shaped(nodes, maxLevel) && 1 <= p <= |nodes|
    requires 1 <= node.level == node.forward.Length <= maxLevel && node.forward !in Arrays(nodes)
    ensures Shaped(InsertAt(nodes, p, node), maxLevel)
    ensures Arrays(InsertAt(nodes, p, node)) == Arrays(nodes) + {node.forward}
  {
    var ns := InsertAt(nodes, p, node);
    forall j, k | 0 <= j < k < |ns|
      ensures ns[j].forward != ns[k].forward
    {
      if j == p {
        assert nodes[k - 1] in nodes;
      } else if k == p {
        assert nodes[j] in nodes;
      }
    }
    forall n | n in nodes ensures n in ns {
      var k :| 0 <= k < |nodes| && nodes[k] == n;
      assert ns[if k < p then k else k + 1] == n;
    }
    assert ns[p] in ns;
  }

  lemma {:induction false} InsertWithin(nodes: seq<Node>, p: nat, node: Node, level: nat)
    requires 1 <= p <= |nodes| && Within(nodes, level)
    ensures Within(InsertAt(nodes, p, node), if node.level > level then node.level else level)
  {
    hide InsertAt;
  }

  lemma {:induction false} RemoveShaped(nodes: seq<Node>, p: nat, maxLevel: nat)
    requires Shaped(nodes, maxLevel) && 1 <= p < |nodes|
    ensures Shaped(RemoveAt(nodes, p), maxLevel) && Arrays(RemoveAt(nodes, p)) <= Arrays(nodes)
  {
    hide RemoveAt;
  }

  lemma {:induction false} RemoveWithin(nodes: seq<Node>, p: nat, level: nat)
    requires 1 <= p < |nodes| && Within(nodes, level)
    ensures Within(RemoveAt(nodes, p), level)
  {
    hide RemoveAt;
  }

  /** The whole insertion loop: `node` joins every level it is tall enough for, and no other. */
  method Splice(update: array<Node?>, node: Node,
                ghost nodes: seq<Node>, ghost p: nat, ghost us: seq<nat>, ghost maxLevel: nat)
    requires Shaped(nodes, maxLevel) && 1 <= p <= |nodes|
    requires 1 <= node.level == node.forward.Length <= maxLevel && node.forward !in Arrays(nodes)
    requires update.Length == maxLevel == |us| && update !in Arrays(nodes) && update != node.forward
    requires forall i :: 0 <= i < maxLevel ==> LastTallBefore(nodes, p, i, us[i]) && update[i] == nodes[us[i]]
    requires AllLinked(nodes, maxLevel)
    modifies Arrays(nodes), node.forward
    ensures Shaped(InsertAt(nodes, p, node), maxLevel)
    ensures AllLinked(InsertAt(nodes, p, node), maxLevel)
  {
    hide InsertAt, LinkedAt;
    InsertShaped(nodes, p, node, maxLevel);
    ghost var upd := update[..];
    var i := 0;
    while i < node.level
      invariant i <= node.level
      invariant update[..] == upd
      invariant forall l :: 0 <= l < i ==> LinkedAt(InsertAt(nodes, p, node), l)
      invariant forall l :: i <= l < maxLevel ==> LinkedAt(nodes, l)
    {
      assert update[i] == upd[i] == nodes[us[i]];
      assert nodes[us[i]].forward in Arrays(nodes);
      Link(update[i], node, i, nodes, p, us[i]);
      i := i + 1;
    }
    forall l | node.level <= l < maxLevel
      ensures LinkedAt(InsertAt(nodes, p, node), l)
    {
      UnaffectedByInsert(nodes, p, node, l);
    }
  }

  /** The whole deletion loop: the node at p leaves every level it takes part in, and no other. */
  method Bypass(update: array<Node?>, node: Node, level: int,
                ghost nodes: seq<Node>, ghost p: nat, ghost us: seq<nat>, ghost maxLevel: nat)
    requires Shaped(nodes, maxLevel) && 1 <= p < |nodes| && node == nodes[p] && level == node.level - 1
    requires update.Length == maxLevel == |us| && update !in Arrays(nodes)
    requires forall i :: 0 <= i < node.level ==> LastTallBefore(nodes, p, i, us[i]) && update[i] == nodes[us[i]]
    requires AllLinked(nodes, maxLevel)
    modifies Arrays(nodes)
    ensures Shaped(RemoveAt(nodes, p), maxLevel)
    ensures AllLinked(RemoveAt(nodes, p), maxLevel)
  {
    hide RemoveAt, LinkedAt;
    RemoveShaped(nodes, p, maxLevel);
    ghost var upd := update[..];
    var i := 0;
    while i <= level
      invariant i <= node.level
      invariant update[..] == upd
      invariant forall l :: 0 <= l < i ==> LinkedAt(RemoveAt(nodes, p), l)
      invariant forall l :: i <= l < maxLevel ==> LinkedAt(nodes, l)
    {
      assert update[i] == upd[i] == nodes[us[i]];
      assert nodes[us[i]].forward in Arrays(nodes);
      Unlink(update[i], node, i, nodes, p, us[i]);
      i := i + 1;
    }
    forall l | node.level <= l < maxLevel
      ensures LinkedAt(RemoveAt(nodes, p), l)
    {
      UnaffectedByRemove(nodes, p, l);
    }
  }

  /** The entries from index k on whose nodes are taller than level i. */
  ghost function Taller(nodes: seq<Node>, k: nat, i: nat): seq<Entry>
    decreases |nodes| - k
  {
    if k >= |nodes| then []
    else if nodes[k].level > i then [nodes[k].Entry()] + Taller(nodes, k + 1, i)
    else Taller(nodes, k + 1, i)
  }

  lemma {:induction false} TallerSkips(nodes: seq<Node>, k: nat, i: nat)
    requires k <= |nodes|
    ensures Taller(nodes, k, i) == Taller(nodes, NextTall(nodes, k, i), i)
    decreases |nodes| - k
  {
    if k < |nodes| && nodes[k].level <= i {
      TallerSkips(nodes, k + 1, i);
    }
  }

  lemma {:induction false} TallerHead(nodes: seq<Node>, k: nat, i: nat)
    requires k < |nodes| && nodes[k].level > i
    ensures Taller(nodes, k, i) == [nodes[k].Entry()] + Taller(nodes, k + 1, i)
  {
  }

  lemma {:induction false} TallerEnd(nodes: seq<Node>, k: nat, i: nat)
    requires k >= |nodes|
    ensures Taller(nodes, k, i) == []
  {
  }

  /** Level 0 has every entry. */
  lemma {:induction false} AllTaller(nodes: seq<Node>, k: nat)
    requires 1 <= k <= |nodes| && forall j :: 0 <= j < |nodes| ==> nodes[j].level > 0
    ensures Taller(nodes, k, 0) == Entries(nodes)[k - 1..]
    decreases |nodes| - k
  {
    if k < |nodes| {
      AllTaller(nodes, k + 1);
      assert Entries(nodes)[k - 1..] == [nodes[k].Entry()] + Entries(nodes)[k..];
    }
  }

  /** s is what is left of t when some of its entries are taken out. */
  ghost predicate Subsequence(s: seq<Entry>, t: seq<Entry>) {
    |s| == 0 || (|t| > 0 && (Subsequence(s, t[1..]) || (s[0] == t[0] && Subsequence(s[1..], t[1..]))))
  }

  /** A level's chain holds only entries of the one below, in the same order. */
  lemma {:induction false} TallerThins(nodes: seq<Node>, k: nat, i: nat)
    ensures Subsequence(Taller(nodes, k, i + 1), Taller(nodes, k, i))
    decreases |nodes| - k
  {
    if k < |nodes| {
      TallerThins(nodes, k + 1, i);
    }
  }

  lemma {:induction false} TallerFrom(nodes: seq<Node>, k: nat, i: nat)
    requires 1 <= k <= |nodes|
    ensures forall e :: e in Taller(nodes, k, i) ==> e in Entries(nodes)[k - 1..]
    decreases |nodes| - k
  {
    if k < |nodes| {
      TallerFrom(nodes, k + 1, i);
      assert Entries(nodes)[k - 1..] == [nodes[k].Entry()] + Entries(nodes)[k..];
    }
  }

  /** Every level is strictly sorted, like level 0. */
  lemma {:induction false} TallerSorted(nodes: seq<Node>, k: nat, i: nat)
    requires 1 <= k <= |nodes| && Sorted(Entries(nodes))
    ensures Sorted(Taller(nodes, k, i))
    decreases |nodes| - k
  {
    if k < |nodes| {
      var rest := Taller(nodes, k + 1, i);
      TallerSorted(nodes, k + 1, i);
      TallerFrom(nodes, k + 1, i);
      forall j | 0 <= j < |rest|
        ensures Less(nodes[k].Entry(), rest[j])
      {
        assert rest[j] in rest && rest[j] in Entries(nodes)[k..];
        assert nodes[k].Entry() == Entries(nodes)[k - 1];
      }
    }
  }
}
