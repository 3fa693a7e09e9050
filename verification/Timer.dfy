/** The expiry queue of timer.h: a doubly linked list in the order of the pushes. */
module Timer {
  import opened Seqs

  /** A watched key and its absolute deadline. */
  datatype Item = Item(key: Key, expire: int)

  class UtilTimer {
    const key: Key
    const expire: int
    var prev: UtilTimer?
    var next: UtilTimer?

    constructor (key: Key, expire: int)
      ensures this.key == key && this.expire == expire && prev == null && next == null
    {
      this.key := key;
      this.expire := expire;
      prev := null;
      next := null;
    }
  }

  ghost function At(nodes: seq<UtilTimer>, k: int): UtilTimer? {
    if 0 <= k < |nodes| then nodes[k] else null
  }

  ghost function Items(nodes: seq<UtilTimer>): (r: seq<Item>)
    ensures |r| == |nodes|
    ensures forall k :: 0 <= k < |nodes| ==> r[k] == Item(nodes[k].key, nodes[k].expire)
  {
    seq(|nodes|, k requires 0 <= k < |nodes| => Item(nodes[k].key, nodes[k].expire))
  }

  ghost predicate Unique(nodes: seq<UtilTimer>) {
    forall j, k :: 0 <= j < k < |nodes| ==> nodes[j] != nodes[k]
  }

  /** Each node's links are its neighbours. */
  ghost predicate Doubly(nodes: seq<UtilTimer>)
    reads nodes
  {
    && (forall k {:trigger nodes[k].next} :: 0 <= k < |nodes| ==> nodes[k].next == At(nodes, k + 1))
    && (forall k {:trigger nodes[k].prev} :: 0 <= k < |nodes| ==> nodes[k].prev == At(nodes, k - 1))
  }

  /** The first item with this key, or |items|. */
  function FirstOf(items: seq<Item>, key: Key): (i: nat)
    ensures i <= |items| && (i < |items| ==> items[i].key == key)
    ensures forall k :: 0 <= k < i ==> items[k].key != key
  {
    if |items| == 0 || items[0].key == key then 0 else 1 + FirstOf(items[1..], key)
  }

  /** How many leading items are due. */
  function Due(items: seq<Item>, now: int): (n: nat)
    ensures n <= |items| && (n < |items| ==> now < items[n].expire)
    ensures forall k :: 0 <= k < n ==> items[k].expire <= now
  {
    if |items| == 0 || now < items[0].expire then 0 else 1 + Due(items[1..], now)
  }

  function Keys(items: seq<Item>): (r: seq<Key>)
    ensures |r| == |items| && forall k :: 0 <= k < |items| ==> r[k] == items[k].key
  {
    seq(|items|, k requires 0 <= k < |items| => items[k].key)
  }

  /** The node at k is bypassed in both directions. */
  ghost predicate Bypassed(nodes: seq<UtilTimer>, k: nat)
    reads nodes
  {
    && (forall j {:trigger nodes[j].next} :: 0 <= j < |nodes| && j != k ==>
          nodes[j].next == if j == k - 1 then At(nodes, k + 1) else At(nodes, j + 1))
    && (forall j {:trigger nodes[j].prev} :: 0 <= j < |nodes| && j != k ==>
          nodes[j].prev == if j == k + 1 then At(nodes, k - 1) else At(nodes, j - 1))
  }

  lemma {:induction false} DoublyWithout(nodes: seq<UtilTimer>, k: nat)
    requires k < |nodes| && Bypassed(nodes, k)
    ensures Doubly(RemoveAt(nodes, k))
  {
    hide RemoveAt;
    var ns := RemoveAt(nodes, k);
    forall j | 0 <= j < |ns|
      ensures ns[j].next == At(ns, j + 1) && ns[j].prev == At(ns, j - 1)
    {
      var i := if j < k then j else j + 1;
      assert ns[j].next == nodes[i].next && ns[j].prev == nodes[i].prev;
    }
  }

  /** The queue once a node is linked behind its last one. */
  lemma {:induction false} DoublySnoc(nodes: seq<UtilTimer>, node: UtilTimer)
    requires |nodes| > 0 && node !in nodes && Unique(nodes)
    requires forall k {:trigger nodes[k].next} :: 0 <= k < |nodes| ==>
      nodes[k].next == if k == |nodes| - 1 then node else At(nodes, k + 1)
    requires forall k {:trigger nodes[k].prev} :: 0 <= k < |nodes| ==> nodes[k].prev == At(nodes, k - 1)
    requires node.prev == nodes[|nodes| - 1] && node.next == null
    ensures Doubly(nodes + [node]) && Unique(nodes + [node])
  {
    var ns := nodes + [node];
    forall k | 0 <= k < |ns|
      ensures ns[k].next == At(ns, k + 1) && ns[k].prev == At(ns, k - 1)
    {
      if k < |nodes| {
        assert ns[k].next == nodes[k].next && ns[k].prev == nodes[k].prev;
      }
    }
  }

  lemma {:induction false} ItemsSnoc(nodes: seq<UtilTimer>, node: UtilTimer)
    ensures Items(nodes + [node]) == Items(nodes) + [Item(node.key, node.expire)]
  {
  }

  lemma {:induction false} ItemsWithout(nodes: seq<UtilTimer>, k: nat)
    requires k < |nodes| && Unique(nodes)
    ensures Items(RemoveAt(nodes, k)) == RemoveAt(Items(nodes), k)
    ensures Unique(RemoveAt(nodes, k)) && (forall n :: n in RemoveAt(nodes, k) ==> n in nodes)
  {
  }

  lemma {:induction false} DueMore(nodes: seq<UtilTimer>, n: nat, now: int)
    requires n < |nodes| && nodes[n].expire <= now && n <= Due(Items(nodes), now)
    ensures n + 1 <= Due(Items(nodes), now)
    ensures Keys(Items(nodes))[..n + 1] == Keys(Items(nodes))[..n] + [nodes[n].key]
  {
  }

  lemma {:induction false} DueStops(nodes: seq<UtilTimer>, n: nat, now: int)
    requires n <= |nodes| && (n < |nodes| ==> now < nodes[n].expire) && n <= Due(Items(nodes), now)
    ensures n == Due(Items(nodes), now) && Items(nodes[n..]) == Items(nodes)[n..]
  {
    assert n < |nodes| ==> Items(nodes)[n].expire == nodes[n].expire;
  }

  /** Popping the head's own key removes the head. */
  lemma {:induction false} PopHead(nodes: seq<UtilTimer>, key: Key)
    requires |nodes| > 0 && nodes[0].key == key
    ensures FirstOf(Items(nodes), key) == 0 && key in Keys(Items(nodes))
    ensures RemoveAt(nodes, 0) == nodes[1..]
  {
    assert Keys(Items(nodes))[0] == key;
  }

  class Timer {
    var head: UtilTimer?
    var tail: UtilTimer?
    ghost var nodes: seq<UtilTimer>
    ghost var Repr: set<object>

    ghost predicate Valid()
      reads this, nodes
      ensures Valid() ==> this in Repr && forall n :: n in nodes ==> n in Repr
    {
      && this in Repr && (forall n :: n in nodes ==> n in Repr)
      && Unique(nodes) && Doubly(nodes)
      && head == At(nodes, 0) && tail == At(nodes, |nodes| - 1)
    }

    ghost function Queue(): seq<Item>
      reads this
    {
      Items(nodes)
    }

    constructor ()
      ensures Valid() && fresh(Repr) && Queue() == []
    {
      head := null;
      tail := null;
      nodes := [];
      Repr := {this};
    }

    /** `now` is the time the node is made at. */
    method Push(key: Key, timeout: int, now: int) returns (r: int)
      requires Valid()
      modifies Repr
      ensures Valid() && fresh(Repr - old(Repr)) && r == 1
      ensures Queue() == old(Queue()) + [Item(key, now + timeout)]
    {
      hide Items;
      var temp := new UtilTimer(key, now + timeout);
      ItemsSnoc(nodes, temp);
      Repr := Repr + {temp};
      if head == null {
        nodes := nodes + [temp];
        head := temp;
        tail := temp;
        return 1;
      }
      temp.prev := tail;
      tail.next := temp;
      tail := temp;
      DoublySnoc(nodes, temp);
      nodes := nodes + [temp];
      return 1;
    }

    /** Pop's search from the head. */
    method Find(key: Key) returns (temp: UtilTimer, ghost k: nat)
      requires Valid() && key in Keys(Queue())
      ensures temp.key == key && k == FirstOf(Queue(), key) && k < |nodes| && temp == nodes[k]
    {
      var t := head;
      k := 0;
      while t != null && t.key != key
        invariant k <= FirstOf(Queue(), key) && t == At(nodes, k)
        decreases |nodes| - k
      {
        assert nodes[k].next == At(nodes, k + 1);
        t := t.next;
        k := k + 1;
      }
      temp := t;
    }

    /** Pop's four cases: the only node, the first, the last, one in between. */
    method Bypass(temp: UtilTimer, ghost k: nat)
      requires Valid() && k < |nodes| && temp == nodes[k]
      modifies this`head, this`tail, nodes
      ensures Bypassed(nodes, k)
      ensures head == (if k == 0 then At(nodes, 1) else nodes[0])
      ensures tail == (if k == |nodes| - 1 then At(nodes, k - 1) else nodes[|nodes| - 1])
    {
      assert temp == head <==> k == 0;
      assert temp == tail <==> k == |nodes| - 1;
      assert nodes[k].prev == At(nodes, k - 1) && nodes[k].next == At(nodes, k + 1);
      if temp == head && temp == tail {
        head := null;
        tail := null;
      } else if temp == head {
        head := head.next;
        head.prev := null;
      } else if temp == tail {
        tail := tail.prev;
        tail.next := null;
      } else {
        temp.prev.next := temp.next;
        temp.next.prev := temp.prev;
      }
    }

    /** Remove the first item with the key, which is there unless the queue is empty. */
    method Pop(key: Key) returns (r: int)
      requires Valid() && (nodes == [] || key in Keys(Queue()))
      modifies Repr
      ensures Valid() && Repr == old(Repr)
      ensures old(nodes) == [] ==> r == -1 && nodes == []
      ensures old(nodes) != [] ==> r == 0 && FirstOf(old(Queue()), key) < |old(nodes)|
      ensures old(nodes) != [] ==> nodes == RemoveAt(old(nodes), FirstOf(old(Queue()), key))
      ensures old(nodes) != [] ==> Queue() == RemoveAt(old(Queue()), FirstOf(old(Queue()), key))
    {
      hide RemoveAt, Bypassed, Doubly, Unique, FirstOf, Items;
      if head == null {
        return -1;
      }
      var temp, k := Find(key);
      ItemsWithout(nodes, k);
      Bypass(temp, k);
      DoublyWithout(nodes, k);
      nodes := RemoveAt(nodes, k);
      return 0;
    }

    /** Fire the due items at the front; `now` is the current time. */
    method Tick(now: int) returns (fired: seq<Key>)
      requires Valid()
      modifies Repr
      ensures Valid() && Repr == old(Repr)
      ensures var n := Due(old(Queue()), now);
        fired == Keys(old(Queue()))[..n] && Queue() == old(Queue())[n..] && nodes == old(nodes)[n..]
    {
      hide Doubly, Unique, Items, Keys, RemoveAt, FirstOf, Due;
      fired := [];
      if head != null {
        var temp := head;
        ghost var n := 0;
        while temp != null
          invariant Valid() && temp == head && Repr == old(Repr)
          invariant n <= Due(old(Queue()), now) && nodes == old(nodes)[n..]
          invariant fired == Keys(old(Queue()))[..n]
          decreases |nodes|
        {
          assert old(nodes)[n] == temp;
          if now < temp.expire {
            break;
          }
          PopHead(nodes, temp.key);
          DueMore(old(nodes), n, now);
          fired := fired + [temp.key];
          var _ := Pop(temp.key);
          n := n + 1;
          temp := head;
        }
        DueStops(old(nodes), n, now);
      }
    }
  }
}
