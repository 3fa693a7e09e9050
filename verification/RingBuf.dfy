/** The ring allocator HRingBuf of hbuf.h: contiguous blocks, freed in the order of their allocation. */
module RingBuf {
  import opened Options

  /** A block in unrolled coordinates: positions from `capacity` on are on the second lap. */
  datatype Block = Block(start: nat, len: nat) {
    function End(): nat { start + len }
    function Shift(d: nat): Block
      requires d <= start
    {
      Block(start - d, len)
    }
    /** The offset in the buffer. */
    function Addr(capacity: nat): nat {
      if start < capacity then start else start - capacity
    }
  }

  /** A live block as its owner sees it. */
  datatype Live = Live(addr: nat, len: nat)

  /** b comes next after position p: right there, or at the start of the second lap if the rest of
      the first one is too short for it. */
  predicate Follows(p: nat, b: Block, capacity: nat) {
    && (b.start == p || (p < capacity == b.start && b.len > capacity - p))
    && (b.End() <= capacity || b.start >= capacity)
  }

  /** The blocks lie one after the other from p on. */
  predicate Laid(p: nat, blocks: seq<Block>, capacity: nat)
    decreases |blocks|
  {
    |blocks| == 0 || (Follows(p, blocks[0], capacity) && Laid(blocks[0].End(), blocks[1..], capacity))
  }

  /** Where the last block ends. */
  function EndOf(p: nat, blocks: seq<Block>): nat
    decreases |blocks|
  {
    if |blocks| == 0 then p else EndOf(blocks[0].End(), blocks[1..])
  }

  function Total(blocks: seq<Block>): nat {
    if |blocks| == 0 then 0 else blocks[0].len + Total(blocks[1..])
  }

  lemma {:induction false} LaidBounds(p: nat, blocks: seq<Block>, capacity: nat)
    requires Laid(p, blocks, capacity)
    ensures p <= EndOf(p, blocks)
    ensures forall i :: 0 <= i < |blocks| ==> p <= blocks[i].start && blocks[i].End() <= EndOf(p, blocks)
    ensures forall i, j :: 0 <= i < j < |blocks| ==> blocks[i].End() <= blocks[j].start
    ensures forall i :: 0 <= i < |blocks| ==> blocks[i].End() <= capacity || blocks[i].start >= capacity
    decreases |blocks|
  {
    if |blocks| > 0 {
      var rest := blocks[1..];
      LaidBounds(blocks[0].End(), rest, capacity);
      assert forall i :: 1 <= i < |blocks| ==> blocks[i] == rest[i - 1];
    }
  }

  lemma {:induction false} LaidSnoc(p: nat, blocks: seq<Block>, b: Block, capacity: nat)
    requires Laid(p, blocks, capacity) && Follows(EndOf(p, blocks), b, capacity)
    ensures Laid(p, blocks + [b], capacity) && EndOf(p, blocks + [b]) == b.End()
    ensures Total(blocks + [b]) == Total(blocks) + b.len
    decreases |blocks|
  {
    if |blocks| == 0 {
      assert blocks + [b] == [b];
      assert Total([b]) == b.len + Total([]);
      assert EndOf(p, [b]) == EndOf(b.End(), []);
    } else {
      LaidSnoc(blocks[0].End(), blocks[1..], b, capacity);
      assert (blocks + [b])[1..] == blocks[1..] + [b];
    }
  }

  /** Blocks that all lie on the second lap, seen from its start. */
  function Rebased(blocks: seq<Block>, capacity: nat): (r: seq<Block>)
    requires forall i :: 0 <= i < |blocks| ==> blocks[i].start >= capacity
    ensures |r| == |blocks|
    ensures forall i :: 0 <= i < |blocks| ==> r[i] == blocks[i].Shift(capacity)
  {
    seq(|blocks|, i requires 0 <= i < |blocks| => blocks[i].Shift(capacity))
  }

  lemma {:induction false} RebasedLaid(p: nat, blocks: seq<Block>, capacity: nat)
    requires capacity <= p && Laid(p, blocks, capacity) && EndOf(p, blocks) <= 2 * capacity
    ensures forall i :: 0 <= i < |blocks| ==> blocks[i].start >= capacity
    ensures var r := Rebased(blocks, capacity);
      && Laid(p - capacity, r, capacity) && EndOf(p - capacity, r) == EndOf(p, blocks) - capacity
      && Total(r) == Total(blocks)
    decreases |blocks|
  {
    LaidBounds(p, blocks, capacity);
    if |blocks| > 0 {
      RebasedLaid(blocks[0].End(), blocks[1..], capacity);
      assert Rebased(blocks, capacity)[1..] == Rebased(blocks[1..], capacity);
    }
  }

  /** What is not empty takes room: the blocks stretch past p only by their bytes and one skipped gap. */
  lemma {:induction false} TotalSpans(p: nat, blocks: seq<Block>, capacity: nat)
    requires Laid(p, blocks, capacity)
    ensures Total(blocks) <= EndOf(p, blocks) - p
    ensures Total(blocks) == 0 ==> EndOf(p, blocks) == p
    decreases |blocks|
  {
    if |blocks| > 0 {
      TotalSpans(blocks[0].End(), blocks[1..], capacity);
      LaidBounds(blocks[0].End(), blocks[1..], capacity);
    }
  }

  lemma {:induction false} LaidSpans(p: nat, blocks: seq<Block>, capacity: nat)
    requires Laid(p, blocks, capacity)
    ensures p <= EndOf(p, blocks) && (Total(blocks) == 0 ==> EndOf(p, blocks) == p)
    ensures EndOf(p, blocks) == p ==> Total(blocks) == 0
  {
    LaidBounds(p, blocks, capacity);
    TotalSpans(p, blocks, capacity);
  }

  /** In bounds, and no byte in two blocks. */
  ghost predicate Safe(live: seq<Live>, capacity: nat) {
    && (forall i :: 0 <= i < |live| ==> live[i].addr + live[i].len <= capacity)
    && (forall i, j :: 0 <= i < j < |live| ==>
          live[i].addr + live[i].len <= live[j].addr || live[j].addr + live[j].len <= live[i].addr)
  }

  ghost function LiveOf(blocks: seq<Block>, capacity: nat): (r: seq<Live>)
    ensures |r| == |blocks|
    ensures forall i :: 0 <= i < |blocks| ==> r[i] == Live(blocks[i].Addr(capacity), blocks[i].len)
  {
    seq(|blocks|, i requires 0 <= i < |blocks| => Live(blocks[i].Addr(capacity), blocks[i].len))
  }

  /** A ring: its oldest position, its live blocks, oldest first, and its size. */
  datatype Ring = Ring(head: nat, blocks: seq<Block>, capacity: nat) {
    function End(): nat { EndOf(head, blocks) }

    /** The offset at which the last block ends. */
    function Tail(): nat
      requires End() <= 2 * capacity
    {
      if End() < capacity then End() else End() - capacity
    }

    ghost function Live(): seq<Live> { LiveOf(blocks, capacity) }
  }

  /** The blocks are laid within one turn of the ring; one without storage has none. */
  ghost predicate RingValid(r: Ring) {
    && (r.head < r.capacity || (r.capacity == r.head == 0 && r.blocks == []))
    && Laid(r.head, r.blocks, r.capacity)
    && r.End() <= r.head + r.capacity
  }

  /** Blocks laid within one turn of the ring are safe. */
  lemma {:induction false} LaidSafe(r: Ring)
    requires RingValid(r)
    ensures Safe(r.Live(), r.capacity)
  {
    LaidBounds(r.head, r.blocks, r.capacity);
  }

  /** n bytes fit behind the last block on its lap, or before the oldest block on the next one. */
  predicate Room(r: Ring, n: nat) {
    && r.capacity > 0
    && if r.End() < r.capacity then r.End() + n <= r.capacity || n <= r.head
       else r.End() + n <= r.head + r.capacity
  }

  /** Where they go. */
  function Placed(r: Ring, n: nat): Block {
    if r.End() < r.capacity < r.End() + n then Block(r.capacity, n) else Block(r.End(), n)
  }

  function Allocated(r: Ring, n: nat): Ring {
    if Room(r, n) then r.(blocks := r.blocks + [Placed(r, n)]) else r
  }

  lemma {:induction false} AllocatedValid(r: Ring, n: nat)
    requires RingValid(r) && Room(r, n)
    ensures RingValid(Allocated(r, n)) && Allocated(r, n).End() == Placed(r, n).End()
    ensures Total(Allocated(r, n).blocks) == Total(r.blocks) + n
    ensures Allocated(r, n).Live() == r.Live() + [Live(Placed(r, n).Addr(r.capacity), n)]
  {
    hide Laid, EndOf, Total;
    LaidSnoc(r.head, r.blocks, Placed(r, n), r.capacity);
  }

  /** The two branches of alloc: the free bytes are at both ends of the buffer, or between tail and head. */
  lemma {:induction false} AllocBranches(r: Ring, n: nat)
    requires RingValid(r)
    ensures var tail := r.Tail();
      var split := r.head < tail || Total(r.blocks) == 0;
      && tail <= r.capacity && (r.head < r.capacity || r.head == r.capacity == 0)
      && (!split ==> r.capacity > 0 && tail <= r.head)
      && (Room(r, n) <==> r.capacity > 0 && if split then n <= r.capacity - tail || n <= r.head else n <= r.head - tail)
      && (Room(r, n) ==>
          var a := if split && n > r.capacity - tail then 0 else tail;
          && Placed(r, n).Addr(r.capacity) == a
          && RingValid(Allocated(r, n))
          && Allocated(r, n).Tail() == if split && a + n == r.capacity then 0 else a + n)
  {
    hide Laid, EndOf, Total, LiveOf;
    LaidSpans(r.head, r.blocks, r.capacity);
    if Room(r, n) {
      AllocatedValid(r, n);
    }
  }

  /** What remains once the oldest block is freed. */
  function Popped(blocks: seq<Block>, capacity: nat): seq<Block>
    requires |blocks| > 0
    requires blocks[0].End() >= capacity ==> forall i :: 1 <= i < |blocks| ==> blocks[i].start >= capacity
  {
    if blocks[0].End() >= capacity then Rebased(blocks[1..], capacity) else blocks[1..]
  }

  ghost predicate Poppable(r: Ring) {
    && r.blocks != []
    && (r.blocks[0].End() >= r.capacity ==> forall i :: 1 <= i < |r.blocks| ==> r.blocks[i].start >= r.capacity)
  }

  ghost function Freed(r: Ring): Ring
    requires Poppable(r)
  {
    var e := r.blocks[0].End();
    Ring(if e >= r.capacity then e - r.capacity else e, Popped(r.blocks, r.capacity), r.capacity)
  }

  /** Behind a block that ends on the second lap everything is on it. */
  lemma {:induction false} OldestPoppable(r: Ring)
    requires RingValid(r) && r.blocks != []
    ensures Poppable(r) && Follows(r.head, r.blocks[0], r.capacity) && r.blocks[0].End() <= r.End()
    ensures Laid(r.blocks[0].End(), r.blocks[1..], r.capacity)
    ensures EndOf(r.blocks[0].End(), r.blocks[1..]) == r.End()
    ensures Total(r.blocks[1..]) == Total(r.blocks) - r.blocks[0].len
  {
    LaidBounds(r.head, r.blocks, r.capacity);
  }

  lemma {:induction false} PoppedLive(r: Ring)
    requires Poppable(r) && r.capacity > 0
    requires forall i :: 0 <= i < |r.blocks| ==> r.blocks[i].End() < 2 * r.capacity
    ensures Freed(r).Live() == r.Live()[1..]
  {
    var rest := r.blocks[1..];
    assert r.blocks[0].End() >= r.capacity ==>
      forall i :: 0 <= i < |rest| ==> rest[i].Shift(r.capacity).Addr(r.capacity) == rest[i].Addr(r.capacity);
    assert forall i :: 0 <= i < |rest| ==> rest[i] == r.blocks[i + 1];
  }

  /** Freeing the oldest block, and stepping over a gap before it, leaves the others where they are. */
  lemma {:induction false} PoppedLaid(r: Ring)
    requires RingValid(r) && r.blocks != []
    ensures Poppable(r) && RingValid(Freed(r))
    ensures Follows(r.head, r.blocks[0], r.capacity) && r.blocks[0].End() <= r.End()
    ensures Freed(r).Live() == r.Live()[1..] && Total(Freed(r).blocks) == Total(r.blocks) - r.blocks[0].len
    ensures Freed(r).End() == (if r.blocks[0].End() >= r.capacity then r.End() - r.capacity else r.End())
  {
    OldestPoppable(r);
    LaidBounds(r.head, r.blocks, r.capacity);
    hide Laid, EndOf, Total;
    if r.blocks[0].End() >= r.capacity {
      RebasedLaid(r.blocks[0].End(), r.blocks[1..], r.capacity);
    }
    PoppedLive(r);
  }

  /** The two branches of free: the block starts at the head, or at offset 0 because it would not fit. */
  lemma {:induction false} FreeBranches(r: Ring)
    requires RingValid(r) && r.blocks != []
    ensures var n, h := r.Live()[0].len, r.head;
      && Poppable(r) && RingValid(Freed(r))
      && Freed(r).Live() == r.Live()[1..] && Freed(r).capacity == r.capacity
      && Freed(r).Tail() == r.Tail() && n <= Total(r.blocks) && Total(Freed(r).blocks) == Total(r.blocks) - n
      && h <= r.capacity
      && Freed(r).head == if n > r.capacity - h then n else if h + n == r.capacity then 0 else h + n
  {
    hide Laid, EndOf, Total, LiveOf, Popped;
    PoppedLaid(r);
  }

  class HRingBuf {
    const len: nat
    var head: nat
    var tail: nat
    var size: nat
    ghost var blocks: seq<Block>

    ghost function View(): Ring
      reads this
    {
      Ring(head, blocks, len)
    }

    ghost predicate Valid()
      reads this
    {
      RingValid(View()) && tail == View().Tail() && size == Total(blocks)
    }

    /** Without a capacity, or with 0, there is no storage and base is NULL. */
    constructor (capacity: nat)
      ensures Valid() && View() == Ring(0, [], capacity)
    {
      len := capacity;
      head, tail, size := 0, 0, 0;
      blocks := [];
    }

    /** None is NULL; Some is the offset from base. */
    method Alloc(n: nat) returns (ret: Option<nat>)
      requires Valid()
      modifies this
      ensures Valid() && Safe(View().Live(), len)
      ensures View() == Allocated(old(View()), n)
      ensures ret == if Room(old(View()), n) then Some(Placed(old(View()), n).Addr(len)) else None
      ensures ret.None? ==> size == old(size)
      ensures ret.Some? ==> View().Live() == old(View().Live()) + [Live(ret.value, n)] && size == old(size) + n
    {
      hide RingValid, Room, Placed, Total, Safe, LiveOf, Ring.Tail;
      ghost var before := View();
      AllocBranches(before, n);
      ret := None;
      if head < tail || size == 0 {
        if len - tail >= n {
          ret := if len == 0 then None else Some(tail);
          tail := tail + n;
          if tail == len { tail := 0; }
        } else if head >= n {
          ret := Some(0);
          tail := n;
        }
      } else {
        if head - tail >= n {
          ret := Some(tail);
          tail := tail + n;
        }
      }
      if ret.Some? {
        AllocatedValid(before, n);
        blocks := Allocated(before, n).blocks;
      }
      size := size + (if ret.Some? then n else 0);
      LaidSafe(View());
    }

    /** The oldest block goes back; the caller passes its length. */
    method Free(n: nat)
      requires Valid() && blocks != [] && n == View().Live()[0].len
      modifies this
      ensures Valid() && Safe(View().Live(), len)
      ensures Poppable(old(View())) && View() == Freed(old(View()))
      ensures View().Live() == old(View().Live())[1..] && size == old(size) - n
    {
      hide RingValid, Total, Safe, LiveOf, Poppable, Freed, Ring.Tail;
      ghost var before := View();
      FreeBranches(before);
      blocks := Freed(before).blocks;
      size := size - n;
      if n <= len - head {
        head := head + n;
        if head == len { head := 0; }
      } else {
        head := n;
      }
      LaidSafe(View());
    }
  }
}
