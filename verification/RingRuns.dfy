/** The ring allocator over whole runs, and exactly when it refuses a length that would fit. */
module RingRuns {
  import opened Options
  import opened RingBuf

  // What is free

  /** [a, a + n) shares a byte with a live block. */
  predicate Overlaps(a: nat, n: nat, live: Live) {
    n > 0 && live.len > 0 && a < live.addr + live.len && live.addr < a + n
  }

  /** The n bytes from a on are in the buffer, and no live block has one of them. */
  ghost predicate FreeRun(live: seq<Live>, capacity: nat, a: nat, n: nat) {
    a + n <= capacity && forall i :: 0 <= i < |live| ==> !Overlaps(a, n, live[i])
  }

  ghost predicate HasFree(live: seq<Live>, capacity: nat, n: nat) {
    exists a :: FreeRun(live, capacity, a, n)
  }

  /** Follow the live blocks from p on: where they end before the next one lies further down. */
  function LapEnd(p: nat, live: seq<Live>): nat
    decreases |live|
  {
    if |live| == 0 || live[0].addr < p then p else LapEnd(live[0].addr + live[0].len, live[1..])
  }

  /** The same in unrolled coordinates: where the blocks of the first lap end. */
  function FirstLap(p: nat, blocks: seq<Block>, capacity: nat): nat
    decreases |blocks|
  {
    if |blocks| == 0 || blocks[0].start >= capacity then p else FirstLap(blocks[0].End(), blocks[1..], capacity)
  }

  lemma {:induction false} LapEndIs(p: nat, blocks: seq<Block>, capacity: nat)
    requires 0 < capacity && Laid(p, blocks, capacity) && EndOf(p, blocks) <= 2 * capacity
    ensures LapEnd(p, LiveOf(blocks, capacity)) == FirstLap(p, blocks, capacity)
    decreases |blocks|
  {
    LaidBounds(p, blocks, capacity);
    if |blocks| > 0 && blocks[0].start < capacity {
      LapEndIs(blocks[0].End(), blocks[1..], capacity);
      assert LiveOf(blocks, capacity)[1..] == LiveOf(blocks[1..], capacity);
    }
  }

  /** No block has a byte between the end of the first lap and the end of the buffer. */
  lemma {:induction false} GapFree(p: nat, blocks: seq<Block>, capacity: nat)
    requires p <= capacity && Laid(p, blocks, capacity)
    ensures var g, e := FirstLap(p, blocks, capacity), EndOf(p, blocks);
      && p <= g <= capacity && g <= e && (e < capacity ==> g == e)
      && forall i :: 0 <= i < |blocks| ==> blocks[i].End() <= g || blocks[i].start >= capacity
    decreases |blocks|
  {
    LaidBounds(p, blocks, capacity);
    if |blocks| > 0 && blocks[0].start < capacity {
      var rest := blocks[1..];
      GapFree(blocks[0].End(), rest, capacity);
      assert forall i :: 1 <= i < |blocks| ==> blocks[i] == rest[i - 1];
    }
  }

  /** All other positions up to the end are in a block. */
  lemma {:induction false} Covered(p: nat, blocks: seq<Block>, capacity: nat, x: nat) returns (i: nat)
    requires Laid(p, blocks, capacity) && p <= x < EndOf(p, blocks)
    requires x < FirstLap(p, blocks, capacity) || x >= capacity
    ensures i < |blocks| && blocks[i].start <= x < blocks[i].End()
    decreases |blocks|
  {
    if x < blocks[0].End() {
      i := 0;
    } else {
      i := Covered(blocks[0].End(), blocks[1..], capacity, x);
      i := i + 1;
    }
  }

  /** Bytes the allocator does not offer although they are free: all of them if nothing is live; once
      the blocks wrap, those from the end of the first lap on, which join the ones before the head if no
      block of the first lap is left. In what the caller knows: the fields and its live blocks. */
  predicate Wasted(head: nat, tail: nat, size: nat, live: seq<Live>, capacity: nat, n: nat) {
    var g := LapEnd(head, live);
    n <= capacity && (size == 0 || (tail <= head && n <= capacity - (if g == head then tail else g)))
  }

  /** The same in unrolled coordinates. */
  ghost predicate WastedIn(r: Ring, n: nat)
    requires r.End() <= 2 * r.capacity
  {
    var g := FirstLap(r.head, r.blocks, r.capacity);
    n <= r.capacity &&
    (r.End() == r.head || (r.End() >= r.capacity && n <= r.capacity - (if g == r.head then r.Tail() else g)))
  }

  lemma {:induction false} WastedIs(r: Ring, n: nat)
    requires RingValid(r)
    ensures Wasted(r.head, r.Tail(), Total(r.blocks), r.Live(), r.capacity, n) <==> WastedIn(r, n)
  {
    hide Laid, EndOf, Total, LapEnd;
    LaidSpans(r.head, r.blocks, r.capacity);
    if r.capacity > 0 {
      LapEndIs(r.head, r.blocks, r.capacity);
    } else {
      assert Total([]) == 0 && EndOf(0, []) == 0;
    }
  }

  lemma {:induction false} RoomIsFree(r: Ring, n: nat)
    requires RingValid(r) && Room(r, n)
    ensures HasFree(r.Live(), r.capacity, n)
  {
    LaidBounds(r.head, r.blocks, r.capacity);
    AllocatedValid(r, n);
    LaidSafe(Allocated(r, n));
    assert FreeRun(r.Live(), r.capacity, Placed(r, n).Addr(r.capacity), n);
  }

  lemma {:induction false} WastedIsFree(r: Ring, n: nat)
    requires RingValid(r) && WastedIn(r, n)
    ensures HasFree(r.Live(), r.capacity, n)
  {
    LaidBounds(r.head, r.blocks, r.capacity);
    GapFree(r.head, r.blocks, r.capacity);
    var g := FirstLap(r.head, r.blocks, r.capacity);
    var a := if r.End() == r.head then 0 else if g == r.head then r.Tail() else g;
    assert FreeRun(r.Live(), r.capacity, a, n);
  }

  /** A covered position is not in a free run. */
  lemma {:induction false} Uncovered(r: Ring, n: nat, a: nat, x: nat)
    requires RingValid(r) && n > 0 && FreeRun(r.Live(), r.capacity, a, n)
    requires r.head <= x < r.End() && (x < FirstLap(r.head, r.blocks, r.capacity) || x >= r.capacity)
    ensures var y := if x < r.capacity then x else x - r.capacity; !(a <= y < a + n)
  {
    LaidBounds(r.head, r.blocks, r.capacity);
    GapFree(r.head, r.blocks, r.capacity);
    var i := Covered(r.head, r.blocks, r.capacity, x);
    assert !Overlaps(a, n, r.Live()[i]);
  }

  /** A free run that the allocator does not offer is wasted. */
  lemma {:induction false} FreeIsWasted(r: Ring, n: nat, a: nat)
    requires RingValid(r) && !Room(r, n) && FreeRun(r.Live(), r.capacity, a, n)
    ensures WastedIn(r, n)
  {
    var g := FirstLap(r.head, r.blocks, r.capacity);
    LaidBounds(r.head, r.blocks, r.capacity);
    GapFree(r.head, r.blocks, r.capacity);
    if r.End() != r.head {
      if r.End() < r.capacity {
        Uncovered(r, n, a, if a < r.head then r.head else a);
      } else {
        if a < r.Tail() { Uncovered(r, n, a, a + r.capacity); }
        if a < g && r.head < g { Uncovered(r, n, a, if a < r.head then r.head else a); }
      }
    }
  }

  /** In every state: a run of n free bytes exists if and only if alloc finds room, or they are wasted. */
  lemma {:induction false} RefusalExact(r: Ring, n: nat)
    requires RingValid(r)
    ensures HasFree(r.Live(), r.capacity, n) <==>
      Room(r, n) || Wasted(r.head, r.Tail(), Total(r.blocks), r.Live(), r.capacity, n)
  {
    WastedIs(r, n);
    hide Laid, Room, WastedIn, FreeRun, Wasted;
    if Room(r, n) {
      RoomIsFree(r, n);
    } else if WastedIn(r, n) {
      WastedIsFree(r, n);
    } else if HasFree(r.Live(), r.capacity, n) {
      var a :| FreeRun(r.Live(), r.capacity, a, n);
      FreeIsWasted(r, n, a);
    }
  }

  // Whole runs

  /** A request, or the oldest block back; with no live block there is none to give back. */
  datatype Op = Alloc(n: nat) | Free

  ghost function Step(r: Ring, op: Op): (r': Ring)
    requires RingValid(r)
    ensures RingValid(r') && r'.capacity == r.capacity
  {
    match op
    case Alloc(n) =>
      if Room(r, n) then AllocatedValid(r, n); Allocated(r, n) else r
    case Free =>
      if r.blocks == [] then r else PoppedLaid(r); Freed(r)
  }

  ghost function Result(r: Ring, op: Op): Option<nat> {
    if op.Alloc? && Room(r, op.n) then Some(Placed(r, op.n).Addr(r.capacity)) else None
  }

  ghost function Run(capacity: nat, ops: seq<Op>): (r: Ring)
    ensures RingValid(r) && r.capacity == capacity
  {
    if |ops| == 0 then Ring(0, [], capacity) else Step(Run(capacity, ops[..|ops| - 1]), ops[|ops| - 1])
  }

  ghost function Results(capacity: nat, ops: seq<Op>): seq<Option<nat>> {
    if |ops| == 0 then []
    else
      var init, op := ops[..|ops| - 1], ops[|ops| - 1];
      Results(capacity, init) + [Result(Run(capacity, init), op)]
  }

  /** After every run the live blocks are in bounds and apart, and a refused length would have fitted if
      and only if it is wasted. */
  lemma {:induction false} RunSafe(capacity: nat, ops: seq<Op>, n: nat)
    ensures var r := Run(capacity, ops);
      && Safe(r.Live(), capacity)
      && (!Room(r, n) ==>
          (HasFree(r.Live(), capacity, n) <==>
             Wasted(r.head, r.Tail(), Total(r.blocks), r.Live(), capacity, n)))
  {
    hide Run, Room, Wasted;
    LaidSafe(Run(capacity, ops));
    RefusalExact(Run(capacity, ops), n);
  }

  /** The allocator of hbuf.h, driven by any run, is in these states and returns these offsets. */
  method Play(capacity: nat, ops: seq<Op>) returns (ring: HRingBuf, rets: seq<Option<nat>>)
    ensures fresh(ring) && ring.Valid() && ring.View() == Run(capacity, ops) && rets == Results(capacity, ops)
  {
    hide Room, Freed, Laid, EndOf, Total, Safe;
    ring := new HRingBuf(capacity);
    rets := [];
    var lens: seq<nat> := [];
    for i := 0 to |ops|
      invariant fresh(ring) && ring.Valid() && ring.View() == Run(capacity, ops[..i])
      invariant rets == Results(capacity, ops[..i])
      invariant |lens| == |ring.View().Live()| && forall j :: 0 <= j < |lens| ==> lens[j] == ring.View().Live()[j].len
    {
      assert ops[..i + 1][..i] == ops[..i];
      var ret := None;
      match ops[i] {
        case Alloc(n) =>
          ret := ring.Alloc(n);
          if ret.Some? { lens := lens + [n]; }
        case Free =>
          if lens != [] {
            ring.Free(lens[0]);
            lens := lens[1..];
          }
      }
      rets := rets + [ret];
    }
    assert ops[..|ops|] == ops;
  }

  // The three kinds of waste, each reached by a run

  /** Nothing is live, and 8 of 10 bytes are refused. */
  lemma {:induction false} RefusedWhenEmpty()
    ensures var r := Run(10, [Alloc(5), Free]);
      r.Live() == [] && !Room(r, 8) && FreeRun(r.Live(), 10, 0, 8)
  {
    var ops := [Alloc(5), Free];
    assert ops[..1] == [Alloc(5)] && ops[..1][..0] == [];
    var r1 := Ring(0, [Block(0, 5)], 10);
    assert Run(10, ops[..1]) == Step(Ring(0, [], 10), Alloc(5)) == r1;
    assert Run(10, ops) == Step(r1, Free) == Ring(5, [], 10);
  }

  /** A run that wraps around a gap of one byte. */
  ghost function Wrapping(n: nat): seq<Op> {
    [Alloc(6), Alloc(3), Free, Alloc(n)]
  }

  lemma {:induction false} WrappingRun(n: nat)
    requires 1 < n <= 6
    ensures Run(10, Wrapping(n)) == Ring(6, [Block(6, 3), Block(10, n)], 10)
  {
    var ops := Wrapping(n);
    assert ops[..1][..0] == [] && ops[..2][..1] == ops[..1] && ops[..3][..2] == ops[..2];
    var r1 := Ring(0, [Block(0, 6)], 10);
    assert Run(10, ops[..1]) == Step(Ring(0, [], 10), Alloc(6)) == r1;
    var r2 := Ring(0, [Block(0, 6), Block(6, 3)], 10);
    assert r2.blocks[1..] == [Block(6, 3)] && r2.blocks[1..][1..] == [];
    assert Run(10, ops[..2]) == Step(r1, Alloc(3)) == r2;
    var r3 := Ring(6, [Block(6, 3)], 10);
    assert Run(10, ops[..3]) == Step(r2, Free) == r3;
    assert Run(10, ops) == Step(r3, Alloc(n));
  }

  /** The last byte is free and refused: the blocks before and after it are live. */
  lemma {:induction false} RefusedWithGap()
    ensures var r := Run(10, Wrapping(6));
      r.Live() == [Live(6, 3), Live(0, 6)] && !Room(r, 1) && FreeRun(r.Live(), 10, 9, 1)
  {
    WrappingRun(6);
    var blocks := [Block(6, 3), Block(10, 6)];
    assert blocks[1..] == [Block(10, 6)] && blocks[1..][1..] == [];
    assert EndOf(9, blocks[1..]) == 16;
  }

  /** The block before the gap is freed: bytes 5 to 9 are free, and 5 bytes are refused. */
  lemma {:induction false} RefusedAcrossGap()
    ensures var r := Run(10, Wrapping(5) + [Free]);
      r.Live() == [Live(0, 5)] && !Room(r, 5) && FreeRun(r.Live(), 10, 5, 5)
  {
    WrappingRun(5);
    var ops := Wrapping(5) + [Free];
    assert ops[..4] == Wrapping(5);
    var r := Ring(6, [Block(6, 3), Block(10, 5)], 10);
    assert r.blocks[1..] == [Block(10, 5)];
    assert Run(10, ops) == Step(r, Free) == Ring(9, [Block(10, 5)], 10);
    assert r.blocks[1..][1..] == [];
    assert EndOf(9, [Block(10, 5)]) == 15;
  }
}
