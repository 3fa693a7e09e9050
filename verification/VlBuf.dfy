/** The variable-length byte buffer HVLBuf of hbuf.h: a byte deque in one growing buffer. */
module VlBuf {
  import opened Bytes

  /** memmove: the ranges may overlap. */
  method MemMove(a: array<Byte>, dst: nat, src: nat, n: nat)
    requires dst + n <= a.Length && src + n <= a.Length
    modifies a
    ensures a[dst..dst + n] == old(a[src..src + n])
    ensures a[..dst] == old(a[..dst]) && a[dst + n..] == old(a[dst + n..])
  {
    forall i | 0 <= i < n {
      a[dst + i] := a[src + i];
    }
  }

  /** memcpy from outside the buffer. */
  method MemCpy(a: array<Byte>, dst: nat, data: seq<Byte>)
    requires dst + |data| <= a.Length
    modifies a
    ensures a[dst..dst + |data|] == data
    ensures a[..dst] == old(a[..dst]) && a[dst + |data|..] == old(a[dst + |data|..])
  {
    forall i | 0 <= i < |data| {
      a[dst + i] := data[i];
    }
  }

  class HVLBuf {
    var base: array<Byte>
    var offset: nat
    var size: nat

    ghost predicate Valid()
      reads this
    {
      offset + size <= base.Length
    }

    /** The bytes held, front to back. */
    ghost function Contents(): (c: seq<Byte>)
      reads this, base
      requires Valid()
      ensures |c| == size
    {
      base[offset..offset + size]
    }

    constructor (capacity: nat)
      ensures Valid() && fresh(base) && Contents() == []
    {
      base := new Byte[capacity](_ => 0);
      offset := 0;
      size := 0;
    }

    /** HBuf::resize of an owned buffer: a reallocation that keeps the bytes common to both sizes. */
    method Resize(capacity: nat)
      modifies this`base
      ensures base.Length == capacity && (base == old(base) || fresh(base))
      ensures var n := if capacity < old(base.Length) then capacity else old(base.Length);
        base[..n] == old(base[..])[..n]
    {
      if capacity == base.Length { return; }
      var n := if capacity < base.Length then capacity else base.Length;
      var moved := new Byte[capacity](i => 0);
      forall i | 0 <= i < n {
        moved[i] := base[i];
      }
      base := moved;
    }

    /** n more bytes do not fit at all: double the larger of capacity and n. */
    method Grow(n: nat)
      requires Valid() && n > base.Length - size
      modifies this`base
      ensures Valid() && (base == old(base) || fresh(base))
      ensures Contents() == old(Contents()) && offset + size + n <= base.Length
      ensures base.Length == 2 * if old(base.Length) > n then old(base.Length) else n
    {
      ghost var end := offset + size;
      ghost var held := base[..end];
      Resize((if base.Length > n then base.Length else n) * 2);
      assert base[..end] == held;
      assert Contents() == base[..end][offset..];
    }

    /** Slide the bytes to position `to`. */
    method Slide(to: nat)
      requires Valid() && to + size <= base.Length
      modifies this`offset, base
      ensures Valid() && offset == to && Contents() == old(Contents())
    {
      MemMove(base, to, offset, size);
      offset := to;
    }

    method WriteBefore(data: seq<Byte>)
      requires Valid() && |data| <= offset
      modifies this`offset, this`size, base
      ensures Valid() && Contents() == data + old(Contents())
    {
      var n := |data|;
      ghost var end := offset + size;
      ghost var tail := base[offset..];
      MemCpy(base, offset - n, data);
      assert base[offset..] == tail;
      assert base[offset - n..end] == base[offset - n..offset] + tail[..size];
      offset := offset - n;
      size := size + n;
    }

    method PushFront(data: seq<Byte>)
      requires Valid()
      modifies this, base
      ensures Valid() && (base == old(base) || fresh(base))
      ensures Contents() == data + old(Contents())
    {
      var n := |data|;
      if n > base.Length - size {
        Grow(n);
      }
      if offset < n {
        Slide(base.Length - size);
      }
      WriteBefore(data);
    }

    method WriteBehind(data: seq<Byte>)
      requires Valid() && offset + size + |data| <= base.Length
      modifies this`size, base
      ensures Valid() && Contents() == old(Contents()) + data
    {
      var n := |data|;
      var mid := offset + size;
      ghost var front := base[..mid];
      MemCpy(base, mid, data);
      assert base[..mid] == front;
      assert base[offset..mid + n] == front[offset..] + base[mid..mid + n];
      size := size + n;
    }

    method PushBack(data: seq<Byte>)
      requires Valid()
      modifies this, base
      ensures Valid() && (base == old(base) || fresh(base))
      ensures Contents() == old(Contents()) + data
    {
      var n := |data|;
      if n > base.Length - size {
        Grow(n);
      } else if n > base.Length - offset - size {
        Slide(0);
      }
      WriteBehind(data);
    }

    /** Asking for more than is there does nothing; a caller without an output pointer ignores `out`. */
    method PopFront(n: nat) returns (out: seq<Byte>)
      requires Valid()
      modifies this`offset, this`size
      ensures Valid()
      ensures n <= old(size) ==> old(Contents()) == out + Contents() && |out| == n
      ensures n > old(size) ==> out == [] && Contents() == old(Contents())
    {
      out := [];
      if n <= size {
        out := base[offset..offset + n];
        offset := offset + n;
        if offset >= base.Length { offset := 0; }
        size := size - n;
      }
    }

    method PopBack(n: nat) returns (out: seq<Byte>)
      requires Valid()
      modifies this`size
      ensures Valid()
      ensures n <= old(size) ==> old(Contents()) == Contents() + out && |out| == n
      ensures n > old(size) ==> out == [] && Contents() == old(Contents())
    {
      out := [];
      if n <= size {
        out := base[offset + size - n..offset + size];
        size := size - n;
      }
    }
  }

  // Whole runs

  datatype Op = PushFront(data: seq<Byte>) | PushBack(data: seq<Byte>) | PopFront(n: nat) | PopBack(n: nat)

  /** The deque that a buffer stands for. */
  function Step(c: seq<Byte>, op: Op): seq<Byte> {
    match op
    case PushFront(d) => d + c
    case PushBack(d) => c + d
    case PopFront(n) => if n <= |c| then c[n..] else c
    case PopBack(n) => if n <= |c| then c[..|c| - n] else c
  }

  function Output(c: seq<Byte>, op: Op): seq<Byte> {
    match op
    case PopFront(n) => if n <= |c| then c[..n] else []
    case PopBack(n) => if n <= |c| then c[|c| - n..] else []
    case _ => []
  }

  ghost function Run(ops: seq<Op>): seq<Byte> {
    if |ops| == 0 then [] else Step(Run(ops[..|ops| - 1]), ops[|ops| - 1])
  }

  ghost function Outputs(ops: seq<Op>): seq<seq<Byte>> {
    if |ops| == 0 then []
    else Outputs(ops[..|ops| - 1]) + [Output(Run(ops[..|ops| - 1]), ops[|ops| - 1])]
  }

  /** For every run on a fresh buffer of any capacity, contents and outputs are the deque's. */
  method Play(capacity: nat, ops: seq<Op>) returns (buf: HVLBuf, outs: seq<seq<Byte>>)
    ensures fresh(buf) && buf.Valid() && buf.Contents() == Run(ops) && outs == Outputs(ops)
  {
    buf := new HVLBuf(capacity);
    outs := [];
    for i := 0 to |ops|
      invariant fresh(buf) && fresh(buf.base) && buf.Valid()
      invariant buf.Contents() == Run(ops[..i]) && outs == Outputs(ops[..i])
    {
      assert ops[..i + 1][..i] == ops[..i];
      var out: seq<Byte> := [];
      match ops[i] {
        case PushFront(d) => buf.PushFront(d);
        case PushBack(d) => buf.PushBack(d);
        case PopFront(n) => out := buf.PopFront(n);
        case PopBack(n) => out := buf.PopBack(n);
      }
      outs := outs + [out];
    }
    assert ops[..|ops|] == ops;
  }
}
