/** The object pool of hobjectpool.h: its critical sections, one method each. */
module ObjectPool {
  import opened Options

  /** A pooled object's identity. */
  type Obj = nat

  /** A std::shared_ptr to one; NULL is None. */
  type Ptr = Option<Obj>

  /** The pool's fields: the first two are what the mutex protects, the others are settings. */
  datatype Shared = Shared(idle: seq<Ptr>, num: int, max: int, timeout: int)

  /** What a borrower does after it took the lock a second time. */
  datatype Entry = Create | Wait | GiveUp

  function Taken(s: Shared): Shared
    requires s.idle != []
  {
    s.(idle := s.idle[1..])
  }

  /** idle without its first p. */
  function Without(idle: seq<Ptr>, p: Ptr): seq<Ptr> {
    if |idle| == 0 then []
    else if idle[0] == p then idle[1..]
    else [idle[0]] + Without(idle[1..], p)
  }

  lemma {:induction false} WithoutAt(idle: seq<Ptr>, i: nat, p: Ptr)
    requires i < |idle| && idle[i] == p && p !in idle[..i]
    ensures Without(idle, p) == idle[..i] + idle[i + 1..]
  {
    if i > 0 {
      assert idle[0] in idle[..i];
      assert idle[1..][..i - 1] == idle[..i][1..];
      WithoutAt(idle[1..], i - 1, p);
      assert [idle[0]] + (idle[1..][..i - 1] + idle[1..][i..]) == idle[..i] + idle[i + 1..];
    }
  }

  /** The first p is gone, and nothing else. */
  ghost predicate FirstGone(idle: seq<Ptr>, rest: seq<Ptr>, p: Ptr) {
    exists i :: 0 <= i < |idle| && idle[i] == p && p !in idle[..i] && rest == idle[..i] + idle[i + 1..]
  }

  /** The pointers that are not null, in order. */
  function NonNull(ps: seq<Ptr>): (r: seq<Ptr>)
    ensures None !in r && forall p: Ptr :: p.Some? ==> multiset(r)[p] == multiset(ps)[p]
    ensures None !in ps ==> r == ps
  {
    if |ps| == 0 then []
    else
      var n := |ps| - 1;
      assert ps == ps[..n] + [ps[n]];
      NonNull(ps[..n]) + if ps[n].Some? then [ps[n]] else []
  }

  class HObjectPool {
    var objects: seq<Ptr>
    var objectNum: int
    var maxNum: int
    const timeout: int

    ghost function View(): Shared
      reads this
    {
      Shared(objects, objectNum, maxNum, timeout)
    }

    /** `created` is what the factory returns for the initial objects asked for. */
    constructor (created: seq<Ptr>, maxNum: int, timeout: int)
      ensures View() == Shared(NonNull(created), |NonNull(created)|, maxNum, timeout)
    {
      this.maxNum := maxNum;
      this.timeout := timeout;
      objects := [];
      new;
      for i := 0 to |created|
        invariant objects == NonNull(created[..i]) && this.maxNum == maxNum
      {
        assert created[..i + 1][..i] == created[..i];
        if created[i].Some? {
          objects := objects + [created[i]];
        }
      }
      assert created[..|created|] == created;
      objectNum := |objects|;
    }

    /** The first idle pointer, if there is one. */
    method TryBorrow() returns (p: Ptr)
      modifies this
      ensures old(objects) == [] ==> p == None && View() == old(View())
      ensures old(objects) != [] ==> p == old(objects)[0] && View() == Taken(old(View()))
    {
      p := None;
      if objects != [] {
        p := objects[0];
        objects := objects[1..];
      }
    }

    /** Borrow from the second locking on: reserve a slot, wait, or give up. */
    method Enter() returns (e: Entry)
      modifies this
      ensures e == Create <==> old(objectNum) < maxNum
      ensures e == Wait <==> old(objectNum) >= maxNum && timeout > 0
      ensures View() == old(View()).(num := if e == Create then old(objectNum) + 1 else old(objectNum))
    {
      if objectNum < maxNum {
        objectNum := objectNum + 1;
        return Create;
      }
      return if timeout > 0 then Wait else GiveUp;
    }

    /** Locked again after the factory ran: a failure gives the slot back. */
    method Created(p: Ptr)
      modifies this
      ensures View() == old(View()).(num := if p.None? then old(objectNum) - 1 else old(objectNum))
    {
      if p.None? {
        objectNum := objectNum - 1;
      }
    }

    /** Awake with the lock held. */
    method Woken(timedOut: bool) returns (p: Ptr)
      modifies this
      ensures timedOut || old(objects) == [] ==> p == None && View() == old(View())
      ensures !timedOut && old(objects) != [] ==> p == old(objects)[0] && View() == Taken(old(View()))
    {
      if timedOut {
        return None;
      }
      p := TryBorrow();
    }

    method Return(p: Ptr)
      modifies this
      ensures View() == if p.None? then old(View()) else old(View()).(idle := old(objects) + [p])
    {
      if p.None? { return; }
      objects := objects + [p];
    }

    /** Unlike Return, it does not look whether the pointer is null. */
    method Add(p: Ptr) returns (ok: bool)
      modifies this
      ensures ok <==> old(objectNum) < maxNum
      ensures View() ==
        if ok then old(View()).(idle := old(objects) + [p], num := old(objectNum) + 1) else old(View())
    {
      if objectNum >= maxNum {
        return false;
      }
      objects := objects + [p];
      objectNum := objectNum + 1;
      return true;
    }

    method Remove(p: Ptr) returns (ok: bool)
      modifies this
      ensures ok <==> p in old(objects)
      ensures ok ==> FirstGone(old(objects), objects, p)
      ensures View() ==
        if ok then old(View()).(idle := Without(old(objects), p), num := old(objectNum) - 1) else old(View())
    {
      var i := 0;
      while i < |objects|
        invariant 0 <= i <= |objects| && p !in objects[..i]
        invariant View() == old(View())
      {
        if objects[i] == p {
          WithoutAt(objects, i, p);
          objects := objects[..i] + objects[i + 1..];
          objectNum := objectNum - 1;
          return true;
        }
        i := i + 1;
      }
      return false;
    }
  }
}
