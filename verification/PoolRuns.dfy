/** The object pool under any interleaving of its callers' critical sections. */
module PoolRuns {
  import opened Options
  import opened ObjectPool

  type Tid = nat

  /** Where a caller of Borrow is: not in a call, between its two lockings, in the factory, or waiting. */
  datatype Pc = Ready | Missed | Creating | Waiting

  datatype Holding = Holding(tid: Tid, obj: Obj)

  datatype State = State(shared: Shared, pcs: map<Tid, Pc>, held: seq<Holding>)

  /** One critical section, with what the environment chose in it. */
  datatype Step =
    | Try(tid: Tid)                          // TryBorrow on its own
    | Begin(tid: Tid)                        // Borrow, first locking
    | Enter(tid: Tid)                        // Borrow, second locking
    | Made(tid: Tid, ptr: Ptr)               // Borrow, after the factory
    | Wake(tid: Tid, timedOut: bool)         // Borrow, after the wait
    | Return(tid: Tid, ptr: Ptr)
    | Add(ptr: Ptr)
    | Remove(ptr: Ptr)

  function PcOf(s: State, t: Tid): Pc {
    if t in s.pcs then s.pcs[t] else Ready
  }

  /** The callers in the factory. */
  function InCreation(pcs: map<Tid, Pc>): set<Tid> {
    set t | t in pcs && pcs[t] == Pc.Creating
  }

  function Objects(held: seq<Holding>): (r: seq<Ptr>)
    ensures |r| == |held| && forall i :: 0 <= i < |held| ==> r[i] == Some(held[i].obj)
  {
    seq(|held|, i requires 0 <= i < |held| => Some(held[i].obj))
  }

  /** How often each object is kept or handed out. */
  ghost function Managed(s: State): multiset<Ptr> {
    multiset(s.shared.idle) + multiset(Objects(s.held))
  }

  /** What the callers and the factory owe the pool: calls in order, new objects from the factory and to
      Add, and only borrowed objects to Return, by their holder. */
  ghost predicate Enabled(s: State, e: Step) {
    match e
    case Try(t) => PcOf(s, t) == Ready
    case Begin(t) => PcOf(s, t) == Ready
    case Enter(t) => PcOf(s, t) == Missed
    case Made(t, p) => PcOf(s, t) == Pc.Creating && (p.Some? ==> p !in Managed(s))
    case Wake(t, _) => PcOf(s, t) == Waiting
    case Return(t, p) => p.Some? ==> Holding(t, p.value) in s.held
    case Add(p) => p.Some? && p !in Managed(s)
    case Remove(_) => true
  }

  /** t takes the first idle pointer and then is in no call; without one, or with a null one, it goes on
      at `miss`. */
  function Take(s: State, t: Tid, miss: Pc): State {
    if s.shared.idle == [] then s.(pcs := s.pcs[t := miss])
    else
      match s.shared.idle[0]
      case None => s.(shared := Taken(s.shared), pcs := s.pcs[t := miss])
      case Some(o) => State(Taken(s.shared), s.pcs[t := Ready], s.held + [Holding(t, o)])
  }

  function Release(held: seq<Holding>, h: Holding): seq<Holding> {
    if |held| == 0 then []
    else if held[0] == h then held[1..]
    else [held[0]] + Release(held[1..], h)
  }

  function Apply(s: State, e: Step): State {
    match e
    case Try(t) => Take(s, t, Ready)
    case Begin(t) => Take(s, t, Missed)
    case Enter(t) =>
      if s.shared.num < s.shared.max then
        s.(shared := s.shared.(num := s.shared.num + 1), pcs := s.pcs[t := Pc.Creating])
      else s.(pcs := s.pcs[t := if s.shared.timeout > 0 then Waiting else Ready])
    case Made(t, p) =>
      (match p
       case None => s.(shared := s.shared.(num := s.shared.num - 1), pcs := s.pcs[t := Ready])
       case Some(o) => s.(pcs := s.pcs[t := Ready], held := s.held + [Holding(t, o)]))
    case Wake(t, timedOut) => if timedOut then s.(pcs := s.pcs[t := Ready]) else Take(s, t, Ready)
    case Return(t, p) =>
      (match p
       case None => s
       case Some(o) =>
         s.(shared := s.shared.(idle := s.shared.idle + [p]), held := Release(s.held, Holding(t, o))))
    case Add(p) =>
      if s.shared.num >= s.shared.max then s
      else s.(shared := s.shared.(idle := s.shared.idle + [p], num := s.shared.num + 1))
    case Remove(p) =>
      if p in s.shared.idle then s.(shared := s.shared.(idle := Without(s.shared.idle, p), num := s.shared.num - 1))
      else s
  }

  ghost predicate Once(m: multiset<Ptr>) {
    forall p :: m[p] <= 1
  }

  /** The slots are accounted for, within the limit, and no object is in two places; none is null. */
  ghost predicate Inv(s: State, limit: int) {
    && s.shared.num == |s.shared.idle| + |s.held| + |InCreation(s.pcs)|
    && s.shared.num <= limit && s.shared.max <= limit
    && Once(Managed(s)) && None !in s.shared.idle
  }

  lemma {:induction false} ObjectsSnoc(held: seq<Holding>, h: Holding)
    ensures multiset(Objects(held + [h])) == multiset(Objects(held)) + multiset{Some(h.obj)}
  {
    assert Objects(held + [h]) == Objects(held) + [Some(h.obj)];
  }

  lemma {:induction false} ObjectsCons(h: Holding, held: seq<Holding>)
    ensures multiset(Objects([h] + held)) == multiset{Some(h.obj)} + multiset(Objects(held))
  {
    assert Objects([h] + held) == [Some(h.obj)] + Objects(held);
  }

  lemma {:induction false} Released(held: seq<Holding>, h: Holding)
    requires h in held
    ensures |Release(held, h)| == |held| - 1
    ensures multiset(Objects(Release(held, h))) + multiset{Some(h.obj)} == multiset(Objects(held))
  {
    assert held == [held[0]] + held[1..];
    ObjectsCons(held[0], held[1..]);
    if held[0] != h {
      Released(held[1..], h);
      ObjectsCons(held[0], Release(held[1..], h));
    }
  }

  lemma {:induction false} Removed(idle: seq<Ptr>, p: Ptr)
    requires p in idle
    ensures |Without(idle, p)| == |idle| - 1
    ensures multiset(Without(idle, p)) + multiset{p} == multiset(idle)
  {
    assert idle == [idle[0]] + idle[1..];
    if idle[0] != p {
      Removed(idle[1..], p);
    }
  }

  lemma {:induction false} TakeKeeps(s: State, t: Tid, miss: Pc)
    requires None !in s.shared.idle
    ensures Managed(Take(s, t, miss)) == Managed(s)
  {
    var idle := s.shared.idle;
    if idle != [] {
      assert idle == [idle[0]] + idle[1..];
      assert idle[0].Some?;
      ObjectsSnoc(s.held, Holding(t, idle[0].value));
    }
  }

  /** Entering or leaving the factory moves the count of those in it by one. */
  lemma {:induction false} CreationCount(s: State, t: Tid, pc: Pc)
    ensures |InCreation(s.pcs[t := pc])| ==
      |InCreation(s.pcs)| + (if pc == Pc.Creating then 1 else 0) - (if PcOf(s, t) == Pc.Creating then 1 else 0)
  {
    var base := InCreation(s.pcs) - {t};
    assert InCreation(s.pcs) == if PcOf(s, t) == Pc.Creating then base + {t} else base;
    assert InCreation(s.pcs[t := pc]) == if pc == Pc.Creating then base + {t} else base;
  }

  lemma {:induction false} ReturnKeeps(s: State, t: Tid, o: Obj)
    requires Holding(t, o) in s.held
    ensures Managed(Apply(s, Return(t, Some(o)))) == Managed(s)
  {
    hide Objects, Release;
    Released(s.held, Holding(t, o));
  }

  lemma {:induction false} RemoveTakes(s: State, p: Ptr)
    requires p in s.shared.idle
    ensures Managed(Apply(s, Remove(p))) + multiset{p} == Managed(s)
  {
    hide Objects, Without;
    Removed(s.shared.idle, p);
  }

  /** The objects after each critical section: one more from the factory or Add, one less from Remove. */
  ghost function Change(s: State, e: Step): (multiset<Ptr>, multiset<Ptr>) {
    match e
    case Made(_, Some(o)) => (multiset{Some(o)}, multiset{})
    case Add(p) => if s.shared.num < s.shared.max then (multiset{p}, multiset{}) else (multiset{}, multiset{})
    case Remove(p) => if p in s.shared.idle then (multiset{}, multiset{p}) else (multiset{}, multiset{})
    case _ => (multiset{}, multiset{})
  }

  lemma {:induction false} ManagedStep(s: State, e: Step)
    requires Enabled(s, e) && None !in s.shared.idle
    ensures Managed(Apply(s, e)) + Change(s, e).1 == Managed(s) + Change(s, e).0
  {
    hide Objects, Without, Release, Take;
    match e
    case Try(t) => TakeKeeps(s, t, Ready);
    case Begin(t) => TakeKeeps(s, t, Missed);
    case Enter(_) =>
    case Made(t, p) => if p.Some? { ObjectsSnoc(s.held, Holding(t, p.value)); }
    case Wake(t, timedOut) => TakeKeeps(s, t, Ready);
    case Return(t, p) => if p.Some? { ReturnKeeps(s, t, p.value); }
    case Add(_) =>
    case Remove(p) => if p in s.shared.idle { RemoveTakes(s, p); }
  }

  lemma {:induction false} NonNullStep(s: State, e: Step)
    requires Enabled(s, e) && None !in s.shared.idle
    ensures None !in Apply(s, e).shared.idle
  {
    if e.Remove? && e.ptr in s.shared.idle {
      Removed(s.shared.idle, e.ptr);
      assert None !in multiset(s.shared.idle);
      assert None !in multiset(Without(s.shared.idle, e.ptr));
    }
  }

  lemma {:induction false} OnceStep(s: State, e: Step)
    requires Enabled(s, e) && Once(Managed(s)) && None !in s.shared.idle
    ensures Once(Managed(Apply(s, e)))
  {
    hide Managed, Apply;
    ManagedStep(s, e);
    var m, r := Managed(s), Managed(Apply(s, e));
    var (add, sub) := Change(s, e);
    forall p
      ensures r[p] <= 1
    {
      assert (r + sub)[p] == (m + add)[p];
      assert r[p] <= m[p] + add[p];
    }
  }

  lemma {:induction false} CountStep(s: State, e: Step)
    requires Enabled(s, e) && None !in s.shared.idle
    requires s.shared.num == |s.shared.idle| + |s.held| + |InCreation(s.pcs)|
    ensures var r := Apply(s, e); r.shared.num == |r.shared.idle| + |r.held| + |InCreation(r.pcs)|
  {
    hide InCreation, Without, Release;
    assert s.shared.idle != [] ==> s.shared.idle[0].Some?;
    match e
    case Try(t) => CreationCount(s, t, Ready);
    case Begin(t) => CreationCount(s, t, Ready); CreationCount(s, t, Missed);
    case Enter(t) =>
      CreationCount(s, t, Pc.Creating);
      CreationCount(s, t, if s.shared.timeout > 0 then Waiting else Ready);
    case Made(t, _) => CreationCount(s, t, Ready);
    case Wake(t, timedOut) => CreationCount(s, t, Ready);
    case Return(t, p) => if p.Some? { Released(s.held, Holding(t, p.value)); }
    case Add(_) =>
    case Remove(p) => if p in s.shared.idle { Removed(s.shared.idle, p); }
  }

  /** Every critical section keeps the invariant. */
  lemma {:induction false} StepInv(s: State, e: Step, limit: int)
    requires Inv(s, limit) && Enabled(s, e)
    ensures Inv(Apply(s, e), limit) && Apply(s, e).shared.max == s.shared.max
  {
    hide Once, InCreation, Without, Release, Managed;
    OnceStep(s, e);
    CountStep(s, e);
    NonNullStep(s, e);
  }

  /** A pool of the objects that the factory created and that nobody uses yet. */
  function Start(created: seq<Ptr>, max: int, timeout: int): State {
    State(Shared(NonNull(created), |NonNull(created)|, max, timeout), map[], [])
  }

  /** The factory makes no object twice. */
  ghost predicate Fresh(created: seq<Ptr>) {
    Once(multiset(NonNull(created)))
  }

  /** The most objects there can be. */
  function Limit(created: seq<Ptr>, max: int): int {
    if |NonNull(created)| > max then |NonNull(created)| else max
  }

  ghost function Run(s: State, es: seq<Step>): State {
    if |es| == 0 then s else Apply(Run(s, es[..|es| - 1]), es[|es| - 1])
  }

  ghost predicate AllEnabled(s: State, es: seq<Step>) {
    forall i :: 0 <= i < |es| ==> Enabled(Run(s, es[..i]), es[i])
  }

  lemma {:induction false} EnabledPrefix(s: State, es: seq<Step>)
    requires |es| > 0 && AllEnabled(s, es)
    ensures var n := |es| - 1; AllEnabled(s, es[..n]) && Enabled(Run(s, es[..n]), es[n])
  {
    hide Run, Enabled;
    var n := |es| - 1;
    forall i | 0 <= i < n ensures Enabled(Run(s, es[..n][..i]), es[..n][i]) {
      assert es[..n][..i] == es[..i];
    }
  }

  lemma {:induction false} StartInv(created: seq<Ptr>, max: int, timeout: int)
    requires Fresh(created)
    ensures Inv(Start(created, max, timeout), Limit(created, max)) && Start(created, max, timeout).shared.max == max
  {
    var s := Start(created, max, timeout);
    assert InCreation(s.pcs) == {} && Objects(s.held) == [];
    assert Managed(s) == multiset(NonNull(created));
  }

  /** Over every interleaving: idle, borrowed and in-creation objects add up to the count, which never
      exceeds the larger of the maximum and the initial number; no object is in two places. */
  lemma {:induction false} RunInv(created: seq<Ptr>, max: int, timeout: int, es: seq<Step>)
    requires Fresh(created) && AllEnabled(Start(created, max, timeout), es)
    ensures Inv(Run(Start(created, max, timeout), es), Limit(created, max))
    ensures Run(Start(created, max, timeout), es).shared.max == max
  {
    hide Inv, Apply, Enabled, AllEnabled, Start, Fresh, Limit;
    var s := Start(created, max, timeout);
    if |es| == 0 {
      StartInv(created, max, timeout);
    } else {
      var n := |es| - 1;
      EnabledPrefix(s, es);
      RunInv(created, max, timeout, es[..n]);
      StepInv(Run(s, es[..n]), es[n], Limit(created, max));
    }
  }

  /** The count stays within the maximum on every run if and only if it starts there. */
  lemma {:induction false} WithinMaximum(created: seq<Ptr>, max: int, timeout: int)
    requires Fresh(created)
    ensures |NonNull(created)| <= max <==>
      forall es :: AllEnabled(Start(created, max, timeout), es) ==>
        Run(Start(created, max, timeout), es).shared.num <= max
  {
    if |NonNull(created)| <= max {
      forall es | AllEnabled(Start(created, max, timeout), es)
        ensures Run(Start(created, max, timeout), es).shared.num <= max
      {
        RunInv(created, max, timeout, es);
      }
    } else {
      assert AllEnabled(Start(created, max, timeout), []);
      assert Run(Start(created, max, timeout), []).shared.num > max;
    }
  }

  // Who has which object

  lemma {:induction false} TwiceCounted(ps: seq<Ptr>, i: nat, j: nat)
    requires i < j < |ps| && ps[i] == ps[j]
    ensures multiset(ps)[ps[i]] >= 2
  {
    var p := ps[i];
    assert ps == ps[..i] + [p] + ps[i + 1..];
    assert multiset(ps) == multiset(ps[..i]) + multiset{p} + multiset(ps[i + 1..]);
    assert ps[j] == ps[i + 1..][j - i - 1];
  }

  /** Every object is idle at most once or has one holder, and not both. */
  ghost predicate Apart(s: State) {
    && (forall i, j :: 0 <= i < j < |s.held| ==> s.held[i].obj != s.held[j].obj)
    && (forall i :: 0 <= i < |s.held| ==> Some(s.held[i].obj) !in s.shared.idle)
    && (forall i, j :: 0 <= i < j < |s.shared.idle| ==> s.shared.idle[i] != s.shared.idle[j])
  }

  lemma {:induction false} OnceApart(s: State)
    requires Once(Managed(s))
    ensures Apart(s)
  {
    var idle, objs := s.shared.idle, Objects(s.held);
    assert forall o :: Managed(s)[o] == multiset(idle)[o] + multiset(objs)[o];
    forall i, j | 0 <= i < j < |s.held| ensures s.held[i].obj != s.held[j].obj {
      if objs[i] == objs[j] { TwiceCounted(objs, i, j); }
    }
    forall i, j | 0 <= i < j < |idle| ensures idle[i] != idle[j] {
      if idle[i] == idle[j] { TwiceCounted(idle, i, j); }
    }
    forall i | 0 <= i < |s.held| ensures Some(s.held[i].obj) !in idle {
      var p := objs[i];
      assert multiset(objs)[p] >= 1 && Managed(s)[p] <= 1;
      assert p !in multiset(idle);
    }
  }

  /** Over every interleaving no object has two holders, or a holder while idle. */
  lemma {:induction false} OneHolder(created: seq<Ptr>, max: int, timeout: int, es: seq<Step>)
    requires Fresh(created) && AllEnabled(Start(created, max, timeout), es)
    ensures Apart(Run(Start(created, max, timeout), es))
  {
    hide Once, Managed, Apart, AllEnabled, Run;
    RunInv(created, max, timeout, es);
    OnceApart(Run(Start(created, max, timeout), es));
  }

  /** ObjectNum() - IdleNum(), over every interleaving: BorrowNum counts the objects in creation as
      borrowed, and is 0 only when no caller has or makes one. */
  lemma {:induction false} BorrowNum(created: seq<Ptr>, max: int, timeout: int, es: seq<Step>)
    requires Fresh(created) && AllEnabled(Start(created, max, timeout), es)
    ensures var s := Run(Start(created, max, timeout), es);
      var n := s.shared.num - |s.shared.idle|;
      && n == |s.held| + |InCreation(s.pcs)|
      && (n == 0 <==> s.held == [] && InCreation(s.pcs) == {})
  {
    RunInv(created, max, timeout, es);
  }

  // When a caller breaks the pool

  /** Releasing what is not held changes nothing. */
  lemma {:induction false} ReleasedNothing(held: seq<Holding>, h: Holding)
    requires h !in held
    ensures Release(held, h) == held
  {
    if |held| > 0 {
      ReleasedNothing(held[1..], h);
    }
  }

  /** A return keeps the invariant if and only if it is of a null pointer, or of an object that the
      caller has borrowed and not yet returned. */
  lemma {:induction false} ReturnExact(s: State, t: Tid, p: Ptr, limit: int)
    requires Inv(s, limit)
    ensures Inv(Apply(s, Return(t, p)), limit) <==> p.None? || Holding(t, p.value) in s.held
  {
    if p.None? || Holding(t, p.value) in s.held {
      StepInv(s, Return(t, p), limit);
    } else {
      ReleasedNothing(s.held, Holding(t, p.value));
    }
  }

  /** An addition keeps it if and only if it is refused, or of an object that is new to the pool. */
  lemma {:induction false} AddExact(s: State, p: Ptr, limit: int)
    requires Inv(s, limit)
    ensures Inv(Apply(s, Add(p)), limit) <==> s.shared.num >= s.shared.max || (p.Some? && p !in Managed(s))
  {
    if s.shared.num < s.shared.max {
      if p.None? {
        assert None in Apply(s, Add(p)).shared.idle by { assert (s.shared.idle + [p])[|s.shared.idle|] == p; }
      } else if p !in Managed(s) {
        StepInv(s, Add(p), limit);
      } else {
        assert Managed(Apply(s, Add(p))) == Managed(s) + multiset{p};
        assert Managed(Apply(s, Add(p)))[p] >= 2;
      }
    }
  }

  /** So does the end of a creation if and only if the factory failed or made a new object. */
  lemma {:induction false} MadeExact(s: State, t: Tid, p: Ptr, limit: int)
    requires Inv(s, limit) && PcOf(s, t) == Pc.Creating
    ensures Inv(Apply(s, Made(t, p)), limit) <==> p.None? || p !in Managed(s)
  {
    if p.None? || p !in Managed(s) {
      StepInv(s, Made(t, p), limit);
    } else {
      ObjectsSnoc(s.held, Holding(t, p.value));
      assert Managed(Apply(s, Made(t, p)))[p] >= 2;
    }
  }

  lemma {:induction false} DoubleReturnSteps(o: Obj, max: int, timeout: int)
    ensures var p := Some(o);
      var s1 := Apply(Start([p], max, timeout), Try(1));
      var s2 := Apply(s1, Return(1, p));
      var s := Apply(Apply(Apply(s2, Return(1, p)), Try(2)), Try(3));
      && Enabled(Start([p], max, timeout), Try(1)) && Enabled(s1, Return(1, p))
      && s.held == [Holding(2, o), Holding(3, o)] && s.shared.num == 1
  {
    hide NonNull, Without;
    var p := Some(o);
    var s0 := Start([p], max, timeout);
    assert NonNull([p]) == [p];
    var s1 := State(Shared([], 1, max, timeout), map[1 := Ready], [Holding(1, o)]);
    assert Apply(s0, Try(1)) == s1;
    var s2 := State(Shared([p], 1, max, timeout), map[1 := Ready], []);
    assert Apply(s1, Return(1, p)) == s2;
    var s3 := State(Shared([p, p], 1, max, timeout), map[1 := Ready], []);
    assert Apply(s2, Return(1, p)) == s3;
  }

  /** Returning an object a second time gives it two holders. */
  lemma {:induction false} DoubleReturn(o: Obj, max: int, timeout: int)
    ensures var p := Some(o);
      var es := [Try(1), Return(1, p), Return(1, p), Try(2), Try(3)];
      var s := Run(Start([p], max, timeout), es);
      && AllEnabled(Start([p], max, timeout), es[..2])
      && s.held == [Holding(2, o), Holding(3, o)] && s.shared.num == 1
  {
    hide Apply, Enabled, Start;
    DoubleReturnSteps(o, max, timeout);
    var p := Some(o);
    var es := [Try(1), Return(1, p), Return(1, p), Try(2), Try(3)];
    var s0 := Start([p], max, timeout);
    assert es[..1][..0] == [] && es[..2][..1] == es[..1] && es[..3][..2] == es[..2];
    assert es[..4][..3] == es[..3] && es[..5] == es;
    assert Run(s0, es[..1]) == Apply(s0, es[0]);
    assert Run(s0, es[..2]) == Apply(Run(s0, es[..1]), es[1]);
    assert Run(s0, es[..3]) == Apply(Run(s0, es[..2]), es[2]);
    assert Run(s0, es[..4]) == Apply(Run(s0, es[..3]), es[3]);
    assert Enabled(Run(s0, es[..2][..0]), es[0]) && Enabled(Run(s0, es[..2][..1]), es[1]);
  }

  /** The step is one of a caller that may come away with an object. */
  predicate IsCall(e: Step) {
    e.Try? || e.Begin? || e.Enter? || e.Made? || e.Wake?
  }

  /** Nothing idle, nothing being made, and no slot free. */
  ghost predicate Exhausted(s: State) {
    s.shared.idle == [] && s.shared.num >= s.shared.max && InCreation(s.pcs) == {}
  }

  lemma {:induction false} ExhaustedStep(s: State, e: Step)
    requires Exhausted(s) && Enabled(s, e) && IsCall(e)
    ensures Exhausted(Apply(s, e)) && Apply(s, e).held == s.held
  {
    assert forall t :: t in s.pcs ==> s.pcs[t] != Pc.Creating by {
      assert forall t :: t in s.pcs && s.pcs[t] == Pc.Creating ==> t in InCreation(s.pcs);
    }
    assert !e.Made?;
  }

  /** From there no call gets an object, until someone adds, returns or removes one. */
  lemma {:induction false} ExhaustedStays(s: State, es: seq<Step>)
    requires Exhausted(s) && AllEnabled(s, es) && forall i :: 0 <= i < |es| ==> IsCall(es[i])
    ensures Exhausted(Run(s, es)) && Run(s, es).held == s.held
  {
    hide Enabled, AllEnabled, Apply, Exhausted, IsCall;
    if |es| > 0 {
      var n := |es| - 1;
      EnabledPrefix(s, es);
      ExhaustedStays(s, es[..n]);
      ExhaustedStep(Run(s, es[..n]), es[n]);
    }
  }

  /** A null pointer added to an empty pool of one uses up its slot: once it is taken out, BorrowNum is 1,
      nobody holds or makes an object, and no later call gets one. */
  lemma {:induction false} NullAdded(timeout: int, t: Tid, es: seq<Step>)
    requires forall i :: 0 <= i < |es| ==> IsCall(es[i])
    ensures var s := Run(Start([], 1, timeout), [Add(None), Try(t)]);
      && s.shared == Shared([], 1, 1, timeout) && s.held == [] && InCreation(s.pcs) == {}
      && (AllEnabled(s, es) ==> Run(s, es).held == [])
  {
    var s0, two := Start([], 1, timeout), [Add(None), Try(t)];
    assert two[..1][..0] == [] && two[..1] == [Add(None)];
    var s1 := State(Shared([None], 1, 1, timeout), map[], []);
    assert Apply(s0, Add(None)) == s1;
    assert Run(s0, two[..1]) == s1;
    var s := Run(s0, two);
    assert s == State(Shared([], 1, 1, timeout), map[t := Ready], []);
    if AllEnabled(s, es) {
      ExhaustedStays(s, es);
    }
  }

  // The class

  /** The critical sections of hobjectpool.h are the steps. A call of TryBorrow or Borrow comes away with
      exactly the object that its caller then holds, and goes on where the caller then is. */
  method Perform(pool: HObjectPool, ghost s: State, e: Step) returns (got: Ptr, next: Pc, ok: bool)
    requires pool.View() == s.shared
    modifies pool
    ensures pool.View() == Apply(s, e).shared
    ensures IsCall(e) ==> Apply(s, e).pcs == s.pcs[e.tid := next]
    ensures IsCall(e) ==> Apply(s, e).held == s.held + (if got.Some? then [Holding(e.tid, got.value)] else [])
    ensures !IsCall(e) ==> got.None? && Apply(s, e).pcs == s.pcs
    ensures e.Return? ==>
      Apply(s, e).held == if e.ptr.None? then s.held else Release(s.held, Holding(e.tid, e.ptr.value))
    ensures e.Add? || e.Remove? ==> Apply(s, e).held == s.held && (ok <==> Apply(s, e) != s)
  {
    got, next, ok := None, Ready, true;
    match e
    case Try(_) =>
      got := pool.TryBorrow();
    case Begin(_) =>
      got := pool.TryBorrow();
      if got.None? { next := Missed; }
    case Enter(_) =>
      var entry := pool.Enter();
      next := match entry case Create => Pc.Creating case Wait => Waiting case GiveUp => Ready;
    case Made(_, p) =>
      pool.Created(p);
      got := p;
    case Wake(_, timedOut) =>
      got := pool.Woken(timedOut);
    case Return(_, p) =>
      pool.Return(p);
    case Add(p) =>
      ok := pool.Add(p);
    case Remove(p) =>
      ok := pool.Remove(p);
  }

  /** For every interleaving: the pool, and its callers as their calls leave them, are in the run's state. */
  method Play(created: seq<Ptr>, max: int, timeout: int, es: seq<Step>)
    returns (pool: HObjectPool, pcs: map<Tid, Pc>, held: seq<Holding>)
    ensures fresh(pool) && State(pool.View(), pcs, held) == Run(Start(created, max, timeout), es)
    ensures Fresh(created) && AllEnabled(Start(created, max, timeout), es) ==>
      Apart(State(pool.View(), pcs, held)) && (|NonNull(created)| <= max ==> pool.objectNum <= max)
  {
    hide Apply, Apart, AllEnabled, Fresh, Release, NonNull;
    ghost var start := Start(created, max, timeout);
    pool := new HObjectPool(created, max, timeout);
    pcs, held := map[], [];
    for i := 0 to |es|
      invariant fresh(pool) && State(pool.View(), pcs, held) == Run(start, es[..i])
    {
      assert es[..i + 1][..i] == es[..i];
      var e := es[i];
      var got, next, _ := Perform(pool, State(pool.View(), pcs, held), e);
      if IsCall(e) {
        pcs := pcs[e.tid := next];
        held := held + if got.Some? then [Holding(e.tid, got.value)] else [];
      } else if e.Return? && e.ptr.Some? {
        held := Release(held, Holding(e.tid, e.ptr.value));
      }
    }
    assert es[..|es|] == es;
    if Fresh(created) && AllEnabled(start, es) {
      RunInv(created, max, timeout, es);
      OneHolder(created, max, timeout, es);
    }
  }
}
