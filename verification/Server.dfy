/** The event loop of server.cpp over skip lists and the expiry timer. */
module Server {
  import opened Options
  import opened Seqs
  import opened SkipList
  import D = DumpText
  import M = ServerModel
  import MRuns = ServerRuns
  import SkipListRuns
  import T = Timer
  import Z = ZSet

  const MAX_LEVEL: nat := 6

  /** The lists share nothing with each other or with `core`. */
  ghost predicate Apart(sets: map<Key, SkipList>, core: set<object>)
    reads sets.Values
  {
    && (forall k :: k in sets ==> sets[k].Repr !! core)
    && (forall j, k :: j in sets && k in sets && j != k ==> sets[j].Repr !! sets[k].Repr)
  }

  /** Everything the lists are made of. */
  ghost function Parts(sets: map<Key, SkipList>): set<object>
    reads sets.Values
  {
    set k, o | k in sets && o in sets[k].Repr :: o
  }

  ghost predicate AllValid(sets: map<Key, SkipList>)
    reads sets.Values, Parts(sets)
  {
    forall k :: k in sets ==> sets[k].Owned() && sets[k].Valid()
  }

  ghost function States(sets: map<Key, SkipList>): map<Key, Z.ZSet>
    reads sets.Values, set k | k in sets :: sets[k].lru
  {
    map k | k in sets :: sets[k].State()
  }

  /** Run one call on one of the lists: the others do not notice. */
  method CallIn(sets: map<Key, SkipList>, key: Key, op: Z.Op, ghost core: set<object>) returns (r: int)
    requires key in sets && AllValid(sets) && Apart(sets, core)
    modifies sets[key].Repr
    ensures AllValid(sets) && Apart(sets, core) && fresh(Parts(sets) - old(Parts(sets)))
    ensures sets[key].State() == Z.Step(old(sets[key].State()), op) && r == Z.Result(old(sets[key].State()), op)
    ensures forall k :: k in sets && k != key ==> sets[k].State() == old(sets[k].State())
  {
    hide SkipList.Valid, SkipList.State, Z.Step, Z.Result;
    r := SkipListRuns.Call(sets[key], op);
    assert forall k :: k in sets && k != key ==> sets[k].Repr == old(sets[k].Repr);
    assert forall k :: k in sets && k != key ==> sets[k].Valid() && sets[k].State() == old(sets[k].State());
  }

  lemma {:induction false} OneChanged(sets: map<Key, SkipList>, before: map<Key, Z.ZSet>, key: Key, z: Z.ZSet)
    requires before.Keys == sets.Keys && key in sets && sets[key].State() == z
    requires forall k :: k in sets && k != key ==> sets[k].State() == before[k]
    ensures States(sets) == before[key := z]
  {
    hide SkipList.State;
  }

  /** The variables of main, and the configured maximum. */
  datatype Loop = Loop(sets: map<Key, SkipList>, maxMemory: int, timeout: bool, updateConfig: bool, stopServer: bool)

  ghost predicate Valid(l: Loop, timer: T.Timer)
    reads timer, timer.nodes, l.sets.Values, Parts(l.sets)
  {
    timer.Valid() && AllValid(l.sets) && Apart(l.sets, timer.Repr) && l.maxMemory >= 0
  }

  ghost function Footprint(l: Loop, timer: T.Timer): set<object>
    reads timer, l.sets.Values
  {
    timer.Repr + Parts(l.sets)
  }

  ghost function View(l: Loop, timer: T.Timer): M.Server
    reads timer, l.sets.Values, set k | k in l.sets :: l.sets[k].lru
  {
    M.Server(States(l.sets), timer.Queue(), l.maxMemory, l.timeout, l.updateConfig, l.stopServer)
  }

  method Start() returns (l: Loop, timer: T.Timer)
    ensures Valid(l, timer) && fresh(Footprint(l, timer)) && View(l, timer) == M.INITIAL
  {
    timer := new T.Timer();
    l := Loop(map[], 0, false, false, false);
  }

  /** Run one call on one of the sets. */
  method CallOn(l: Loop, timer: T.Timer, key: Key, op: Z.Op) returns (r: int)
    requires Valid(l, timer) && key in l.sets
    modifies Footprint(l, timer)
    ensures Valid(l, timer) && (forall o :: o in Footprint(l, timer) ==> o in old(Footprint(l, timer)) || fresh(o))
    ensures View(l, timer) == M.OnSet(old(View(l, timer)), key, op)
    ensures r == Z.Result(old(View(l, timer)).sets[key], op)
  {
    hide AllValid, SkipList.State, Z.Step, Z.Result;
    ghost var before := States(l.sets);
    r := CallIn(l.sets, key, op, timer.Repr);
    OneChanged(l.sets, before, key, Z.Step(before[key], op));
  }

  lemma {:induction false} OneAdded(sets: map<Key, SkipList>, key: Key, list: SkipList, core: set<object>)
    requires key !in sets && AllValid(sets) && Apart(sets, core)
    requires list.Owned() && list.Valid() && list.Repr !! core && list.Repr !! Parts(sets)
    ensures AllValid(sets[key := list]) && Apart(sets[key := list], core)
    ensures Parts(sets[key := list]) <= Parts(sets) + list.Repr
    ensures States(sets[key := list]) == States(sets)[key := list.State()]
  {
    hide SkipList.State, SkipList.Valid;
    assert forall k, o :: k in sets && o in sets[k].Repr ==> o in Parts(sets);
  }

  lemma {:induction false} StatesKeys(sets: map<Key, SkipList>)
    ensures States(sets).Keys == sets.Keys
  {
  }

  /** ZADD of a key without a set makes an empty one, before its arguments are looked at. */
  method Open(l: Loop, timer: T.Timer, key: Key) returns (l': Loop)
    requires Valid(l, timer)
    ensures Valid(l', timer) && key in l'.sets
    ensures forall o :: o in Footprint(l', timer) ==> o in old(Footprint(l, timer)) || fresh(o)
    ensures View(l', timer) == View(l, timer).(sets :=
      if key in l.sets then View(l, timer).sets else View(l, timer).sets[key := Z.Empty(l.maxMemory)])
  {
    hide SkipList.Valid, SkipList.State, States, Apart, T.Timer.Valid, T.Timer.Queue;
    l' := l;
    if key !in l.sets {
      var list := new SkipList(MAX_LEVEL, l.maxMemory);
      OneAdded(l.sets, key, list, timer.Repr);
      l' := l.(sets := l.sets[key := list]);
    }
    StatesKeys(l.sets);
  }

  /** EXPIRE. */
  method Schedule(l: Loop, timer: T.Timer, key: Key, seconds: int, time: int) returns (r: int)
    requires Valid(l, timer)
    modifies timer.Repr
    ensures Valid(l, timer) && (forall o :: o in Footprint(l, timer) ==> o in old(Footprint(l, timer)) || fresh(o))
    ensures View(l, timer) == old(View(l, timer)).(queue := old(timer.Queue()) + [T.Item(key, time + seconds)])
    ensures r == 1
  {
    hide SkipList.Valid, SkipList.State, T.Timer.Queue, T.Timer.Valid;
    r := timer.Push(key, seconds, time);
    assert forall k :: k in l.sets ==> l.sets[k].Valid() && l.sets[k].State() == old(l.sets[k].State());
    assert States(l.sets) == old(States(l.sets));
  }

  /** ZCARD. */
  method Card(l: Loop, timer: T.Timer, key: Key) returns (n: int)
    requires Valid(l, timer) && key in l.sets
    ensures n == |View(l, timer).sets[key].scores|
    ensures Valid(l, timer) && View(l, timer) == old(View(l, timer)) && Footprint(l, timer) == old(Footprint(l, timer))
  {
    hide SkipList.Valid, SkipList.State, T.Timer.Valid, T.Timer.Queue;
    n := l.sets[key].Length();
  }

  method HandleZAdd(l: Loop, timer: T.Timer, key: Key, entry: Option<(int, Key)>, ghost time: int)
    returns (l': Loop, reply: M.Reply)
    requires Valid(l, timer)
    modifies Footprint(l, timer)
    ensures Valid(l', timer) && (forall o :: o in Footprint(l', timer) ==> o in old(Footprint(l, timer)) || fresh(o))
    ensures View(l', timer) == M.Handle(old(View(l, timer)), M.ZAdd(key, entry), time)
    ensures reply == M.Answer(old(View(l, timer)), M.ZAdd(key, entry))
  {
    hide AllValid, Z.Step, Z.Result, States, Apart, Parts, T.Timer.Valid, T.Timer.Queue;
    StatesKeys(l.sets);
    l' := Open(l, timer, key);
    if entry.None? { return l', M.Usage; }
    var r := CallOn(l', timer, key, Z.Insert(entry.value.1, entry.value.0));
    reply := M.Number(r);
  }

  method HandleZScore(l: Loop, timer: T.Timer, key: Key, member: Option<Key>, ghost time: int) returns (reply: M.Reply)
    requires Valid(l, timer)
    modifies Footprint(l, timer)
    ensures Valid(l, timer) && (forall o :: o in Footprint(l, timer) ==> o in old(Footprint(l, timer)) || fresh(o))
    ensures View(l, timer) == M.Handle(old(View(l, timer)), M.ZScore(key, member), time)
    ensures reply == M.Answer(old(View(l, timer)), M.ZScore(key, member))
  {
    hide AllValid, Z.Step, Z.Result, States, Apart, Parts, T.Timer.Valid, T.Timer.Queue;
    StatesKeys(l.sets);
    if key !in l.sets { return M.Number(-1); }
    if member.None? { return M.Usage; }
    var r := CallOn(l, timer, key, Z.Search(member.value));
    reply := M.Number(r);
  }

  method HandleZRem(l: Loop, timer: T.Timer, key: Key, member: Option<Key>, ghost time: int) returns (reply: M.Reply)
    requires Valid(l, timer)
    modifies Footprint(l, timer)
    ensures Valid(l, timer) && (forall o :: o in Footprint(l, timer) ==> o in old(Footprint(l, timer)) || fresh(o))
    ensures View(l, timer) == M.Handle(old(View(l, timer)), M.ZRem(key, member), time)
    ensures reply == M.Answer(old(View(l, timer)), M.ZRem(key, member))
  {
    hide AllValid, Z.Step, Z.Result, States, Apart, Parts, T.Timer.Valid, T.Timer.Queue;
    StatesKeys(l.sets);
    if key !in l.sets { return M.Number(0); }
    if member.None? { return M.Usage; }
    var r := CallOn(l, timer, key, Z.Delete(member.value));
    reply := M.Number(r);
  }

  /** The text of every set. */
  ghost function Texts(sets: map<Key, SkipList>): (r: map<Key, string>)
    requires AllValid(sets)
    reads sets.Values, Parts(sets)
    ensures r.Keys == sets.Keys
  {
    map k | k in sets :: D.Text(sets[k].Contents())
  }

  /** It brings the set back if and only if all members are clean. */
  lemma {:induction false} TextRestores(sets: map<Key, SkipList>, key: Key)
    requires AllValid(sets) && key in sets
    ensures SkipListRuns.Restores(Texts(sets)[key], States(sets)[key].scores)
  {
    hide SkipList.Valid, SkipList.State, SkipList.Contents, SkipListRuns.Restores, D.Text;
    SkipListRuns.DumpRestores(sets[key]);
  }

  method SaveOne(sets: map<Key, SkipList>, key: Key) returns (text: string)
    requires AllValid(sets) && key in sets
    ensures AllValid(sets) && States(sets) == old(States(sets)) && Parts(sets) == old(Parts(sets))
    ensures Texts(sets) == old(Texts(sets)) && text == Texts(sets)[key]
  {
    hide SkipList.Valid, SkipList.State, SkipList.Contents, D.Text;
    text := sets[key].DumpFile();
  }

  /** SAVE: a file for every set, named by its key, with its text; the order of writing does not matter. */
  method Save(sets: map<Key, SkipList>) returns (files: map<Key, string>)
    requires AllValid(sets)
    ensures AllValid(sets) && States(sets) == old(States(sets)) && Parts(sets) == old(Parts(sets))
    ensures files == Texts(sets)
    ensures forall k :: k in sets ==> SkipListRuns.Restores(files[k], States(sets)[k].scores)
  {
    hide AllValid, SkipListRuns.Restores, SkipList.State, Parts, Texts;
    files := map[];
    var todo := sets.Keys;
    while todo != {}
      invariant AllValid(sets) && States(sets) == old(States(sets)) && Parts(sets) == old(Parts(sets))
      invariant Texts(sets) == old(Texts(sets))
      invariant todo <= sets.Keys && files.Keys == sets.Keys - todo
      invariant forall k :: k in files ==> files[k] == Texts(sets)[k]
      decreases todo
    {
      var k :| k in todo;
      var text := SaveOne(sets, k);
      files := files[k := text];
      todo := todo - {k};
    }
    forall k | k in sets
      ensures SkipListRuns.Restores(files[k], States(sets)[k].scores)
    {
      TextRestores(sets, k);
    }
  }

  /** The requests that change no list and not the queue. */
  method HandleOther(l: Loop, timer: T.Timer, cmd: M.Command, ghost time: int) returns (l': Loop, reply: M.Reply)
    requires Valid(l, timer) && !cmd.Expire? && !cmd.ZAdd? && !cmd.ZScore? && !cmd.ZRem?
    ensures Valid(l', timer) && Footprint(l', timer) == Footprint(l, timer)
    ensures View(l', timer) == M.Handle(View(l, timer), cmd, time) && reply == M.Answer(View(l, timer), cmd)
  {
    hide AllValid, States, Apart;
    StatesKeys(l.sets);
    l' := l;
    match cmd
    case Exit => l' := l.(stopServer := true); reply := M.Silent;
    case Save =>
      var _ := Save(l.sets);
      reply := M.Done;
    case ConfigUsage => reply := M.Usage;
    case ConfigSetMax(max) =>
      l' := l.(maxMemory := if max < 0 then l.maxMemory else max, updateConfig := true);
      reply := M.Number(if max < 0 then 1 else 0);
    case ConfigSetOther => l' := l.(updateConfig := true); reply := M.Silent;
    case ConfigOther => reply := M.Silent;
    case ExpireUsage => reply := M.Usage;
    case ZCard(key, ok) =>
      if key !in l.sets { return l', M.Number(0); }
      if !ok { return l', M.Usage; }
      var n := Card(l, timer, key);
      reply := M.Number(n);
    case ZDis(key, ok) =>
      if key !in l.sets { return l', M.Blank; }
      if !ok { return l', M.Usage; }
      reply := M.Number(1);
    case Unknown(key) =>
      reply := if key !in l.sets then M.Number(-1) else M.Usage;
  }

  method HandleExpire(l: Loop, timer: T.Timer, key: Key, seconds: int, time: int) returns (reply: M.Reply)
    requires Valid(l, timer)
    modifies Footprint(l, timer)
    ensures Valid(l, timer) && (forall o :: o in Footprint(l, timer) ==> o in old(Footprint(l, timer)) || fresh(o))
    ensures View(l, timer) == M.Handle(old(View(l, timer)), M.Expire(key, seconds), time)
    ensures reply == M.Answer(old(View(l, timer)), M.Expire(key, seconds))
  {
    hide AllValid, States, Apart, Parts;
    var r := Schedule(l, timer, key, seconds, time);
    reply := M.Number(r);
  }

  method Handle(l: Loop, timer: T.Timer, cmd: M.Command, time: int) returns (l': Loop, reply: M.Reply)
    requires Valid(l, timer)
    modifies Footprint(l, timer)
    ensures Valid(l', timer) && (forall o :: o in Footprint(l', timer) ==> o in old(Footprint(l, timer)) || fresh(o))
    ensures View(l', timer) == M.Handle(old(View(l, timer)), cmd, time)
    ensures reply == M.Answer(old(View(l, timer)), cmd)
  {
    hide Valid, View, Parts, M.Handle, M.Answer;
    l' := l;
    match cmd
    case Expire(key, seconds) => reply := HandleExpire(l, timer, key, seconds, time);
    case ZAdd(key, entry) => l', reply := HandleZAdd(l, timer, key, entry, time);
    case ZScore(key, member) => reply := HandleZScore(l, timer, key, member, time);
    case ZRem(key, member) => reply := HandleZRem(l, timer, key, member, time);
    case _ => l', reply := HandleOther(l, timer, cmd, time);
  }

  /** Forgetting sets keeps the others as they are. */
  lemma {:induction false} Dropped(sets: map<Key, SkipList>, gone: set<Key>, core: set<object>)
    requires AllValid(sets) && Apart(sets, core)
    ensures AllValid(sets - gone) && Apart(sets - gone, core)
    ensures Parts(sets - gone) <= Parts(sets) && States(sets - gone) == States(sets) - gone
  {
    hide SkipList.Valid, SkipList.State;
  }

  method Erase(l: Loop, timer: T.Timer, keys: seq<Key>) returns (l': Loop)
    requires Valid(l, timer)
    ensures Valid(l', timer) && Footprint(l', timer) <= Footprint(l, timer)
    ensures l'.timeout == l.timeout
    ensures View(l', timer) == View(l, timer).(sets := View(l, timer).sets - Elems(keys))
  {
    hide AllValid, States, Apart, Parts;
    var sets := l.sets;
    var i := 0;
    while i < |keys|
      invariant 0 <= i <= |keys| && sets == l.sets - Elems(keys[..i])
    {
      assert Elems(keys[..i + 1]) == Elems(keys[..i]) + {keys[i]};
      sets := sets - {keys[i]};
      i := i + 1;
    }
    assert keys[..i] == keys;
    Dropped(l.sets, Elems(keys), timer.Repr);
    l' := l.(sets := sets);
  }

  /** Timer::Tick, seen from the loop. */
  method Fire(l: Loop, timer: T.Timer, now: int) returns (keys: seq<Key>)
    requires Valid(l, timer)
    modifies timer.Repr
    ensures Valid(l, timer) && Footprint(l, timer) == old(Footprint(l, timer))
    ensures var q := old(timer.Queue()); var n := T.Due(q, now);
      keys == T.Keys(q[..n]) && View(l, timer) == old(View(l, timer)).(queue := q[n..])
  {
    hide SkipList.Valid, SkipList.State, T.Timer.Valid, T.Due;
    keys := timer.Tick(now);
    assert forall k :: k in l.sets ==> l.sets[k].Valid() && l.sets[k].State() == old(l.sets[k].State());
    assert States(l.sets) == old(States(l.sets));
    ghost var q := old(timer.Queue());
    assert T.Keys(q[..T.Due(q, now)]) == T.Keys(q)[..T.Due(q, now)];
  }

  /** The timeout phase: forget the sets whose keys have fired. */
  method Expire(l: Loop, timer: T.Timer, now: int) returns (l': Loop)
    requires Valid(l, timer)
    modifies Footprint(l, timer)
    ensures Valid(l', timer) && (forall o :: o in Footprint(l', timer) ==> o in old(Footprint(l, timer)) || fresh(o))
    ensures View(l', timer) == M.Expired(old(View(l, timer)), now)
  {
    hide AllValid, States, Apart, Parts, T.Due, T.Keys, T.Timer.Valid, T.Timer.Queue;
    l' := l;
    if l.timeout {
      var keys := Fire(l, timer, now);
      l' := Erase(l, timer, keys);
      l' := l'.(timeout := false);
    }
  }

  /** The states with the capacity set on the keys in `done`. */
  ghost function Partly(sets: map<Key, Z.ZSet>, done: set<Key>, max: int): (r: map<Key, Z.ZSet>)
    ensures r.Keys == sets.Keys
  {
    map k | k in sets :: if k in done then Z.Step(sets[k], Z.SetMaxMemory(max)) else sets[k]
  }

  lemma {:induction false} PartlyMore(s: M.Server, done: set<Key>, max: int, key: Key)
    requires key in s.sets && key !in done
    ensures var t := s.(sets := Partly(s.sets, done, max));
      M.OnSet(t, key, Z.SetMaxMemory(max)) == s.(sets := Partly(s.sets, done + {key}, max))
  {
    hide Z.Step;
    var p := Partly(s.sets, done, max);
    assert p[key := Z.Step(p[key], Z.SetMaxMemory(max))] == Partly(s.sets, done + {key}, max);
  }

  lemma {:induction false} PartlyNone(sets: map<Key, Z.ZSet>, max: int)
    ensures Partly(sets, {}, max) == sets
  {
    hide Z.Step;
  }

  lemma {:induction false} PartlyAll(sets: map<Key, Z.ZSet>, done: set<Key>, max: int)
    requires done == sets.Keys
    ensures Partly(sets, done, max) == map k | k in sets :: Z.Step(sets[k], Z.SetMaxMemory(max))
  {
    hide Z.Step;
  }

  /** UpdateMaxMemory: every set, in any order. */
  method UpdateMaxMemory(l: Loop, timer: T.Timer)
    requires Valid(l, timer)
    modifies Footprint(l, timer)
    ensures Valid(l, timer) && (forall o :: o in Footprint(l, timer) ==> o in old(Footprint(l, timer)) || fresh(o))
    ensures var s := old(View(l, timer));
      View(l, timer) == s.(sets := map k | k in s.sets :: Z.Step(s.sets[k], Z.SetMaxMemory(s.max)))
  {
    hide AllValid, Apart, Z.Step, States, Parts, Partly, M.OnSet, T.Timer.Valid, T.Timer.Queue;
    StatesKeys(l.sets);
    PartlyNone(States(l.sets), l.maxMemory);
    var todo := l.sets.Keys;
    ghost var before := View(l, timer);
    assert l.sets.Keys - todo == {};
    while todo != {}
      invariant todo <= l.sets.Keys
      invariant Valid(l, timer) && (forall o :: o in Footprint(l, timer) ==> o in old(Footprint(l, timer)) || fresh(o))
      invariant View(l, timer) == before.(sets := Partly(before.sets, l.sets.Keys - todo, l.maxMemory))
      decreases todo
    {
      var k :| k in todo;
      PartlyMore(before, l.sets.Keys - todo, l.maxMemory, k);
      var _ := CallOn(l, timer, k, Z.SetMaxMemory(l.maxMemory));
      assert l.sets.Keys - (todo - {k}) == (l.sets.Keys - todo) + {k};
      todo := todo - {k};
    }
    PartlyAll(before.sets, l.sets.Keys - todo, l.maxMemory);
  }

  /** The configuration phase. */
  method Configure(l: Loop, timer: T.Timer) returns (l': Loop)
    requires Valid(l, timer)
    modifies Footprint(l, timer)
    ensures Valid(l', timer) && (forall o :: o in Footprint(l', timer) ==> o in old(Footprint(l, timer)) || fresh(o))
    ensures View(l', timer) == M.Configured(old(View(l, timer)))
  {
    hide AllValid, Apart, Z.Step, SkipList.State;
    l' := l;
    if l.updateConfig {
      StatesKeys(l.sets);
      UpdateMaxMemory(l, timer);
      l' := l.(updateConfig := false);
    }
  }

  /** The events of a turn, in order, up to an exit request. */
  method Dispatch(l: Loop, timer: T.Timer, events: seq<M.Event>) returns (l': Loop, replies: seq<M.Reply>)
    requires Valid(l, timer)
    modifies Footprint(l, timer)
    ensures Valid(l', timer) && (forall o :: o in Footprint(l', timer) ==> o in old(Footprint(l, timer)) || fresh(o))
    ensures View(l', timer) == M.Batch(old(View(l, timer)), events)
    ensures replies == M.Answers(old(View(l, timer)), events)
  {
    hide AllValid, Apart, States, Parts, M.Handle, M.Answer, T.Timer.Valid, T.Timer.Queue;
    l', replies := l, [];
    var i := 0;
    assert events[0..] == events;
    while i < |events|
      invariant 0 <= i <= |events|
      invariant Valid(l', timer)
      invariant forall o :: o in Footprint(l', timer) ==> o in old(Footprint(l, timer)) || fresh(o)
      invariant M.Batch(View(l', timer), events[i..]) == M.Batch(old(View(l, timer)), events)
      invariant replies + M.Answers(View(l', timer), events[i..]) == M.Answers(old(View(l, timer)), events)
    {
      assert events[i..][1..] == events[i + 1..];
      match events[i] {
        case Alarm => l' := l'.(timeout := true);
        case Terminate => l' := l'.(stopServer := true);
        case Connection =>
        case Request(cmd, time) =>
          var reply;
          l', reply := Handle(l', timer, cmd, time);
          replies := replies + [reply];
          if cmd.Exit? {
            return;
          }
      }
      i := i + 1;
    }
  }

  /** One turn of the loop: the events up to an exit request, then the two phases. */
  method Turn(l: Loop, timer: T.Timer, events: seq<M.Event>, now: int) returns (l': Loop, replies: seq<M.Reply>)
    requires Valid(l, timer)
    modifies Footprint(l, timer)
    ensures Valid(l', timer) && (forall o :: o in Footprint(l', timer) ==> o in old(Footprint(l, timer)) || fresh(o))
    ensures View(l', timer) == M.Turn(old(View(l, timer)), events, now)
    ensures replies == M.Answers(old(View(l, timer)), events)
  {
    hide Valid, Parts, View, M.Batch, M.Answers, M.Expired, M.Configured;
    l', replies := Dispatch(l, timer, events);
    l' := Expire(l', timer, now);
    l' := Configure(l', timer);
  }

  /** The main loop on any inputs: it runs until one of them stops it, in the states of the model; so at
      every head of it each set has the configured capacity. */
  method Serve(inputs: seq<M.Input>) returns (l: Loop, timer: T.Timer, n: nat, replies: seq<M.Reply>)
    ensures Valid(l, timer) && n <= |inputs|
    ensures View(l, timer) == M.Run(inputs[..n]) && M.AtHead(View(l, timer))
    ensures replies == M.Replies(inputs[..n])
    ensures l.stopServer <==> n > 0 && MRuns.Stops(inputs[n - 1].events)
    ensures n < |inputs| ==> l.stopServer
    ensures forall i :: 0 <= i < n - 1 ==> !MRuns.Stops(inputs[i].events)
  {
    hide Valid, Parts, M.Turn, M.AtHead, M.Answers, MRuns.Stops, States;
    l, timer := Start();
    n, replies := 0, [];
    M.RunAtHead([]);
    while n < |inputs| && !l.stopServer
      invariant n <= |inputs| && Valid(l, timer) && (forall o :: o in Footprint(l, timer) ==> fresh(o))
      invariant View(l, timer) == M.Run(inputs[..n]) && replies == M.Replies(inputs[..n])
      invariant forall i :: 0 <= i < n - 1 ==> !MRuns.Stops(inputs[i].events)
    {
      assert inputs[..n + 1][..n] == inputs[..n];
      MRuns.FirstStop(inputs, n);
      var answers;
      l, answers := Turn(l, timer, inputs[n].events, inputs[n].now);
      replies := replies + answers;
      n := n + 1;
    }
    M.RunAtHead(inputs[..n]);
    MRuns.FirstStop(inputs, n);
  }
}
