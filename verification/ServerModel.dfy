/** The server's event loop on values: named sorted sets, the expiry queue and the configuration. */
module ServerModel {
  import opened Options
  import opened Seqs
  import R = TimerRuns
  import T = Timer
  import Z = ZSet
  import ZRuns = ZSetRuns

  /** A parsed request. A missing argument or a false flag stands for a wrong number of arguments. */
  datatype Command =
    | Exit
    | Save
    | ConfigUsage
    | ConfigSetMax(max: int)
    | ConfigSetOther
    | ConfigOther
    | ExpireUsage
    | Expire(key: Key, seconds: int)
    | ZAdd(key: Key, entry: Option<(int, Key)>)
    | ZScore(key: Key, member: Option<Key>)
    | ZRem(key: Key, member: Option<Key>)
    | ZCard(key: Key, ok: bool)
    | ZDis(key: Key, ok: bool)
    | Unknown(key: Key)

  datatype Reply = Silent | Done | Blank | Usage | Number(n: int)

  /** What one turn of the loop finds: signals, connections, and requests with their time of arrival. */
  datatype Event = Alarm | Terminate | Connection | Request(cmd: Command, time: int)

  datatype Server = Server(sets: map<Key, Z.ZSet>, queue: seq<T.Item>, max: int,
                           timeout: bool, update: bool, stop: bool)

  const INITIAL := Server(map[], [], 0, false, false, false)

  /** The set a request works on, made on the spot by ZADD, even one with the wrong arguments. */
  function Opened(s: Server, cmd: Command): Server {
    if cmd.ZAdd? && cmd.key !in s.sets then s.(sets := s.sets[cmd.key := Z.Empty(s.max)]) else s
  }

  function OnSet(s: Server, key: Key, op: Z.Op): Server
    requires key in s.sets
  {
    s.(sets := s.sets[key := Z.Step(s.sets[key], op)])
  }

  function Handle(s: Server, cmd: Command, time: int): Server {
    match cmd
    case Exit => s.(stop := true)
    case ConfigSetMax(max) => s.(max := if max < 0 then s.max else max, update := true)
    case ConfigSetOther => s.(update := true)
    case Expire(key, seconds) => s.(queue := s.queue + [T.Item(key, time + seconds)])
    case ZAdd(key, Some((score, member))) => OnSet(Opened(s, cmd), key, Z.Insert(member, score))
    case ZAdd(_, None) => Opened(s, cmd)
    case ZScore(key, Some(member)) => if key in s.sets then OnSet(s, key, Z.Search(member)) else s
    case ZRem(key, Some(member)) => if key in s.sets then OnSet(s, key, Z.Delete(member)) else s
    case _ => s
  }

  function Answer(s: Server, cmd: Command): Reply {
    match cmd
    case Exit => Silent
    case Save => Done
    case ConfigUsage => Usage
    case ConfigSetMax(max) => Number(if max < 0 then 1 else 0)
    case ConfigSetOther => Silent
    case ConfigOther => Silent
    case ExpireUsage => Usage
    case Expire(_, _) => Number(1)
    case ZAdd(key, None) => Usage
    case ZAdd(key, Some((score, member))) => Number(Z.Result(Opened(s, cmd).sets[key], Z.Insert(member, score)))
    case ZScore(key, member) =>
      if key !in s.sets then Number(-1)
      else if member.None? then Usage
      else Number(Z.Result(s.sets[key], Z.Search(member.value)))
    case ZRem(key, member) =>
      if key !in s.sets then Number(0)
      else if member.None? then Usage
      else Number(Z.Result(s.sets[key], Z.Delete(member.value)))
    case ZCard(key, ok) =>
      if key !in s.sets then Number(0)
      else if !ok then Usage
      else Number(|s.sets[key].scores|)
    case ZDis(key, ok) => if key !in s.sets then Blank else if !ok then Usage else Number(1)
    case Unknown(key) => if key !in s.sets then Number(-1) else Usage
  }

  /** The events of one turn, in order, up to an exit request. */
  function Batch(s: Server, events: seq<Event>): Server
    decreases |events|
  {
    if |events| == 0 then s
    else match events[0]
      case Alarm => Batch(s.(timeout := true), events[1..])
      case Terminate => Batch(s.(stop := true), events[1..])
      case Connection => Batch(s, events[1..])
      case Request(cmd, time) => if cmd.Exit? then Handle(s, cmd, time) else Batch(Handle(s, cmd, time), events[1..])
  }

  function Answers(s: Server, events: seq<Event>): seq<Reply>
    decreases |events|
  {
    if |events| == 0 then []
    else match events[0]
      case Alarm => Answers(s.(timeout := true), events[1..])
      case Terminate => Answers(s.(stop := true), events[1..])
      case Connection => Answers(s, events[1..])
      case Request(cmd, time) =>
        [Answer(s, cmd)] + if cmd.Exit? then [] else Answers(Handle(s, cmd, time), events[1..])
  }

  /** Drop the sets whose keys are due. */
  function Expired(s: Server, now: int): Server {
    if s.timeout then
      var n := T.Due(s.queue, now);
      s.(sets := s.sets - Elems(T.Keys(s.queue[..n])), queue := s.queue[n..], timeout := false)
    else s
  }

  /** Pass a changed configuration on to every set. */
  function Configured(s: Server): Server {
    if s.update then
      s.(sets := map k | k in s.sets :: Z.Step(s.sets[k], Z.SetMaxMemory(s.max)), update := false)
    else s
  }

  /** One turn of the loop. */
  function Turn(s: Server, events: seq<Event>, now: int): Server {
    Configured(Expired(Batch(s, events), now))
  }

  /** Between turns: no phase is due, and every set is valid and has the configured capacity. */
  ghost predicate AtHead(s: Server) {
    && !s.timeout && !s.update && s.max >= 0
    && forall k :: k in s.sets ==> Z.Valid(s.sets[k]) && s.sets[k].capacity == s.max
  }

  /** Within a turn: a set may still have the old capacity, but then an update is due. */
  ghost predicate InTurn(s: Server) {
    && s.max >= 0
    && forall k :: k in s.sets ==> Z.Valid(s.sets[k]) && (s.sets[k].capacity == s.max || s.update)
  }

  lemma {:induction false} OnSetInTurn(s: Server, key: Key, op: Z.Op)
    requires InTurn(s) && key in s.sets && !op.SetMaxMemory?
    ensures InTurn(OnSet(s, key, op))
  {
    Z.StepValid(s.sets[key], op);
  }

  lemma {:induction false} HandleInTurn(s: Server, cmd: Command, time: int)
    requires InTurn(s)
    ensures InTurn(Handle(s, cmd, time))
  {
    hide Z.Valid, Z.Step;
    match cmd
    case ZAdd(key, entry) =>
      ZRuns.EmptyValid(s.max);
      if entry.Some? { OnSetInTurn(Opened(s, cmd), key, Z.Insert(entry.value.1, entry.value.0)); }
    case ZScore(key, member) => if key in s.sets && member.Some? { OnSetInTurn(s, key, Z.Search(member.value)); }
    case ZRem(key, member) => if key in s.sets && member.Some? { OnSetInTurn(s, key, Z.Delete(member.value)); }
    case _ =>
  }

  lemma {:induction false} BatchInTurn(s: Server, events: seq<Event>)
    requires InTurn(s)
    ensures InTurn(Batch(s, events))
    decreases |events|
  {
    if |events| > 0 {
      match events[0]
      case Alarm => BatchInTurn(s.(timeout := true), events[1..]);
      case Terminate => BatchInTurn(s.(stop := true), events[1..]);
      case Connection => BatchInTurn(s, events[1..]);
      case Request(cmd, time) =>
        HandleInTurn(s, cmd, time);
        if !cmd.Exit? { BatchInTurn(Handle(s, cmd, time), events[1..]); }
    }
  }

  lemma {:induction false} Capacity(z: Z.ZSet, max: int)
    requires max >= 0
    ensures Z.Step(z, Z.SetMaxMemory(max)).capacity == max
  {
  }

  /** Whatever the events, a turn ends with every set at the configured capacity. */
  lemma {:induction false} TurnKeepsHead(s: Server, events: seq<Event>, now: int)
    requires AtHead(s)
    ensures AtHead(Turn(s, events, now))
  {
    hide Z.Valid, Z.Step, Batch;
    BatchInTurn(s, events);
    var t := Expired(Batch(s, events), now);
    forall k | k in t.sets
      ensures Z.Valid(Z.Step(t.sets[k], Z.SetMaxMemory(t.max)))
      ensures Z.Step(t.sets[k], Z.SetMaxMemory(t.max)).capacity == t.max
    {
      Z.StepValid(t.sets[k], Z.SetMaxMemory(t.max));
      Capacity(t.sets[k], t.max);
    }
  }

  // Whole runs

  /** What a turn of the loop was given: its events, and the time of a tick in it. */
  datatype Input = Input(events: seq<Event>, now: int)

  ghost function Run(turns: seq<Input>): Server {
    if |turns| == 0 then INITIAL
    else Turn(Run(turns[..|turns| - 1]), turns[|turns| - 1].events, turns[|turns| - 1].now)
  }

  /** What the clients are sent over a run. */
  ghost function Replies(turns: seq<Input>): seq<Reply> {
    if |turns| == 0 then []
    else
      var init, last := turns[..|turns| - 1], turns[|turns| - 1];
      Replies(init) + Answers(Run(init), last.events)
  }

  /** At the head of every turn of every run, every set has the configured capacity. */
  lemma {:induction false} RunAtHead(turns: seq<Input>)
    ensures AtHead(Run(turns))
  {
    hide Turn;
    if |turns| > 0 {
      RunAtHead(turns[..|turns| - 1]);
      var last := turns[|turns| - 1];
      TurnKeepsHead(Run(turns[..|turns| - 1]), last.events, last.now);
    }
  }

  // What one set goes through

  /** The call on a set that a request makes. */
  function OpOf(cmd: Command, key: Key): seq<Z.Op> {
    match cmd
    case ZAdd(k, Some((score, member))) => if k == key then [Z.Insert(member, score)] else []
    case ZScore(k, Some(member)) => if k == key then [Z.Search(member)] else []
    case ZRem(k, Some(member)) => if k == key then [Z.Delete(member)] else []
    case _ => []
  }

  function OpsOn(events: seq<Event>, key: Key): seq<Z.Op> {
    if |events| == 0 then []
    else match events[0]
      case Request(cmd, time) => if cmd.Exit? then [] else OpOf(cmd, key) + OpsOn(events[1..], key)
      case _ => OpsOn(events[1..], key)
  }

  lemma {:induction false} HandleOn(s: Server, cmd: Command, time: int, key: Key)
    requires key in s.sets
    ensures var r := Handle(s, cmd, time); key in r.sets && r.sets[key] == ZRuns.Run(s.sets[key], OpOf(cmd, key))
  {
    hide Z.Step;
    ZRuns.RunNone(s.sets[key]);
    var op := OpOf(cmd, key);
    if op != [] {
      assert op[..0] == [];
      assert ZRuns.Run(s.sets[key], op) == Z.Step(s.sets[key], op[0]);
    }
  }

  lemma {:induction false} NoOp(cmd: Command, key: Key)
    requires cmd.Exit?
    ensures OpOf(cmd, key) == []
  {
  }

  lemma {:induction false} BatchOn(s: Server, events: seq<Event>, key: Key)
    requires key in s.sets
    ensures var r := Batch(s, events); key in r.sets && r.sets[key] == ZRuns.Run(s.sets[key], OpsOn(events, key))
    decreases |events|
  {
    hide Handle, OpOf, ZRuns.Run;
    if |events| == 0 {
      ZRuns.RunNone(s.sets[key]);
    } else {
      match events[0]
      case Alarm => BatchOn(s.(timeout := true), events[1..], key);
      case Terminate => BatchOn(s.(stop := true), events[1..], key);
      case Connection => BatchOn(s, events[1..], key);
      case Request(cmd, time) =>
        HandleOn(s, cmd, time, key);
        if cmd.Exit? {
          NoOp(cmd, key);
        } else {
          BatchOn(Handle(s, cmd, time), events[1..], key);
          ZRuns.RunConcat(s.sets[key], OpOf(cmd, key), OpsOn(events[1..], key));
        }
    }
  }

  /** What a turn does to a set that survives it: its own requests, and then a new configuration. */
  ghost function TurnOps(s: Server, input: Input, key: Key): seq<Z.Op> {
    var b := Batch(s, input.events);
    OpsOn(input.events, key) + if b.update then [Z.SetMaxMemory(b.max)] else []
  }

  lemma {:induction false} TurnOn(s: Server, input: Input, key: Key)
    requires key in s.sets && key in Turn(s, input.events, input.now).sets
    ensures Turn(s, input.events, input.now).sets[key] == ZRuns.Run(s.sets[key], TurnOps(s, input, key))
  {
    hide Batch, Z.Step, OpsOn, T.Due, T.Keys;
    var b := Batch(s, input.events);
    var ops := OpsOn(input.events, key);
    BatchOn(s, input.events, key);
    if b.update {
      ZRuns.RunSnoc(s.sets[key], ops, Z.SetMaxMemory(b.max));
    } else {
      assert ops + [] == ops;
    }
  }

  /** The calls on a set from the head of turn n on. */
  ghost function History(turns: seq<Input>, n: nat, key: Key): seq<Z.Op> {
    if |turns| <= n then []
    else
      var init, last := turns[..|turns| - 1], turns[|turns| - 1];
      History(init, n, key) + TurnOps(Run(init), last, key)
  }

  /** Sets do not disturb each other: over any turns that a set survives, it goes through exactly the
      requests that name it and the changes of the configuration, as if it were alone. */
  lemma {:induction false} Isolation(turns: seq<Input>, n: nat, key: Key)
    requires n <= |turns| && forall i :: n <= i <= |turns| ==> key in Run(turns[..i]).sets
    ensures key in Run(turns).sets
    ensures Run(turns).sets[key] == ZRuns.Run(Run(turns[..n]).sets[key], History(turns, n, key))
  {
    hide Turn, TurnOps, ZRuns.Run;
    assert turns[..|turns|] == turns;
    if n == |turns| {
      ZRuns.RunNone(Run(turns).sets[key]);
    } else {
      var m := |turns| - 1;
      var init := turns[..m];
      assert forall i :: 0 <= i <= m ==> init[..i] == turns[..i];
      Isolation(init, n, key);
      TurnOn(Run(init), turns[m], key);
      ZRuns.RunConcat(Run(turns[..n]).sets[key], History(init, n, key), TurnOps(Run(init), turns[m], key));
    }
  }

  /** A request that is answered by its usage changes nothing, except a ZADD of a key without a set: that
      one makes an empty set. */
  lemma {:induction false} UsageExact(s: Server, cmd: Command, time: int)
    requires Answer(s, cmd) == Usage
    ensures Handle(s, cmd, time) == Opened(s, cmd)
    ensures Handle(s, cmd, time) == s <==> !(cmd.ZAdd? && cmd.key !in s.sets)
  {
    if cmd.ZAdd? && cmd.key !in s.sets {
      assert cmd.key in Handle(s, cmd, time).sets;
    }
  }

  /** A client sees the difference: ZDIS is then answered by a number, and an unknown command by its usage. */
  lemma {:induction false} UsageCreates(key: Key, time: int)
    ensures var s := Handle(INITIAL, ZAdd(key, None), time);
      && Answer(INITIAL, ZAdd(key, None)) == Usage && s.sets == map[key := Z.Empty(0)]
      && Answer(INITIAL, ZDis(key, true)) == Blank && Answer(s, ZDis(key, true)) == Number(1)
      && Answer(INITIAL, Unknown(key)) == Number(-1) && Answer(s, Unknown(key)) == Usage
  {
  }

  /** ZSCORE right after ZADD gives the score added, unless the member's eviction was pending; then it
      gives -1, as for any absent member. */
  lemma {:induction false} AddThenScore(s: Server, key: Key, score: int, member: Key, time: int)
    requires InTurn(s)
    ensures var add := ZAdd(key, Some((score, member)));
      var z := Opened(s, add).sets[key];
      Answer(Handle(s, add, time), ZScore(key, Some(member))) ==
        Number(if ZRuns.Same(z, member, score) || member !in z.pending then score else -1)
  {
    hide Z.Valid, Z.Step;
    var z := Opened(s, ZAdd(key, Some((score, member)))).sets[key];
    ZRuns.EmptyValid(s.max);
    ZRuns.MembersAfterInsert(z, member, score, member);
  }

  /** The requests that reach the expiry queue, as a run of the timer. */
  ghost function Pushes(events: seq<Event>): seq<R.Event> {
    if |events| == 0 then []
    else match events[0]
      case Request(cmd, time) =>
        if cmd.Exit? then []
        else (if cmd.Expire? then [R.Push(cmd.key, cmd.seconds, time)] else []) + Pushes(events[1..])
      case _ => Pushes(events[1..])
  }

  /** An alarm is seen before any exit request. */
  ghost predicate Alarmed(events: seq<Event>) {
    |events| > 0 && !(events[0].Request? && events[0].cmd.Exit?) && (events[0].Alarm? || Alarmed(events[1..]))
  }

  ghost function Trace(turns: seq<Input>): seq<R.Event> {
    if |turns| == 0 then []
    else
      var last := turns[|turns| - 1];
      Trace(turns[..|turns| - 1]) + Pushes(last.events) + (if Alarmed(last.events) then [R.Tick(last.now)] else [])
  }

  lemma {:induction false} HandleQueue(s: Server, cmd: Command, time: int)
    ensures var r := Handle(s, cmd, time);
      && r.queue == s.queue + (if cmd.Expire? then [T.Item(cmd.key, time + cmd.seconds)] else [])
      && r.timeout == s.timeout
  {
    hide Z.Step;
  }

  lemma {:induction false} BatchQueue(s: Server, events: seq<Event>, tr: seq<R.Event>)
    requires s.queue == R.Queued(tr)
    ensures Batch(s, events).queue == R.Queued(tr + Pushes(events))
    ensures Batch(s, events).timeout == (s.timeout || Alarmed(events))
    decreases |events|
  {
    hide Handle, R.Queued;
    if |events| == 0 {
      assert tr + Pushes(events) == tr;
    } else {
      match events[0]
      case Alarm => BatchQueue(s.(timeout := true), events[1..], tr);
      case Terminate => BatchQueue(s.(stop := true), events[1..], tr);
      case Connection => BatchQueue(s, events[1..], tr);
      case Request(cmd, time) =>
        HandleQueue(s, cmd, time);
        if cmd.Exit? {
          assert tr + [] == tr;
        } else if cmd.Expire? {
          var push := R.Push(cmd.key, cmd.seconds, time);
          R.QueuedPush(tr, cmd.key, cmd.seconds, time);
          BatchQueue(Handle(s, cmd, time), events[1..], tr + [push]);
          assert tr + [push] + Pushes(events[1..]) == tr + Pushes(events);
        } else {
          BatchQueue(Handle(s, cmd, time), events[1..], tr);
          assert Pushes(events) == Pushes(events[1..]);
        }
    }
  }

  /** Over every run the expiry queue is that of the timer under the pushes and ticks of the run. */
  lemma {:induction false} QueueIsTimerRun(turns: seq<Input>)
    ensures Run(turns).queue == R.Queued(Trace(turns))
  {
    hide Batch, Pushes, Alarmed, Z.Step, T.Due, T.Keys;
    if |turns| > 0 {
      var init, last := turns[..|turns| - 1], turns[|turns| - 1];
      QueueIsTimerRun(init);
      RunAtHead(init);
      BatchQueue(Run(init), last.events, Trace(init));
      var tr := Trace(init) + Pushes(last.events);
      if Alarmed(last.events) {
        assert (tr + [R.Tick(last.now)])[..|tr|] == tr;
      } else {
        assert tr + [] == tr;
      }
    }
  }

  /** A turn drops exactly the sets whose keys its tick fires. */
  lemma {:induction false} TurnDrops(turns: seq<Input>, key: Key)
    requires |turns| > 0
    ensures var init, last := turns[..|turns| - 1], turns[|turns| - 1];
      var before := R.Fired(Trace(init) + Pushes(last.events));
      && |before| <= |R.Fired(Trace(turns))|
      && (key in Batch(Run(init), last.events).sets ==>
        (key !in Run(turns).sets <==> key in R.Fired(Trace(turns))[|before|..]))
  {
    hide Batch, Pushes, Alarmed, Z.Step, T.Due;
    var init, last := turns[..|turns| - 1], turns[|turns| - 1];
    RunAtHead(init);
    QueueIsTimerRun(init);
    BatchQueue(Run(init), last.events, Trace(init));
    var tr := Trace(init) + Pushes(last.events);
    var b := Batch(Run(init), last.events);
    if Alarmed(last.events) {
      var n := T.Due(b.queue, last.now);
      assert (tr + [R.Tick(last.now)])[..|tr|] == tr;
      assert R.Fired(Trace(turns)) == R.Fired(tr) + T.Keys(b.queue)[..n];
      assert T.Keys(b.queue[..n]) == T.Keys(b.queue)[..n];
    } else {
      assert Trace(turns) == tr;
    }
  }

  lemma {:induction false} TraceTicks(turns: seq<Input>)
    requires |turns| > 0 && Alarmed(turns[|turns| - 1].events)
    ensures var tr := Trace(turns); |tr| > 0 && tr[|tr| - 1] == R.Tick(turns[|turns| - 1].now)
  {
  }

  /** With a clock that never goes back, a set is gone after a turn that saw an alarm if and only if a push
      that had not fired before names it, and its deadline and all earlier pushed ones have passed. */
  lemma {:induction false} DropExact(turns: seq<Input>, key: Key)
    requires |turns| > 0 && R.Monotone(Trace(turns)) && Alarmed(turns[|turns| - 1].events)
    requires key in Batch(Run(turns[..|turns| - 1]), turns[|turns| - 1].events).sets
    ensures var init, last := turns[..|turns| - 1], turns[|turns| - 1];
      var before := |R.Fired(Trace(init) + Pushes(last.events))|;
      var pushed := R.Pushed(Trace(turns));
      key !in Run(turns).sets <==>
        exists i :: before <= i < |pushed| && pushed[i].key == key && R.Passed(pushed, i, last.now)
  {
    hide Batch, Run, Trace, Alarmed, Pushes, R.Fired, R.Pushed, R.Passed, R.Monotone;
    TurnDrops(turns, key);
    TraceTicks(turns);
    var init, last := turns[..|turns| - 1], turns[|turns| - 1];
    R.FiredSince(Trace(turns), |R.Fired(Trace(init) + Pushes(last.events))|, key);
  }
}
