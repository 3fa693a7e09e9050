/** The server over whole runs, as its clients see it: the configured maximum, the end of the loop, and
    the replies. */
module ServerRuns {
  import opened Options
  import opened Seqs
  import opened ServerModel
  import T = Timer
  import Z = ZSet
  import ZRuns = ZSetRuns

  predicate IsExit(e: Event) { e.Request? && e.cmd.Exit? }

  /** The requests of a turn that are handled: those up to an exit. */
  ghost function Handled(events: seq<Event>): seq<Command> {
    if |events| == 0 then []
    else match events[0]
      case Request(cmd, _) => [cmd] + if cmd.Exit? then [] else Handled(events[1..])
      case _ => Handled(events[1..])
  }

  ghost function AllHandled(turns: seq<Input>): seq<Command> {
    if |turns| == 0 then [] else AllHandled(turns[..|turns| - 1]) + Handled(turns[|turns| - 1].events)
  }

  // The configured maximum

  /** The last maximum asked for that is not negative, or 0. */
  ghost function LastMax(cmds: seq<Command>): int {
    if |cmds| == 0 then 0
    else
      match cmds[|cmds| - 1]
      case ConfigSetMax(max) => if max >= 0 then max else LastMax(cmds[..|cmds| - 1])
      case _ => LastMax(cmds[..|cmds| - 1])
  }

  lemma {:induction false} HandleMax(s: Server, cmds: seq<Command>, cmd: Command, time: int)
    requires s.max == LastMax(cmds)
    ensures Handle(s, cmd, time).max == LastMax(cmds + [cmd])
  {
    hide Z.Step;
    assert (cmds + [cmd])[..|cmds|] == cmds;
  }

  lemma {:induction false} BatchMax(s: Server, events: seq<Event>, cmds: seq<Command>)
    requires s.max == LastMax(cmds)
    ensures Batch(s, events).max == LastMax(cmds + Handled(events))
    decreases |events|
  {
    hide Handle, LastMax;
    if |events| == 0 {
      assert cmds + Handled(events) == cmds;
    } else {
      match events[0]
      case Alarm => BatchMax(s.(timeout := true), events[1..], cmds);
      case Terminate => BatchMax(s.(stop := true), events[1..], cmds);
      case Connection => BatchMax(s, events[1..], cmds);
      case Request(cmd, time) =>
        HandleMax(s, cmds, cmd, time);
        if cmd.Exit? {
          assert cmds + Handled(events) == cmds + [cmd];
        } else {
          BatchMax(Handle(s, cmd, time), events[1..], cmds + [cmd]);
          assert cmds + [cmd] + Handled(events[1..]) == cmds + Handled(events);
        }
    }
  }

  lemma {:induction false} NothingAsked()
    ensures LastMax([]) == 0
  {
  }

  /** Over every run the maximum is the last one asked for that was not negative, or 0. */
  lemma {:induction false} MaxIsLastAsked(turns: seq<Input>)
    ensures Run(turns).max == LastMax(AllHandled(turns))
  {
    hide Batch, Handled, LastMax, Z.Step, T.Due, T.Keys;
    if |turns| > 0 {
      var init, last := turns[..|turns| - 1], turns[|turns| - 1];
      MaxIsLastAsked(init);
      BatchMax(Run(init), last.events, AllHandled(init));
    } else {
      assert AllHandled(turns) == [];
      NothingAsked();
    }
  }

  // The end of the loop

  /** The turn has an exit request or a termination signal. */
  ghost predicate Stops(events: seq<Event>) {
    exists i :: 0 <= i < |events| && (IsExit(events[i]) || events[i].Terminate?)
  }

  lemma {:induction false} HandleStop(s: Server, cmd: Command, time: int)
    ensures Handle(s, cmd, time).stop == (s.stop || cmd.Exit?)
  {
    hide Z.Step;
  }

  lemma {:induction false} StopsTail(events: seq<Event>)
    requires |events| > 0
    ensures Stops(events) <==> IsExit(events[0]) || events[0].Terminate? || Stops(events[1..])
  {
    if i :| 0 <= i < |events| && (IsExit(events[i]) || events[i].Terminate?) {
      assert i > 0 ==> events[1..][i - 1] == events[i];
    }
    if i :| 0 <= i < |events[1..]| && (IsExit(events[1..][i]) || events[1..][i].Terminate?) {
      assert events[i + 1] == events[1..][i];
    }
  }

  lemma {:induction false} StopsNever(events: seq<Event>)
    requires |events| == 0
    ensures !Stops(events)
  {
  }

  lemma {:induction false} BatchStop(s: Server, events: seq<Event>)
    ensures Batch(s, events).stop <==> s.stop || Stops(events)
    decreases |events|
  {
    hide Handle, Stops;
    if |events| == 0 {
      assert !Stops(events) by { StopsNever(events); }
    } else {
      StopsTail(events);
      match events[0]
      case Alarm => BatchStop(s.(timeout := true), events[1..]);
      case Terminate => BatchStop(s.(stop := true), events[1..]);
      case Connection => BatchStop(s, events[1..]);
      case Request(cmd, time) =>
        HandleStop(s, cmd, time);
        if !cmd.Exit? { BatchStop(Handle(s, cmd, time), events[1..]); }
    }
  }

  /** Over every run the loop is stopped if and only if some turn had an exit request or a termination
      signal. */
  lemma {:induction false} StopExact(turns: seq<Input>)
    ensures Run(turns).stop <==> exists i :: 0 <= i < |turns| && Stops(turns[i].events)
  {
    hide Batch, Stops, Z.Step, T.Due, T.Keys;
    if |turns| > 0 {
      var n := |turns| - 1;
      var init := turns[..n];
      StopExact(init);
      BatchStop(Run(init), turns[n].events);
      assert Run(turns).stop <==> Run(init).stop || Stops(turns[n].events);
      forall i | 0 <= i < n ensures init[i] == turns[i] {
      }
      if i :| 0 <= i < |turns| && Stops(turns[i].events) {
        assert i < n ==> Stops(init[i].events);
      }
    }
  }

  /** After n turns of which only the last may stop the loop. */
  lemma {:induction false} FirstStop(turns: seq<Input>, n: nat)
    requires n <= |turns| && forall i :: 0 <= i < n - 1 ==> !Stops(turns[i].events)
    ensures Run(turns[..n]).stop <==> n > 0 && Stops(turns[n - 1].events)
  {
    hide Run, Stops;
    StopExact(turns[..n]);
    assert forall i :: 0 <= i < n ==> turns[..n][i] == turns[i];
    if n > 0 && Stops(turns[n - 1].events) {
      assert Stops(turns[..n][n - 1].events);
    }
  }

  // The life of a set

  /** How a set came to be, and the calls on it since. */
  datatype Life = Life(max: int, ops: seq<Z.Op>)

  /** The set that leads to. */
  ghost function Lived(l: Life): Z.ZSet { ZRuns.Run(Z.Empty(l.max), l.ops) }

  /** A missing set is made by the first ZADD that names it, at the maximum then configured. */
  ghost function Birth(events: seq<Event>, key: Key, max: int): Option<Life> {
    if |events| == 0 then None
    else match events[0]
      case Request(cmd, _) =>
        if cmd.Exit? then None
        else if cmd.ZAdd? && cmd.key == key then Some(Life(max, OpsOn(events, key)))
        else Birth(events[1..], key, if cmd.ConfigSetMax? && cmd.max >= 0 then cmd.max else max)
      case _ => Birth(events[1..], key, max)
  }

  lemma {:induction false} HandleBirth(s: Server, cmd: Command, time: int, key: Key)
    requires key !in s.sets
    ensures var r := Handle(s, cmd, time);
      && r.max == (if cmd.ConfigSetMax? && cmd.max >= 0 then cmd.max else s.max)
      && (key in r.sets <==> cmd.ZAdd? && cmd.key == key)
      && (key in r.sets ==> r.sets[key] == ZRuns.Run(Z.Empty(s.max), OpOf(cmd, key)))
  {
    hide Z.Step;
    if cmd.ZAdd? && cmd.key == key {
      HandleOn(Opened(s, cmd), cmd, time, key);
      assert Handle(s, cmd, time) == Handle(Opened(s, cmd), cmd, time);
    }
  }

  lemma {:induction false} BatchBirth(s: Server, events: seq<Event>, key: Key)
    requires key !in s.sets
    ensures var r, b := Batch(s, events), Birth(events, key, s.max);
      (key in r.sets <==> b.Some?) && (key in r.sets ==> r.sets[key] == Lived(b.value))
    decreases |events|
  {
    hide Handle, OpOf, ZRuns.Run;
    if |events| > 0 {
      match events[0]
      case Alarm => BatchBirth(s.(timeout := true), events[1..], key);
      case Terminate => BatchBirth(s.(stop := true), events[1..], key);
      case Connection => BatchBirth(s, events[1..], key);
      case Request(cmd, time) =>
        HandleBirth(s, cmd, time, key);
        if !cmd.Exit? {
          var r := Handle(s, cmd, time);
          if key in r.sets {
            BatchOn(r, events[1..], key);
            ZRuns.RunConcat(Z.Empty(s.max), OpOf(cmd, key), OpsOn(events[1..], key));
          } else {
            BatchBirth(r, events[1..], key);
          }
        }
    }
  }

  /** The calls that end a turn on every set. */
  ghost function ConfigOps(b: Server): seq<Z.Op> {
    if b.update then [Z.SetMaxMemory(b.max)] else []
  }

  /** How the set of this key came to be, and the calls on it since, if there is one after these turns. */
  ghost function LifeOf(turns: seq<Input>, key: Key): Life {
    if |turns| == 0 then Life(0, [])
    else
      var init, last := turns[..|turns| - 1], turns[|turns| - 1];
      var s := Run(init);
      if key in s.sets then
        var l := LifeOf(init, key);
        Life(l.max, l.ops + TurnOps(s, last, key))
      else
        var b := Birth(last.events, key, s.max);
        if b.Some? then Life(b.value.max, b.value.ops + ConfigOps(Batch(s, last.events))) else Life(0, [])
  }

  lemma {:induction false} TurnBirth(s: Server, input: Input, key: Key)
    requires key !in s.sets && key in Turn(s, input.events, input.now).sets
    ensures var b := Birth(input.events, key, s.max);
      b.Some? && Turn(s, input.events, input.now).sets[key] ==
        Lived(Life(b.value.max, b.value.ops + ConfigOps(Batch(s, input.events))))
  {
    hide Batch, Z.Step, Birth, T.Due, T.Keys;
    BatchBirth(s, input.events, key);
    var b, r := Birth(input.events, key, s.max).value, Batch(s, input.events);
    if r.update {
      ZRuns.RunSnoc(Z.Empty(b.max), b.ops, Z.SetMaxMemory(r.max));
    } else {
      assert b.ops + [] == b.ops;
    }
  }

  /** Over every run a set is what its own requests since it was made, and the changes of the
      configuration, make of an empty one. */
  lemma {:induction false} SetIsItsLife(turns: seq<Input>, key: Key)
    requires key in Run(turns).sets
    ensures Run(turns).sets[key] == Lived(LifeOf(turns, key))
  {
    hide Turn, TurnOps, Birth, ConfigOps, ZRuns.Run;
    assert |turns| > 0;
    var init, last := turns[..|turns| - 1], turns[|turns| - 1];
    if key in Run(init).sets {
      SetIsItsLife(init, key);
      TurnOn(Run(init), last, key);
      var l := LifeOf(init, key);
      ZRuns.RunConcat(Z.Empty(l.max), l.ops, TurnOps(Run(init), last, key));
    } else {
      TurnBirth(Run(init), last, key);
    }
  }

  // Replies without a positive maximum

  /** No request asks for a positive maximum. */
  ghost predicate Unbounded(cmds: seq<Command>) {
    forall i :: 0 <= i < |cmds| && cmds[i].ConfigSetMax? ==> cmds[i].max <= 0
  }

  lemma {:induction false} UnboundedMax(cmds: seq<Command>)
    requires Unbounded(cmds)
    ensures LastMax(cmds) == 0
  {
    if |cmds| > 0 {
      UnboundedMax(cmds[..|cmds| - 1]);
    }
  }

  lemma {:induction false} UnboundedParts(a: seq<Command>, b: seq<Command>)
    requires Unbounded(a + b)
    ensures Unbounded(a) && Unbounded(b)
  {
    assert forall i :: 0 <= i < |a| ==> a[i] == (a + b)[i];
    assert forall i :: 0 <= i < |b| ==> b[i] == (a + b)[|a| + i];
  }

  /** No call sets a positive capacity. */
  ghost predicate Uncapped(ops: seq<Z.Op>) {
    forall op :: op in ops && op.SetMaxMemory? ==> op.max <= 0
  }

  lemma {:induction false} OpsOnUncapped(events: seq<Event>, key: Key)
    ensures Uncapped(OpsOn(events, key))
  {
    if |events| > 0 {
      OpsOnUncapped(events[1..], key);
    }
  }

  lemma {:induction false} BirthUncapped(events: seq<Event>, key: Key, max: int)
    requires max <= 0 && Unbounded(Handled(events)) && Birth(events, key, max).Some?
    ensures Birth(events, key, max).value.max <= 0 && Uncapped(Birth(events, key, max).value.ops)
  {
    hide Uncapped;
    OpsOnUncapped(events, key);
    if |events| > 0 && !IsExit(events[0]) {
      if events[0].Request? {
        var cmd := events[0].cmd;
        UnboundedParts([cmd], Handled(events[1..]));
        assert [cmd][0] == cmd;
        if !(cmd.ZAdd? && cmd.key == key) {
          BirthUncapped(events[1..], key, if cmd.ConfigSetMax? && cmd.max >= 0 then cmd.max else max);
        }
      } else {
        BirthUncapped(events[1..], key, max);
      }
    }
  }

  lemma {:induction false} LifeUncapped(turns: seq<Input>, key: Key)
    requires Unbounded(AllHandled(turns)) && key in Run(turns).sets
    ensures LifeOf(turns, key).max <= 0 && Uncapped(LifeOf(turns, key).ops)
  {
    hide Turn, Batch, Birth, Unbounded, Handled, LastMax, OpsOn;
    assert |turns| > 0;
    var init, last := turns[..|turns| - 1], turns[|turns| - 1];
    var s := Run(init);
    UnboundedParts(AllHandled(init), Handled(last.events));
    UnboundedMax(AllHandled(init));
    UnboundedMax(AllHandled(turns));
    MaxIsLastAsked(init);
    BatchMax(s, last.events, AllHandled(init));
    OpsOnUncapped(last.events, key);
    if key in s.sets {
      LifeUncapped(init, key);
    } else {
      TurnBirth(s, last, key);
      BirthUncapped(last.events, key, s.max);
    }
  }

  /** As long as nobody asks for a positive maximum, the replies are those of a plain map of the
      insertions and deletions since the set was made. */
  lemma {:induction false} PlainReplies(turns: seq<Input>, key: Key, member: Key, score: int)
    requires Unbounded(AllHandled(turns)) && key in Run(turns).sets
    ensures var s, m := Run(turns), ZRuns.PlainRun(LifeOf(turns, key).ops);
      && Answer(s, ZCard(key, true)) == Number(|m|)
      && Answer(s, ZScore(key, Some(member))) == Number(if member in m then m[member] else -1)
      && Answer(s, ZRem(key, Some(member))) == Number(if member in m then 1 else 0)
      && Answer(s, ZAdd(key, Some((score, member)))) == Number(if member in m then 0 else 1)
  {
    hide Run, LifeOf, Z.Step, ZRuns.PlainRun, ZRuns.Run, Unbounded;
    SetIsItsLife(turns, key);
    LifeUncapped(turns, key);
    ZRuns.UnboundedIsMap(LifeOf(turns, key).ops);
  }

  // Replies against each other

  lemma {:induction false} DeletedFromNone(max: int, member: Key)
    ensures Z.Result(Z.Empty(max), Z.Delete(member)) == 0
  {
  }

  /** ZCARD after ZREM is less by what ZREM replied; ZADD and ZREM of the same member reply contraries. */
  lemma {:induction false} RemLowersCard(s: Server, key: Key, member: Key, score: int, time: int)
    ensures var card := ZCard(key, true);
      var rem := ZRem(key, Some(member));
      var n, r, a := Answer(s, card), Answer(s, rem), Answer(s, ZAdd(key, Some((score, member))));
      && n.Number? && r.Number? && Answer(Handle(s, rem, time), card) == Number(n.n - r.n)
      && a == Number(1 - r.n)
  {
    hide Z.Step, Z.Result;
    if key in s.sets {
      ZRuns.ResultsByEffect(s.sets[key], member, score);
    } else {
      ZRuns.ResultsByEffect(Z.Empty(s.max), member, score);
      DeletedFromNone(s.max, member);
    }
  }

  /** A key without a set is answered as if it had an empty one, and ZADD makes that one. */
  lemma {:induction false} MissingIsEmpty(s: Server, key: Key, member: Key, time: int)
    requires key !in s.sets
    ensures var t := s.(sets := s.sets[key := Z.Empty(s.max)]);
      && Answer(s, ZCard(key, true)) == Answer(t, ZCard(key, true)) == Number(0)
      && Answer(s, ZRem(key, Some(member))) == Answer(t, ZRem(key, Some(member)))
      && Answer(s, ZScore(key, Some(member))) == Answer(t, ZScore(key, Some(member)))
      && Handle(s, ZAdd(key, None), time) == t
  {
  }

  /** CONFIG SET replies 0 if and only if the maximum is then the one asked for, and else 1; EXPIRE
      replies by how much the queue grows. */
  lemma {:induction false} RepliesByEffect(s: Server, max: int, key: Key, seconds: int, time: int)
    requires s.max >= 0
    ensures var config := ConfigSetMax(max);
      Answer(s, config) == Number(if Handle(s, config, time).max == max then 0 else 1)
    ensures var expire := Expire(key, seconds);
      Answer(s, expire) == Number(|Handle(s, expire, time).queue| - |s.queue|)
  {
  }

  lemma {:induction false} AnswersCount(s: Server, events: seq<Event>)
    ensures |Answers(s, events)| == |Handled(events)|
    decreases |events|
  {
    hide Handle, Answer;
    if |events| > 0 {
      match events[0]
      case Alarm => AnswersCount(s.(timeout := true), events[1..]);
      case Terminate => AnswersCount(s.(stop := true), events[1..]);
      case Connection => AnswersCount(s, events[1..]);
      case Request(cmd, time) => if !cmd.Exit? { AnswersCount(Handle(s, cmd, time), events[1..]); }
    }
  }

  /** In a turn each request before an exit gets one reply: the answer in the state that the events
      before it have led to. */
  lemma {:induction false} AnswerInTurn(s: Server, before: seq<Event>, cmd: Command, time: int, after: seq<Event>)
    requires forall i :: 0 <= i < |before| ==> !IsExit(before[i])
    ensures var events := before + [Request(cmd, time)] + after;
      var i := |Handled(before)|;
      && |Answers(s, events)| == |Handled(events)| && i < |Answers(s, events)|
      && Handled(events)[i] == cmd && Answers(s, events)[i] == Answer(Batch(s, before), cmd)
    decreases |before|
  {
    hide Handle, Answer;
    var events := before + [Request(cmd, time)] + after;
    AnswersCount(s, events);
    if |before| == 0 {
      assert events == [Request(cmd, time)] + after;
    } else {
      assert events[0] == before[0] && events[1..] == before[1..] + [Request(cmd, time)] + after;
      match before[0]
      case Alarm => AnswerInTurn(s.(timeout := true), before[1..], cmd, time, after);
      case Terminate => AnswerInTurn(s.(stop := true), before[1..], cmd, time, after);
      case Connection => AnswerInTurn(s, before[1..], cmd, time, after);
      case Request(c, t) => AnswerInTurn(Handle(s, c, t), before[1..], cmd, time, after);
    }
  }

  /** The number of arguments is wrong, or the command is not known, and that is noticed: only CONFIG,
      EXPIRE and ZADD look at their arguments before they look for the set. */
  ghost predicate Malformed(s: Server, cmd: Command) {
    match cmd
    case ConfigUsage => true
    case ExpireUsage => true
    case ZAdd(_, entry) => entry.None?
    case ZScore(key, member) => member.None? && key in s.sets
    case ZRem(key, member) => member.None? && key in s.sets
    case ZCard(key, ok) => !ok && key in s.sets
    case ZDis(key, ok) => !ok && key in s.sets
    case Unknown(key) => key in s.sets
    case _ => false
  }

  /** Which requests get which kind of reply: only EXIT and a CONFIG of something else than the maximum get
      none. */
  lemma {:induction false} ReplyKinds(s: Server, cmd: Command)
    ensures Answer(s, cmd) == Silent <==> cmd.Exit? || cmd.ConfigSetOther? || cmd.ConfigOther?
    ensures Answer(s, cmd) == Usage <==> Malformed(s, cmd)
    ensures Answer(s, cmd) == Done <==> cmd.Save?
    ensures Answer(s, cmd) == Blank <==> cmd.ZDis? && cmd.key !in s.sets
    ensures cmd.ZDis? && Answer(s, cmd).Number? ==> Answer(s, cmd) == Number(1)
    ensures cmd.Unknown? && Answer(s, cmd).Number? ==> Answer(s, cmd) == Number(-1)
  {
  }

  /** ZSCORE and ZADD make a tracked member the most recent of its set, so the last to be evicted. */
  lemma {:induction false} RequestsTouch(s: Server, key: Key, member: Key, time: int)
    requires key in s.sets && member in s.sets[key].order && member in s.sets[key].scores
    ensures var score := s.sets[key].scores[member];
      && Handle(s, ZScore(key, Some(member)), time).sets[key].order[..1] == [member]
      && Handle(s, ZAdd(key, Some((score, member))), time).sets[key].order[..1] == [member]
  {
  }
}
