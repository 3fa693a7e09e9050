/** The expiry queue over whole runs of pushes and ticks. */
module TimerRuns {
  import opened Seqs
  import opened Timer

  /** The time is that of the call; a pushed key is due `timeout` later. */
  datatype Event = Push(key: Key, timeout: int, time: int) | Tick(time: int)

  /** Everything pushed, in order. */
  ghost function Pushed(evs: seq<Event>): seq<Item> {
    if |evs| == 0 then []
    else
      var before := Pushed(evs[..|evs| - 1]);
      match evs[|evs| - 1]
      case Push(key, timeout, time) => before + [Item(key, time + timeout)]
      case Tick(_) => before
  }

  /** What is queued after the events. */
  ghost function Queued(evs: seq<Event>): seq<Item> {
    if |evs| == 0 then []
    else
      var q := Queued(evs[..|evs| - 1]);
      match evs[|evs| - 1]
      case Push(key, timeout, time) => q + [Item(key, time + timeout)]
      case Tick(time) => q[Due(q, time)..]
  }

  lemma {:induction false} QueuedPush(evs: seq<Event>, key: Key, timeout: int, time: int)
    ensures Queued(evs + [Push(key, timeout, time)]) == Queued(evs) + [Item(key, time + timeout)]
  {
    assert (evs + [Push(key, timeout, time)])[..|evs|] == evs;
  }

  /** What all ticks have fired, in order. */
  ghost function Fired(evs: seq<Event>): seq<Key> {
    if |evs| == 0 then []
    else
      var q := Queued(evs[..|evs| - 1]);
      match evs[|evs| - 1]
      case Push(_, _, _) => Fired(evs[..|evs| - 1])
      case Tick(time) => Fired(evs[..|evs| - 1]) + Keys(q)[..Due(q, time)]
  }

  /** The clock never goes back. */
  ghost predicate Monotone(evs: seq<Event>) {
    forall i, j :: 0 <= i < j < |evs| ==> evs[i].time <= evs[j].time
  }

  lemma {:induction false} PushConserves(pushed: seq<Item>, n: nat, item: Item)
    requires n <= |pushed|
    ensures Keys(pushed + [item])[..n] == Keys(pushed)[..n]
    ensures (pushed + [item])[n..] == pushed[n..] + [item]
  {
    assert Keys(pushed + [item]) == Keys(pushed) + [item.key];
  }

  lemma {:induction false} TickConserves(pushed: seq<Item>, n: nat, m: nat)
    requires n + m <= |pushed|
    ensures Keys(pushed)[..n] + Keys(pushed[n..])[..m] == Keys(pushed)[..n + m]
    ensures pushed[n..][m..] == pushed[n + m..]
  {
  }

  /** Nothing is lost, duplicated or reordered: what has fired is a first part of what was pushed,
      and what is queued is the rest. */
  lemma {:induction false} Conservation(evs: seq<Event>)
    ensures var n := |Fired(evs)|;
      n <= |Pushed(evs)| && Fired(evs) == Keys(Pushed(evs))[..n] && Queued(evs) == Pushed(evs)[n..]
  {
    hide Keys, Due;
    if |evs| > 0 {
      var init := evs[..|evs| - 1];
      Conservation(init);
      match evs[|evs| - 1]
      case Push(key, timeout, time) =>
        PushConserves(Pushed(init), |Fired(init)|, Item(key, time + timeout));
      case Tick(time) =>
        TickConserves(Pushed(init), |Fired(init)|, Due(Queued(init), time));
    }
  }

  /** Skipping items that are due anyway does not change where the due items end. */
  lemma {:induction false} DueFrom(items: seq<Item>, n: nat, now: int)
    requires n <= |items| && forall k :: 0 <= k < n ==> items[k].expire <= now
    ensures n + Due(items[n..], now) == Due(items, now)
  {
    var m := n + Due(items[n..], now);
    assert m < |items| ==> items[n..][m - n] == items[m];
    assert forall k :: n <= k < m ==> items[n..][k - n] == items[k];
  }

  lemma {:induction false} TickFires(init: seq<Event>, time: int)
    requires forall k :: 0 <= k < |Fired(init)| && k < |Pushed(init)| ==> Pushed(init)[k].expire <= time
    ensures |Fired(init + [Tick(time)])| == Due(Pushed(init), time)
    ensures Pushed(init + [Tick(time)]) == Pushed(init)
  {
    Conservation(init);
    assert (init + [Tick(time)])[..|init|] == init;
    DueFrom(Pushed(init), |Fired(init)|, time);
  }

  /** Whatever has fired was due at the latest event. */
  lemma {:induction false} FiredWereDue(evs: seq<Event>)
    requires |evs| > 0 && Monotone(evs)
    ensures |Fired(evs)| <= |Pushed(evs)|
    ensures forall k :: 0 <= k < |Fired(evs)| ==> Pushed(evs)[k].expire <= evs[|evs| - 1].time
  {
    hide Keys, Due;
    var init := evs[..|evs| - 1];
    Conservation(evs);
    Conservation(init);
    if |init| > 0 {
      FiredWereDue(init);
      assert init[|init| - 1] == evs[|evs| - 2];
    }
    if evs[|evs| - 1].Tick? {
      TickFires(init, evs[|evs| - 1].time);
      assert init + [evs[|evs| - 1]] == evs;
    }
  }

  /** The deadline of item i and all earlier ones are over at `time`. */
  ghost predicate Passed(items: seq<Item>, i: nat, time: int) {
    forall j :: 0 <= j <= i && j < |items| ==> items[j].expire <= time
  }

  /** When a tick ends, an item has fired if and only if its deadline and all earlier pushed ones have
      passed: firing is never early, and is late exactly behind a later deadline. */
  lemma {:induction false} FiringExact(evs: seq<Event>, i: nat)
    requires |evs| > 0 && Monotone(evs) && evs[|evs| - 1].Tick? && i < |Pushed(evs)|
    ensures i < |Fired(evs)| <==> Passed(Pushed(evs), i, evs[|evs| - 1].time)
  {
    var init, t := evs[..|evs| - 1], evs[|evs| - 1].time;
    assert init + [Tick(t)] == evs;
    Conservation(init);
    if |init| > 0 {
      FiredWereDue(init);
      assert init[|init| - 1] == evs[|evs| - 2];
    }
    TickFires(init, t);
  }

  /** The keys that the last ticks have fired, after the first n. */
  lemma {:induction false} FiredSince(evs: seq<Event>, n: nat, key: Key)
    requires |evs| > 0 && Monotone(evs) && evs[|evs| - 1].Tick? && n <= |Fired(evs)|
    ensures key in Fired(evs)[n..] <==>
      exists i :: n <= i < |Pushed(evs)| && Pushed(evs)[i].key == key && Passed(Pushed(evs), i, evs[|evs| - 1].time)
  {
    hide Fired, Pushed, Passed, Monotone, Keys;
    var fired, pushed, time := Fired(evs), Pushed(evs), evs[|evs| - 1].time;
    Conservation(evs);
    assert forall i :: 0 <= i < |fired| ==> fired[i] == pushed[i].key;
    if key in fired[n..] {
      var i :| 0 <= i < |fired[n..]| && fired[n..][i] == key;
      FiringExact(evs, n + i);
      assert pushed[n + i].key == key;
    }
    if i :| n <= i < |pushed| && pushed[i].key == key && Passed(pushed, i, time) {
      FiringExact(evs, i);
      assert fired[n..][i - n] == key;
    }
  }

  /** With deadlines pushed in nondecreasing order, exactly the expired items have fired. */
  lemma {:induction false} SortedFiring(evs: seq<Event>, i: nat)
    requires |evs| > 0 && Monotone(evs) && evs[|evs| - 1].Tick? && i < |Pushed(evs)|
    requires forall j, k :: 0 <= j < k < |Pushed(evs)| ==> Pushed(evs)[j].expire <= Pushed(evs)[k].expire
    ensures i < |Fired(evs)| <==> Pushed(evs)[i].expire <= evs[|evs| - 1].time
  {
    FiringExact(evs, i);
  }

  /** Without that order an expired item can stay queued. */
  lemma {:induction false} LateFiring(a: Key, b: Key)
    ensures var evs := [Push(a, 10, 0), Push(b, 1, 0), Tick(5)];
      && Monotone(evs) && |Pushed(evs)| == 2 && Pushed(evs)[1].expire <= 5
      && Fired(evs) == []
  {
    var evs := [Push(a, 10, 0), Push(b, 1, 0), Tick(5)];
    assert evs[..1][..0] == [] && evs[..2][..1] == evs[..1];
    assert Fired(evs[..1]) == [] && Fired(evs[..2]) == [];
    assert Pushed(evs[..1]) == [Item(a, 10)] && Queued(evs[..1]) == [Item(a, 10)];
    assert Queued(evs[..2]) == [Item(a, 10), Item(b, 1)];
    assert Pushed(evs[..2]) == [Item(a, 10), Item(b, 1)];
  }

  /** The queue of timer.h, driven by any events, is this one. */
  method Play(evs: seq<Event>) returns (timer: Timer, fired: seq<Key>)
    ensures timer.Valid() && timer.Queue() == Queued(evs) && fired == Fired(evs)
  {
    hide Timer.Valid, Due;
    timer := new Timer();
    fired := [];
    for i := 0 to |evs|
      invariant timer.Valid() && fresh(timer.Repr)
      invariant timer.Queue() == Queued(evs[..i]) && fired == Fired(evs[..i])
    {
      assert evs[..i + 1][..i] == evs[..i];
      match evs[i] {
        case Push(key, timeout, time) =>
          var _ := timer.Push(key, timeout, time);
        case Tick(time) =>
          var keys := timer.Tick(time);
          fired := fired + keys;
      }
    }
    assert evs[..|evs|] == evs;
  }
}
