/** Dumping a sorted set and loading the dump into a fresh one. */
module DumpRuns {
  import opened Seqs
  import opened Order
  import opened DumpText
  import opened Numbers
  import L = LruModel
  import Z = ZSet
  import Runs = ZSetRuns

  function Members(c: seq<Entry>): (r: seq<Key>)
    ensures |r| == |c| && forall i :: 0 <= i < |c| ==> r[i] == c[i].ele
  {
    seq(|c|, i requires 0 <= i < |c| => c[i].ele)
  }

  /** The scores of a sequence of entries with distinct members. */
  ghost function ScoresOf(c: seq<Entry>): map<Key, int> {
    if |c| == 0 then map[] else ScoresOf(c[..|c| - 1])[c[|c| - 1].ele := c[|c| - 1].score]
  }

  lemma {:induction false} ScoresOfIs(c: seq<Entry>)
    requires Distinct(Members(c))
    ensures ScoresOf(c).Keys == Elems(Members(c))
    ensures forall i :: 0 <= i < |c| ==> c[i].ele in ScoresOf(c) && ScoresOf(c)[c[i].ele] == c[i].score
  {
    if |c| > 0 {
      var n := |c| - 1;
      assert Members(c[..n]) == Members(c)[..n];
      assert Members(c) == Members(c)[..n] + [c[n].ele];
      SplitDistinct(Members(c), n);
      ScoresOfIs(c[..n]);
      forall i | 0 <= i < |c|
        ensures c[i].ele in ScoresOf(c) && ScoresOf(c)[c[i].ele] == c[i].score
      {
        if i < n { assert c[..n][i] == c[i]; }
      }
    }
  }

  /** The entries that stay: all of them without a capacity, else the last `capacity` ones. */
  function Kept(c: seq<Entry>, capacity: nat): seq<Entry> {
    if 0 < capacity < |c| then c[|c| - capacity..] else c
  }

  /** The sorted set that holds just these entries, inserted in this order. */
  ghost function Holding(c: seq<Entry>, capacity: nat): Z.ZSet {
    Z.ZSet(ScoresOf(c), L.Reversed(Members(c)), [], capacity)
  }

  lemma {:induction false} HoldingValid(c: seq<Entry>, capacity: nat)
    requires Distinct(Members(c)) && (capacity > 0 ==> |c| <= capacity)
    ensures Z.Valid(Holding(c, capacity))
    ensures Elems(L.Reversed(Members(c))) == Elems(Members(c))
  {
    ScoresOfIs(c);
    var m := Members(c);
    forall x | x in m ensures x in L.Reversed(m) {
      var i :| 0 <= i < |m| && m[i] == x;
      assert L.Reversed(m)[|m| - 1 - i] == x;
    }
  }

  /** Equal entries, equal scores. */
  lemma {:induction false} ScoreAt(c: seq<Entry>, t: seq<Entry>, k: Key)
    requires Distinct(Members(c)) && Distinct(Members(t)) && k in Members(t)
    requires forall e :: e in t ==> e in c
    ensures k in ScoresOf(t) && k in ScoresOf(c) && ScoresOf(c)[k] == ScoresOf(t)[k]
  {
    var i :| 0 <= i < |t| && Members(t)[i] == k;
    assert t[i] in c;
    var j :| 0 <= j < |c| && c[j] == t[i];
    ScoresOfIs(c);
    ScoresOfIs(t);
  }

  lemma {:induction false} ScoresOfTail(c: seq<Entry>)
    requires Distinct(Members(c)) && |c| > 0
    ensures Distinct(Members(c[1..])) && ScoresOf(c[1..]) == ScoresOf(c) - {c[0].ele}
  {
    hide ScoresOf, Distinct;
    var m, t := Members(c), c[1..];
    assert Members(t) == m[1..];
    SplitDistinct(m, 1);
    assert m[..1] == [c[0].ele];
    ScoresOfIs(c);
    ScoresOfIs(t);
    forall k | k in ScoresOf(t)
      ensures k in ScoresOf(c) && ScoresOf(c)[k] == ScoresOf(t)[k]
    {
      ScoreAt(c, t, k);
    }
  }

  lemma {:induction false} NewMember(k: seq<Entry>, e: Entry)
    requires Distinct(Members(k + [e]))
    ensures Distinct(Members(k)) && e.ele !in Members(k) && e.ele !in ScoresOf(k)
    ensures ScoresOf(k + [e]) == ScoresOf(k)[e.ele := e.score]
    ensures L.Reversed(Members(k + [e])) == [e.ele] + L.Reversed(Members(k))
  {
    var m := Members(k);
    assert Members(k + [e]) == m + [e.ele];
    assert (m + [e.ele])[..|m|] == m && (m + [e.ele])[|m|] == e.ele;
    SplitDistinct(m + [e.ele], |m|);
    assert e.ele !in m;
    ScoresOfIs(k);
    assert (k + [e])[..|k|] == k;
    L.ReversedSnoc(m, e.ele);
  }

  lemma {:induction false} LoadFull(k: seq<Entry>, e: Entry)
    requires |k| > 0 && Distinct(Members(k)) && e.ele !in Members(k)
    ensures var n := |k| - 1; var order := L.Reversed(Members(k));
      && order[n] == k[0].ele
      && [e.ele] + order[..n] == L.Reversed(Members(k[1..] + [e]))
      && ScoresOf(k)[e.ele := e.score] - {k[0].ele} == ScoresOf(k[1..] + [e])
  {
    ScoresOfTail(k);
    assert (k[1..] + [e])[..|k| - 1] == k[1..];
    assert Members(k)[0] != e.ele;
  }

  /** A new member goes in front; a full set gives up its first entry. */
  lemma {:induction false} LoadOne(k: seq<Entry>, e: Entry, capacity: nat)
    requires Distinct(Members(k + [e])) && (capacity > 0 ==> |k| <= capacity)
    ensures Z.Step(Holding(k, capacity), Z.Insert(e.ele, e.score)) ==
      Holding(if 0 < capacity == |k| then k[1..] + [e] else k + [e], capacity)
  {
    hide Drop, Distinct, ScoresOf, L.Reversed, Z.Valid;
    var z := Holding(k, capacity);
    var m := Members(k);
    NewMember(k, e);
    HoldingValid(k, capacity);
    assert e.ele !in z.order by { assert e.ele !in Elems(z.order); }
    DropNone(z.order, {e.ele});
    Z.InsertOrder(z, e.ele);
    var victim := L.Victim(z.order, capacity);
    assert Elems(z.pending) + victim == victim;
    DropConcat([e.ele], z.order, victim);
    DropNone([e.ele], victim);
    if 0 < capacity == |k| {
      LoadFull(k, e);
      assert victim == {k[0].ele};
    } else {
      DropNone(z.order, {});
      assert z.scores[e.ele := e.score] - {} == z.scores[e.ele := e.score];
    }
  }

  lemma {:induction false} KeptTail(c: seq<Entry>, capacity: nat)
    requires |c| > 0
    ensures var n := |c| - 1; var k := Kept(c[..n], capacity);
      && |k| <= n && k + [c[n]] == c[n - |k|..] && (capacity > 0 ==> |k| <= capacity)
      && Kept(c, capacity) == if 0 < capacity == |k| then k[1..] + [c[n]] else k + [c[n]]
  {
  }

  lemma {:induction false} KeptGrows(c: seq<Entry>, capacity: nat)
    requires Distinct(Members(c)) && |c| > 0
    ensures var k, e := Kept(c[..|c| - 1], capacity), c[|c| - 1];
      && Distinct(Members(k + [e])) && (capacity > 0 ==> |k| <= capacity)
      && Kept(c, capacity) == if 0 < capacity == |k| then k[1..] + [e] else k + [e]
    ensures Distinct(Members(c[..|c| - 1])) && InsertAll(c[..|c| - 1]) == InsertAll(c)[..|c| - 1]
  {
    hide Distinct, Kept;
    var n := |c| - 1;
    var k := Kept(c[..n], capacity);
    KeptTail(c, capacity);
    assert Members(c[..n]) == Members(c)[..n];
    assert Members(c[n - |k|..]) == Members(c)[n - |k|..];
    SplitDistinct(Members(c), n - |k|);
    SplitDistinct(Members(c), n);
  }

  lemma {:induction false} NothingKept(c: seq<Entry>, capacity: nat)
    requires c == []
    ensures Holding(Kept(c, capacity), capacity) == Z.Empty(capacity) && InsertAll(c) == []
  {
    assert L.Reversed(Members(c)) == [];
  }

  /** Inserting distinct entries one by one into a fresh set keeps the last ones. */
  lemma {:induction false} InsertAllKeepsLast(c: seq<Entry>, capacity: nat)
    requires Distinct(Members(c))
    ensures Runs.Run(Z.Empty(capacity), InsertAll(c)) == Holding(Kept(c, capacity), capacity)
  {
    hide Kept, Holding, Distinct, Members, Z.Step, Z.Empty, InsertAll;
    if |c| == 0 {
      NothingKept(c, capacity);
    } else {
      KeptGrows(c, capacity);
      InsertAllKeepsLast(c[..|c| - 1], capacity);
      LoadOne(Kept(c[..|c| - 1], capacity), c[|c| - 1], capacity);
    }
  }

  /** Dump, then load into a fresh set of any capacity: the entries kept are the largest ones. */
  lemma {:induction false} LoadOfDump(c: seq<Entry>, capacity: nat)
    requires Distinct(Members(c))
    requires forall e :: e in c ==> Clean(e.ele) && IsInt32(e.score)
    ensures Runs.Run(Z.Empty(capacity), LoadOps(Text(c))) == Holding(Kept(c, capacity), capacity)
  {
    DumpReads(c, "", "");
    InsertAllKeepsLast(c, capacity);
  }

  lemma {:induction false} LoadedMembers(z: Z.ZSet, ops: seq<Z.Op>, k: Key)
    requires k !in z.scores && forall op :: op in ops ==> op.Insert? && op.ele != k
    ensures k !in Runs.Run(z, ops).scores
  {
    if |ops| > 0 {
      assert ops[|ops| - 1] in ops;
      LoadedMembers(z, ops[..|ops| - 1], k);
    }
  }

  // Entries that displace whatever was loaded before them

  /** The entries of c were inserted last: they are in front, with their scores. */
  ghost predicate InFront(z: Z.ZSet, c: seq<Entry>) {
    && Z.Valid(z) && z.pending == []
    && |c| <= |z.order| && z.order[..|c|] == L.Reversed(Members(c))
    && (forall e :: e in c ==> e.ele in z.scores && z.scores[e.ele] == e.score)
  }

  /** Taking a key out behind the first n does not move those. */
  lemma {:induction false} DropBehind(s: seq<Key>, n: nat, k: Key)
    requires n <= |s| && k !in s[..n]
    ensures n <= |Drop(s, {k})| && Drop(s, {k})[..n] == s[..n]
  {
    assert s == s[..n] + s[n..];
    DropConcat(s[..n], s[n..], {k});
    DropNone(s[..n], {k});
  }

  /** Nor does an eviction, if they leave room for one more. */
  lemma {:induction false} RoomBehind(s: seq<Key>, n: nat, capacity: nat)
    requires Distinct(s) && n <= |s| && (capacity > 0 ==> n < capacity && |s| <= capacity)
    ensures var r := Drop(s, L.Victim(s, capacity)); n <= |r| && r[..n] == s[..n]
    ensures forall k :: k in s[..n] ==> k !in L.Victim(s, capacity)
  {
    if 0 < capacity == |s| {
      DropLast(s);
      assert s[..|s| - 1][..n] == s[..n];
    } else {
      DropNone(s, {});
    }
  }

  /** An insertion goes before them. */
  lemma {:induction false} FrontOrder(z: Z.ZSet, n: nat, ele: Key, score: int)
    requires Z.Valid(z) && z.pending == [] && n <= |z.order| && ele !in z.order[..n]
    requires z.capacity > 0 ==> n < z.capacity
    ensures var y := Z.Step(z, Z.Insert(ele, score));
      && n + 1 <= |y.order| && y.order[..n + 1] == [ele] + z.order[..n] && y.pending == []
      && (forall k :: k in z.order[..n] && k in z.scores ==> k in y.scores && y.scores[k] == z.scores[k])
      && ele in y.scores && y.scores[ele] == score
  {
    hide Drop, Distinct, L.Victim;
    var rest := Drop(z.order, {ele});
    DropBehind(z.order, n, ele);
    if Runs.Same(z, ele, score) {
      assert ele in Elems(z.order);
    } else {
      var victim := L.Victim(rest, z.capacity);
      Z.InsertOrder(z, ele);
      RoomBehind(rest, n, z.capacity);
      assert Elems([]) + victim == victim;
      DropConcat([ele], rest, victim);
      DropNone([ele], victim);
    }
  }

  lemma {:induction false} FrontStep(z: Z.ZSet, c: seq<Entry>, e: Entry)
    requires InFront(z, c) && Distinct(Members(c + [e])) && (z.capacity > 0 ==> |c| < z.capacity)
    ensures InFront(Z.Step(z, Z.Insert(e.ele, e.score)), c + [e])
    ensures Z.Step(z, Z.Insert(e.ele, e.score)).capacity == z.capacity
  {
    hide Z.Valid, Drop, Distinct, ScoresOf;
    NewMember(c, e);
    Z.StepValid(z, Z.Insert(e.ele, e.score));
    assert e.ele !in z.order[..|c|];
    FrontOrder(z, |c|, e.ele, e.score);
    forall d | d in c
      ensures d.ele in z.order[..|c|]
    {
      var i :| 0 <= i < |c| && c[i] == d;
      assert L.Reversed(Members(c))[|c| - 1 - i] == d.ele;
    }
  }

  /** Inserting no more than `capacity` distinct entries puts them in front, whatever was there. */
  lemma {:induction false} FrontRun(z: Z.ZSet, c: seq<Entry>)
    requires Z.Valid(z) && z.pending == [] && Distinct(Members(c)) && (z.capacity > 0 ==> |c| <= z.capacity)
    ensures InFront(Runs.Run(z, InsertAll(c)), c) && Runs.Run(z, InsertAll(c)).capacity == z.capacity
  {
    hide Z.Valid, Z.Step, Distinct;
    if |c| == 0 {
      assert z.order[..0] == L.Reversed(Members(c));
    } else {
      var n := |c| - 1;
      assert c == c[..n] + [c[n]];
      NewMember(c[..n], c[n]);
      FrontRun(z, c[..n]);
      assert InsertAll(c)[..n] == InsertAll(c[..n]);
      FrontStep(Runs.Run(z, InsertAll(c[..n])), c[..n], c[n]);
    }
  }

  /** As many as fit: nothing else is left. */
  lemma {:induction false} FrontIsAll(z: Z.ZSet, c: seq<Entry>)
    requires InFront(z, c) && Distinct(Members(c)) && 0 < z.capacity == |c|
    ensures z == Holding(c, z.capacity)
  {
    hide Distinct, ScoresOf, L.Reversed;
    assert z.order[..|c|] == z.order;
    ScoresOfIs(c);
    HoldingValid(c, z.capacity);
    assert z.scores.Keys == Elems(z.order) + Elems([]) == ScoresOf(c).Keys;
    forall k | k in z.scores
      ensures ScoresOf(c)[k] == z.scores[k]
    {
      var i :| 0 <= i < |c| && Members(c)[i] == k;
      assert c[i] in c;
    }
  }

  lemma {:induction false} InsertsLeaveNothingPending(capacity: nat, ops: seq<Z.Op>)
    requires forall op :: op in ops ==> op.Insert?
    ensures var z := Runs.Run(Z.Empty(capacity), ops); z.pending == [] && z.capacity == capacity
  {
    if |ops| > 0 {
      assert ops[|ops| - 1] in ops;
      InsertsLeaveNothingPending(capacity, ops[..|ops| - 1]);
    }
  }

  lemma {:induction false} LoadsAreInserts(text: string)
    ensures forall op :: op in LoadOps(text) ==> op.Insert? && Clean(op.ele)
  {
    LinesHaveNoNewline(text);
    LoadsAreClean(Lines(text), "", "");
  }

  /** If the entries that fit are clean, the others do not matter. */
  lemma {:induction false} LoadOfLast(c: seq<Entry>, capacity: nat)
    requires Distinct(Members(c))
    requires forall e :: e in Kept(c, capacity) ==> Clean(e.ele) && IsInt32(e.score)
    ensures Runs.Run(Z.Empty(capacity), LoadOps(Text(c))) == Holding(Kept(c, capacity), capacity)
  {
    hide Distinct, Z.Valid, Z.Step, LoadOps, Text, InsertAll, Clean, IsInt32, Holding, InFront;
    if 0 < capacity < |c| {
      var n := |c| - capacity;
      var a, b := c[..n], c[n..];
      assert c == a + b && Members(b) == Members(c)[n..];
      SplitDistinct(Members(c), n);
      DumpReadsLast(a, b);
      var z := Runs.Run(Z.Empty(capacity), LoadOps(Text(a)));
      LoadsAreInserts(Text(a));
      InsertsLeaveNothingPending(capacity, LoadOps(Text(a)));
      Runs.EmptyValid(capacity);
      Runs.RunValid(Z.Empty(capacity), LoadOps(Text(a)));
      Runs.RunConcat(Z.Empty(capacity), LoadOps(Text(a)), InsertAll(b));
      FrontRun(z, b);
      FrontIsAll(Runs.Run(z, InsertAll(b)), b);
    } else {
      LoadOfDump(c, capacity);
    }
  }

  lemma {:induction false} KeptDistinct(c: seq<Entry>, capacity: nat)
    requires Distinct(Members(c))
    ensures Distinct(Members(Kept(c, capacity)))
  {
    var k := Kept(c, capacity);
    assert Members(k) == Members(c)[|c| - |k|..];
  }

  /** Loading a dump into a fresh set of any capacity gives the largest entries that fit, and only them,
      if and only if none of those has a member that is empty or holds a ':' or a newline. */
  lemma {:induction false} RoundTrip(c: seq<Entry>, capacity: nat)
    requires Distinct(Members(c)) && forall e :: e in c ==> IsInt32(e.score)
    ensures Runs.Run(Z.Empty(capacity), LoadOps(Text(c))).scores == ScoresOf(Kept(c, capacity)) <==>
      forall e :: e in Kept(c, capacity) ==> Clean(e.ele)
  {
    hide LoadOps, Text, Clean, IsInt32, Distinct, ScoresOf;
    var k := Kept(c, capacity);
    assert forall e :: e in k ==> e in c;
    if forall e :: e in k ==> Clean(e.ele) {
      LoadOfLast(c, capacity);
    } else {
      var e :| e in k && !Clean(e.ele);
      LoadsAreInserts(Text(c));
      LoadedMembers(Z.Empty(capacity), LoadOps(Text(c)), e.ele);
      KeptDistinct(c, capacity);
      ScoresOfIs(k);
      var i :| 0 <= i < |k| && k[i] == e;
      assert e.ele in ScoresOf(k);
    }
  }
}
