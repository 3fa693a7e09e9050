/** Skip lists over whole runs of calls: what every run, with any node heights, has in common. */
module SkipListRuns {
  import opened Seqs
  import opened Order
  import opened SkipList
  import D = DumpText
  import DumpRuns
  import N = Numbers
  import Runs = ZSetRuns
  import Z = ZSet

  method Call(list: SkipList, op: Z.Op) returns (r: int)
    requires list.Valid()
    modifies list.Repr
    ensures list.Valid() && fresh(list.Repr - old(list.Repr))
    ensures list.State() == Z.Step(old(list.State()), op) && r == Z.Result(old(list.State()), op)
  {
    match op
    case Insert(ele, score) => r := list.InsertElement(ele, score);
    case Delete(ele) => r := list.DeleteElement(ele);
    case Search(ele) => r := list.SearchElement(ele);
    case SetMaxMemory(max) => r := list.SetMaxMemory(max);
  }

  /** Any run of calls returns what the simple model returns and ends in its state. */
  method Run(list: SkipList, ops: seq<Z.Op>) returns (rs: seq<int>)
    requires list.Valid()
    modifies list.Repr
    ensures list.Valid() && fresh(list.Repr - old(list.Repr))
    ensures list.State() == Runs.Run(old(list.State()), ops) && rs == Runs.Results(old(list.State()), ops)
  {
    hide SkipList.Valid, Z.Step, Z.Result, Runs.Run, Runs.Results;
    Runs.RunNone(list.State());
    rs := [];
    for i := 0 to |ops|
      invariant list.Valid() && fresh(list.Repr - old(list.Repr))
      invariant list.State() == Runs.Run(old(list.State()), ops[..i]) && rs == Runs.Results(old(list.State()), ops[..i])
    {
      Runs.RunSnoc(old(list.State()), ops[..i], ops[i]);
      assert ops[..i + 1] == ops[..i] + [ops[i]];
      var r := Call(list, ops[i]);
      rs := rs + [r];
    }
    assert ops[..|ops|] == ops;
  }

  /** The state determines the level-0 order. */
  lemma {:induction false} SameContents(a: SkipList, b: SkipList)
    requires a.Valid() && b.Valid() && a.State().scores == b.State().scores
    ensures a.Contents() == b.Contents()
  {
    a.ContentsAreScores();
    b.ContentsAreScores();
    SortedUnique(a.Contents(), b.Contents());
  }

  /** Two lists in the same state, whatever the heights of their nodes, stay indistinguishable under
      any calls, whatever heights are drawn. */
  method HeightIndependence(a: SkipList, b: SkipList, ops: seq<Z.Op>) returns (ra: seq<int>, rb: seq<int>)
    requires a.Valid() && b.Valid() && a.Repr !! b.Repr && a.State() == b.State()
    modifies a.Repr, b.Repr
    ensures a.Valid() && b.Valid()
    ensures ra == rb && a.State() == b.State() && a.Contents() == b.Contents()
  {
    ra := Run(a, ops);
    rb := Run(b, ops);
    SameContents(a, b);
  }

  lemma {:induction false} ContentsDistinct(list: SkipList)
    requires list.Valid()
    ensures Distinct(DumpRuns.Members(list.Contents()))
  {
    list.ContentsAreScores();
    var c := list.Contents();
    forall i, j | 0 <= i < j < |c|
      ensures c[i].ele != c[j].ele
    {
      assert c[i] in c && c[j] in c;
      Asymmetric(c[i], c[j]);
    }
  }

  /** A list whose scores are those of a sorted sequence holds that sequence. */
  lemma {:induction false} HoldsSequence(list: SkipList, c: seq<Entry>)
    requires list.Valid() && Sorted(c) && Distinct(DumpRuns.Members(c))
    requires list.State().scores == DumpRuns.ScoresOf(c)
    ensures list.Contents() == c
  {
    list.ContentsAreScores();
    DumpRuns.ScoresOfIs(c);
    forall e: Entry
      ensures e in list.Contents() <==> e in c
    {
      if e in list.Contents() {
        var i :| 0 <= i < |c| && DumpRuns.Members(c)[i] == e.ele;
        assert c[i] == e;
      }
    }
    SortedUnique(list.Contents(), c);
  }

  lemma {:induction false} KeptSorted(c: seq<Entry>, capacity: nat)
    requires Sorted(c)
    ensures Sorted(DumpRuns.Kept(c, capacity))
  {
  }

  lemma {:induction false} ScoresUnique(s: map<Key, int>, c: seq<Entry>)
    requires Distinct(DumpRuns.Members(c))
    requires forall e: Entry :: e in c <==> e.ele in s && s[e.ele] == e.score
    ensures s == DumpRuns.ScoresOf(c)
  {
    hide DumpRuns.ScoresOf;
    DumpRuns.ScoresOfIs(c);
    var t := DumpRuns.ScoresOf(c);
    forall k | k in s
      ensures k in t && t[k] == s[k]
    {
      var e := Order.Entry(k, s[k]);
      assert e in c;
      var i :| 0 <= i < |c| && c[i] == e;
    }
    forall k | k in t
      ensures k in s
    {
      var i :| 0 <= i < |c| && DumpRuns.Members(c)[i] == k;
      assert c[i] in c;
    }
  }

  /** A text brings the scores back into an empty set if and only if all members are clean. */
  ghost predicate Restores(text: string, scores: map<Key, int>) {
    (forall k :: k in scores ==> N.IsInt32(scores[k])) ==>
      (Runs.Run(Z.Empty(0), D.LoadOps(text)).scores == scores <==> forall k :: k in scores ==> D.Clean(k))
  }

  lemma {:induction false} DumpRestores(list: SkipList)
    requires list.Valid()
    ensures Restores(D.Text(list.Contents()), list.State().scores)
  {
    hide SkipList.Valid, SkipList.Contents, SkipList.State, Runs.Run, D.LoadOps, D.Text, D.Clean, N.IsInt32;
    var c, scores := list.Contents(), list.State().scores;
    ContentsDistinct(list);
    list.ContentsAreScores();
    ScoresUnique(scores, c);
    if forall k :: k in scores ==> N.IsInt32(scores[k]) {
      DumpRuns.RoundTrip(c, 0);
      forall k | k in scores
        ensures Entry(k, scores[k]) in c
      {
      }
    }
  }

  /** The entries that fit are as many as the capacity allows, and no other one is above any of them. */
  lemma {:induction false} KeptAreLargest(c: seq<Entry>, capacity: nat)
    requires Sorted(c)
    ensures var k := DumpRuns.Kept(c, capacity);
      && |k| == (if 0 < capacity < |c| then capacity else |c|) && (forall e :: e in k ==> e in c)
      && forall d, e :: d in c && d !in k && e in k ==> Below(d, e)
  {
    hide Below, Sorted;
    SortedAscends(c);
    var k := DumpRuns.Kept(c, capacity);
    var n := |c| - |k|;
    forall d, e | d in c && d !in k && e in k
      ensures Below(d, e)
    {
      assert c == c[..n] + k;
      var i :| 0 <= i < n && c[..n][i] == d;
      var j :| 0 <= j < |k| && k[j] == e;
      assert c[i] == d && c[n + j] == e;
    }
  }

  lemma {:induction false} CopyIsFaithful(list: SkipList, copy: SkipList, capacity: nat)
    requires list.Valid() && copy.Valid()
    requires forall e :: e in list.Contents() ==> N.IsInt32(e.score)
    requires copy.State() == Runs.Run(Z.Empty(capacity), D.LoadOps(D.Text(list.Contents())))
    ensures var k := DumpRuns.Kept(list.Contents(), capacity);
      copy.Contents() == k <==> forall e :: e in k ==> D.Clean(e.ele)
  {
    hide SkipList.Valid, SkipList.Contents, SkipList.State, Runs.Run, D.LoadOps, D.Text, D.Clean, N.IsInt32;
    var c := list.Contents();
    var k := DumpRuns.Kept(c, capacity);
    ContentsDistinct(list);
    list.ContentsAreScores();
    KeptSorted(c, capacity);
    DumpRuns.KeptDistinct(c, capacity);
    DumpRuns.RoundTrip(c, capacity);
    if copy.State().scores == DumpRuns.ScoresOf(k) {
      HoldsSequence(copy, k);
    } else if copy.Contents() == k {
      copy.ContentsAreScores();
      ScoresUnique(copy.State().scores, k);
    }
  }

  /** Dump a list and load the dump into a fresh one of any capacity. The copy is the list itself, or its
      largest entries that fit, if and only if those have members that the format can carry. */
  method DumpAndLoad(list: SkipList, maxLevel: nat, capacity: nat) returns (copy: SkipList)
    requires list.Valid() && maxLevel > 0
    requires forall e :: e in list.Contents() ==> N.IsInt32(e.score)
    ensures copy.Valid() && fresh(copy.Repr)
    ensures var c := list.Contents();
      var k := DumpRuns.Kept(c, capacity);
      && (copy.Contents() == k <==> forall e :: e in k ==> D.Clean(e.ele))
      && |k| == (if 0 < capacity < |c| then capacity else |c|) && (forall e :: e in k ==> e in c)
      && forall d, e :: d in c && d !in k && e in k ==> Below(d, e)
  {
    hide Below, SkipList.Valid, SkipList.Contents, SkipList.State, DumpRuns.Kept;
    hide Runs.Run, D.LoadOps, D.Text, D.Clean, N.IsInt32;
    var text := list.DumpFile();
    copy := new SkipList(maxLevel, capacity);
    copy.LoadFile(text);
    CopyIsFaithful(list, copy, capacity);
    list.ContentsAreScores();
    KeptAreLargest(list.Contents(), capacity);
  }
}
