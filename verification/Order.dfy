/** The order of a sorted set: by score, and by member among equal scores. */
module Order {
  import opened Seqs

  /** One member of a sorted set with its score. */
  datatype Entry = Entry(ele: Key, score: int)

  /** std::string's operator<, the lexicographic order. */
  predicate StrLess(a: string, b: string) {
    |b| > 0 && (|a| == 0 || a[0] < b[0] || (a[0] == b[0] && StrLess(a[1..], b[1..])))
  }

  lemma {:induction false} StrTotal(a: string, b: string)
    ensures a == b || StrLess(a, b) || StrLess(b, a)
  {
    if |a| > 0 && |b| > 0 && a[0] == b[0] {
      StrTotal(a[1..], b[1..]);
      assert a == [a[0]] + a[1..];
      assert b == [b[0]] + b[1..];
    } else if |a| == 0 && |b| == 0 {
      assert a == b;
    }
  }

  lemma {:induction false} StrTransitive(a: string, b: string, c: string)
    requires StrLess(a, b) && StrLess(b, c)
    ensures StrLess(a, c)
  {
    if |a| > 0 && a[0] == b[0] && b[0] == c[0] {
      StrTransitive(a[1..], b[1..], c[1..]);
    }
  }

  lemma {:induction false} StrIrreflexive(a: string)
    ensures !StrLess(a, a)
  {
    if |a| > 0 {
      StrIrreflexive(a[1..]);
    }
  }

  /** What that means: the texts agree up to some position, where a ends or has the smaller character. */
  ghost predicate TextBefore(a: string, b: string) {
    exists k: nat :: DiffersAt(a, b, k)
  }

  ghost predicate DiffersAt(a: string, b: string, k: nat) {
    k <= |a| && k < |b| && a[..k] == b[..k] && (k == |a| || a[k] < b[k])
  }

  lemma {:induction false} StrLessIs(a: string, b: string)
    ensures StrLess(a, b) <==> TextBefore(a, b)
  {
    if |a| == 0 || |b| == 0 || a[0] != b[0] {
      if StrLess(a, b) { assert DiffersAt(a, b, 0); }
      forall k: nat | DiffersAt(a, b, k) ensures k == 0 {
      }
    } else {
      StrLessIs(a[1..], b[1..]);
      forall k: nat | DiffersAt(a[1..], b[1..], k) ensures DiffersAt(a, b, k + 1) {
        assert a[..k + 1] == [a[0]] + a[1..][..k] && b[..k + 1] == [b[0]] + b[1..][..k];
      }
      forall k: nat | DiffersAt(a, b, k) ensures k > 0 && DiffersAt(a[1..], b[1..], k - 1) {
        assert k > 0;
        assert a[1..][..k - 1] == a[..k][1..] && b[1..][..k - 1] == b[..k][1..];
      }
    }
  }

  /** The comparison that both search loops make against the node ahead. */
  predicate Less(a: Entry, b: Entry) {
    a.score < b.score || (a.score == b.score && StrLess(a.ele.text, b.ele.text))
  }

  lemma {:induction false} Total(a: Entry, b: Entry)
    ensures a == b || Less(a, b) || Less(b, a)
  {
    StrTotal(a.ele.text, b.ele.text);
  }

  lemma {:induction false} Transitive(a: Entry, b: Entry, c: Entry)
    requires Less(a, b) && Less(b, c)
    ensures Less(a, c)
  {
    if a.score == b.score == c.score {
      StrTransitive(a.ele.text, b.ele.text, c.ele.text);
    }
  }

  lemma {:induction false} Asymmetric(a: Entry, b: Entry)
    requires Less(a, b)
    ensures !Less(b, a) && a != b
  {
    StrIrreflexive(a.ele.text);
    if Less(b, a) {
      Transitive(a, b, a);
    }
  }

  /** Strictly ascending: the level-0 chain of every sorted set. */
  ghost predicate Sorted(c: seq<Entry>) {
    forall i, j :: 0 <= i < j < |c| ==> Less(c[i], c[j])
  }

  /** What that means: smaller scores first, and among equal ones the smaller member. */
  ghost predicate Ascending(c: seq<Entry>) {
    forall i, j :: 0 <= i < j < |c| ==> Below(c[i], c[j])
  }

  ghost predicate Below(a: Entry, b: Entry) {
    a.score <= b.score && (a.score == b.score ==> TextBefore(a.ele.text, b.ele.text))
  }

  lemma {:induction false} SortedAscends(c: seq<Entry>)
    ensures Sorted(c) <==> Ascending(c)
  {
    hide StrLess, TextBefore;
    forall i, j | 0 <= i < j < |c|
      ensures Less(c[i], c[j]) <==> Below(c[i], c[j])
    {
      StrLessIs(c[i].ele.text, c[j].ele.text);
    }
  }

  /** The number of leading entries below e: where a linear scan for e stops. */
  function Rank(c: seq<Entry>, e: Entry): (p: nat)
    ensures p <= |c|
    ensures forall k :: 0 <= k < p ==> Less(c[k], e)
    ensures p < |c| ==> !Less(c[p], e)
  {
    if |c| > 0 && Less(c[0], e) then 1 + Rank(c[1..], e) else 0
  }

  /** In a sorted sequence nothing beyond the scan's stop is below e either. */
  lemma {:induction false} RankSplits(c: seq<Entry>, e: Entry)
    requires Sorted(c)
    ensures forall k :: 0 <= k < |c| ==> (Less(c[k], e) <==> k < Rank(c, e))
  {
    var p := Rank(c, e);
    forall k | p <= k < |c|
      ensures !Less(c[k], e)
    {
      if p < k && Less(c[k], e) {
        Transitive(c[p], c[k], e);
      }
    }
  }

  /** The rank of a present entry is its index. */
  lemma {:induction false} RankOf(c: seq<Entry>, k: nat)
    requires Sorted(c) && k < |c|
    ensures Rank(c, c[k]) == k
  {
    RankSplits(c, c[k]);
    StrIrreflexive(c[k].ele.text);
  }

  lemma {:induction false} InsertSorted(c: seq<Entry>, e: Entry)
    requires Sorted(c) && e !in c
    ensures var p := Rank(c, e); Sorted(c[..p] + [e] + c[p..])
  {
    var p := Rank(c, e);
    RankSplits(c, e);
    forall k | p <= k < |c|
      ensures Less(e, c[k])
    {
      Total(e, c[k]);
    }
  }

  lemma {:induction false} SortedHead(a: seq<Entry>)
    requires Sorted(a) && |a| > 0
    ensures a[0] !in a[1..]
  {
    if a[0] in a[1..] {
      var k :| 0 <= k < |a[1..]| && a[1..][k] == a[0];
      Asymmetric(a[0], a[k + 1]);
    }
  }

  /** A strictly sorted sequence is determined by the set of its entries. */
  lemma {:induction false} SortedUnique(a: seq<Entry>, b: seq<Entry>)
    requires Sorted(a) && Sorted(b)
    requires forall e :: e in a <==> e in b
    ensures a == b
  {
    assert |a| > 0 ==> a[0] in b;
    assert |b| > 0 ==> b[0] in a;
    if |a| > 0 {
      if a[0] != b[0] {
        Asymmetric(a[0], b[0]);
        assert false;
      }
      assert a == [a[0]] + a[1..] && b == [b[0]] + b[1..];
      forall e
        ensures e in a[1..] <==> e in b[1..]
      {
        SortedHead(a);
        SortedHead(b);
        assert e in a <==> e == a[0] || e in a[1..];
        assert e in b <==> e == b[0] || e in b[1..];
      }
      SortedUnique(a[1..], b[1..]);
    }
  }
}
