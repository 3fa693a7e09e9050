/** Keys, duplicate-free key sequences, and dropping a set of keys from one. */
module Seqs {

  /** The std::string that names a member or a sorted set. */
  datatype Key = Key(text: string)

  function RemoveAt<T>(s: seq<T>, p: nat): (r: seq<T>)
    requires p < |s|
    ensures |r| == |s| - 1
    ensures forall k :: 0 <= k < p ==> r[k] == s[k]
    ensures forall k :: p <= k < |r| ==> r[k] == s[k + 1]
    ensures forall x :: x in r ==> x in s
  {
    s[..p] + s[p + 1..]
  }

  function Elems(s: seq<Key>): set<Key> {
    set x | x in s
  }

  ghost predicate Distinct(s: seq<Key>) {
    forall i, j :: 0 <= i < j < |s| ==> s[i] != s[j]
  }

  /** s without the keys in d, order kept. */
  function Drop(s: seq<Key>, d: set<Key>): (r: seq<Key>)
    ensures forall x :: x in r <==> x in s && x !in d
    ensures |r| <= |s|
  {
    if |s| == 0 then []
    else if s[0] in d then
      assert s == [s[0]] + s[1..];
      Drop(s[1..], d)
    else
      assert s == [s[0]] + s[1..];
      [s[0]] + Drop(s[1..], d)
  }

  lemma {:induction false} DropDistinct(s: seq<Key>, d: set<Key>)
    requires Distinct(s)
    ensures Distinct(Drop(s, d))
  {
    if |s| > 0 {
      DropDistinct(s[1..], d);
      assert s[0] !in s[1..];
    }
  }

  lemma {:induction false} DropConcat(a: seq<Key>, b: seq<Key>, d: set<Key>)
    ensures Drop(a + b, d) == Drop(a, d) + Drop(b, d)
  {
    if |a| == 0 {
      assert a + b == b;
    } else {
      assert (a + b)[1..] == a[1..] + b;
      DropConcat(a[1..], b, d);
    }
  }

  lemma {:induction false} DropTwice(s: seq<Key>, d: set<Key>, e: set<Key>)
    ensures Drop(Drop(s, d), e) == Drop(s, d + e)
  {
    if |s| > 0 {
      DropTwice(s[1..], d, e);
    }
  }

  /** Only the part of d that occurs in s matters. */
  lemma {:induction false} DropSame(s: seq<Key>, d: set<Key>, e: set<Key>)
    requires forall x :: x in s ==> (x in d <==> x in e)
    ensures Drop(s, d) == Drop(s, e)
  {
    if |s| > 0 {
      DropSame(s[1..], d, e);
    }
  }

  lemma {:induction false} DropNone(s: seq<Key>, d: set<Key>)
    requires forall x :: x in s ==> x !in d
    ensures Drop(s, d) == s
  {
    if |s| > 0 {
      DropNone(s[1..], d);
    }
  }

  lemma {:induction false} CutTail(s: seq<Key>, k: nat)
    requires 0 < k < |s|
    ensures [s[0]] + (s[1..][..k - 1] + s[1..][k..]) == s[..k] + s[k + 1..]
  {
  }

  /** Dropping one key of a duplicate-free sequence cuts out its one position. */
  lemma {:induction false} DropAt(s: seq<Key>, k: nat)
    requires Distinct(s) && k < |s|
    ensures Drop(s, {s[k]}) == s[..k] + s[k + 1..]
  {
    if k == 0 {
      DropNone(s[1..], {s[0]});
    } else {
      var t, x := s[1..], s[k];
      DropAt(t, k - 1);
      assert s[0] != x;
      hide Distinct;
      CutTail(s, k);
    }
  }

  lemma {:induction false} ElemsCount(s: seq<Key>)
    requires Distinct(s)
    ensures |Elems(s)| == |s|
  {
    if |s| > 0 {
      ElemsCount(s[1..]);
      assert Elems(s) == {s[0]} + Elems(s[1..]);
    }
  }

  lemma {:induction false} SplitDistinct(s: seq<Key>, n: nat)
    requires Distinct(s) && n <= |s|
    ensures Distinct(s[..n]) && Distinct(s[n..]) && Elems(s[..n]) !! Elems(s[n..])
    ensures Elems(s) == Elems(s[..n]) + Elems(s[n..])
  {
    assert s == s[..n] + s[n..];
  }

  lemma {:induction false} JoinDistinct(a: seq<Key>, b: seq<Key>)
    requires Distinct(a) && Distinct(b) && Elems(a) !! Elems(b)
    ensures Distinct(a + b) && Elems(a + b) == Elems(a) + Elems(b)
  {
    assert forall i, j :: 0 <= i < |a| && 0 <= j < |b| ==> a[i] in Elems(a) && b[j] in Elems(b);
  }

  lemma {:induction false} DropLast(s: seq<Key>)
    requires Distinct(s) && |s| > 0
    ensures var n := |s| - 1;
      && Elems(s[..n]) == Elems(s) - {s[n]}
      && Drop(s, {s[n]}) == s[..n]
  {
    var n := |s| - 1;
    SplitDistinct(s, n);
    assert s[n..] == [s[n]];
    DropAt(s, n);
  }
}
