/** Finite lists: distinct members, removal, reversal, flattening. */
module Lists {
  predicate Distinct<T(==)>(l: seq<T>) {
    forall i, j :: 0 <= i < j < |l| ==> l[i] != l[j]
  }

  /** A list without the first occurrence of an element. */
  function Without<T(==)>(l: seq<T>, x: T): seq<T> {
    if l == [] then [] else if l[0] == x then l[1..] else [l[0]] + Without(l[1..], x)
  }

  lemma {:induction false} WithoutAt<T>(l: seq<T>, k: nat)
    requires k < |l| && Distinct(l)
    ensures Without(l, l[k]) == l[..k] + l[k + 1..]
  {
    if k > 0 {
      WithoutAt(l[1..], k - 1);
      assert l[1..][k - 1] == l[k] && [l[0]] + l[1..][..k - 1] == l[..k];
    }
  }

  lemma WithoutIs<T>(l: seq<T>, x: T)
    requires Distinct(l)
    ensures Distinct(Without(l, x)) && forall y :: y in Without(l, x) <==> y in l && y != x
  {
    hide Without;
    if x in l {
      var k :| 0 <= k < |l| && l[k] == x;
      WithoutAt(l, k);
      assert l == l[..k] + [x] + l[k + 1..];
      assert forall i :: 0 <= i < |l| && i != k ==> l[i] != x;
    } else {
      WithoutAbsent(l, x);
    }
  }

  lemma {:induction false} WithoutAbsent<T>(l: seq<T>, x: T)
    requires x !in l
    ensures Without(l, x) == l
  {
    if l != [] {
      WithoutAbsent(l[1..], x);
    }
  }

  function Reversed<T>(s: seq<T>): (r: seq<T>)
    ensures |r| == |s|
  {
    if s == [] then [] else Reversed(s[1..]) + [s[0]]
  }

  lemma {:induction false} ReversedMembers<T>(l: seq<T>)
    ensures forall s :: s in Reversed(l) <==> s in l
  {
    if l != [] {
      ReversedMembers(l[1..]);
      assert l == [l[0]] + l[1..];
    }
  }

  lemma {:induction false} ReversedSnoc<T>(l: seq<T>, x: T)
    ensures Reversed(l + [x]) == [x] + Reversed(l)
  {
    if l == [] {
      assert [x][1..] == [];
    } else {
      ReversedSnoc(l[1..], x);
      assert (l + [x])[1..] == l[1..] + [x];
    }
  }

  lemma {:induction false} ReversedTwice<T>(l: seq<T>)
    ensures Reversed(Reversed(l)) == l
  {
    if l != [] {
      ReversedTwice(l[1..]);
      ReversedSnoc(Reversed(l[1..]), l[0]);
    }
  }

  function Flat<T>(ss: seq<seq<T>>): seq<T> {
    if ss == [] then [] else Flat(ss[..|ss| - 1]) + ss[|ss| - 1]
  }

  lemma FlatOfNone<T>()
    ensures Flat<T>([]) == []
  {
  }

  lemma FlatOfOne<T>(s: seq<T>)
    ensures Flat([s]) == s
  {
    assert [s][..0] == [];
  }

  predicate AllOfLength<T>(ss: seq<seq<T>>, n: nat) {
    forall i :: 0 <= i < |ss| ==> |ss[i]| == n
  }

  lemma AllOfLengthConcat<T>(a: seq<seq<T>>, b: seq<seq<T>>, n: nat)
    requires AllOfLength(a, n) && AllOfLength(b, n)
    ensures AllOfLength(a + b, n)
  {
  }

  lemma FlatOfAtMostOne<T>(ss: seq<seq<T>>, more: seq<seq<T>>)
    requires |more| <= 1
    ensures Flat(ss + more) == Flat(ss) + Flat(more)
  {
    if more == [] {
      assert ss + more == ss;
    } else {
      assert (ss + more)[..|ss|] == ss && more[..0] == [];
    }
  }
}
