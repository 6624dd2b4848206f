/** Generic sequence operations used by both catalog pipelines, with the order and
    membership facts the pipelines rely on. */
module Seqs {

  /** The elements of `s` in the opposite order (Python's `list.reverse()`). */
  function Reverse<T>(s: seq<T>): (r: seq<T>)
    ensures |r| == |s|
    ensures forall i :: 0 <= i < |s| ==> r[i] == s[|s| - 1 - i]
  {
    if |s| == 0 then [] else Reverse(s[1..]) + [s[0]]
  }

  /** The elements of `s` that satisfy `p`, in their original order. */
  function Filter<T>(p: T -> bool, s: seq<T>): seq<T>
  {
    if |s| == 0 then []
    else (if p(s[0]) then [s[0]] else []) + Filter(p, s[1..])
  }

  /** Keys strictly decrease along `s`. */
  predicate Descending<T>(key: T -> int, s: seq<T>) {
    forall i, j :: 0 <= i < j < |s| ==> key(s[i]) > key(s[j])
  }

  /** Keys strictly increase along `s`. */
  predicate Ascending<T>(key: T -> int, s: seq<T>) {
    forall i, j :: 0 <= i < j < |s| ==> key(s[i]) < key(s[j])
  }

  /** An element is kept exactly when it occurs in the input and satisfies the predicate. */
  lemma {:induction false} FilterMembership<T>(p: T -> bool, s: seq<T>, x: T)
    ensures x in Filter(p, s) <==> x in s && p(x)
  {
    if |s| > 0 {
      FilterMembership(p, s[1..], x);
      assert s == [s[0]] + s[1..];
    }
  }

  /** Every kept element satisfies the predicate. */
  lemma {:induction false} FilterAll<T>(p: T -> bool, s: seq<T>)
    ensures forall i :: 0 <= i < |Filter(p, s)| ==> p(Filter(p, s)[i])
  {
    forall i | 0 <= i < |Filter(p, s)|
      ensures p(Filter(p, s)[i])
    {
      FilterMembership(p, s, Filter(p, s)[i]);
    }
  }

  /** Filtering distributes over concatenation. */
  lemma {:induction false} FilterAppend<T>(p: T -> bool, a: seq<T>, b: seq<T>)
    ensures Filter(p, a + b) == Filter(p, a) + Filter(p, b)
  {
    if |a| > 0 {
      assert (a + b)[1..] == a[1..] + b;
      FilterAppend(p, a[1..], b);
    } else {
      assert a + b == b;
    }
  }

  /** Filtering a reversed sequence is reversing the filtered sequence. */
  lemma {:induction false} FilterReverse<T>(p: T -> bool, s: seq<T>)
    ensures Filter(p, Reverse(s)) == Reverse(Filter(p, s))
  {
    if |s| > 0 {
      FilterReverse(p, s[1..]);
      FilterAppend(p, Reverse(s[1..]), [s[0]]);
      assert Filter(p, [s[0]]) == (if p(s[0]) then [s[0]] else []) by {
        assert [s[0]][1..] == [];
      }
      ReverseAppend(if p(s[0]) then [s[0]] else [], Filter(p, s[1..]));
    }
  }

  /** Reversal turns a concatenation around. */
  lemma ReverseAppend<T>(a: seq<T>, b: seq<T>)
    ensures Reverse(a + b) == Reverse(b) + Reverse(a)
  {
    assert |Reverse(a + b)| == |Reverse(b) + Reverse(a)|;
  }

  /** Reversal turns a strictly decreasing sequence into a strictly increasing one. */
  lemma ReverseDescending<T>(key: T -> int, s: seq<T>)
    requires Descending(key, s)
    ensures Ascending(key, Reverse(s))
  {
    var r := Reverse(s);
    forall i, j | 0 <= i < j < |r|
      ensures key(r[i]) < key(r[j])
    {
      assert r[i] == s[|s| - 1 - i] && r[j] == s[|s| - 1 - j];
    }
  }

  /** Dropping elements keeps a strict decrease. */
  lemma {:induction false} FilterDescending<T>(p: T -> bool, key: T -> int, s: seq<T>)
    requires Descending(key, s)
    ensures Descending(key, Filter(p, s))
  {
    if |s| > 0 {
      FilterDescending(p, key, s[1..]);
      var rest := Filter(p, s[1..]);
      forall x | x in rest
        ensures key(s[0]) > key(x)
      {
        FilterMembership(p, s[1..], x);
      }
    }
  }

  /** Dropping elements keeps a strict increase. */
  lemma {:induction false} FilterAscending<T>(p: T -> bool, key: T -> int, s: seq<T>)
    requires Ascending(key, s)
    ensures Ascending(key, Filter(p, s))
  {
    if |s| > 0 {
      FilterAscending(p, key, s[1..]);
      var rest := Filter(p, s[1..]);
      forall x | x in rest
        ensures key(s[0]) < key(x)
      {
        FilterMembership(p, s[1..], x);
      }
    }
  }

  /** Filtering one more element at the end, as a loop that appends does. */
  lemma FilterSnoc<T>(p: T -> bool, s: seq<T>, x: T)
    ensures Filter(p, s + [x]) == Filter(p, s) + (if p(x) then [x] else [])
  {
    FilterAppend(p, s, [x]);
    assert [x][1..] == [];
  }

  /** `f` applied to every element of `s`, in order. */
  function Map<A, B>(f: A -> B, s: seq<A>): seq<B> {
    seq(|s|, i requires 0 <= i < |s| => f(s[i]))
  }

  /** Mapping commutes with taking a slice. */
  lemma MapSlice<A, B>(f: A -> B, s: seq<A>, i: nat, j: nat)
    requires i <= j <= |s|
    ensures Map(f, s)[i..j] == Map(f, s[i..j])
  {
  }

  /** Mapping one more element at the end. */
  lemma MapSnoc<A, B>(f: A -> B, s: seq<A>, k: nat)
    requires k < |s|
    ensures Map(f, s[..k + 1]) == Map(f, s[..k]) + [f(s[k])]
  {
  }

  /** Mapping commutes with reversal. */
  lemma MapReverse<A, B>(f: A -> B, s: seq<A>)
    ensures Map(f, Reverse(s)) == Reverse(Map(f, s))
  {
    var a, b := Map(f, Reverse(s)), Reverse(Map(f, s));
    assert |a| == |b|;
    forall i | 0 <= i < |a|
      ensures a[i] == b[i]
    {
    }
  }
}
