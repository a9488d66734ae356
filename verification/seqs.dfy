/**
 * Sequence helpers shared by the four chart pipelines: JavaScript's
 * `Array.prototype.filter` and `map`, the first-appearance de-duplication
 * that `Array.from(new Set(...))` and `d3.group` perform, occurrence
 * counting, and the subsequence relation used to state "same order".
 *
 * Most functions recurse on the LAST element of a sequence, so that a loop
 * running forward over `s` keeps an invariant about `s[..i]`.
 */
module Seqs {

  datatype Option<T> = None | Some(value: T)

  /** The elements of `s` that satisfy `p`, in their original order. */
  function Filter<T(!new)>(s: seq<T>, p: T -> bool): (r: seq<T>)
    ensures |r| <= |s|
    ensures forall x :: x in r <==> x in s && p(x)
  {
    if |s| == 0 then []
    else Filter(s[..|s| - 1], p) + (if p(s[|s| - 1]) then [s[|s| - 1]] else [])
  }

  /** `f` applied to every element of `s`. */
  function Map<A, B>(s: seq<A>, f: A -> B): (r: seq<B>)
    ensures |r| == |s|
    ensures forall i :: 0 <= i < |s| ==> r[i] == f(s[i])
  {
    seq(|s|, i requires 0 <= i < |s| => f(s[i]))
  }

  /** Every value of `Map(s, f)` is the image of an element of `s`, and conversely. */
  lemma MapMember<A, B>(s: seq<A>, f: A -> B, y: B)
    ensures y in Map(s, f) <==> exists x :: x in s && f(x) == y
  {
    if y in Map(s, f) {
      var i :| 0 <= i < |s| && Map(s, f)[i] == y;
      assert s[i] in s;
    }
    if exists x :: x in s && f(x) == y {
      var x :| x in s && f(x) == y;
      var i :| 0 <= i < |s| && s[i] == x;
      assert Map(s, f)[i] == y;
    }
  }

  /** Two permutations of each other have the same mapped values. */
  lemma MapPermutation<A, B>(a: seq<A>, b: seq<A>, f: A -> B)
    requires multiset(a) == multiset(b)
    ensures forall y :: y in Map(a, f) <==> y in Map(b, f)
  {
    forall y ensures y in Map(a, f) <==> y in Map(b, f) {
      MapMember(a, f, y);
      MapMember(b, f, y);
      assert forall x :: x in a <==> x in multiset(a);
      assert forall x :: x in b <==> x in multiset(b);
    }
  }

  lemma MapSnoc<A, B>(s: seq<A>, x: A, f: A -> B)
    ensures Map(s + [x], f) == Map(s, f) + [f(x)]
  {
  }

  /** Filtering distributes over a leading element, as `filter` scans from the front. */
  lemma {:induction false} FilterCons<T(!new)>(x: T, s: seq<T>, p: T -> bool)
    ensures Filter([x] + s, p) == (if p(x) then [x] else []) + Filter(s, p)
    decreases |s|
  {
    var head := if p(x) then [x] else [];
    var xs := [x] + s;
    if |s| == 0 {
      assert xs == [x] && xs[..0] == [];
    } else {
      var n := |s| - 1;
      var init, last := s[..n], s[n];
      var tail := if p(last) then [last] else [];
      assert Filter(xs, p) == Filter([x] + init, p) + tail by {
        assert xs[..|xs| - 1] == [x] + init && xs[|xs| - 1] == last;
      }
      FilterCons(x, init, p);
      ConcatAssoc(head, Filter(init, p), tail);
    }
  }

  lemma ConcatAssoc<T>(a: seq<T>, b: seq<T>, c: seq<T>)
    ensures (a + b) + c == a + (b + c)
  {
  }

  /** The first element a filter keeps is the first element of `s` that passes. */
  lemma {:induction false} FilterFirst<T(!new)>(s: seq<T>, p: T -> bool, k: nat)
    requires k < |s| && p(s[k]) && forall j :: 0 <= j < k ==> !p(s[j])
    ensures |Filter(s, p)| > 0 && Filter(s, p)[0] == s[k]
  {
    var n := |s| - 1;
    if k == n {
      FilterNone(s[..n], p);
    } else {
      FilterFirst(s[..n], p, k);
    }
  }

  /** A filter that every element passes changes nothing. */
  lemma {:induction false} FilterAll<T(!new)>(s: seq<T>, p: T -> bool)
    requires forall x :: x in s ==> p(x)
    ensures Filter(s, p) == s
  {
    if |s| > 0 {
      FilterAll(s[..|s| - 1], p);
      assert s == s[..|s| - 1] + [s[|s| - 1]];
    }
  }

  /** A filter that no element passes leaves nothing. */
  lemma {:induction false} FilterNone<T(!new)>(s: seq<T>, p: T -> bool)
    requires forall x :: x in s ==> !p(x)
    ensures Filter(s, p) == []
  {
    if |s| > 0 {
      FilterNone(s[..|s| - 1], p);
    }
  }

  /** No element occurs twice. */
  predicate NoDup<T(==)>(s: seq<T>) {
    forall i, j :: 0 <= i < j < |s| ==> s[i] != s[j]
  }

  /** The position of the first occurrence of `x` in `s`. */
  function FirstIndex<T(==)>(s: seq<T>, x: T): (i: nat)
    requires x in s
    ensures i < |s| && s[i] == x
    ensures forall j :: 0 <= j < i ==> s[j] != x
  {
    if s[0] == x then 0 else 1 + FirstIndex(s[1..], x)
  }

  /** The first occurrence of `x` is the same in `s` and in any prefix holding `x`. */
  lemma FirstIndexPrefix<T>(s: seq<T>, n: nat, x: T)
    requires n <= |s| && x in s[..n]
    ensures FirstIndex(s, x) == FirstIndex(s[..n], x)
  {
    var a, b := FirstIndex(s, x), FirstIndex(s[..n], x);
    assert s[b] == s[..n][b] == x;
    assert a <= b;
    assert s[..n][a] == s[a] == x;
  }

  /**
   * The elements of `s`, each kept at its first occurrence: what
   * `Array.from(new Set(s))` produces and the key order of `d3.group`.
   */
  function Distinct<T(==,!new)>(s: seq<T>): (r: seq<T>)
    ensures forall x :: x in r <==> x in s
    ensures NoDup(r)
    ensures |r| <= |s|
  {
    if |s| == 0 then []
    else if s[|s| - 1] in s[..|s| - 1] then Distinct(s[..|s| - 1])
    else Distinct(s[..|s| - 1]) + [s[|s| - 1]]
  }

  /** A non-empty sequence of one repeated value has that value as its only distinct element. */
  lemma {:induction false} DistinctConst<T(!new)>(s: seq<T>, x: T)
    requires |s| > 0 && forall y :: y in s ==> y == x
    ensures Distinct(s) == [x]
  {
    var init := s[..|s| - 1];
    assert s[0] in s;
    if |s| > 1 {
      assert forall i :: 0 <= i < |init| ==> init[i] == s[i];
      assert forall y :: y in init ==> y in s;
      DistinctConst(init, x);
      assert s[|s| - 1] in s;
      assert init[0] == x;
    }
  }

  /** `Distinct` lists elements in the order of their first appearance in `s`. */
  lemma {:induction false} DistinctOrder<T(!new)>(s: seq<T>)
    ensures forall i, j :: 0 <= i < j < |Distinct(s)| ==>
      FirstIndex(s, Distinct(s)[i]) < FirstIndex(s, Distinct(s)[j])
  {
    if |s| > 0 {
      var n := |s| - 1;
      var init := s[..n];
      DistinctOrder(init);
      var d, r := Distinct(init), Distinct(s);
      forall i, j | 0 <= i < j < |r|
        ensures FirstIndex(s, r[i]) < FirstIndex(s, r[j])
      {
        assert r[i] == d[i];
        FirstIndexPrefix(s, n, r[i]);
        if j < |d| {
          assert r[j] == d[j];
          FirstIndexPrefix(s, n, r[j]);
        } else {
          assert r[j] == s[n] && s[n] !in init;
          assert FirstIndex(s, r[j]) == n;
        }
      }
    }
  }

  /** Number of occurrences of `x` in `s`. */
  function Count<T(==)>(s: seq<T>, x: T): (n: nat)
    ensures n <= |s|
    ensures n > 0 <==> x in s
  {
    if |s| == 0 then 0
    else Count(s[..|s| - 1], x) + (if s[|s| - 1] == x then 1 else 0)
  }

  /** `r` is `s` with some elements removed, the rest kept in order. */
  predicate IsSubseq<T(==)>(r: seq<T>, s: seq<T>)
    decreases |s|
  {
    if |r| == 0 then true
    else if |s| == 0 then false
    else (r[|r| - 1] == s[|s| - 1] && IsSubseq(r[..|r| - 1], s[..|s| - 1]))
         || IsSubseq(r, s[..|s| - 1])
  }

  /** A filter followed by a map keeps the order of the mapped input. */
  lemma {:induction false} FilterMapSubseq<A(!new), B>(s: seq<A>, p: A -> bool, f: A -> B)
    ensures IsSubseq(Map(Filter(s, p), f), Map(s, f))
  {
    if |s| > 0 {
      var n := |s| - 1;
      FilterMapSubseq(s[..n], p, f);
      assert s == s[..n] + [s[n]];
      MapSnoc(s[..n], s[n], f);
      assert Map(s, f)[..n] == Map(s[..n], f);
      if p(s[n]) {
        assert Filter(s, p) == Filter(s[..n], p) + [s[n]];
        MapSnoc(Filter(s[..n], p), s[n], f);
        var r := Map(Filter(s, p), f);
        assert r[..|r| - 1] == Map(Filter(s[..n], p), f);
        assert r[|r| - 1] == Map(s, f)[n];
      } else {
        assert Filter(s, p) == Filter(s[..n], p);
      }
    }
  }

  /** A filter keeps the order of its input. */
  lemma FilterSubseq<T(!new)>(s: seq<T>, p: T -> bool)
    ensures IsSubseq(Filter(s, p), s)
  {
    FilterMapSubseq(s, p, x => x);
    assert Map(s, x => x) == s;
    assert Map(Filter(s, p), x => x) == Filter(s, p);
  }

  /** A subsequence of a sequence without duplicates has none either. */
  lemma {:induction false} SubseqNoDup<T>(r: seq<T>, s: seq<T>)
    requires IsSubseq(r, s) && NoDup(s)
    ensures NoDup(r)
    decreases |s|
  {
    if |r| > 0 {
      var m, n := |r| - 1, |s| - 1;
      assert NoDup(s[..n]);
      if r[m] == s[n] && IsSubseq(r[..m], s[..n]) {
        SubseqNoDup(r[..m], s[..n]);
        SubseqMembers(r[..m], s[..n]);
        assert s[n] !in s[..n];
        assert forall i :: 0 <= i < m ==> r[i] in r[..m];
      } else {
        SubseqNoDup(r, s[..n]);
      }
    }
  }

  lemma {:induction false} SubseqMembers<T>(r: seq<T>, s: seq<T>)
    requires IsSubseq(r, s)
    ensures forall x :: x in r ==> x in s
    decreases |s|
  {
    if |r| > 0 {
      var m, n := |r| - 1, |s| - 1;
      assert forall x :: x in s[..n] ==> x in s;
      if r[m] == s[n] && IsSubseq(r[..m], s[..n]) {
        SubseqMembers(r[..m], s[..n]);
        assert forall x :: x in r ==> x in r[..m] || x == r[m];
      } else {
        SubseqMembers(r, s[..n]);
      }
    }
  }

  /** Sum of `m[k]` over the keys in `keys`. */
  function SumOver<K>(keys: seq<K>, m: map<K, nat>): nat
    requires forall k :: k in keys ==> k in m
  {
    if |keys| == 0 then 0
    else SumOver(keys[..|keys| - 1], m) + m[keys[|keys| - 1]]
  }
}
