/** Reference definitions on plain sequences that specify what each array
    operation does to the live elements, with the lemmas that characterise them. */
module Sequences {

  /** No element occurs twice. */
  predicate NoDup<T(==)>(s: seq<T>) {
    forall i, j :: 0 <= i < j < |s| ==> s[i] != s[j]
  }

  /** Every element of `r` occurs in `s`, and `r` lists them in the order of
      their first occurrence in `s`. */
  predicate InFirstOccurrenceOrder<T(==)>(r: seq<T>, s: seq<T>) {
    forall i, j :: 0 <= i < j < |r| ==> r[i] in s && r[j] in s && FirstIndex(s, r[i]) < FirstIndex(s, r[j])
  }

  /** The index of the first occurrence of `x` in `s`. */
  function FirstIndex<T(==)>(s: seq<T>, x: T): (r: nat)
    requires x in s
    ensures r < |s| && s[r] == x && x !in s[..r]
  {
    if s[0] == x then 0
    else
      var k := FirstIndex(s[1..], x);
      assert s[..k + 1] == [s[0]] + s[1..][..k];
      1 + k
  }

  lemma {:induction false} FirstIndexSnoc<T>(s: seq<T>, x: T, y: T)
    requires y in s
    ensures y in s + [x] && FirstIndex(s + [x], y) == FirstIndex(s, y)
  {
    var k := FirstIndex(s, y);
    var k' := FirstIndex(s + [x], y);
    assert (s + [x])[k] == y;
  }

  // ---------------------------------------------------------------------
  // remove: first occurrence only

  /** `s` without its first element equal to `v`; `s` itself when `v` does not occur. */
  function RemoveFirst<T(==)>(s: seq<T>, v: T): (r: seq<T>)
    ensures |r| == if v in s then |s| - 1 else |s|
  {
    if s == [] then []
    else if s[0] == v then s[1..]
    else
      assert v in s[1..] <==> v in s;
      [s[0]] + RemoveFirst(s[1..], v)
  }

  /** Exactly the element at the first index of `v` is dropped; the rest keep their order. */
  lemma {:induction false} RemoveFirstAt<T>(s: seq<T>, v: T, k: nat)
    requires k < |s| && s[k] == v && v !in s[..k]
    ensures RemoveFirst(s, v) == s[..k] + s[k + 1..]
  {
    if k == 0 {
      assert s[..0] + s[1..] == s[1..];
    } else {
      var t := s[1..];
      assert s[0] != v by {
        assert s[..k][0] == s[0];
      }
      assert t[..k - 1] == s[..k][1..];
      RemoveFirstAt(t, v, k - 1);
      assert s[..k] == [s[0]] + t[..k - 1];
      assert s[k + 1..] == t[k..];
    }
  }

  /** Without an occurrence of `v` nothing is removed. */
  lemma {:induction false} RemoveFirstAbsent<T>(s: seq<T>, v: T)
    requires v !in s
    ensures RemoveFirst(s, v) == s
  {
    if s != [] {
      assert v !in s[1..];
      RemoveFirstAbsent(s[1..], v);
      assert s == [s[0]] + s[1..];
    }
  }

  /** Appending one element on the right, the way the removal loop consumes its input. */
  lemma {:induction false} RemoveFirstSnoc<T>(s: seq<T>, x: T, v: T)
    ensures RemoveFirst(s + [x], v) ==
      if v in s then RemoveFirst(s, v) + [x]
      else if x == v then s
      else s + [x]
  {
    if s == [] {
      assert [x][1..] == [];
    } else {
      assert (s + [x])[0] == s[0];
      assert (s + [x])[1..] == s[1..] + [x];
      if s[0] != v {
        RemoveFirstSnoc(s[1..], x, v);
        assert v in s <==> v in s[1..];
        if v !in s {
          assert s == [s[0]] + s[1..];
        }
      }
    }
  }

  // ---------------------------------------------------------------------
  // reverse

  function Rev<T>(s: seq<T>): (r: seq<T>)
    ensures |r| == |s|
  {
    if s == [] then [] else Rev(s[1..]) + [s[0]]
  }

  /** Index `k` of the reversal holds the element `k` places from the end. */
  lemma {:induction false} RevAt<T>(s: seq<T>, k: nat)
    requires k < |s|
    ensures Rev(s)[k] == s[|s| - 1 - k]
  {
    if k < |s| - 1 {
      RevAt(s[1..], k);
    }
  }

  lemma RevRev<T>(s: seq<T>)
    ensures Rev(Rev(s)) == s
  {
    forall k | 0 <= k < |s|
      ensures Rev(Rev(s))[k] == s[k]
    {
      RevAt(Rev(s), k);
      RevAt(s, |s| - 1 - k);
    }
  }

  // ---------------------------------------------------------------------
  // filter

  /** The elements of `s` satisfying `p`, in order. */
  function Select<T>(p: T -> bool, s: seq<T>): (r: seq<T>)
    ensures |r| <= |s|
  {
    if s == [] then []
    else Select(p, s[..|s| - 1]) + (if p(s[|s| - 1]) then [s[|s| - 1]] else [])
  }

  /** Filtering distributes over concatenation; with the one-element case this
      pins the result down completely. */
  lemma {:induction false} SelectAppend<T>(p: T -> bool, s: seq<T>, t: seq<T>)
    ensures Select(p, s + t) == Select(p, s) + Select(p, t)
  {
    if t == [] {
      assert s + t == s;
    } else {
      var t' := t[..|t| - 1];
      assert (s + t)[..|s + t| - 1] == s + t';
      SelectAppend(p, s, t');
    }
  }

  lemma SelectOne<T>(p: T -> bool, x: T)
    ensures Select(p, [x]) == if p(x) then [x] else []
  {
    assert [x][..0] == [];
  }

  /** Exactly the elements satisfying `p` survive. */
  lemma {:induction false} SelectMembers<T>(p: T -> bool, s: seq<T>, x: T)
    ensures x in Select(p, s) <==> x in s && p(x)
  {
    if s != [] {
      var s' := s[..|s| - 1];
      SelectMembers(p, s', x);
      assert s == s' + [s[|s| - 1]];
    }
  }

  // ---------------------------------------------------------------------
  // map

  function Pointwise<T, U>(f: T -> U, s: seq<T>): (r: seq<U>)
    ensures |r| == |s|
  {
    if s == [] then [] else Pointwise(f, s[..|s| - 1]) + [f(s[|s| - 1])]
  }

  lemma {:induction false} PointwiseAt<T, U>(f: T -> U, s: seq<T>, i: nat)
    requires i < |s|
    ensures Pointwise(f, s)[i] == f(s[i])
  {
    if i < |s| - 1 {
      PointwiseAt(f, s[..|s| - 1], i);
    }
  }

  /** Mapping twice is mapping the composition. */
  lemma PointwiseCompose<T, U, V>(f: T -> U, g: U -> V, s: seq<T>)
    ensures Pointwise(g, Pointwise(f, s)) == Pointwise(x => g(f(x)), s)
  {
    forall i | 0 <= i < |s|
      ensures Pointwise(g, Pointwise(f, s))[i] == Pointwise(x => g(f(x)), s)[i]
    {
      PointwiseAt(f, s, i);
      PointwiseAt(g, Pointwise(f, s), i);
      PointwiseAt(x => g(f(x)), s, i);
    }
  }

  // ---------------------------------------------------------------------
  // reduce

  /** `f(...f(f(acc, s[0]), s[1])..., s[|s|-1])`. */
  function FoldLeft<A, T>(f: (A, T) -> A, acc: A, s: seq<T>): A {
    if s == [] then acc else FoldLeft(f, f(acc, s[0]), s[1..])
  }

  /** The last element is combined last. */
  lemma {:induction false} FoldLeftSnoc<A, T>(f: (A, T) -> A, acc: A, s: seq<T>, x: T)
    ensures FoldLeft(f, acc, s + [x]) == f(FoldLeft(f, acc, s), x)
  {
    if s == [] {
      assert [x][1..] == [];
    } else {
      assert (s + [x])[1..] == s[1..] + [x];
      FoldLeftSnoc(f, f(acc, s[0]), s[1..], x);
    }
  }

  // ---------------------------------------------------------------------
  // intersection

  /** The first occurrence of each element of `s` that also occurs in `t`, in the order of `s`. */
  function Common<T(==)>(s: seq<T>, t: seq<T>): (r: seq<T>)
    ensures |r| <= |s|
    ensures forall x :: x in r ==> x in s && x in t
  {
    if s == [] then []
    else
      var r := Common(s[..|s| - 1], t);
      var x := s[|s| - 1];
      if x in t && x !in r then r + [x] else r
  }

  lemma {:induction false} CommonMembers<T>(s: seq<T>, t: seq<T>, x: T)
    ensures x in Common(s, t) <==> x in s && x in t
  {
    if s != [] {
      var s' := s[..|s| - 1];
      CommonMembers(s', t, x);
      assert s == s' + [s[|s| - 1]];
    }
  }

  /** No duplicates, and the survivors are ordered by their first occurrence in `s`. */
  lemma {:induction false} CommonOrdered<T>(s: seq<T>, t: seq<T>)
    ensures NoDup(Common(s, t)) && InFirstOccurrenceOrder(Common(s, t), s)
  {
    if s != [] {
      var s' := s[..|s| - 1];
      var x := s[|s| - 1];
      assert s == s' + [x];
      var r' := Common(s', t);
      CommonOrdered(s', t);
      forall y | y in r'
        ensures y in s' && y in s && FirstIndex(s, y) == FirstIndex(s', y)
      {
        CommonMembers(s', t, y);
        FirstIndexSnoc(s', x, y);
      }
      if x in t && x !in r' {
        CommonMembers(s', t, x);
        assert x !in s';
        assert FirstIndex(s, x) == |s'| by {
          assert s[..|s'|] == s';
        }
        var r := r' + [x];
        forall i, j | 0 <= i < j < |r|
          ensures r[i] in s && r[j] in s && FirstIndex(s, r[i]) < FirstIndex(s, r[j])
        {
          assert r[i] in r';
          if j < |r'| {
            assert r[j] in r';
          }
        }
      }
    }
  }
}
