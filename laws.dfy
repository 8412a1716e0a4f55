/** Laws that relate several operations of the dynamic array: round trips,
    the monoid laws of `concat`, the involution of `reverse`, the bounds of
    `get` and `set`, and the IndexError that `cons` raises after `map` or
    `remove`. */
module DynamicArrayLaws {
  import opened Growth
  import opened Sequences
  import opened DynamicArrays

  // ---------------------------------------------------------------------
  // construction and observation

  /** `to_list(from_list(xs)) == xs`: the padding never shows. */
  lemma RoundTrip<T>(xs: seq<T>, g: Factor)
    ensures ToList(FromList(xs, g)) == xs
  {
  }

  /** Two lists give equal arrays exactly when they are the same list, whatever
      the growth factors; the padding `from_list` adds plays no part. */
  lemma FromListEqual<T>(xs: seq<T>, ys: seq<T>, g: Factor, h: Factor)
    ensures Equal(FromList(xs, g), FromList(ys, h)) <==> xs == ys
  {
  }

  /** `get(-1)` is the last element and `get(-length)` the first; `get(length)`
      and `get(-(length + 1))` raise IndexError. */
  lemma GetBounds<T>(a: DynamicArray<T>)
    requires Wf(a) && a.length > 0
    ensures Get(a, -1) == Ok(Live(a)[a.length - 1]) && Get(a, a.length - 1) == Get(a, -1)
    ensures Get(a, -(a.length as int)) == Ok(Live(a)[0]) && Get(a, 0) == Get(a, -(a.length as int))
    ensures Get(a, a.length).Err? && Get(a, -(a.length + 1)).Err?
  {
  }

  /** After `set(i, v)`, `get` sees `v` at the resolved index and the old
      element everywhere else; indices that failed before still fail. */
  lemma SetThenGet<T>(a: DynamicArray<T>, i: int, v: T, k: int)
    requires Wf(a) && Updated(a, i, v).Ok?
    ensures Updated(a, i, v).value.length == a.length
    ensures Get(Updated(a, i, v).value, k) ==
      if Get(a, k).Ok? && Resolve(a.length, k) == Resolve(a.length, i) then Ok(v) else Get(a, k)
  {
  }

  // ---------------------------------------------------------------------
  // cons

  /** On an array whose tuple has a slot per unit of capacity, `cons` never
      fails and agrees with the padded version. */
  lemma ConsOnDense<T>(a: DynamicArray<T>, e: T)
    requires Wf(a) && Dense(a)
    ensures Appended(a, e) == Ok(AppendedPadded(a, e))
  {
  }

  /** With growth factor 1.0 a full array grows by exactly one slot. */
  lemma ConsGrowsByOne<T>(a: DynamicArray<T>, e: T)
    requires Wf(a) && a.growth == One && a.length == a.capacity
    ensures Appended(a, e).Ok? && Appended(a, e).value.capacity == a.capacity + 1
  {
    ScaleByOne(a.capacity);
  }

  /** Reducing after `cons` combines the new element last. */
  lemma ReduceAfterCons<T, R>(a: DynamicArray<T>, e: T, f: (R, T) -> R, initial: R)
    requires Wf(a) && Appended(a, e).Ok?
    ensures Reduce(Appended(a, e).value, f, initial) == f(Reduce(a, f, initial), e)
  {
    FoldLeftSnoc(f, initial, Live(a), e);
  }

  /** `cons` after `remove` raises IndexError exactly when the removal left
      the tuple shorter than the capacity: always unless the array was full
      and did not contain the value. */
  lemma ConsAfterRemove<T>(a: DynamicArray<T>, v: T, e: T)
    requires Wf(a)
    ensures Appended(Removed(a, v), e).Err? <==> a.length < a.capacity || Member(a, v)
  {
  }

  /** `cons` after `map` raises IndexError exactly when the array was not full. */
  lemma ConsAfterMap<T, U>(a: DynamicArray<T>, f: T -> U, e: U)
    requires Wf(a)
    ensures Appended(Mapped(a, f), e).Err? <==> a.length < a.capacity
  {
  }

  /** The smallest case: `from_list([]).remove(0).cons(1)` raises IndexError. */
  lemma ConsAfterRemoveFails()
    ensures Appended(Removed(FromList<int>([], Default), 0), 1).Err?
  {
    ConsAfterRemove(FromList<int>([], Default), 0, 1);
  }

  /** The padded `cons` appends after `remove` and `map` as well. */
  lemma ConsPaddedAfterShrink<T, U>(a: DynamicArray<T>, v: T, e: T, f: T -> U, u: U)
    requires Wf(a)
    ensures Live(AppendedPadded(Removed(a, v), e)) == RemoveFirst(Live(a), v) + [e]
    ensures Live(AppendedPadded(Mapped(a, f), u)) == Pointwise(f, Live(a)) + [u]
  {
  }

  // ---------------------------------------------------------------------
  // remove and member

  /** `remove(v)` deletes exactly the first element equal to `v`; the length
      drops by one iff `member(v)`, and otherwise the array is equal to the
      input. The capacity is retained. */
  lemma RemoveFirstOccurrence<T>(a: DynamicArray<T>, v: T)
    requires Wf(a)
    ensures var r := Removed(a, v);
      && r.capacity == a.capacity
      && (Member(a, v) <==> r.length == a.length - 1)
      && (!Member(a, v) ==> r.length == a.length && Equal(r, a))
      && (Member(a, v) ==>
            var k := FirstIndex(Live(a), v);
            Live(a)[k] == v && v !in Live(a)[..k] && Live(r) == Live(a)[..k] + Live(a)[k + 1..])
  {
    if v in Live(a) {
      RemoveFirstAt(Live(a), v, FirstIndex(Live(a), v));
    } else {
      RemoveFirstAbsent(Live(a), v);
    }
  }

  // ---------------------------------------------------------------------
  // reverse

  /** Reversing twice gives an equal array; on a dense array it gives the
      very same value. */
  lemma ReverseTwice<T>(a: DynamicArray<T>)
    requires Wf(a)
    ensures Equal(Reversed(Reversed(a)), a)
    ensures Dense(a) ==> Reversed(Reversed(a)) == a
  {
    RevRev(Live(a));
    if Dense(a) {
      Layout(a);
      Layout(Reversed(Reversed(a)));
    }
  }

  /** `get(i)` on the reversal reads the element `i` places from the end. */
  lemma ReverseGet<T>(a: DynamicArray<T>, i: int)
    requires Wf(a) && 0 <= i < a.length
    ensures Get(Reversed(a), i) == Get(a, -(i + 1))
  {
    RevAt(Live(a), i);
  }

  // ---------------------------------------------------------------------
  // concat

  lemma ConcatLeftIdentity<T>(a: DynamicArray<T>, g: Factor)
    requires Wf(a)
    ensures Equal(Concatenated(Empty(g), a), a)
  {
  }

  lemma ConcatRightIdentity<T>(a: DynamicArray<T>, g: Factor)
    requires Wf(a)
    ensures Equal(Concatenated(a, Empty(g)), a)
  {
  }

  /** Associativity, up to `__eq__`; both sides also agree on length and capacity. */
  lemma ConcatAssociative<T>(a: DynamicArray<T>, b: DynamicArray<T>, c: DynamicArray<T>)
    requires Wf(a) && Wf(b) && Wf(c)
    ensures var left := Concatenated(Concatenated(a, b), c);
      var right := Concatenated(a, Concatenated(b, c));
      Equal(left, right) && left.length == right.length && left.capacity == right.capacity
  {
    var left := Concatenated(Concatenated(a, b), c);
    var right := Concatenated(a, Concatenated(b, c));
    assert Live(left) == Live(right);
  }

  /** The growth factor of a concatenation is at least each operand's. */
  lemma ConcatGrowth<T>(a: DynamicArray<T>, b: DynamicArray<T>)
    requires Wf(a) && Wf(b)
    ensures var g := Concatenated(a, b).growth;
      !Greater(a.growth, g) && !Greater(b.growth, g) && (g == a.growth || g == b.growth)
  {
  }

  // ---------------------------------------------------------------------
  // filter, map, reduce

  /** `filter(p)` keeps exactly the live elements satisfying `p`, and filtering
      a concatenation filters each part. */
  lemma FilterKeepsExactly<T>(a: DynamicArray<T>, b: DynamicArray<T>, p: T -> bool, x: T)
    requires Wf(a) && Wf(b)
    ensures Member(Filtered(a, p), x) <==> Member(a, x) && p(x)
    ensures Live(Filtered(Concatenated(a, b), p)) == Live(Filtered(a, p)) + Live(Filtered(b, p))
  {
    SelectMembers(p, Live(a), x);
    SelectAppend(p, Live(a), Live(b));
  }

  /** `map(f)` keeps the length and applies `f` at every index. */
  lemma MapGet<T, U>(a: DynamicArray<T>, f: T -> U, i: int)
    requires Wf(a) && 0 <= i < a.length
    ensures Mapped(a, f).length == a.length
    ensures Get(Mapped(a, f), i) == Ok(f(Live(a)[i]))
  {
    PointwiseAt(f, Live(a), i);
  }

  /** Mapping twice equals mapping the composition. */
  lemma MapCompose<T, U, V>(a: DynamicArray<T>, f: T -> U, g: U -> V)
    requires Wf(a)
    ensures Equal(Mapped(Mapped(a, f), g), Mapped(a, x => g(f(x))))
  {
    PointwiseCompose(f, g, Live(a));
  }

  /** `reduce` on an empty array returns the initial value. */
  lemma ReduceEmpty<T, R>(g: Factor, f: (R, T) -> R, initial: R)
    ensures Reduce(Empty<T>(g), f, initial) == initial
  {
  }

  // ---------------------------------------------------------------------
  // intersection

  /** `intersection(other)` holds exactly the elements that are members of
      both arrays. */
  lemma IntersectionMembers<T>(a: DynamicArray<T>, other: DynamicArray<T>, x: T)
    requires Wf(a) && Wf(other)
    ensures Member(Intersected(a, other), x) <==> Member(a, x) && Member(other, x)
  {
    CommonMembers(Live(a), Live(other), x);
  }

  /** Each of them appears once, ordered by its first occurrence in the receiver. */
  lemma IntersectionOrdered<T>(a: DynamicArray<T>, other: DynamicArray<T>)
    requires Wf(a) && Wf(other)
    ensures NoDup(Live(Intersected(a, other)))
    ensures InFirstOccurrenceOrder(Live(Intersected(a, other)), Live(a))
  {
    CommonOrdered(Live(a), Live(other));
  }

  // ---------------------------------------------------------------------
  // scenarios

  /** `from_list([1, 2, 3]).set(1, 5)` is `[1, 5, 3]`; the original is unchanged. */
  lemma SetScenario()
    ensures var a := FromList([1, 2, 3], Default);
      Updated(a, 1, 5).Ok? && ToList(Updated(a, 1, 5).value) == [1, 5, 3] && ToList(a) == [1, 2, 3]
  {
  }

  /** `empty().cons(1).cons(2)` is `[1, 2]`: `cons` appends. */
  lemma ConsScenario()
    ensures var one := Appended(Empty<int>(Default), 1);
      one.Ok? && Appended(one.value, 2).Ok? && ToList(Appended(one.value, 2).value) == [1, 2]
  {
    var e := Empty<int>(Default);
    assert e.length == e.capacity == 0;
    var one := Appended(e, 1);
    assert one.Ok? && Live(one.value) == [1];
    assert one.value.capacity == 1 by {
      ScaleByDefault(0);
    }
    var two := Appended(one.value, 2);
    assert two.Ok? && Live(two.value) == [1] + [2];
  }

  /** Five `cons` onto `empty(1.0)`: never fails, capacity grows 1, 2, 3, 4, 5. */
  lemma GrowthByOneScenario(e: int)
    ensures var a0 := Empty<int>(One);
      var a1 := Appended(a0, e);
      a1.Ok? && a1.value.capacity == 1 &&
      var a2 := Appended(a1.value, e);
      a2.Ok? && a2.value.capacity == 2 &&
      var a3 := Appended(a2.value, e);
      a3.Ok? && a3.value.capacity == 3 &&
      var a4 := Appended(a3.value, e);
      a4.Ok? && a4.value.capacity == 4 &&
      var a5 := Appended(a4.value, e);
      a5.Ok? && a5.value.capacity == 5 && a5.value.length == 5
  {
    var a0 := Empty<int>(One);
    ConsGrowsByOne(a0, e);
    var a1 := Appended(a0, e).value;
    ConsGrowsByOne(a1, e);
    var a2 := Appended(a1, e).value;
    ConsGrowsByOne(a2, e);
    var a3 := Appended(a2, e).value;
    ConsGrowsByOne(a3, e);
    var a4 := Appended(a3, e).value;
    ConsGrowsByOne(a4, e);
  }

  predicate Even(x: int) {
    x % 2 == 0
  }

  /** `from_list([1, 2, 3, 4]).filter(even)` is `[2, 4]`. */
  lemma FilterScenario()
    ensures ToList(Filtered(FromList([1, 2, 3, 4], Default), Even)) == [2, 4]
  {
    assert Select(Even, [1]) == [] by {
      assert [1][..0] == [];
    }
    assert Select(Even, [1, 2]) == [2] by {
      assert [1, 2][..1] == [1];
    }
    assert Select(Even, [1, 2, 3]) == [2] by {
      assert [1, 2, 3][..2] == [1, 2];
    }
    assert Select(Even, [1, 2, 3, 4]) == [2, 4] by {
      assert [1, 2, 3, 4][..3] == [1, 2, 3];
    }
  }

  /** `from_list([1, 2, 3, 4]).intersection(from_list([3, 4, 5, 6]))` is `[3, 4]`. */
  lemma IntersectionScenario()
    ensures ToList(Intersected(FromList([1, 2, 3, 4], Default), FromList([3, 4, 5, 6], Default))) == [3, 4]
  {
    var t := [3, 4, 5, 6];
    assert Common([1], t) == [] by {
      assert [1][..0] == [];
    }
    assert Common([1, 2], t) == [] by {
      assert [1, 2][..1] == [1];
    }
    assert Common([1, 2, 3], t) == [3] by {
      assert [1, 2, 3][..2] == [1, 2];
    }
    assert Common([1, 2, 3, 4], t) == [3, 4] by {
      assert [1, 2, 3, 4][..3] == [1, 2, 3];
    }
  }
}
