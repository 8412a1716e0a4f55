# Persistent dynamic array — a Dafny model

This project models `DynamicArray` from `dynamic_array.py`. It is a
persistent, value-style resizable array. Each value holds four things:

- a backing tuple padded with `None`;
- a declared capacity;
- a live length;
- a growth factor, clamped to at least 1.0.

Every operation that looks like a change builds a fresh tuple and returns a new
array. The receiver is never touched. In Dafny the array is the datatype
`DynamicArrays.DynamicArray<T>`, so that immutability holds by construction.

How the model is laid out:

- `growth.dfy` (module `Growth`): the growth factor as an exact ratio
  `num / den`. `Clamp` is `max(1.0, g)`, `Max` is Python's `max` of two
  factors, and `Scale` is `int(capacity * g)`.
- `sequences.dfy` (module `Sequences`): reference definitions on plain
  sequences, with the lemmas that characterise them:
  - first-occurrence removal;
  - reversal;
  - filtering and pointwise mapping;
  - the left fold;
  - the deduplicating intersection.
- `dynamic_array.dfy` (module `DynamicArrays`): the array itself.
  - The slots are `Option<T>`: `None` is padding and `Some(x)` holds an element.
  - `Make` is the Python constructor.
  - `Wf` is the invariant that every factory and operation keeps: the live
    slots come first and are occupied, and the rest is padding.
  - `Live` gives the live prefix `data[:length]`.
  - Python builds some results as expressions or recursion over the tuple. These are
    functions: `get`, `member`, `reduce`, `__eq__`, `is_empty`, `to_list`,
    `empty`, `from_list` and `_resize`.
  - Python builds other results by copying the tuple into a list and writing
    into it, or by appending to an accumulator list. These are methods with
    loops or local arrays: `cons`, `set`, `remove`, `reverse`, `filter`,
    `map`, `intersection` and `concat`.
  - Each method is proved equal to a specification function (`Appended`,
    `Updated`, `Removed`, `Reversed`, `Filtered`, `Mapped`, `Intersected`,
    `Concatenated`). That function gives the exact slot layout the code
    produces, and its contract states the result in terms of the live elements.
- `laws.dfy` (module `DynamicArrayLaws`): laws that relate several operations,
  and the scenarios the tests describe.

Where the code and its tests disagree, the model follows the code:

- `cons` writes the new element at index `length`, so it APPENDS
  (`dynamic_array.py:44`). `test_dynamic_array.py:79` expects `[elem] + lst`,
  and `test_dynamic_array.py:29-30` expects `cons(None, cons(1, empty()))` to
  print as `[None, 1]`. The code gives `lst + [elem]` and `[1, None]`.
  `DynamicArrayLaws.ConsScenario` states the appending behaviour.
- `intersection` keeps an element only if it is not already in the result
  (`dynamic_array.py:156`). It therefore DEDUPLICATES, rather than keeping
  every matching occurrence.
- `test_dynamic_array.py:43-46` calls `member(None, l1)` with its arguments
  swapped. The code's signature is `member(arr, value)`, and so is the model's.

## Model

| member | source | states |
|---|---|---|
| `Growth.Clamp` | dynamic_array.py:17 | the stored factor is never below 1.0. A factor above 1.0 is kept, anything else becomes exactly 1.0, and clamping a clamped factor changes nothing |
| `Growth.Max` | dynamic_array.py:168 | the result is one of the two factors and is at least as large as each |
| `Growth.Scale` | dynamic_array.py:31 | `int(capacity * growth_factor)` never falls below the capacity when the factor is at least 1 |
| `Growth.ScaleIsFloor` | dynamic_array.py:31 | `Scale` is exactly the floor of `capacity * num / den`, i.e. `int(capacity * growth_factor)` for an exact ratio |
| `Growth.ScaleByOne` | dynamic_array.py:31 | with factor 1.0 the scaled capacity equals the capacity |
| `Growth.ScaleByDefault` | dynamic_array.py:31 | with the default factor 2.0 the scaled capacity is twice the capacity |
| `Sequences.FirstIndex` | dynamic_array.py:78 | the index of the first element equal to the value: it holds the value and no earlier index does |
| `Sequences.FirstIndexSnoc` | dynamic_array.py:78 | appending an element does not move the first occurrence of a value already present |
| `Sequences.RemoveFirst` | dynamic_array.py:71-85 | removal shortens the sequence by one exactly when the value occurs |
| `Sequences.RemoveFirstAt` | dynamic_array.py:71-85 | when the value first occurs at index k, exactly the element at k is dropped and the rest keep their order |
| `Sequences.RemoveFirstAbsent` | dynamic_array.py:71-85 | without an occurrence of the value the sequence is unchanged |
| `Sequences.RemoveFirstSnoc` | dynamic_array.py:75-82 | the left-to-right scan with a `removed` flag: a new element is skipped only if it is the first match |
| `Sequences.Rev` | dynamic_array.py:95-107 | reversal keeps the length |
| `Sequences.RevAt` | dynamic_array.py:103-104 | index `k` of the reversal holds the element `k` places from the end |
| `Sequences.RevRev` | dynamic_array.py:95-107 | reversing twice gives back the sequence |
| `Sequences.Select` | dynamic_array.py:109-122 | filtering never lengthens the sequence |
| `Sequences.SelectAppend` | dynamic_array.py:109-122 | filtering distributes over concatenation, so the kept elements stay in their original order |
| `Sequences.SelectOne` | dynamic_array.py:116-119 | a single element is kept exactly when the predicate holds for it |
| `Sequences.SelectMembers` | dynamic_array.py:109-122 | an element survives filtering iff it was present and satisfies the predicate |
| `Sequences.Pointwise` | dynamic_array.py:124-136 | mapping keeps the length |
| `Sequences.PointwiseAt` | dynamic_array.py:133 | index `i` of the mapped sequence is `f` applied to index `i` of the input |
| `Sequences.PointwiseCompose` | dynamic_array.py:124-136 | mapping by `f` then by `g` equals mapping by their composition |
| `Sequences.FoldLeft` | dynamic_array.py:139-142 | the fold of `reduce`: `f` applied from the left starting at the initial value; `FoldLeftSnoc` and `DynamicArrays.ReduceFrom` state its meaning |
| `Sequences.FoldLeftSnoc` | dynamic_array.py:138-144 | the left fold combines the last element last |
| `Sequences.Common` | dynamic_array.py:155-157 | the deduplicating loop of `intersection`: never longer than the receiver, and every element it keeps occurs in both inputs; `CommonMembers` and `CommonOrdered` pin it down |
| `Sequences.CommonMembers` | dynamic_array.py:146-161 | an element is in the intersection iff it occurs in both inputs |
| `Sequences.CommonOrdered` | dynamic_array.py:146-161 | the intersection has no duplicates, and its elements are ordered by their first occurrence in the receiver |
| `DynamicArrays.Make` | dynamic_array.py:7-17 | the constructor raises the capacity to at least the tuple size and keeps a length only inside [0, capacity], else it uses 0. It clamps the growth factor |
| `DynamicArrays.Live` | dynamic_array.py:189-195 | the live elements are exactly the occupied slots `0 .. length-1`, in index order (what iteration yields) |
| `DynamicArrays.Layout` | dynamic_array.py:183 | a well-formed tuple is its live elements followed by `None` padding only |
| `DynamicArrays.Empty` | dynamic_array.py:199-200 | `empty(g)` has no live elements, capacity 0 and the clamped factor |
| `DynamicArrays.FromList` | dynamic_array.py:203-210 | `from_list(xs)` has live elements `xs` and capacity `max(len(xs), 1)`, and its tuple is padded to the capacity |
| `DynamicArrays.IsEmpty` | dynamic_array.py:27-28 | true iff there are no live elements |
| `DynamicArrays.Resolve` | dynamic_array.py:53-54 | the negative-index step shared by `get` and `set` (lines 60-61): the resolved index is a live slot iff the index lies in `[-length, length)`, and then it equals the index modulo the length |
| `DynamicArrays.Get` | dynamic_array.py:52-57 | IndexError iff the index is below `-length` or at least `length`. A non-negative index reads that live element, and a negative one reads `length + index` |
| `DynamicArrays.ToList` | dynamic_array.py:233-234 | `to_list` is exactly the live elements |
| `DynamicArrays.MemberFrom` | dynamic_array.py:88-91 | the recursive scan from `idx` is true iff the value occurs among the live elements from `idx` on |
| `DynamicArrays.Member` | dynamic_array.py:87-93 | `member(v)` is true iff `v` is a live element |
| `DynamicArrays.ReduceFrom` | dynamic_array.py:139-142 | the recursive fold from `idx` is the left fold of the live elements from `idx` on |
| `DynamicArrays.Reduce` | dynamic_array.py:138-144 | `reduce(f, init)` is the left fold of `f` over the live elements starting from `init` |
| `DynamicArrays.Equal` | dynamic_array.py:180-183 | `__eq__` compares `data[:length]`, clipped like a Python slice; on well-formed arrays it holds iff the live elements are equal. Padding, capacity and growth factor play no part |
| `DynamicArrays.GrownCapacity` | dynamic_array.py:30-31 | a full array grows to `max(capacity + 1, int(capacity * g))`, which is strictly larger |
| `DynamicArrays.Resize` | dynamic_array.py:30-33 | `_resize` keeps the live elements and the factor. It pads the tuple by the capacity increase, and the new capacity is `max(min_capacity, int(capacity * g))` |
| `DynamicArrays.Appended` | dynamic_array.py:35-50 | `cons(e)` fails with IndexError exactly when `length < capacity` and the tuple has only `length` slots. Otherwise the live elements become the old ones followed by `e`. A full array moves to the grown capacity; otherwise the capacity and tuple size are kept |
| `DynamicArrays.Cons` | dynamic_array.py:35-50 | the copy-and-overwrite of `cons`, including its IndexError, produces exactly `Appended` |
| `DynamicArrays.AppendedPadded` | dynamic_array.py:43-44 | with the copied tuple padded to the capacity, `cons` always appends `e`, under the same capacity policy |
| `DynamicArrays.ConsPadded` | dynamic_array.py:43-44 | the padded copy-and-overwrite produces exactly `AppendedPadded` |
| `DynamicArrays.Updated` | dynamic_array.py:59-69 | `set(i, v)` fails exactly when `get(i)` does. Otherwise only the live element at the resolved index becomes `v`; capacity, tuple size and factor are kept |
| `DynamicArrays.Set` | dynamic_array.py:59-69 | the copy-and-overwrite of `set` produces exactly `Updated` |
| `DynamicArrays.Removed` | dynamic_array.py:71-85 | `remove(v)` leaves the live elements with the first `v` removed and keeps the capacity. Its tuple holds exactly the remaining elements |
| `DynamicArrays.Remove` | dynamic_array.py:71-85 | the scan with a `removed` flag and an accumulator produces exactly `Removed` |
| `DynamicArrays.Reversed` | dynamic_array.py:95-107 | `reverse()` has the reversed live elements in a tuple of `capacity` slots, with the same capacity and factor |
| `DynamicArrays.Reverse` | dynamic_array.py:95-107 | filling a `None` list from the back of the source produces exactly `Reversed` |
| `DynamicArrays.Filtered` | dynamic_array.py:109-122 | `filter(p)` has the live elements satisfying `p`, in order, with capacity = length = their count |
| `DynamicArrays.Filter` | dynamic_array.py:109-122 | the accumulator loop of `filter` produces exactly `Filtered` |
| `DynamicArrays.Mapped` | dynamic_array.py:124-136 | `map(f)` applies `f` to each live element and keeps the length, capacity and factor. Its tuple holds exactly the results |
| `DynamicArrays.Map` | dynamic_array.py:124-136 | the accumulator loop of `map` produces exactly `Mapped` |
| `DynamicArrays.Intersected` | dynamic_array.py:146-161 | `intersection(o)` has the deduplicated common elements in receiver order, with capacity = length = their count and the receiver's factor |
| `DynamicArrays.Intersection` | dynamic_array.py:146-161 | building the set of `o`'s elements and then the deduplicating accumulator loop produces exactly `Intersected` |
| `DynamicArrays.Concatenated` | dynamic_array.py:163-178 | `concat(o)` has the receiver's live elements followed by `o`'s. Capacity = length = the sum, and the factor is the larger of the two |
| `DynamicArrays.Concat` | dynamic_array.py:163-178 | the single pass over the total length produces exactly `Concatenated` |
| `DynamicArrayLaws.RoundTrip` | test_dynamic_array.py:69-72 | `to_list(from_list(xs)) == xs` |
| `DynamicArrayLaws.FromListEqual` | dynamic_array.py:180-183 | two `from_list` arrays are `==` iff their lists are equal, whatever their factors and padding |
| `DynamicArrayLaws.GetBounds` | test_dynamic_array.py:136-139 | `get(-1)` is the last element and `get(-length)` the first. `get(length)` and `get(-(length+1))` raise IndexError |
| `DynamicArrayLaws.SetThenGet` | dynamic_array.py:59-69 | after `set(i, v)`, `get` returns `v` at the resolved index and the old result at every other index |
| `DynamicArrayLaws.ConsOnDense` | dynamic_array.py:35-50 | on a tuple with one slot per unit of capacity, `cons` never fails and agrees with the padded version |
| `DynamicArrayLaws.ConsGrowsByOne` | dynamic_array.py:30-37 | with factor 1.0 a full array grows by exactly one slot |
| `DynamicArrayLaws.ReduceAfterCons` | dynamic_array.py:138-144 | reducing after `cons(e)` is applying `f` to the old reduction and `e` |
| `DynamicArrayLaws.ConsAfterRemove` | dynamic_array.py:39-44 | `cons` after `remove(v)` raises IndexError iff the array was not full or contained `v` |
| `DynamicArrayLaws.ConsAfterMap` | dynamic_array.py:129-131 | `cons` after `map` raises IndexError iff the array was not full |
| `DynamicArrayLaws.ConsAfterRemoveFails` | dynamic_array.py:84-85 | `from_list([]).remove(0).cons(1)` raises IndexError |
| `DynamicArrayLaws.ConsPaddedAfterShrink` | dynamic_array.py:43-44 | the padded `cons` appends after `remove` and after `map` |
| `DynamicArrayLaws.RemoveFirstOccurrence` | dynamic_array.py:71-85 | `remove(v)` deletes exactly the element at the first index of `v`, and keeps the capacity. The length drops by one iff `member(v)`; otherwise the result is `==` to the input |
| `DynamicArrayLaws.ReverseTwice` | test_dynamic_array.py:48 | reversing twice is `==` to the input, and is the identical value on a dense array |
| `DynamicArrayLaws.ReverseGet` | dynamic_array.py:103 | `reverse().get(i)` equals `get(-(i+1))` |
| `DynamicArrayLaws.ConcatLeftIdentity` | test_dynamic_array.py:102-106 | `concat(empty(), a) == a` |
| `DynamicArrayLaws.ConcatRightIdentity` | test_dynamic_array.py:102-107 | `concat(a, empty()) == a` |
| `DynamicArrayLaws.ConcatAssociative` | test_dynamic_array.py:110-118 | `concat(concat(a, b), c) == concat(a, concat(b, c))`, with equal length and capacity |
| `DynamicArrayLaws.ConcatGrowth` | dynamic_array.py:168 | the factor of a concatenation is one of the operands' and at least each of them |
| `DynamicArrayLaws.FilterKeepsExactly` | dynamic_array.py:109-122 | `x` is a member of `filter(p)` iff it is a member and `p(x)`. Filtering a concatenation concatenates the filtered parts |
| `DynamicArrayLaws.MapGet` | dynamic_array.py:124-136 | `map(f)` keeps the length, and `get(i)` on it is `f` of the old element `i` |
| `DynamicArrayLaws.MapCompose` | dynamic_array.py:124-136 | `map(f).map(g) == map(g . f)` |
| `DynamicArrayLaws.ReduceEmpty` | dynamic_array.py:140-141 | `reduce` on an empty array returns the initial value |
| `DynamicArrayLaws.IntersectionMembers` | dynamic_array.py:146-161 | a value is a member of the intersection iff it is a member of both arrays |
| `DynamicArrayLaws.IntersectionOrdered` | dynamic_array.py:146-161 | the intersection holds no value twice, and lists its values in the order of their first occurrence in the receiver |
| `DynamicArrayLaws.SetScenario` | dynamic_array.py:59-69 | `from_list([1,2,3]).set(1, 5)` lists as `[1,5,3]`, and the original still lists as `[1,2,3]` |
| `DynamicArrayLaws.ConsScenario` | test_dynamic_array.py:75-79 | `empty().cons(1).cons(2)` lists as `[1, 2]`: cons appends, contrary to the test's expectation |
| `DynamicArrayLaws.GrowthByOneScenario` | dynamic_array.py:30-50 | five `cons` onto `empty(1.0)` never fail, and the capacity goes 1, 2, 3, 4, 5 |
| `DynamicArrayLaws.FilterScenario` | test_dynamic_array.py:143-147 | filtering `[1,2,3,4]` for even numbers gives `[2,4]` |
| `DynamicArrayLaws.IntersectionScenario` | test_dynamic_array.py:156-159 | `[1,2,3,4]` intersected with `[3,4,5,6]` gives `[3,4]` |

## Left out

- Floating-point growth factors: a factor is an exact ratio `num / den`, and
  `int(capacity * g)` is floor division. Float rounding is not modelled.
- `__str__` (dynamic_array.py:185-187): the rendering depends on Python's
  `str()` of arbitrary objects.
- The laziness of the generator in `__iter__` (dynamic_array.py:189-195):
  iteration is `Live`, the sequence it yields.
- Hashing in `intersection`'s `set`: set membership is equality-based
  membership of `other`'s live elements.
- The `isinstance` test in `__eq__`: only two arrays of the same element type
  are compared. A comparison with a value of another type is not expressible.
- Recursion depth: the recursive helpers of the source are loops or
  recursive functions here. Stack limits are not behaviour.
- The one-line free functions (dynamic_array.py:213-258, other than
  `from_list` and `to_list`): they only delegate to the methods. `length` is
  the `length` field of the datatype.
- A Python `None` stored as a live element: elements have a type parameter
  `T`. A caller who needs `None` as an element instantiates `T` with an
  option type, and `None` in a slot is always padding.
- Arrays built by calling the constructor directly with a tuple shorter than
  the length, or with `None` in a live slot: every operation requires `Wf`,
  which `empty`, `from_list` and every operation establish. `Make` itself
  models the constructor for any arguments.
- Immutability of the receiver is not stated per operation. Arrays are
  Dafny values, so no operation can change its input.

## Findings

| source | as written | input that shows it | evidently intended | confidence | as-written member | corrected member |
|---|---|---|---|---|---|---|
| dynamic_array.py:39-44 | when `length < capacity`, `cons` copies the stored tuple and writes slot `length`. `map` (lines 129-131) and `remove` (lines 84-85) store a tuple of exactly `length` slots but keep the larger capacity, so that slot does not exist | `from_list([]).remove(0).cons(1)`: tuple `()`, capacity 1, length 0, and the write at index 0 raises IndexError | `cons` appends in every case, as it does on arrays built by `empty`, `from_list`, `cons`, `set`, `reverse`, `filter`, `intersection` and `concat` | not executed; high (the index arithmetic is direct) | `DynamicArrayLaws.ConsAfterRemoveFails` | `DynamicArrays.ConsPadded` |
