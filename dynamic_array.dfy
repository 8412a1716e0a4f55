/** The persistent dynamic array of dynamic_array.py.

    A value holds a backing tuple of slots padded with `None`, a declared
    capacity, the number of live elements and a growth factor. No operation
    changes its receiver: each one builds a fresh backing store and returns a
    new value. Operations that the source writes as expressions over the
    tuple are functions; operations that fill a fresh list slot by slot are
    methods with loops, each proved equal to a specification function whose
    meaning is stated in terms of the live elements. */
module DynamicArrays {
  import opened Growth
  import opened Sequences

  /** A slot of the backing tuple: `None` is padding, `Some(x)` holds an element. */
  datatype Option<T> = None | Some(value: T)

  /** The one failure of the core: an index outside the live range. */
  datatype Error = IndexError

  datatype Result<T> = Ok(value: T) | Err(error: Error)

  datatype DynamicArray<T> = DynamicArray(data: seq<Option<T>>, capacity: nat, length: nat, growth: Factor)

  /** `(None,) * n`, which is empty when `n <= 0`. */
  function Nones<T>(n: int): seq<Option<T>> {
    seq(if n <= 0 then 0 else n, _ => None)
  }

  lemma NonesAppend<T>(m: nat, n: nat)
    ensures Nones<T>(m) + Nones<T>(n) == Nones<T>(m + n)
  {
  }

  /** Elements as occupied slots. */
  function Wrap<T>(s: seq<T>): seq<Option<T>> {
    seq(|s|, i requires 0 <= i < |s| => Some(s[i]))
  }

  lemma WrapInjective<T>(s: seq<T>, t: seq<T>)
    requires Wrap(s) == Wrap(t)
    ensures s == t
  {
    assert |s| == |Wrap(s)|;
    forall i | 0 <= i < |s|
      ensures s[i] == t[i]
    {
      assert Wrap(s)[i] == Wrap(t)[i];
    }
  }

  // ---------------------------------------------------------------------
  // construction

  /** The constructor `DynamicArray(data, capacity, length, growth_factor)`:
      the capacity is raised to the number of slots, a length outside
      [0, capacity] becomes 0, and the growth factor is clamped to at least 1. */
  function Make<T>(data: seq<Option<T>>, capacity: int, length: int, growth: Factor): (r: DynamicArray<T>)
    ensures r.data == data
    ensures r.capacity >= |data| && r.capacity >= capacity && (r.capacity == |data| || r.capacity == capacity)
    ensures 0 <= length <= r.capacity ==> r.length == length
    ensures !(0 <= length <= r.capacity) ==> r.length == 0
    ensures r.growth == Clamp(growth) && Normal(r.growth)
  {
    var cap := if capacity >= |data| then capacity else |data|;
    DynamicArray(data, cap, if 0 <= length <= cap then length else 0, Clamp(growth))
  }

  /** What every value built by the factories and operations satisfies: the
      live slots come first and are occupied, the rest of the tuple is padding,
      the tuple fits the capacity, and the growth factor is already clamped. */
  predicate Wf<T>(a: DynamicArray<T>) {
    && a.length <= |a.data| <= a.capacity
    && (forall i :: 0 <= i < |a.data| ==> (a.data[i].Some? <==> i < a.length))
    && Normal(a.growth)
  }

  /** The backing tuple has one slot per unit of capacity. `map` and `remove`
      build arrays without this property. */
  predicate Dense<T>(a: DynamicArray<T>) {
    |a.data| == a.capacity
  }

  /** The live elements `data[:length]`, the only observable content. */
  function Live<T>(a: DynamicArray<T>): (s: seq<T>)
    requires Wf(a)
    ensures |s| == a.length
    ensures forall i :: 0 <= i < a.length ==> a.data[i] == Some(s[i])
  {
    seq(a.length, i requires 0 <= i < a.length => a.data[i].value)
  }

  /** A well-formed tuple is its live elements followed by padding. */
  lemma Layout<T>(a: DynamicArray<T>)
    requires Wf(a)
    ensures a.data == Wrap(Live(a)) + Nones(|a.data| - a.length)
  {
    var w := Wrap(Live(a)) + Nones(|a.data| - a.length);
    assert |w| == |a.data|;
    forall i | 0 <= i < |a.data|
      ensures a.data[i] == w[i]
    {
      if i >= a.length {
        assert a.data[i].None?;
      }
    }
  }

  /** The array whose live elements are `live`, with `slots` slots in its tuple. */
  function Build<T>(live: seq<T>, slots: nat, capacity: nat, growth: Factor): (r: DynamicArray<T>)
    requires |live| <= slots <= capacity
    ensures Wf(r) && Live(r) == live
    ensures |r.data| == slots && r.capacity == capacity && r.growth == Clamp(growth)
  {
    var r := Make(Wrap(live) + Nones(slots - |live|), capacity, |live|, growth);
    assert forall i :: 0 <= i < |live| ==> r.data[i] == Some(live[i]);
    r
  }

  /** `empty(growth_factor)`. */
  function Empty<T>(growth: Factor): (r: DynamicArray<T>)
    ensures Wf(r) && Live(r) == [] && Dense(r)
    ensures r.capacity == 0 && r.growth == Clamp(growth)
  {
    Make([], 0, 0, growth)
  }

  /** `from_list(py_list, growth_factor)`: capacity `max(len, 1)`, the list
      followed by `None` padding. */
  function FromList<T>(xs: seq<T>, growth: Factor): (r: DynamicArray<T>)
    ensures Wf(r) && Live(r) == xs && Dense(r)
    ensures r.capacity == (if |xs| == 0 then 1 else |xs|) && r.growth == Clamp(growth)
  {
    var capacity := if |xs| >= 1 then |xs| else 1;
    var r := Make(Wrap(xs) + Nones(capacity - |xs|), capacity, |xs|, growth);
    assert forall i :: 0 <= i < |xs| ==> r.data[i] == Some(xs[i]);
    r
  }

  // ---------------------------------------------------------------------
  // queries

  function IsEmpty<T>(a: DynamicArray<T>): (r: bool)
    requires Wf(a)
    ensures r <==> Live(a) == []
  {
    a.length == 0
  }

  /** Negative indices count from the end: an index lands on a live slot
      exactly when it lies in `[-length, length)`, and then it is the index
      taken modulo the length. */
  function Resolve(length: nat, index: int): (r: int)
    ensures 0 <= r < length <==> -(length as int) <= index < length
    ensures -(length as int) <= index < length ==> r == index % length
  {
    if index < 0 then index + length else index
  }

  /** `get(index)`. */
  function Get<T>(a: DynamicArray<T>, index: int): (r: Result<T>)
    requires Wf(a)
    ensures r.Err? <==> index + a.length < 0 || a.length <= index
    ensures 0 <= index < a.length ==> r == Ok(Live(a)[index])
    ensures index < 0 <= index + a.length ==> r == Ok(Live(a)[a.length + index])
  {
    var i := Resolve(a.length, index);
    if 0 <= i < a.length then Ok(a.data[i].value) else Err(IndexError)
  }

  /** `to_list(arr)`: `get(i)` for every live index. */
  function ToList<T>(a: DynamicArray<T>): (r: seq<T>)
    requires Wf(a)
    ensures r == Live(a)
  {
    seq(a.length, i requires 0 <= i < a.length => Get(a, i).value)
  }

  /** The recursive scan of `member`, from index `idx` on. */
  function MemberFrom<T(==)>(a: DynamicArray<T>, v: T, idx: nat): (r: bool)
    requires Wf(a) && idx <= a.length
    ensures r <==> v in Live(a)[idx..]
    decreases a.length - idx
  {
    if idx >= a.length then false
    else
      assert Live(a)[idx..] == [Live(a)[idx]] + Live(a)[idx + 1..];
      a.data[idx].value == v || MemberFrom(a, v, idx + 1)
  }

  /** `member(value)`. */
  function Member<T(==)>(a: DynamicArray<T>, v: T): (r: bool)
    requires Wf(a)
    ensures r <==> v in Live(a)
  {
    assert Live(a)[0..] == Live(a);
    MemberFrom(a, v, 0)
  }

  /** The recursive fold of `reduce`, from index `idx` on with accumulator `acc`. */
  function ReduceFrom<T, R>(a: DynamicArray<T>, f: (R, T) -> R, idx: nat, acc: R): (r: R)
    requires Wf(a) && idx <= a.length
    ensures r == FoldLeft(f, acc, Live(a)[idx..])
    decreases a.length - idx
  {
    if idx >= a.length then acc
    else
      assert Live(a)[idx..][1..] == Live(a)[idx + 1..];
      ReduceFrom(a, f, idx + 1, f(acc, a.data[idx].value))
  }

  /** `reduce(func, initial)`: a left fold over the live elements. */
  function Reduce<T, R>(a: DynamicArray<T>, f: (R, T) -> R, initial: R): (r: R)
    requires Wf(a)
    ensures r == FoldLeft(f, initial, Live(a))
  {
    assert Live(a)[0..] == Live(a);
    ReduceFrom(a, f, 0, initial)
  }

  /** `data[:length]`, clipped like a Python slice. */
  function Prefix<T>(a: DynamicArray<T>): seq<Option<T>> {
    a.data[..if a.length <= |a.data| then a.length else |a.data|]
  }

  /** `__eq__`: only the live prefixes are compared, so equality sees the
      live elements and nothing else: not the padding, the capacity or the
      growth factor. */
  function Equal<T(==)>(a: DynamicArray<T>, b: DynamicArray<T>): (r: bool)
    ensures Wf(a) && Wf(b) ==> (r <==> Live(a) == Live(b))
  {
    SamePrefix(a, b);
    Prefix(a) == Prefix(b)
  }

  lemma SamePrefix<T>(a: DynamicArray<T>, b: DynamicArray<T>)
    ensures Wf(a) && Wf(b) ==> (Prefix(a) == Prefix(b) <==> Live(a) == Live(b))
  {
    if Wf(a) && Wf(b) {
      Layout(a);
      Layout(b);
      assert Prefix(a) == Wrap(Live(a));
      assert Prefix(b) == Wrap(Live(b));
      if Prefix(a) == Prefix(b) {
        WrapInjective(Live(a), Live(b));
      }
    }
  }

  // ---------------------------------------------------------------------
  // growth and insertion

  /** `max(capacity + 1, int(capacity * growth_factor))`, the capacity `cons`
      moves a full array to. */
  function GrownCapacity<T>(a: DynamicArray<T>): (c: nat)
    requires Normal(a.growth)
    ensures c > a.capacity && c >= Scale(a.capacity, a.growth)
    ensures c == a.capacity + 1 || c == Scale(a.capacity, a.growth)
  {
    var scaled := Scale(a.capacity, a.growth);
    if a.capacity + 1 >= scaled then a.capacity + 1 else scaled
  }

  /** `_resize(min_capacity)`: the same live elements with the tuple padded
      out to the new capacity. */
  function Resize<T>(a: DynamicArray<T>, minCapacity: int): (r: DynamicArray<T>)
    requires Wf(a)
    ensures Wf(r) && Live(r) == Live(a) && r.growth == a.growth
    ensures r.capacity >= minCapacity && r.capacity >= Scale(a.capacity, a.growth)
    ensures r.capacity == minCapacity || r.capacity == Scale(a.capacity, a.growth)
    ensures r.data == a.data + Nones(r.capacity - a.capacity)
  {
    var scaled := Scale(a.capacity, a.growth);
    var newCapacity := if minCapacity >= scaled then minCapacity else scaled;
    var r := Make(a.data + Nones(newCapacity - a.capacity), newCapacity, a.length, a.growth);
    assert Live(a) == Live(r) by {
      assert forall i :: 0 <= i < a.length ==> r.data[i] == a.data[i];
    }
    r
  }

  /** What `cons(element)` produces. The element is written at index `length`,
      so it is APPENDED. A full array is first grown; otherwise the slot at
      `length` of the existing tuple is overwritten, which raises IndexError
      when the tuple has no slot there. */
  function Appended<T>(a: DynamicArray<T>, e: T): (r: Result<DynamicArray<T>>)
    requires Wf(a)
    ensures r.Err? <==> a.length < a.capacity && a.length == |a.data|
    ensures r.Ok? ==> Wf(r.value) && Live(r.value) == Live(a) + [e] && r.value.growth == a.growth
    ensures r.Ok? && a.length == a.capacity ==> r.value.capacity == GrownCapacity(a) && Dense(r.value)
    ensures r.Ok? && a.length < a.capacity ==> r.value.capacity == a.capacity && |r.value.data| == |a.data|
  {
    if a.length == a.capacity then
      Ok(Build(Live(a) + [e], GrownCapacity(a), GrownCapacity(a), a.growth))
    else if a.length < |a.data| then
      Ok(Build(Live(a) + [e], |a.data|, a.capacity, a.growth))
    else
      Err(IndexError)
  }

  /** Writing the element at the first free slot of a well-formed tuple. */
  lemma PlaceAfterLive<T>(live: seq<T>, e: T, n: int)
    requires n >= 1
    ensures (Wrap(live) + Nones(n))[|live| := Some(e)] == Wrap(live + [e]) + Nones(n - 1)
  {
    var w := Wrap(live + [e]) + Nones(n - 1);
    forall i | 0 <= i < |w|
      ensures (Wrap(live) + Nones(n))[|live| := Some(e)][i] == w[i]
    {
    }
  }

  /** `cons(element)` as written. */
  method Cons<T>(a: DynamicArray<T>, e: T) returns (r: Result<DynamicArray<T>>)
    requires Wf(a)
    ensures r == Appended(a, e)
  {
    var grown: DynamicArray<T>;
    if a.length == a.capacity {
      grown := Resize(a, a.capacity + 1);
    } else {
      grown := Make(a.data, a.capacity, a.length, a.growth);
    }
    if grown.length >= |grown.data| {
      return Err(IndexError);
    }
    var slots := new Option<T>[|grown.data|](i requires 0 <= i < |grown.data| => grown.data[i]);
    slots[grown.length] := Some(e);
    r := Ok(Make(slots[..], grown.capacity, grown.length + 1, a.growth));
    Layout(a);
    NonesAppend<T>(|a.data| - a.length, |grown.data| - |a.data|);
    assert grown.data == Wrap(Live(a)) + Nones(|grown.data| - a.length);
    PlaceAfterLive(Live(a), e, |grown.data| - a.length);
    assert slots[..] == Wrap(Live(a) + [e]) + Nones(|grown.data| - (a.length + 1));
  }

  /** `cons` with the copied tuple first padded out to the capacity, so that
      the slot at `length` always exists. */
  function AppendedPadded<T>(a: DynamicArray<T>, e: T): (r: DynamicArray<T>)
    requires Wf(a)
    ensures Wf(r) && Live(r) == Live(a) + [e] && r.growth == a.growth && Dense(r)
    ensures a.length == a.capacity ==> r.capacity == GrownCapacity(a)
    ensures a.length < a.capacity ==> r.capacity == a.capacity
  {
    if a.length == a.capacity then Build(Live(a) + [e], GrownCapacity(a), GrownCapacity(a), a.growth)
    else Build(Live(a) + [e], a.capacity, a.capacity, a.growth)
  }

  /** `cons(element)` with the padding repaired: it never fails. */
  method ConsPadded<T>(a: DynamicArray<T>, e: T) returns (r: DynamicArray<T>)
    requires Wf(a)
    ensures r == AppendedPadded(a, e)
  {
    var grown: DynamicArray<T>;
    if a.length == a.capacity {
      grown := Resize(a, a.capacity + 1);
    } else {
      grown := Make(a.data, a.capacity, a.length, a.growth);
    }
    var padded := grown.data + Nones(grown.capacity - |grown.data|);
    var slots := new Option<T>[|padded|](i requires 0 <= i < |padded| => padded[i]);
    slots[grown.length] := Some(e);
    r := Make(slots[..], grown.capacity, grown.length + 1, a.growth);
    Layout(a);
    assert padded == Wrap(Live(a)) + Nones(grown.capacity - a.length);
    PlaceAfterLive(Live(a), e, grown.capacity - a.length);
  }

  // ---------------------------------------------------------------------
  // update

  /** What `set(index, value)` produces: the same index normalisation and
      IndexError as `get`; otherwise one live element replaced. */
  function Updated<T>(a: DynamicArray<T>, index: int, v: T): (r: Result<DynamicArray<T>>)
    requires Wf(a)
    ensures r.Err? <==> index + a.length < 0 || a.length <= index
    ensures r.Ok? ==> Wf(r.value) && Live(r.value) == Live(a)[Resolve(a.length, index) := v]
    ensures r.Ok? ==> r.value.capacity == a.capacity && r.value.growth == a.growth && |r.value.data| == |a.data|
  {
    var i := Resolve(a.length, index);
    if 0 <= i < a.length then Ok(Build(Live(a)[i := v], |a.data|, a.capacity, a.growth))
    else Err(IndexError)
  }

  /** `set(index, value)`: copies the tuple and overwrites one slot. */
  method Set<T>(a: DynamicArray<T>, index: int, v: T) returns (r: Result<DynamicArray<T>>)
    requires Wf(a)
    ensures r == Updated(a, index, v)
  {
    var i := index;
    if i < 0 {
      i := i + a.length;
    }
    if !(0 <= i < a.length) {
      return Err(IndexError);
    }
    var slots := new Option<T>[|a.data|](k requires 0 <= k < |a.data| => a.data[k]);
    slots[i] := Some(v);
    r := Ok(Make(slots[..], a.capacity, a.length, a.growth));
    Layout(a);
    assert slots[..] == Wrap(Live(a)[i := v]) + Nones(|a.data| - a.length);
  }

  // ---------------------------------------------------------------------
  // removal

  /** What `remove(value)` produces: the first occurrence dropped, the tuple
      holding exactly the remaining elements, the capacity kept. */
  function Removed<T(==)>(a: DynamicArray<T>, v: T): (r: DynamicArray<T>)
    requires Wf(a)
    ensures Wf(r) && Live(r) == RemoveFirst(Live(a), v)
    ensures r.capacity == a.capacity && r.growth == a.growth && |r.data| == r.length
  {
    var rest := RemoveFirst(Live(a), v);
    Build(rest, |rest|, a.capacity, a.growth)
  }

  /** `remove(value)`: scans from index 0 and skips the first equal element. */
  method Remove<T(==)>(a: DynamicArray<T>, v: T) returns (r: DynamicArray<T>)
    requires Wf(a)
    ensures r == Removed(a, v)
  {
    var kept: seq<T> := [];
    var removed := false;
    var idx := 0;
    while idx < a.length
      invariant 0 <= idx <= a.length
      invariant removed <==> v in Live(a)[..idx]
      invariant kept == RemoveFirst(Live(a)[..idx], v)
    {
      var x := a.data[idx].value;
      assert Live(a)[..idx + 1] == Live(a)[..idx] + [x];
      RemoveFirstSnoc(Live(a)[..idx], x, v);
      if v !in Live(a)[..idx] {
        RemoveFirstAbsent(Live(a)[..idx], v);
      }
      if !removed && x == v {
        removed := true;
      } else {
        kept := kept + [x];
      }
      idx := idx + 1;
    }
    assert Live(a)[..a.length] == Live(a);
    r := Make(Wrap(kept), a.capacity, a.length - (if removed then 1 else 0), a.growth);
    assert Wrap(kept) + Nones(0) == Wrap(kept);
  }

  // ---------------------------------------------------------------------
  // structural transforms

  /** What `reverse()` produces: the live elements reversed in a fresh tuple
      of `capacity` slots. */
  function Reversed<T>(a: DynamicArray<T>): (r: DynamicArray<T>)
    requires Wf(a)
    ensures Wf(r) && Live(r) == Rev(Live(a)) && Dense(r)
    ensures r.capacity == a.capacity && r.growth == a.growth
  {
    Build(Rev(Live(a)), a.capacity, a.capacity, a.growth)
  }

  /** `reverse()`: fills a tuple of `None`s from the back of the source. */
  method Reverse<T>(a: DynamicArray<T>) returns (r: DynamicArray<T>)
    requires Wf(a)
    ensures r == Reversed(a)
  {
    var slots := new Option<T>[a.capacity](_ => None);
    var src: int := a.length - 1;
    var dst := 0;
    while src >= 0
      invariant 0 <= dst <= a.length && src == a.length - 1 - dst
      invariant forall k :: 0 <= k < dst ==> slots[k] == Some(Live(a)[a.length - 1 - k])
      invariant forall k :: dst <= k < a.capacity ==> slots[k] == None
    {
      slots[dst] := a.data[src];
      src, dst := src - 1, dst + 1;
    }
    r := Make(slots[..], a.capacity, a.length, a.growth);
    var w := Wrap(Rev(Live(a))) + Nones(a.capacity - a.length);
    forall k | 0 <= k < a.capacity
      ensures slots[k] == w[k]
    {
      if k < a.length {
        RevAt(Live(a), k);
      }
    }
    assert slots[..] == w;
  }

  /** What `filter(predicate)` produces: the matching elements in order, with
      capacity and length both their count. */
  function Filtered<T>(a: DynamicArray<T>, p: T -> bool): (r: DynamicArray<T>)
    requires Wf(a)
    ensures Wf(r) && Live(r) == Select(p, Live(a)) && Dense(r)
    ensures r.capacity == r.length && r.growth == a.growth
  {
    var kept := Select(p, Live(a));
    Build(kept, |kept|, |kept|, a.growth)
  }

  /** `filter(predicate)`. */
  method Filter<T>(a: DynamicArray<T>, p: T -> bool) returns (r: DynamicArray<T>)
    requires Wf(a)
    ensures r == Filtered(a, p)
  {
    var kept: seq<T> := [];
    var count := 0;
    var idx := 0;
    while idx < a.length
      invariant 0 <= idx <= a.length
      invariant kept == Select(p, Live(a)[..idx]) && count == |kept|
    {
      var x := a.data[idx].value;
      assert Live(a)[..idx + 1][..idx] == Live(a)[..idx];
      if p(x) {
        kept := kept + [x];
        count := count + 1;
      }
      idx := idx + 1;
    }
    assert Live(a)[..a.length] == Live(a);
    r := Make(Wrap(kept), count, count, a.growth);
    assert Wrap(kept) + Nones(0) == Wrap(kept);
  }

  /** What `map(func)` produces: `func` applied to each live element; the
      tuple holds exactly the results, the capacity is kept. */
  function Mapped<T, U>(a: DynamicArray<T>, f: T -> U): (r: DynamicArray<U>)
    requires Wf(a)
    ensures Wf(r) && Live(r) == Pointwise(f, Live(a))
    ensures r.length == a.length && r.capacity == a.capacity && r.growth == a.growth && |r.data| == r.length
  {
    Build(Pointwise(f, Live(a)), a.length, a.capacity, a.growth)
  }

  /** `map(func)`. */
  method Map<T, U>(a: DynamicArray<T>, f: T -> U) returns (r: DynamicArray<U>)
    requires Wf(a)
    ensures r == Mapped(a, f)
  {
    var results: seq<U> := [];
    var count := 0;
    var idx := 0;
    while idx < a.length
      invariant 0 <= idx <= a.length && count == idx
      invariant results == Pointwise(f, Live(a)[..idx])
    {
      assert Live(a)[..idx + 1][..idx] == Live(a)[..idx];
      results := results + [f(a.data[idx].value)];
      count := count + 1;
      idx := idx + 1;
    }
    assert Live(a)[..a.length] == Live(a);
    r := Make(Wrap(results), a.capacity, count, a.growth);
    assert Wrap(results) + Nones(0) == Wrap(results);
  }

  // ---------------------------------------------------------------------
  // combining

  /** What `intersection(other)` produces: the first occurrence of each live
      element that is also live in `other`, in order; capacity and length
      both their count. */
  function Intersected<T(==)>(a: DynamicArray<T>, other: DynamicArray<T>): (r: DynamicArray<T>)
    requires Wf(a) && Wf(other)
    ensures Wf(r) && Live(r) == Common(Live(a), Live(other)) && Dense(r)
    ensures r.capacity == r.length && r.growth == a.growth
  {
    var kept := Common(Live(a), Live(other));
    Build(kept, |kept|, |kept|, a.growth)
  }

  /** `intersection(other)`: collects `other`'s elements into a set, then keeps
      each element of the receiver that is in the set and not yet kept. */
  method Intersection<T(==)>(a: DynamicArray<T>, other: DynamicArray<T>) returns (r: DynamicArray<T>)
    requires Wf(a) && Wf(other)
    ensures r == Intersected(a, other)
  {
    var seen := set i | 0 <= i < other.length :: Get(other, i).value;
    assert forall y :: y in seen <==> y in Live(other) by {
      forall y | y in Live(other)
        ensures y in seen
      {
        var i :| 0 <= i < other.length && Live(other)[i] == y;
        assert Get(other, i).value == y;
      }
    }
    var kept: seq<T> := [];
    var idx := 0;
    while idx < a.length
      invariant 0 <= idx <= a.length
      invariant kept == Common(Live(a)[..idx], Live(other))
    {
      var x := a.data[idx].value;
      assert Live(a)[..idx + 1][..idx] == Live(a)[..idx];
      if x in seen && x !in kept {
        kept := kept + [x];
      }
      idx := idx + 1;
    }
    assert Live(a)[..a.length] == Live(a);
    r := Make(Wrap(kept), |kept|, |kept|, a.growth);
    assert Wrap(kept) + Nones(0) == Wrap(kept);
  }

  /** What `concat(other)` produces: the receiver's live elements followed by
      `other`'s, capacity and length both the total, and the larger of the
      two growth factors. */
  function Concatenated<T>(a: DynamicArray<T>, b: DynamicArray<T>): (r: DynamicArray<T>)
    requires Wf(a) && Wf(b)
    ensures Wf(r) && Live(r) == Live(a) + Live(b) && Dense(r)
    ensures r.capacity == r.length == a.length + b.length
    ensures r.growth == Max(a.growth, b.growth)
  {
    Build(Live(a) + Live(b), a.length + b.length, a.length + b.length, Max(a.growth, b.growth))
  }

  /** `concat(other)`: one pass over the total length, reading from the
      receiver first and from `other` after it. */
  method Concat<T>(a: DynamicArray<T>, b: DynamicArray<T>) returns (r: DynamicArray<T>)
    requires Wf(a) && Wf(b)
    ensures r == Concatenated(a, b)
  {
    var total := a.length + b.length;
    var joined: seq<T> := [];
    var idx := 0;
    while idx < total
      invariant 0 <= idx <= total
      invariant joined == (Live(a) + Live(b))[..idx]
    {
      var x := if idx < a.length then a.data[idx].value else b.data[idx - a.length].value;
      joined := joined + [x];
      idx := idx + 1;
    }
    r := Make(Wrap(joined), |joined|, total, Max(a.growth, b.growth));
    assert Wrap(joined) + Nones(0) == Wrap(joined);
  }
}
