/**
 * The list utilities of `src/utils/array.ts`: `groupBy`, `flatten`,
 * `flatMap`, `uniqBy` and `unionBy`. Each loop of the source is a method
 * proved against a function that says what it computes; the lemmas state
 * what those functions promise.
 */
module ArrayUtils {

  // ---------------------------------------------------------------------------
  // Shared notions
  // ---------------------------------------------------------------------------

  /** The keys that f gives the elements of s. */
  function KeySet<T, K>(s: seq<T>, f: T -> K): set<K>
  {
    set i | 0 <= i < |s| :: f(s[i])
  }

  /** Extending a sequence by one element adds that element's key. */
  lemma KeySetSnoc<T, K>(s: seq<T>, x: T, f: T -> K)
    ensures KeySet(s + [x], f) == KeySet(s, f) + {f(x)}
  {
    var t := s + [x];
    assert forall i :: 0 <= i < |s| ==> t[i] == s[i];
    assert t[|s|] == x;
  }

  /** The keys of a concatenation are the keys of its two parts. */
  lemma KeySetConcat<T, K>(a: seq<T>, b: seq<T>, f: T -> K)
    ensures KeySet(a + b, f) == KeySet(a, f) + KeySet(b, f)
  {
    var s := a + b;
    assert forall i :: 0 <= i < |a| ==> s[i] == a[i];
    assert forall i :: 0 <= i < |b| ==> s[|a| + i] == b[i];
  }

  /** s is obtained from t by deleting elements, keeping the order of the rest. */
  predicate IsSubsequence<T(==)>(s: seq<T>, t: seq<T>)
    decreases |t|
  {
    if s == [] then true
    else if t == [] then false
    else if s[|s| - 1] == t[|t| - 1] && IsSubsequence(s[..|s| - 1], t[..|t| - 1]) then true
    else IsSubsequence(s, t[..|t| - 1])
  }

  /** A subsequence is never longer than the sequence it is taken from. */
  lemma {:induction false} SubsequenceLength<T>(s: seq<T>, t: seq<T>)
    requires IsSubsequence(s, t)
    ensures |s| <= |t|
    decreases |t|
  {
    if s != [] {
      if s[|s| - 1] == t[|t| - 1] && IsSubsequence(s[..|s| - 1], t[..|t| - 1]) {
        SubsequenceLength(s[..|s| - 1], t[..|t| - 1]);
      } else {
        SubsequenceLength(s, t[..|t| - 1]);
      }
    }
  }

  /** A subsequence of t stays one when t grows at its end. */
  lemma {:induction false} SubsequenceSnoc<T>(s: seq<T>, t: seq<T>, x: T)
    requires IsSubsequence(s, t)
    ensures IsSubsequence(s, t + [x]) && IsSubsequence(s + [x], t + [x])
  {
    assert (t + [x])[..|t|] == t;
    assert (s + [x])[..|s|] == s;
  }

  // ---------------------------------------------------------------------------
  // groupBy
  // ---------------------------------------------------------------------------

  /** The elements of s whose key is k, in their order in s. */
  function Filter<T, K(==)>(s: seq<T>, f: T -> K, k: K): seq<T>
  {
    if s == [] then []
    else Filter(s[..|s| - 1], f, k) + (if f(s[|s| - 1]) == k then [s[|s| - 1]] else [])
  }

  /** What `groupBy(arr, getKeyFromItem)` returns: for each key that occurs, the elements with that key. */
  function Grouped<T, K(==)>(arr: seq<T>, f: T -> K): map<K, seq<T>>
  {
    map k | k in KeySet(arr, f) :: Filter(arr, f, k)
  }

  lemma FilterSnoc<T, K>(s: seq<T>, x: T, f: T -> K, k: K)
    ensures Filter(s + [x], f, k) == Filter(s, f, k) + (if f(x) == k then [x] else [])
  {
    assert (s + [x])[..|s|] == s;
  }

  /** No element has a key that does not occur. */
  lemma {:induction false} FilterAbsent<T, K>(s: seq<T>, f: T -> K, k: K)
    requires k !in KeySet(s, f)
    ensures Filter(s, f, k) == []
  {
    if s != [] {
      var p := s[..|s| - 1];
      assert s == p + [s[|s| - 1]];
      KeySetSnoc(p, s[|s| - 1], f);
      FilterAbsent(p, f, k);
    }
  }

  /** Adding one element to the array adds it at the end of its own group only. */
  lemma GroupedSnoc<T, K>(s: seq<T>, x: T, f: T -> K)
    ensures Grouped(s + [x], f) ==
      var g := Grouped(s, f);
      g[f(x) := (if f(x) in g then g[f(x)] else []) + [x]]
  {
    var g := Grouped(s, f);
    var g' := g[f(x) := (if f(x) in g then g[f(x)] else []) + [x]];
    KeySetSnoc(s, x, f);
    forall k | k in KeySet(s + [x], f)
      ensures Filter(s + [x], f, k) == g'[k]
    {
      FilterSnoc(s, x, f, k);
      if k == f(x) && k !in g {
        FilterAbsent(s, f, k);
      }
    }
  }

  /**
   * `groupBy`: a loop over the array that creates the group of a key on its
   * first element and pushes every element onto the group of its key.
   */
  method GroupBy<T, K(==)>(arr: seq<T>, getKeyFromItem: T -> K) returns (result: map<K, seq<T>>)
    ensures result == Grouped(arr, getKeyFromItem)
  {
    result := map[];
    for i := 0 to |arr|
      invariant result == Grouped(arr[..i], getKeyFromItem)
    {
      var item := arr[i];
      var key := getKeyFromItem(item);
      if key !in result {
        result := result[key := []];
      }
      result := result[key := result[key] + [item]];
      assert arr[..i + 1] == arr[..i] + [item];
      GroupedSnoc(arr[..i], item, getKeyFromItem);
    }
    assert arr[..|arr|] == arr;
  }

  /** A group holds only elements of its own key. */
  lemma {:induction false} FilterKeys<T, K>(s: seq<T>, f: T -> K, k: K)
    ensures forall x :: x in Filter(s, f, k) ==> f(x) == k
  {
    if s != [] {
      FilterKeys(s[..|s| - 1], f, k);
    }
  }

  /** A group holds each element of its key as many times as the array does. */
  lemma {:induction false} FilterCount<T, K>(s: seq<T>, f: T -> K, k: K, x: T)
    requires f(x) == k
    ensures multiset(Filter(s, f, k))[x] == multiset(s)[x]
  {
    if s != [] {
      var p, last := s[..|s| - 1], s[|s| - 1];
      assert s == p + [last];
      FilterCount(p, f, k, x);
    }
  }

  /** Every element is in the group of its own key. */
  lemma {:induction false} FilterContains<T, K>(s: seq<T>, f: T -> K, i: nat)
    requires i < |s|
    ensures s[i] in Filter(s, f, f(s[i]))
  {
    var p := s[..|s| - 1];
    if i < |p| {
      FilterContains(p, f, i);
      assert s[i] == p[i];
    }
  }

  /** A group keeps the relative order its elements have in the array. */
  lemma {:induction false} FilterSubsequence<T, K>(s: seq<T>, f: T -> K, k: K)
    ensures IsSubsequence(Filter(s, f, k), s)
  {
    if s != [] {
      var p, last := s[..|s| - 1], s[|s| - 1];
      assert s == p + [last];
      FilterSubsequence(p, f, k);
      FilterSnoc(p, last, f, k);
      SubsequenceSnoc(Filter(p, f, k), p, last);
      if f(last) == k {
        assert Filter(s, f, k) == Filter(p, f, k) + [last];
      } else {
        assert Filter(s, f, k) == Filter(p, f, k);
      }
    }
  }

  /**
   * What `groupBy` promises: there is a group exactly for each key that some
   * element produces, no group is empty, every element is in the group of its
   * own key, each group holds only elements of its key, as many times as the
   * array does, and in the array's order.
   */
  lemma GroupedPartitions<T, K>(arr: seq<T>, f: T -> K)
    ensures Grouped(arr, f).Keys == KeySet(arr, f)
    ensures forall i :: 0 <= i < |arr| ==> f(arr[i]) in Grouped(arr, f) && arr[i] in Grouped(arr, f)[f(arr[i])]
    ensures forall k :: k in Grouped(arr, f) ==> Grouped(arr, f)[k] != []
    ensures forall k, x :: k in Grouped(arr, f) && x in Grouped(arr, f)[k] ==> f(x) == k
    ensures forall k, x :: k in Grouped(arr, f) && f(x) == k ==> multiset(Grouped(arr, f)[k])[x] == multiset(arr)[x]
    ensures forall k :: k in Grouped(arr, f) ==> IsSubsequence(Grouped(arr, f)[k], arr)
  {
    var g := Grouped(arr, f);
    forall k | k in KeySet(arr, f)
      ensures g[k] != []
      ensures forall x :: x in g[k] ==> f(x) == k
      ensures IsSubsequence(g[k], arr)
    {
      FilterKeys(arr, f, k);
      FilterSubsequence(arr, f, k);
      var i :| 0 <= i < |arr| && f(arr[i]) == k;
      FilterContains(arr, f, i);
    }
    forall k, x | k in KeySet(arr, f) && f(x) == k
      ensures multiset(g[k])[x] == multiset(arr)[x]
    {
      FilterCount(arr, f, k, x);
    }
    forall i | 0 <= i < |arr|
      ensures arr[i] in g[f(arr[i])]
    {
      FilterContains(arr, f, i);
    }
  }

  /** The keys of a sequence are pairwise distinct. */
  ghost predicate Distinct<K>(keys: seq<K>)
  {
    forall i, j :: 0 <= i < j < |keys| ==> keys[i] != keys[j]
  }

  /** The sum of the sizes of the groups named by keys. */
  function GroupSizes<T, K>(groups: map<K, seq<T>>, keys: seq<K>): nat
    requires forall j :: 0 <= j < |keys| ==> keys[j] in groups
  {
    if keys == [] then 0 else |groups[keys[0]]| + GroupSizes(groups, keys[1..])
  }

  /** The sum of the sizes of the filters of s for the given keys. */
  function FilterSizes<T, K(==)>(s: seq<T>, f: T -> K, keys: seq<K>): nat
  {
    if keys == [] then 0 else |Filter(s, f, keys[0])| + FilterSizes(s, f, keys[1..])
  }

  /** How often k occurs in keys. */
  function Occurrences<K(==)>(keys: seq<K>, k: K): nat
  {
    if keys == [] then 0 else (if keys[0] == k then 1 else 0) + Occurrences(keys[1..], k)
  }

  lemma {:induction false} OccursOnce<K>(keys: seq<K>, k: K)
    requires Distinct(keys) && k in keys
    ensures Occurrences(keys, k) == 1
  {
    if keys[0] == k {
      assert k !in keys[1..];
      OccursNever(keys[1..], k);
    } else {
      OccursOnce(keys[1..], k);
    }
  }

  lemma {:induction false} OccursNever<K>(keys: seq<K>, k: K)
    requires k !in keys
    ensures Occurrences(keys, k) == 0
  {
    if keys != [] {
      OccursNever(keys[1..], k);
    }
  }

  lemma {:induction false} FilterSizesSnoc<T, K>(s: seq<T>, x: T, f: T -> K, keys: seq<K>)
    ensures FilterSizes(s + [x], f, keys) == FilterSizes(s, f, keys) + Occurrences(keys, f(x))
  {
    if keys != [] {
      FilterSnoc(s, x, f, keys[0]);
      FilterSizesSnoc(s, x, f, keys[1..]);
    }
  }

  lemma {:induction false} FilterSizesEmpty<T, K>(f: T -> K, keys: seq<K>)
    ensures FilterSizes([], f, keys) == 0
  {
    if keys != [] {
      FilterSizesEmpty(f, keys[1..]);
    }
  }

  /** Over distinct keys that cover every key of s, the filters' sizes add up to |s|. */
  lemma {:induction false} FilterSizesTotal<T, K>(s: seq<T>, f: T -> K, keys: seq<K>)
    requires Distinct(keys)
    requires forall i :: 0 <= i < |s| ==> f(s[i]) in keys
    ensures FilterSizes(s, f, keys) == |s|
  {
    if s == [] {
      FilterSizesEmpty(f, keys);
    } else {
      var p, x := s[..|s| - 1], s[|s| - 1];
      assert s == p + [x];
      assert forall i :: 0 <= i < |p| ==> p[i] == s[i];
      FilterSizesTotal(p, f, keys);
      FilterSizesSnoc(p, x, f, keys);
      assert f(s[|s| - 1]) in keys;
      OccursOnce(keys, f(x));
      assert FilterSizes(s, f, keys) == |p| + 1;
    }
  }

  lemma {:induction false} GroupSizesAreFilterSizes<T, K>(arr: seq<T>, f: T -> K, keys: seq<K>)
    requires forall j :: 0 <= j < |keys| ==> keys[j] in Grouped(arr, f)
    ensures GroupSizes(Grouped(arr, f), keys) == FilterSizes(arr, f, keys)
  {
    if keys != [] {
      GroupSizesAreFilterSizes(arr, f, keys[1..]);
    }
  }

  /**
   * The group sizes of `groupBy` sum to the length of the array: listing the
   * keys of the result once each, in any order, the sizes add up to |arr|.
   */
  lemma GroupSizesSum<T, K>(arr: seq<T>, f: T -> K, keys: seq<K>)
    requires Distinct(keys)
    requires forall j :: 0 <= j < |keys| ==> keys[j] in Grouped(arr, f)
    requires forall k :: k in Grouped(arr, f) ==> k in keys
    ensures GroupSizes(Grouped(arr, f), keys) == |arr|
  {
    GroupSizesAreFilterSizes(arr, f, keys);
    forall i | 0 <= i < |arr|
      ensures f(arr[i]) in keys
    {
      var k := f(arr[i]);
      assert k in KeySet(arr, f);
      assert k in Grouped(arr, f);
      assert k in keys;
    }
    FilterSizesTotal(arr, f, keys);
  }

  // ---------------------------------------------------------------------------
  // flatten and flatMap
  // ---------------------------------------------------------------------------

  /** An array element: a plain value, or a nested array. */
  datatype Item<T> = Leaf(value: T) | Nested(items: seq<Item<T>>)

  /**
   * What `flatten` emits for arr when `remaining` more levels may be opened:
   * an array element is opened while remaining > 0, every other element (a
   * value, or an array met too deep) is emitted as it is, left to right.
   */
  function Flat<T>(arr: seq<Item<T>>, remaining: int): seq<Item<T>>
  {
    if arr == [] then []
    else
      var last := arr[|arr| - 1];
      Flat(arr[..|arr| - 1], remaining) +
        (if last.Nested? && remaining > 0 then Flat(last.items, remaining - 1) else [last])
  }

  /** What one element flattens to: its contents one level down while depth remains, itself otherwise. */
  function Opened<T>(x: Item<T>, remaining: int): seq<Item<T>>
  {
    if x.Nested? && remaining > 0 then Flat(x.items, remaining - 1) else [x]
  }

  /** A non-empty sequence is its prefix followed by its last element. */
  lemma SplitLast<T>(s: seq<T>)
    requires s != []
    ensures s == s[..|s| - 1] + [s[|s| - 1]]
  {
  }

  /** Concatenation is associative (stated once, so that callers need not argue element by element). */
  lemma AppendAssociative<T>(a: seq<T>, b: seq<T>, c: seq<T>)
    ensures (a + b) + c == a + (b + c)
  {
  }

  /** Appending one element appends what that element flattens to. */
  lemma FlatSnoc<T>(p: seq<Item<T>>, x: Item<T>, remaining: int)
    ensures Flat(p + [x], remaining) == Flat(p, remaining) + Opened(x, remaining)
  {
    assert (p + [x])[..|p|] == p;
  }

  /** A one-element array flattens to what its element flattens to. */
  lemma FlatOne<T>(x: Item<T>, remaining: int)
    ensures Flat([x], remaining) == Opened(x, remaining)
  {
    FlatSnoc([], x, remaining);
    assert [] + [x] == [x];
  }

  /** Extending a prefix of the array by its next element appends what that element flattens to. */
  lemma FlatPrefixStep<T>(arr: seq<Item<T>>, i: nat, remaining: int)
    requires i < |arr|
    ensures Flat(arr[..i + 1], remaining) == Flat(arr[..i], remaining) + Opened(arr[i], remaining)
  {
    assert arr[..i + 1] == arr[..i] + [arr[i]];
    FlatSnoc(arr[..i], arr[i], remaining);
  }

  /**
   * The recursive closure of `flatten` together with the array it fills:
   * `flooredDepth` is the depth it was given, `result` the shared output.
   */
  class Flattener<T> {
    const flooredDepth: int
    var result: seq<Item<T>>

    constructor (depth: int)
      ensures flooredDepth == depth && result == []
    {
      flooredDepth := depth;
      result := [];
    }

    /**
     * `recursive(arr, currentDepth)`: walks arr, descending into an array
     * element while currentDepth < flooredDepth and pushing everything else.
     */
    method Recursive(arr: seq<Item<T>>, currentDepth: int)
      modifies this
      ensures result == old(result) + Flat(arr, flooredDepth - currentDepth)
    {
      ghost var start := result;
      for i := 0 to |arr|
        invariant result == start + Flat(arr[..i], flooredDepth - currentDepth)
      {
        var item := arr[i];
        if item.Nested? && currentDepth < flooredDepth {
          Recursive(item.items, currentDepth + 1);
        } else {
          result := result + [item];
        }
        FlatPrefixStep(arr, i, flooredDepth - currentDepth);
        AppendAssociative(start, Flat(arr[..i], flooredDepth - currentDepth), Opened(item, flooredDepth - currentDepth));
      }
      assert arr[..|arr|] == arr;
    }
  }

  /** `flatten(arr, depth)` for an integer depth: the closure run from depth 0. */
  method Flatten<T>(arr: seq<Item<T>>, depth: int) returns (r: seq<Item<T>>)
    ensures r == Flat(arr, depth)
  {
    var flattener := new Flattener(depth);
    flattener.Recursive(arr, 0);
    r := flattener.result;
  }

  /** Flattening distributes over concatenation: order is kept across the whole array. */
  lemma {:induction false} FlatConcat<T>(a: seq<Item<T>>, b: seq<Item<T>>, remaining: int)
    ensures Flat(a + b, remaining) == Flat(a, remaining) + Flat(b, remaining)
    decreases |b|
  {
    if b == [] {
      assert a + b == a;
    } else {
      var b', last := b[..|b| - 1], b[|b| - 1];
      SplitLast(b);
      AppendAssociative(a, b', [last]);
      FlatSnoc(a + b', last, remaining);
      FlatSnoc(b', last, remaining);
      FlatConcat(a, b', remaining);
      AppendAssociative(Flat(a, remaining), Flat(b', remaining), Opened(last, remaining));
    }
  }

  /** With a depth of 0 or less, `flatten` returns the elements unchanged and in order. */
  lemma {:induction false} FlatShallow<T>(arr: seq<Item<T>>, remaining: int)
    requires remaining <= 0
    ensures Flat(arr, remaining) == arr
  {
    if arr != [] {
      SplitLast(arr);
      FlatShallow(arr[..|arr| - 1], remaining);
    }
  }

  /** An array without nested arrays is left as it is at any depth. */
  lemma {:induction false} FlatOfLeaves<T>(arr: seq<Item<T>>, remaining: int)
    requires forall i :: 0 <= i < |arr| ==> arr[i].Leaf?
    ensures Flat(arr, remaining) == arr
  {
    if arr != [] {
      SplitLast(arr);
      FlatOfLeaves(arr[..|arr| - 1], remaining);
    }
  }

  /** The values of an array read left to right through every level of nesting. */
  function Leaves<T>(arr: seq<Item<T>>): seq<T>
  {
    if arr == [] then []
    else
      var last := arr[|arr| - 1];
      Leaves(arr[..|arr| - 1]) + (match last case Leaf(v) => [v] case Nested(items) => Leaves(items))
  }

  /** The values one element contributes. */
  function ItemLeaves<T>(x: Item<T>): seq<T>
  {
    match x
    case Leaf(v) => [v]
    case Nested(items) => Leaves(items)
  }

  lemma LeavesSnoc<T>(p: seq<Item<T>>, x: Item<T>)
    ensures Leaves(p + [x]) == Leaves(p) + ItemLeaves(x)
  {
    assert (p + [x])[..|p|] == p;
  }

  lemma LeavesOne<T>(x: Item<T>)
    ensures Leaves([x]) == ItemLeaves(x)
  {
    LeavesSnoc([], x);
    assert [] + [x] == [x];
  }

  lemma {:induction false} LeavesConcat<T>(a: seq<Item<T>>, b: seq<Item<T>>)
    ensures Leaves(a + b) == Leaves(a) + Leaves(b)
    decreases |b|
  {
    if b == [] {
      assert a + b == a;
    } else {
      var b', last := b[..|b| - 1], b[|b| - 1];
      SplitLast(b);
      AppendAssociative(a, b', [last]);
      LeavesSnoc(a + b', last);
      LeavesSnoc(b', last);
      LeavesConcat(a, b');
      AppendAssociative(Leaves(a), Leaves(b'), ItemLeaves(last));
    }
  }

  /** Flattening to any depth neither loses, duplicates nor reorders a value. */
  lemma {:induction false} FlatKeepsLeaves<T>(arr: seq<Item<T>>, remaining: int)
    ensures Leaves(Flat(arr, remaining)) == Leaves(arr)
  {
    if arr != [] {
      var p, last := arr[..|arr| - 1], arr[|arr| - 1];
      SplitLast(arr);
      FlatKeepsLeaves(p, remaining);
      if last.Nested? && remaining > 0 {
        FlatKeepsLeaves(last.items, remaining - 1);
      }
      FlatKeepsLeavesStep(p, last, remaining);
    }
  }

  /** The inductive step of `FlatKeepsLeaves`: one more element at the end. */
  lemma FlatKeepsLeavesStep<T>(p: seq<Item<T>>, last: Item<T>, remaining: int)
    requires Leaves(Flat(p, remaining)) == Leaves(p)
    requires last.Nested? && remaining > 0 ==> Leaves(Flat(last.items, remaining - 1)) == Leaves(last.items)
    ensures Leaves(Flat(p + [last], remaining)) == Leaves(p + [last])
  {
    FlatSnoc(p, last, remaining);
    LeavesSnoc(p, last);
    LeavesConcat(Flat(p, remaining), Opened(last, remaining));
    if !(last.Nested? && remaining > 0) {
      LeavesOne(last);
    }
  }

  /** How many levels of arrays an array holds inside it: 0 when it holds only values. */
  function Height<T>(arr: seq<Item<T>>): nat
  {
    if arr == [] then 0
    else
      var last := arr[|arr| - 1];
      var h := Height(arr[..|arr| - 1]);
      match last
      case Leaf(_) => h
      case Nested(items) => if h < Height(items) + 1 then Height(items) + 1 else h
  }

  lemma HeightSnoc<T>(p: seq<Item<T>>, x: Item<T>)
    ensures Height(p) <= Height(p + [x])
    ensures x.Nested? ==> Height(x.items) + 1 <= Height(p + [x])
  {
    assert (p + [x])[..|p|] == p;
  }

  /** Every value of the array as a one-element item. */
  function AsLeaves<T>(values: seq<T>): (r: seq<Item<T>>)
    ensures |r| == |values| && forall i :: 0 <= i < |values| ==> r[i] == Leaf(values[i])
  {
    seq(|values|, i requires 0 <= i < |values| => Leaf(values[i]))
  }

  lemma AsLeavesConcat<T>(a: seq<T>, b: seq<T>)
    ensures AsLeaves(a + b) == AsLeaves(a) + AsLeaves(b)
  {
  }

  /** With a depth at least the array's height, `flatten` yields exactly its values. */
  lemma {:induction false} FlatDeep<T>(arr: seq<Item<T>>, remaining: int)
    requires Height(arr) <= remaining
    ensures Flat(arr, remaining) == AsLeaves(Leaves(arr))
  {
    if arr != [] {
      var p, last := arr[..|arr| - 1], arr[|arr| - 1];
      SplitLast(arr);
      HeightSnoc(p, last);
      FlatDeep(p, remaining);
      if last.Nested? {
        FlatDeep(last.items, remaining - 1);
      }
      FlatDeepStep(p, last, remaining);
    }
  }

  /** The inductive step of `FlatDeep`: one more element at the end. */
  lemma FlatDeepStep<T>(p: seq<Item<T>>, last: Item<T>, remaining: int)
    requires Flat(p, remaining) == AsLeaves(Leaves(p))
    requires last.Nested? ==> remaining > 0 && Flat(last.items, remaining - 1) == AsLeaves(Leaves(last.items))
    ensures Flat(p + [last], remaining) == AsLeaves(Leaves(p + [last]))
  {
    FlatSnoc(p, last, remaining);
    LeavesSnoc(p, last);
    AsLeavesConcat(Leaves(p), ItemLeaves(last));
    if last.Leaf? {
      assert AsLeaves([last.value]) == [last];
    }
  }

  /** Flattening by m levels and then by n more is flattening by m + n levels at once. */
  lemma {:induction false} FlatTwice<T>(arr: seq<Item<T>>, m: nat, n: nat)
    ensures Flat(Flat(arr, m), n) == Flat(arr, m + n)
  {
    if arr != [] {
      var p, last := arr[..|arr| - 1], arr[|arr| - 1];
      SplitLast(arr);
      FlatTwice(p, m, n);
      if last.Nested? && m > 0 {
        FlatTwice(last.items, m - 1, n);
      }
      FlatTwiceStep(p, last, m, n);
    }
  }

  /** The inductive step of `FlatTwice`: one more element at the end. */
  lemma FlatTwiceStep<T>(p: seq<Item<T>>, last: Item<T>, m: nat, n: nat)
    requires Flat(Flat(p, m), n) == Flat(p, m + n)
    requires last.Nested? && m > 0 ==> Flat(Flat(last.items, m - 1), n) == Flat(last.items, m - 1 + n)
    ensures Flat(Flat(p + [last], m), n) == Flat(p + [last], m + n)
  {
    FlatSnoc(p, last, m);
    FlatSnoc(p, last, m + n);
    FlatConcat(Flat(p, m), Opened(last, m), n);
    FlatOpenedTwice(last, m, n);
  }

  /** One element opened by m levels and then by n more is that element opened by m + n levels. */
  lemma FlatOpenedTwice<T>(x: Item<T>, m: nat, n: nat)
    requires x.Nested? && m > 0 ==> Flat(Flat(x.items, m - 1), n) == Flat(x.items, m - 1 + n)
    ensures Flat(Opened(x, m), n) == Opened(x, m + n)
  {
    if !(x.Nested? && m > 0) {
      FlatOne(x, n);
    }
  }

  /** `arr.map(iteratee)`. */
  function MapAll<T, U>(arr: seq<T>, iteratee: T -> Item<U>): (r: seq<Item<U>>)
    ensures |r| == |arr| && forall i :: 0 <= i < |arr| ==> r[i] == iteratee(arr[i])
  {
    seq(|arr|, i requires 0 <= i < |arr| => iteratee(arr[i]))
  }

  /** `flatMap(arr, iteratee, depth)`: flatten the mapped array to that depth. */
  method FlatMap<T, U>(arr: seq<T>, iteratee: T -> Item<U>, depth: int) returns (r: seq<Item<U>>)
    ensures r == Flat(MapAll(arr, iteratee), depth)
    ensures Leaves(r) == Leaves(MapAll(arr, iteratee))
  {
    r := Flatten(MapAll(arr, iteratee), depth);
    FlatKeepsLeaves(MapAll(arr, iteratee), depth);
  }

  /** `flatMap` over a concatenation is the concatenation of the two `flatMap`s. */
  lemma FlatMapConcat<T, U>(a: seq<T>, b: seq<T>, iteratee: T -> Item<U>, depth: int)
    ensures Flat(MapAll(a + b, iteratee), depth) ==
      Flat(MapAll(a, iteratee), depth) + Flat(MapAll(b, iteratee), depth)
  {
    assert MapAll(a + b, iteratee) == MapAll(a, iteratee) + MapAll(b, iteratee);
    FlatConcat(MapAll(a, iteratee), MapAll(b, iteratee), depth);
  }

  /** A three-element array flattens element by element. */
  lemma FlatThree<T>(x: Item<T>, y: Item<T>, z: Item<T>, remaining: int)
    ensures Flat([x, y, z], remaining) == Opened(x, remaining) + Opened(y, remaining) + Opened(z, remaining)
  {
    assert [x, y, z] == [x] + [y] + [z];
    FlatConcat([x] + [y], [z], remaining);
    FlatConcat([x], [y], remaining);
    FlatOne(x, remaining);
    FlatOne(y, remaining);
    FlatOne(z, remaining);
  }

  /** Two plain values are left as they are. */
  lemma FlatTwoValues<T>(v: T, w: T, remaining: int)
    ensures Flat([Leaf(v), Leaf(w)], remaining) == [Leaf(v), Leaf(w)]
  {
    FlatOfLeaves([Leaf(v), Leaf(w)], remaining);
  }

  /**
   * The documented example of `flatten` with depth 1, for any six values in
   * place of 1 to 6: the innermost array stays nested.
   */
  lemma FlattenOneLevelExample<T>(v1: T, v2: T, v3: T, v4: T, v5: T, v6: T)
    ensures Flat([Leaf(v1), Nested([Leaf(v2), Leaf(v3)]), Nested([Leaf(v4), Nested([Leaf(v5), Leaf(v6)])])], 1) ==
      [Leaf(v1), Leaf(v2), Leaf(v3), Leaf(v4), Nested([Leaf(v5), Leaf(v6)])]
  {
    var second, third := [Leaf(v2), Leaf(v3)], [Leaf(v4), Nested([Leaf(v5), Leaf(v6)])];
    FlatThree(Leaf(v1), Nested(second), Nested(third), 1);
    FlatTwoValues(v2, v3, 0);
    FlatShallow(third, 0);
  }

  /** The inner step of the depth-2 example: one level opened in the third element. */
  lemma FlattenInnerExample<T>(v4: T, v5: T, v6: T)
    ensures Flat([Leaf(v4), Nested([Leaf(v5), Leaf(v6)])], 1) == [Leaf(v4), Leaf(v5), Leaf(v6)]
  {
    var inner := [Leaf(v5), Leaf(v6)];
    assert [Leaf(v4), Nested(inner)] == [Leaf(v4)] + [Nested(inner)];
    FlatConcat([Leaf(v4)], [Nested(inner)], 1);
    FlatOne(Leaf(v4), 1);
    FlatOne(Nested(inner), 1);
    FlatTwoValues(v5, v6, 0);
  }

  /** The documented example of `flatten` with depth 2: every value comes out, in order. */
  lemma FlattenTwoLevelsExample<T>(v1: T, v2: T, v3: T, v4: T, v5: T, v6: T)
    ensures Flat([Leaf(v1), Nested([Leaf(v2), Leaf(v3)]), Nested([Leaf(v4), Nested([Leaf(v5), Leaf(v6)])])], 2) ==
      [Leaf(v1), Leaf(v2), Leaf(v3), Leaf(v4), Leaf(v5), Leaf(v6)]
  {
    var second, third := [Leaf(v2), Leaf(v3)], [Leaf(v4), Nested([Leaf(v5), Leaf(v6)])];
    FlatThree(Leaf(v1), Nested(second), Nested(third), 2);
    FlatTwoValues(v2, v3, 1);
    FlattenInnerExample(v4, v5, v6);
  }

  /** The iteratee of the documented `flatMap` example: an item twice, in an array. */
  function Twice<T>(x: T): Item<T> { Nested([Leaf(x), Leaf(x)]) }

  /** Mapping a three-element array applies the iteratee to each element in place. */
  lemma MapAllThree<T, U>(a: T, b: T, c: T, iteratee: T -> Item<U>)
    ensures MapAll([a, b, c], iteratee) == [iteratee(a), iteratee(b), iteratee(c)]
  {
  }

  /** One level of flattening opens the pair `Twice` makes. */
  lemma OpenedTwice<T>(v: T)
    ensures Opened(Twice(v), 1) == [Leaf(v), Leaf(v)]
  {
    FlatTwoValues(v, v, 0);
  }

  /** The documented example of `flatMap`: with depth 1, each item comes out twice, in order. */
  lemma FlatMapExample<T>(v1: T, v2: T, v3: T)
    ensures Flat(MapAll([v1, v2, v3], Twice), 1) == [Leaf(v1), Leaf(v1), Leaf(v2), Leaf(v2), Leaf(v3), Leaf(v3)]
  {
    MapAllThree(v1, v2, v3, Twice);
    FlatThree(Twice(v1), Twice(v2), Twice(v3), 1);
    OpenedTwice(v1);
    OpenedTwice(v2);
    OpenedTwice(v3);
  }

  // ---------------------------------------------------------------------------
  // uniqBy and unionBy
  // ---------------------------------------------------------------------------

  /**
   * What `uniqBy(arr, mapper)` returns: an element is kept when no earlier
   * element has its key.
   */
  function Uniq<T, U(==)>(s: seq<T>, mapper: T -> U): seq<T>
  {
    if s == [] then []
    else
      var p, x := s[..|s| - 1], s[|s| - 1];
      if mapper(x) in KeySet(p, mapper) then Uniq(p, mapper) else Uniq(p, mapper) + [x]
  }

  /**
   * `uniqBy`: a loop that records an element under its key in a `Map` the
   * first time the key is met, then the map's values in insertion order. The
   * `Map` is the key-to-element map `seen` with its insertion order `order`.
   */
  method UniqBy<T, U(==)>(arr: seq<T>, mapper: T -> U) returns (r: seq<T>)
    ensures r == Uniq(arr, mapper)
  {
    var seen: map<U, T> := map[];
    var order: seq<U> := [];
    for i := 0 to |arr|
      invariant seen.Keys == KeySet(arr[..i], mapper)
      invariant |order| == |Uniq(arr[..i], mapper)|
      invariant forall j :: 0 <= j < |order| ==> order[j] in seen && seen[order[j]] == Uniq(arr[..i], mapper)[j]
    {
      var item := arr[i];
      var key := mapper(item);
      assert arr[..i + 1] == arr[..i] + [item];
      KeySetSnoc(arr[..i], item, mapper);
      if key !in seen {
        seen := seen[key := item];
        order := order + [key];
      }
    }
    assert arr[..|arr|] == arr;
    r := seq(|order|, j requires 0 <= j < |order| => seen[order[j]]);
  }

  /** The kept elements have exactly the keys of the whole array. */
  lemma {:induction false} UniqKeySet<T, U>(s: seq<T>, mapper: T -> U)
    ensures KeySet(Uniq(s, mapper), mapper) == KeySet(s, mapper)
  {
    if s != [] {
      var p, x := s[..|s| - 1], s[|s| - 1];
      assert s == p + [x];
      UniqKeySet(p, mapper);
      KeySetSnoc(p, x, mapper);
      KeySetSnoc(Uniq(p, mapper), x, mapper);
    }
  }

  /** No two kept elements share a key. */
  lemma {:induction false} UniqDistinct<T, U>(s: seq<T>, mapper: T -> U)
    ensures forall i, j :: 0 <= i < j < |Uniq(s, mapper)| ==> mapper(Uniq(s, mapper)[i]) != mapper(Uniq(s, mapper)[j])
  {
    if s != [] {
      var p, x := s[..|s| - 1], s[|s| - 1];
      var u := Uniq(p, mapper);
      UniqDistinct(p, mapper);
      UniqSnoc(p, x, mapper);
      SplitLast(s);
      if mapper(x) !in KeySet(p, mapper) {
        UniqKeySet(p, mapper);
        forall i | 0 <= i < |u|
          ensures mapper(u[i]) != mapper(x)
        {
          assert mapper(u[i]) in KeySet(u, mapper);
        }
      }
    }
  }

  /** The kept elements are a subsequence of the input, so never more of them. */
  lemma {:induction false} UniqSubsequence<T, U>(s: seq<T>, mapper: T -> U)
    ensures IsSubsequence(Uniq(s, mapper), s)
    ensures |Uniq(s, mapper)| <= |s|
  {
    if s != [] {
      var p, x := s[..|s| - 1], s[|s| - 1];
      UniqSubsequence(p, mapper);
      SubsequenceSnoc(Uniq(p, mapper), p, x);
      UniqSnoc(p, x, mapper);
      SplitLast(s);
    }
    SubsequenceLength(Uniq(s, mapper), s);
  }

  /** An element whose key no earlier element has is kept. */
  lemma {:induction false} UniqKeepsFirst<T, U>(s: seq<T>, mapper: T -> U)
    ensures forall i :: 0 <= i < |s| && mapper(s[i]) !in KeySet(s[..i], mapper) ==> s[i] in Uniq(s, mapper)
  {
    if s != [] {
      var p, x := s[..|s| - 1], s[|s| - 1];
      UniqKeepsFirst(p, mapper);
      UniqSnoc(p, x, mapper);
      SplitLast(s);
      forall i | 0 <= i < |s| && mapper(s[i]) !in KeySet(s[..i], mapper)
        ensures s[i] in Uniq(s, mapper)
      {
        if i < |p| {
          assert s[..i] == p[..i];
          assert s[i] == p[i];
        } else {
          assert s[..i] == p;
        }
      }
    }
  }

  /**
   * What `uniqBy` promises: the keys of the result are pairwise distinct, it
   * is a subsequence of the input (so no longer than it), every key of the
   * input is represented, and the first element with each key is the one kept.
   */
  lemma UniqFirstOccurrences<T, U>(s: seq<T>, mapper: T -> U)
    ensures forall i, j :: 0 <= i < j < |Uniq(s, mapper)| ==> mapper(Uniq(s, mapper)[i]) != mapper(Uniq(s, mapper)[j])
    ensures IsSubsequence(Uniq(s, mapper), s)
    ensures |Uniq(s, mapper)| <= |s|
    ensures KeySet(Uniq(s, mapper), mapper) == KeySet(s, mapper)
    ensures forall i :: 0 <= i < |s| && mapper(s[i]) !in KeySet(s[..i], mapper) ==> s[i] in Uniq(s, mapper)
  {
    UniqDistinct(s, mapper);
    UniqSubsequence(s, mapper);
    UniqKeySet(s, mapper);
    UniqKeepsFirst(s, mapper);
  }

  /** What `uniqBy` keeps of a prefix stays at the front when the array grows. */
  lemma {:induction false} UniqPrefix<T, U>(s: seq<T>, t: seq<T>, mapper: T -> U)
    ensures |Uniq(s, mapper)| <= |Uniq(s + t, mapper)|
    ensures Uniq(s + t, mapper)[..|Uniq(s, mapper)|] == Uniq(s, mapper)
    decreases |t|
  {
    if t == [] {
      assert s + t == s;
    } else {
      var t', x := t[..|t| - 1], t[|t| - 1];
      UniqPrefix(s, t', mapper);
      assert s + t == (s + t') + [x];
      assert (s + t)[..|s + t| - 1] == s + t';
    }
  }

  /**
   * `unionBy(arr1, arr2, mapper)`: `uniqBy` over the concatenation. The
   * result has each key of either array once, and what `uniqBy` keeps of
   * arr1 comes first, unchanged.
   */
  method UnionBy<T, U(==)>(arr1: seq<T>, arr2: seq<T>, mapper: T -> U) returns (r: seq<T>)
    ensures r == Uniq(arr1 + arr2, mapper)
    ensures KeySet(r, mapper) == KeySet(arr1, mapper) + KeySet(arr2, mapper)
    ensures forall i, j :: 0 <= i < j < |r| ==> mapper(r[i]) != mapper(r[j])
    ensures |Uniq(arr1, mapper)| <= |r| && r[..|Uniq(arr1, mapper)|] == Uniq(arr1, mapper)
  {
    r := UniqBy(arr1 + arr2, mapper);
    UniqFirstOccurrences(arr1 + arr2, mapper);
    UniqPrefix(arr1, arr2, mapper);
    KeySetConcat(arr1, arr2, mapper);
  }

  /** Appending one element keeps it exactly when its key is new. */
  lemma UniqSnoc<T, U>(p: seq<T>, x: T, mapper: T -> U)
    ensures Uniq(p + [x], mapper) ==
      if mapper(x) in KeySet(p, mapper) then Uniq(p, mapper) else Uniq(p, mapper) + [x]
  {
    assert (p + [x])[..|p|] == p;
  }

  /** An array whose keys are already pairwise distinct is returned unchanged. */
  lemma {:induction false} UniqOfDistinct<T, U>(s: seq<T>, mapper: T -> U)
    requires forall i, j :: 0 <= i < j < |s| ==> mapper(s[i]) != mapper(s[j])
    ensures Uniq(s, mapper) == s
  {
    if s != [] {
      var p, x := s[..|s| - 1], s[|s| - 1];
      SplitLast(s);
      UniqOfDistinct(p, mapper);
      forall i | 0 <= i < |p|
        ensures mapper(p[i]) != mapper(x)
      {
        assert p[i] == s[i];
      }
      UniqSnoc(p, x, mapper);
    }
  }

  /** Appending elements whose keys are all present already leaves the result unchanged. */
  lemma {:induction false} UniqRepeated<T, U>(p: seq<T>, t: seq<T>, mapper: T -> U)
    requires forall j :: 0 <= j < |t| ==> mapper(t[j]) in KeySet(p, mapper)
    ensures Uniq(p + t, mapper) == Uniq(p, mapper)
    decreases |t|
  {
    if t == [] {
      assert p + t == p;
    } else {
      var t', x := t[..|t| - 1], t[|t| - 1];
      SplitLast(t);
      AppendAssociative(p, t', [x]);
      UniqRepeated(p, t', mapper);
      var i :| 0 <= i < |p| && mapper(p[i]) == mapper(x);
      assert (p + t')[i] == p[i];
      UniqSnoc(p + t', x, mapper);
    }
  }

  /** The mapper of the documented modulo example. */
  function Mod3(x: int): int { x % 3 }

  /** The documented example of `unionBy` by value modulo 3: 4, 5 and 6 repeat keys of 1, 2 and 3. */
  lemma UnionByModuloExample()
    ensures Uniq([1, 2, 3] + [4, 5, 6], Mod3) == [1, 2, 3]
  {
    assert Mod3([1, 2, 3][0]) == Mod3(4);
    assert Mod3([1, 2, 3][1]) == Mod3(5);
    assert Mod3([1, 2, 3][2]) == Mod3(6);
    UniqRepeated([1, 2, 3], [4, 5, 6], Mod3);
    UniqOfDistinct([1, 2, 3], Mod3);
  }

  /** The objects of the documented `{ id }` example, and the mapper that reads their id. */
  datatype Entry = Entry(id: int)

  function IdOf(e: Entry): int { e.id }

  /** The documented example of `unionBy` by id: the second object with id 2 is dropped. */
  lemma UnionByIdExample()
    ensures Uniq([Entry(1), Entry(2)] + [Entry(2), Entry(3)], IdOf) == [Entry(1), Entry(2), Entry(3)]
  {
    var e1, e2, e3 := Entry(1), Entry(2), Entry(3);
    assert IdOf([e1, e2][1]) == IdOf(e2);
    UniqRepeated([e1, e2], [e2], IdOf);
    UniqOfDistinct([e1, e2], IdOf);
    assert [e1, e2] + [e2, e3] == ([e1, e2] + [e2]) + [e3];
    UniqSnoc([e1, e2] + [e2], e3, IdOf);
    assert IdOf(e3) !in KeySet([e1, e2] + [e2], IdOf);
  }
}
