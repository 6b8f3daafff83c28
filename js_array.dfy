/**
 * The three Array.prototype operations the normalisers chain together:
 * `map`, `filter` and `toSorted`. They are library calls in the source, so
 * they are modelled here once, as functions on sequences, and every later
 * module uses these definitions.
 *
 * `toSorted` is ECMAScript's stable sort. Its comparator is modelled as a
 * "less than or equal" relation `le`; the comparator the source passes
 * (`localeCompare` on names, or the default code-unit comparison) decides
 * what `le` is.
 */
module JsArray {

  /** `xs.map(f)` */
  function Map<A, B>(f: A -> B, xs: seq<A>): (r: seq<B>)
    ensures |r| == |xs|
    ensures forall i :: 0 <= i < |xs| ==> r[i] == f(xs[i])
  {
    if xs == [] then [] else [f(xs[0])] + Map(f, xs[1..])
  }

  /** `xs.filter(p)`: the elements satisfying `p`, in their order. */
  function Filter<A>(p: A -> bool, xs: seq<A>): (r: seq<A>)
    ensures |r| <= |xs|
    ensures forall x :: x in r ==> x in xs && p(x)
    ensures (forall i :: 0 <= i < |xs| ==> p(xs[i])) ==> r == xs
  {
    if xs == [] then []
    else (if p(xs[0]) then [xs[0]] else []) + Filter(p, xs[1..])
  }

  /**
   * `filter` keeps every element satisfying `p`, as often as it occurs, and
   * nothing else; `FilterAppend` gives the order.
   */
  lemma {:induction false} FilterMultiset<A>(p: A -> bool, xs: seq<A>)
    ensures forall x :: multiset(Filter(p, xs))[x] == if p(x) then multiset(xs)[x] else 0
    decreases |xs|
  {
    if xs != [] {
      FilterMultiset(p, xs[1..]);
      assert xs == [xs[0]] + xs[1..];
    }
  }

  lemma {:induction false} MapAppend<A, B>(f: A -> B, xs: seq<A>, ys: seq<A>)
    ensures Map(f, xs + ys) == Map(f, xs) + Map(f, ys)
    decreases |xs|
  {
    if xs == [] {
      assert xs + ys == ys;
    } else {
      assert (xs + ys)[0] == xs[0] && (xs + ys)[1..] == xs[1..] + ys;
      MapAppend(f, xs[1..], ys);
    }
  }

  /** Every element of `Map(f, xs)` is the image of an element of `xs`. */
  lemma {:induction false} MapSource<A, B>(f: A -> B, xs: seq<A>, y: B) returns (x: A)
    requires y in Map(f, xs)
    ensures x in xs && y == f(x)
    decreases |xs|
  {
    if y == f(xs[0]) {
      x := xs[0];
    } else {
      x := MapSource(f, xs[1..], y);
    }
  }

  /** Mapping a function that fixes every element changes nothing. */
  lemma {:induction false} MapFixed<A>(f: A -> A, xs: seq<A>)
    requires forall i :: 0 <= i < |xs| ==> f(xs[i]) == xs[i]
    ensures Map(f, xs) == xs
    decreases |xs|
  {
    if xs != [] {
      MapFixed(f, xs[1..]);
      assert xs == [xs[0]] + xs[1..];
    }
  }

  lemma {:induction false} FilterAppend<A>(p: A -> bool, xs: seq<A>, ys: seq<A>)
    ensures Filter(p, xs + ys) == Filter(p, xs) + Filter(p, ys)
    decreases |xs|
  {
    if xs == [] {
      assert xs + ys == ys;
    } else {
      assert (xs + ys)[0] == xs[0] && (xs + ys)[1..] == xs[1..] + ys;
      FilterAppend(p, xs[1..], ys);
    }
  }

  /**
   * Filtering, mapping and filtering again is mapping what one filter by the
   * combined condition keeps.
   */
  lemma {:induction false} FilterMapFilter<A, B>(p: A -> bool, f: A -> B, q: B -> bool, r: A -> bool, xs: seq<A>)
    requires forall x :: r(x) == (p(x) && q(f(x)))
    ensures Filter(q, Map(f, Filter(p, xs))) == Map(f, Filter(r, xs))
    decreases |xs|
  {
    if xs != [] {
      var x, rest := xs[0], xs[1..];
      FilterMapFilter(p, f, q, r, rest);
      var ys := Filter(p, rest);
      if p(x) {
        assert Filter(p, xs) == [x] + ys;
        var m := Map(f, [x] + ys);
        assert m == [f(x)] + Map(f, ys);
        FilterAppend(q, [f(x)], Map(f, ys));
      } else {
        assert Filter(p, xs) == ys;
      }
      if r(x) {
        assert Filter(r, xs) == [x] + Filter(r, rest);
        assert Map(f, [x] + Filter(r, rest)) == [f(x)] + Map(f, Filter(r, rest));
      } else {
        assert Filter(r, xs) == Filter(r, rest);
      }
    }
  }

  /** Splits `ys` around one occurrence of `x`. */
  lemma PickOccurrence<T>(ys: seq<T>, x: T) returns (j: nat)
    requires x in ys
    ensures j < |ys| && ys[j] == x
    ensures ys == ys[..j] + [x] + ys[j + 1..]
    ensures multiset(ys) == multiset(ys[..j] + ys[j + 1..]) + multiset{x}
  {
    j :| 0 <= j < |ys| && ys[j] == x;
    assert ys == ys[..j] + [x] + ys[j + 1..];
  }

  lemma MultisetMiddle<T>(a: seq<T>, c: seq<T>, b: seq<T>)
    ensures multiset(a + (c + b)) == multiset(a + b) + multiset(c)
  {
  }

  /** Taking one element out of `ys` takes its image out of `Map(f, ys)`. */
  lemma MapRemove<A, B>(f: A -> B, a: seq<A>, x: A, b: seq<A>)
    ensures multiset(Map(f, a + ([x] + b))) == multiset(Map(f, a + b)) + multiset{f(x)}
  {
    MapAppend(f, a, [x] + b);
    MapAppend(f, [x], b);
    MapAppend(f, a, b);
    MultisetMiddle(Map(f, a), [f(x)], Map(f, b));
  }

  /** Taking one element out of `ys` takes what it contributes out of `Filter(p, ys)`. */
  lemma FilterRemove<A>(p: A -> bool, a: seq<A>, x: A, b: seq<A>)
    ensures multiset(Filter(p, a + ([x] + b))) == multiset(Filter(p, a + b)) + multiset(Filter(p, [x]))
  {
    FilterAppend(p, a, [x] + b);
    FilterAppend(p, [x], b);
    FilterAppend(p, a, b);
    MultisetMiddle(Filter(p, a), Filter(p, [x]), Filter(p, b));
  }

  /** One side of a permutation around the other's first element, and the rest. */
  lemma RemovePermutation<T>(xs: seq<T>, ys: seq<T>) returns (a: seq<T>, b: seq<T>)
    requires xs != [] && multiset(xs) == multiset(ys)
    ensures ys == a + ([xs[0]] + b)
    ensures multiset(xs[1..]) == multiset(a + b)
  {
    assert xs[0] in multiset(ys);
    var j := PickOccurrence(ys, xs[0]);
    a, b := ys[..j], ys[j + 1..];
    assert ys == a + ([xs[0]] + b);
    assert xs == [xs[0]] + xs[1..];
    assert multiset(xs) == multiset(xs[1..]) + multiset{xs[0]};
    assert multiset(xs[1..]) == multiset(xs) - multiset{xs[0]};
  }

  /** Mapping two permutations of each other gives permutations of each other. */
  lemma {:induction false} MapPermutation<A, B>(f: A -> B, xs: seq<A>, ys: seq<A>)
    requires multiset(xs) == multiset(ys)
    ensures multiset(Map(f, xs)) == multiset(Map(f, ys))
    decreases |xs|
  {
    if xs == [] {
      assert |ys| == |multiset(ys)| == 0;
    } else {
      var a, b := RemovePermutation(xs, ys);
      MapPermutation(f, xs[1..], a + b);
      MapRemove(f, a, xs[0], b);
    }
  }

  /** Filtering two permutations of each other gives permutations of each other. */
  lemma {:induction false} FilterPermutation<A>(p: A -> bool, xs: seq<A>, ys: seq<A>)
    requires multiset(xs) == multiset(ys)
    ensures multiset(Filter(p, xs)) == multiset(Filter(p, ys))
    decreases |xs|
  {
    if xs == [] {
      assert |ys| == |multiset(ys)| == 0;
    } else {
      var a, b := RemovePermutation(xs, ys);
      FilterPermutation(p, xs[1..], a + b);
      FilterRemove(p, a, xs[0], b);
    }
  }

  /** `le` is total and transitive: what a consistent comparator gives. */
  ghost predicate TotalPreorder<T(!new)>(le: (T, T) -> bool) {
    && (forall a, b :: le(a, b) || le(b, a))
    && (forall a, b, c :: le(a, b) && le(b, c) ==> le(a, c))
  }

  ghost predicate Antisymmetric<T(!new)>(le: (T, T) -> bool) {
    forall a, b :: le(a, b) && le(b, a) ==> a == b
  }

  predicate Sorted<T>(xs: seq<T>, le: (T, T) -> bool) {
    forall i, j :: 0 <= i < j < |xs| ==> le(xs[i], xs[j])
  }

  /** Places `x` before the first element it is `le` to. */
  function Insert<T>(x: T, s: seq<T>, le: (T, T) -> bool): (r: seq<T>)
    ensures |r| == |s| + 1
    ensures multiset(r) == multiset(s) + multiset{x}
  {
    if s == [] || le(x, s[0]) then [x] + s
    else
      assert s == [s[0]] + s[1..];
      [s[0]] + Insert(x, s[1..], le)
  }

  /** `xs.toSorted(compare)`, with `le(a, b)` standing for `compare(a, b) <= 0`. */
  function ToSorted<T>(xs: seq<T>, le: (T, T) -> bool): (r: seq<T>)
    ensures multiset(r) == multiset(xs)
    ensures |r| == |xs|
  {
    if xs == [] then []
    else
      assert xs == [xs[0]] + xs[1..];
      Insert(xs[0], ToSorted(xs[1..], le), le)
  }

  lemma {:induction false} InsertSorted<T(!new)>(x: T, s: seq<T>, le: (T, T) -> bool)
    requires TotalPreorder(le) && Sorted(s, le)
    ensures Sorted(Insert(x, s, le), le)
    decreases |s|
  {
    if s != [] && !le(x, s[0]) {
      var tail := Insert(x, s[1..], le);
      InsertSorted(x, s[1..], le);
      forall k | 0 <= k < |tail| ensures le(s[0], tail[k]) {
        assert tail[k] in multiset(s[1..]) + multiset{x};
        if tail[k] != x {
          assert tail[k] in s[1..];
        }
      }
    }
  }

  /** The result of `toSorted` is ordered by the comparator. */
  lemma {:induction false} ToSortedSorted<T(!new)>(xs: seq<T>, le: (T, T) -> bool)
    requires TotalPreorder(le)
    ensures Sorted(ToSorted(xs, le), le)
    decreases |xs|
  {
    if xs != [] {
      ToSortedSorted(xs[1..], le);
      InsertSorted(xs[0], ToSorted(xs[1..], le), le);
    }
  }

  /** Sorting an already ordered sequence leaves it as it is. */
  lemma {:induction false} ToSortedOfSorted<T>(xs: seq<T>, le: (T, T) -> bool)
    requires Sorted(xs, le)
    ensures ToSorted(xs, le) == xs
    decreases |xs|
  {
    if xs != [] {
      ToSortedOfSorted(xs[1..], le);
      assert xs == [xs[0]] + xs[1..];
    }
  }

  lemma SortedHeadsEqual<T(!new)>(xs: seq<T>, ys: seq<T>, le: (T, T) -> bool)
    requires Antisymmetric(le)
    requires Sorted(xs, le) && Sorted(ys, le)
    requires xs != [] && multiset(xs) == multiset(ys)
    ensures ys != [] && xs[0] == ys[0]
  {
    assert xs[0] in multiset(ys);
    var i := PickOccurrence(ys, xs[0]);
    assert ys[0] in multiset(xs);
    var j := PickOccurrence(xs, ys[0]);
    assert le(xs[0], xs[j]) || j == 0;
    assert le(ys[0], ys[i]) || i == 0;
  }

  /** Under an antisymmetric order there is only one sorted arrangement of a multiset. */
  lemma {:induction false} SortedPermutationsEqual<T(!new)>(xs: seq<T>, ys: seq<T>, le: (T, T) -> bool)
    requires Antisymmetric(le)
    requires Sorted(xs, le) && Sorted(ys, le)
    requires multiset(xs) == multiset(ys)
    ensures xs == ys
    decreases |xs|
  {
    if xs == [] {
      assert |ys| == |multiset(ys)| == 0;
    } else {
      SortedHeadsEqual(xs, ys, le);
      SortedTail(xs, le);
      SortedTail(ys, le);
      SortedPermutationsEqual(xs[1..], ys[1..], le);
      assert xs == [xs[0]] + xs[1..] && ys == [ys[0]] + ys[1..];
    }
  }

  /** The tail of a sorted sequence is sorted and holds the rest of its multiset. */
  lemma SortedTail<T>(xs: seq<T>, le: (T, T) -> bool)
    requires xs != [] && Sorted(xs, le)
    ensures Sorted(xs[1..], le)
    ensures multiset(xs[1..]) == multiset(xs) - multiset{xs[0]}
  {
    assert xs == [xs[0]] + xs[1..];
  }

  /** Under an antisymmetric order, `toSorted` depends only on the multiset of its input. */
  lemma ToSortedPermutationInvariant<T(!new)>(xs: seq<T>, ys: seq<T>, le: (T, T) -> bool)
    requires TotalPreorder(le) && Antisymmetric(le)
    requires multiset(xs) == multiset(ys)
    ensures ToSorted(xs, le) == ToSorted(ys, le)
  {
    ToSortedSorted(xs, le);
    ToSortedSorted(ys, le);
    SortedPermutationsEqual(ToSorted(xs, le), ToSorted(ys, le), le);
  }

  /** The elements that compare equal to `k`, both ways. */
  function TiedWith<T>(le: (T, T) -> bool, k: T): T -> bool {
    z => le(z, k) && le(k, z)
  }

  lemma {:induction false} InsertStable<T(!new)>(x: T, s: seq<T>, le: (T, T) -> bool, k: T)
    requires TotalPreorder(le)
    ensures Filter(TiedWith(le, k), Insert(x, s, le))
         == Filter(TiedWith(le, k), [x]) + Filter(TiedWith(le, k), s)
    decreases |s|
  {
    var p := TiedWith(le, k);
    if s == [] || le(x, s[0]) {
      FilterAppend(p, [x], s);
    } else {
      var h, t := s[0], s[1..];
      InsertStable(x, t, le, k);
      var fx, fh, ft := Filter(p, [x]), Filter(p, [h]), Filter(p, t);
      // At most one of `x` and `h` ties with `k`, so their filtered parts commute.
      assert fx == [] || fh == [] by {
        if p(x) {
          assert !le(k, h);
        }
      }
      CommuteEmpty(fh, fx, ft);
      assert s == [h] + t;
      FilterAppend(p, [h], Insert(x, t, le));
      FilterAppend(p, [h], t);
    }
  }

  lemma CommuteEmpty<T>(a: seq<T>, b: seq<T>, c: seq<T>)
    requires a == [] || b == []
    ensures a + (b + c) == b + (a + c)
  {
    if a == [] {
      assert a + (b + c) == b + c;
      assert a + c == c;
    } else {
      assert b + c == c;
      assert b + (a + c) == a + c;
    }
  }

  /** `toSorted` is stable: elements that compare equal keep their input order. */
  lemma {:induction false} ToSortedStable<T(!new)>(xs: seq<T>, le: (T, T) -> bool, k: T)
    requires TotalPreorder(le)
    ensures Filter(TiedWith(le, k), ToSorted(xs, le)) == Filter(TiedWith(le, k), xs)
    decreases |xs|
  {
    if xs != [] {
      var p := TiedWith(le, k);
      ToSortedStable(xs[1..], le, k);
      InsertStable(xs[0], ToSorted(xs[1..], le), le, k);
      assert xs == [xs[0]] + xs[1..];
      FilterAppend(p, [xs[0]], xs[1..]);
    }
  }
}
