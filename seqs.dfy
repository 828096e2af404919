/**
 * Sequence helpers shared by the routes: Array.prototype.filter, Array.prototype.map,
 * Array.prototype.flatMap, Array.prototype.slice, and the map-to-null-then-filter idiom.
 */
module Seqs {
  import opened Wrappers

  /** `s.filter(keep)`: the elements satisfying `keep`, in their original order. */
  function Filter<T>(s: seq<T>, keep: T -> bool): (r: seq<T>)
    ensures |r| <= |s|
    ensures forall i :: 0 <= i < |r| ==> r[i] in s && keep(r[i])
    ensures forall i :: 0 <= i < |s| && keep(s[i]) ==> s[i] in r
  {
    if s == [] then [] else (if keep(s[0]) then [s[0]] else []) + Filter(s[1..], keep)
  }

  /** Filtering a concatenation filters each part: the relative order of survivors is kept. */
  lemma {:induction false} FilterAppend<T>(a: seq<T>, b: seq<T>, keep: T -> bool)
    ensures Filter(a + b, keep) == Filter(a, keep) + Filter(b, keep)
  {
    if a == [] {
      assert a + b == b;
    } else {
      assert (a + b)[0] == a[0];
      assert (a + b)[1..] == a[1..] + b;
      FilterAppend(a[1..], b, keep);
    }
  }

  /** A filter that keeps everything is the identity. */
  lemma {:induction false} FilterAll<T>(s: seq<T>, keep: T -> bool)
    requires forall i :: 0 <= i < |s| ==> keep(s[i])
    ensures Filter(s, keep) == s
  {
    if s != [] {
      FilterAll(s[1..], keep);
    }
  }

  /** Filtering twice with the same predicate removes nothing further. */
  lemma FilterIdempotent<T>(s: seq<T>, keep: T -> bool)
    ensures Filter(Filter(s, keep), keep) == Filter(s, keep)
  {
    FilterAll(Filter(s, keep), keep);
  }

  /** `s.map(f)`: `f` applied to every element, in order. */
  function Map<A, B>(s: seq<A>, f: A -> B): (r: seq<B>)
    ensures |r| == |s|
    ensures forall i :: 0 <= i < |s| ==> r[i] == f(s[i])
  {
    seq(|s|, i requires 0 <= i < |s| => f(s[i]))
  }

  /** A sequence that agrees with `f` on every element is `s.map(f)`. */
  lemma MapPointwise<A, B>(s: seq<A>, f: A -> B, r: seq<B>)
    requires |r| == |s|
    requires forall i :: 0 <= i < |s| ==> r[i] == f(s[i])
    ensures r == Map(s, f)
  {
  }

  /** Mapping a function that fixes every element changes nothing. */
  lemma MapFixed<A>(s: seq<A>, f: A -> A)
    requires forall i :: 0 <= i < |s| ==> f(s[i]) == s[i]
    ensures Map(s, f) == s
  {
  }

  /**
   * Mapping with `f`, which answers null (None) for the elements it rejects, then dropping
   * the nulls: the values `f` gives, in order.
   */
  function FilterMap<A, B>(s: seq<A>, f: A -> Option<B>): (r: seq<B>)
    ensures |r| <= |s|
    ensures forall y :: y in r ==> exists x :: x in s && f(x) == Some(y)
    ensures forall x :: x in s && f(x).Some? ==> f(x).value in r
  {
    if s == [] then []
    else
      var rest := FilterMap(s[1..], f);
      assert s == [s[0]] + s[1..];
      match f(s[0])
      case Some(y) => [y] + rest
      case None => rest
  }

  /** Nothing survives exactly when `f` rejects every element. */
  lemma FilterMapEmpty<A, B>(s: seq<A>, f: A -> Option<B>)
    ensures FilterMap(s, f) == [] <==> forall x :: x in s ==> f(x).None?
  {
    if FilterMap(s, f) != [] {
      assert FilterMap(s, f)[0] in FilterMap(s, f);
    }
  }

  /** Filter-mapping a concatenation filter-maps each part: survivors keep their relative order. */
  lemma {:induction false} FilterMapAppend<A, B>(a: seq<A>, b: seq<A>, f: A -> Option<B>)
    ensures FilterMap(a + b, f) == FilterMap(a, f) + FilterMap(b, f)
  {
    if a == [] {
      assert a + b == b;
    } else {
      assert (a + b)[0] == a[0];
      assert (a + b)[1..] == a[1..] + b;
      FilterMapAppend(a[1..], b, f);
    }
  }

  /** `s.flatMap(f)`: the results of `f` on the elements, concatenated in order. */
  function FlatMap<A, B>(s: seq<A>, f: A -> seq<B>): seq<B> {
    if s == [] then [] else f(s[0]) + FlatMap(s[1..], f)
  }

  /** Mapping a concatenation concatenates the results. */
  lemma {:induction false} FlatMapAppend<A, B>(a: seq<A>, b: seq<A>, f: A -> seq<B>)
    ensures FlatMap(a + b, f) == FlatMap(a, f) + FlatMap(b, f)
  {
    if a == [] {
      assert a + b == b;
    } else {
      assert (a + b)[0] == a[0] && (a + b)[1..] == a[1..] + b;
      FlatMapAppend(a[1..], b, f);
    }
  }

  /** Element `j` of the middle run of a concatenation. */
  lemma IndexMiddle<T>(a: seq<T>, b: seq<T>, c: seq<T>, j: nat)
    requires j < |b|
    ensures |a| + j < |a + b + c| && (a + b + c)[|a| + j] == b[j]
  {
  }

  /** Result `j` of an element sits after the results of the elements before it. */
  lemma FlatMapMiddle<A, B>(a: seq<A>, x: A, c: seq<A>, f: A -> seq<B>, j: nat)
    requires j < |f(x)|
    ensures |FlatMap(a, f)| + j < |FlatMap(a + [x] + c, f)|
    ensures FlatMap(a + [x] + c, f)[|FlatMap(a, f)| + j] == f(x)[j]
  {
    FlatMapAppend(a, [x], f);
    FlatMapAppend(a + [x], c, f);
    assert FlatMap([x], f) == f(x) + [];
    IndexMiddle(FlatMap(a, f), f(x), FlatMap(c, f), j);
  }

  /** Every result comes from some element. */
  lemma {:induction false} FlatMapFrom<A, B>(s: seq<A>, f: A -> seq<B>, b: B)
    requires b in FlatMap(s, f)
    ensures exists a :: a in s && b in f(a)
  {
    var head := f(s[0]);
    var tail := FlatMap(s[1..], f);
    assert FlatMap(s, f) == head + tail;
    if b !in head {
      FlatMapFrom(s[1..], f, b);
      var a :| a in s[1..] && b in f(a);
      assert a in s;
    }
  }

  /** `s.slice(lo, hi)` for 0 <= lo: the bounds are clamped to the length. */
  function Slice<T>(s: seq<T>, lo: nat, hi: nat): (r: seq<T>)
    ensures |r| <= |s|
    ensures hi >= lo ==> |r| <= hi - lo
    ensures lo >= hi ==> r == []
    ensures lo <= hi <= |s| ==> r == s[lo..hi]
    ensures forall x :: x in r ==> x in s
  {
    var a := if lo <= |s| then lo else |s|;
    var b := if hi <= |s| then hi else |s|;
    if a <= b then s[a..b] else []
  }
  /** Mapping a concatenation concatenates the mapped parts. */
  lemma MapAppend<A, B>(a: seq<A>, b: seq<A>, f: A -> B)
    ensures Map(a + b, f) == Map(a, f) + Map(b, f)
  {
  }

  /** When `g` does not see what `f` changes, `g` after `f` is `g`. */
  lemma MapAbsorb<A, B>(s: seq<A>, f: A -> A, g: A -> B)
    requires forall x :: x in s ==> g(f(x)) == g(x)
    ensures Map(Map(s, f), g) == Map(s, g)
  {
    assert forall i :: 0 <= i < |s| ==> s[i] in s;
  }

  /** Filtering after `f` is filtering before it, when `f` does not change the verdict. */
  lemma {:induction false} FilterMapCommute<A>(s: seq<A>, f: A -> A, keep: A -> bool)
    requires forall x :: x in s ==> keep(f(x)) == keep(x)
    ensures Filter(Map(s, f), keep) == Map(Filter(s, keep), f)
  {
    if s != [] {
      var s' := s[1..];
      assert forall x :: x in s' ==> x in s;
      FilterMapCommute(s', f, keep);
      assert keep(f(s[0])) == keep(s[0]) by { assert s[0] in s; }
      FilterMapStep(s, f, keep);
    }
  }

  /** One step of `FilterMapCommute`: the head is kept on both sides or on neither. */
  lemma FilterMapStep<A>(s: seq<A>, f: A -> A, keep: A -> bool)
    requires s != [] && keep(f(s[0])) == keep(s[0])
    requires Filter(Map(s[1..], f), keep) == Map(Filter(s[1..], keep), f)
    ensures Filter(Map(s, f), keep) == Map(Filter(s, keep), f)
  {
    var h := if keep(s[0]) then [s[0]] else [];
    var m := Map(s, f);
    assert m[0] == f(s[0]) && m[1..] == Map(s[1..], f);
    assert Filter(s, keep) == h + Filter(s[1..], keep);
    MapAppend(h, Filter(s[1..], keep), f);
  }

  /**
   * Two sequences that look alike through `g`, filtered by tests that agree position by
   * position, keep survivors that look alike through `g`.
   */
  lemma {:induction false} FilterAlike<A, B>(s: seq<A>, t: seq<A>, g: A -> B, p: A -> bool, q: A -> bool)
    requires |s| == |t|
    requires forall i :: 0 <= i < |s| ==> g(s[i]) == g(t[i]) && p(s[i]) == q(t[i])
    ensures Map(Filter(s, p), g) == Map(Filter(t, q), g)
  {
    if s != [] {
      var s', t' := s[1..], t[1..];
      forall i | 0 <= i < |s'|
        ensures g(s'[i]) == g(t'[i]) && p(s'[i]) == q(t'[i])
      {
        assert s'[i] == s[i + 1] && t'[i] == t[i + 1];
      }
      FilterAlike(s', t', g, p, q);
      var hs := if p(s[0]) then [s[0]] else [];
      var ht := if q(t[0]) then [t[0]] else [];
      assert Filter(s, p) == hs + Filter(s', p);
      assert Filter(t, q) == ht + Filter(t', q);
      MapAppend(hs, Filter(s', p), g);
      MapAppend(ht, Filter(t', q), g);
      assert Map(hs, g) == Map(ht, g);
    }
  }

  /** Slicing commutes with mapping. */
  lemma MapSlice<A, B>(s: seq<A>, g: A -> B, lo: nat, hi: nat)
    ensures Map(Slice(s, lo, hi), g) == Slice(Map(s, g), lo, hi)
  {
  }

  /** Filter-mapping a single element. */
  lemma FilterMapOne<A, B>(x: A, f: A -> Option<B>)
    ensures FilterMap([x], f) == if f(x).Some? then [f(x).value] else []
  {
    assert [x][1..] == [];
  }

  /**
   * A loop that maps `s` in place with `f` holds `Map(s[..i], f) + s[i..]` before step `i`:
   * all of `s` at the start, element `i` untouched, and storing `f(s[i])` at `i` gives the
   * state before step `i + 1`; after the last step it holds `Map(s, f)`.
   */
  lemma MapInPlace<A>(s: seq<A>, i: nat, f: A -> A)
    requires i <= |s|
    ensures Map(s[..0], f) + s[0..] == s
    ensures |Map(s[..i], f) + s[i..]| == |s|
    ensures i == |s| ==> Map(s[..i], f) + s[i..] == Map(s, f)
    ensures i < |s| ==> (Map(s[..i], f) + s[i..])[i] == s[i]
    ensures i < |s| ==> (Map(s[..i], f) + s[i..])[i := f(s[i])] == Map(s[..i + 1], f) + s[i + 1..]
  {
    assert Map(s[..0], f) == [];
    if i == |s| {
      assert s[..i] == s;
    }
  }

  /** Sequences whose elements agree position by position on two tests: one has a passing element exactly when the other has. */
  lemma ExistsPointwise<A, B>(s: seq<A>, t: seq<B>, p: A -> bool, q: B -> bool)
    requires |s| == |t|
    requires forall i :: 0 <= i < |s| ==> p(s[i]) == q(t[i])
    ensures (exists x :: x in s && p(x)) <==> (exists y :: y in t && q(y))
  {
    if exists x :: x in s && p(x) {
      var x :| x in s && p(x);
      var i :| 0 <= i < |s| && s[i] == x;
      assert t[i] in t;
    }
    if exists y :: y in t && q(y) {
      var y :| y in t && q(y);
      var i :| 0 <= i < |t| && t[i] == y;
      assert s[i] in s;
    }
  }
}
