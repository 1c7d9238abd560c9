/**
  The JavaScript array operations the index generator chains together,
  over sequences.
 */
module JsArray {

  /** `s.filter(keep)`: every element `keep` accepts, as often as it occurs, and nothing else. */
  function Filter<T(==, !new)>(s: seq<T>, keep: T -> bool): (r: seq<T>)
    ensures |r| <= |s|
    ensures forall x :: multiset(r)[x] == if keep(x) then multiset(s)[x] else 0
    ensures forall x :: x in r <==> x in s && keep(x)
  {
    if s == [] then []
    else
      assert s == [s[0]] + s[1..];
      (if keep(s[0]) then [s[0]] else []) + Filter(s[1..], keep)
  }

  /** `filter` keeps the accepted elements in their original order: appending an element appends it to the result when it is accepted. */
  lemma {:induction false} FilterSnoc<T(!new)>(s: seq<T>, x: T, keep: T -> bool)
    ensures Filter(s + [x], keep) == Filter(s, keep) + (if keep(x) then [x] else [])
    decreases |s|
  {
    if s == [] {
      assert s + [x] == [x];
      FilterSingle(x, keep);
    } else {
      FilterSnoc(s[1..], x, keep);
      FilterFirst(s, keep);
      FilterFirstOfSnoc(s, x, keep);
      Regroup(Filter(s + [x], keep), Filter(s[1..] + [x], keep), Filter(s, keep), Filter(s[1..], keep),
        if keep(s[0]) then [s[0]] else [], if keep(x) then [x] else []);
    }
  }

  lemma FilterSingle<T(!new)>(x: T, keep: T -> bool)
    ensures Filter([x], keep) == if keep(x) then [x] else []
  {
  }

  lemma FilterFirst<T(!new)>(s: seq<T>, keep: T -> bool)
    requires s != []
    ensures Filter(s, keep) == (if keep(s[0]) then [s[0]] else []) + Filter(s[1..], keep)
  {
  }

  lemma FilterFirstOfSnoc<T(!new)>(s: seq<T>, x: T, keep: T -> bool)
    requires s != []
    ensures Filter(s + [x], keep) == (if keep(s[0]) then [s[0]] else []) + Filter(s[1..] + [x], keep)
  {
    var t := s + [x];
    assert t[0] == s[0];
    assert t[1..] == s[1..] + [x];
    FilterFirst(t, keep);
  }

  /** Moving the last part of a three-part concatenation across the first two. */
  lemma Regroup<T>(a: seq<T>, b: seq<T>, c: seq<T>, d: seq<T>, first: seq<T>, last: seq<T>)
    requires a == first + b && b == d + last && c == first + d
    ensures a == c + last
  {
  }

  /** `s.map(f)`: `f` applied to each element, in place. */
  function Map<T, U>(s: seq<T>, f: T -> U): (r: seq<U>)
    ensures |r| == |s|
    ensures forall i :: 0 <= i < |s| ==> r[i] == f(s[i])
  {
    if s == [] then [] else [f(s[0])] + Map(s[1..], f)
  }

  /** Mapping a concatenation maps each part. */
  lemma {:induction false} MapConcat<T, U>(a: seq<T>, b: seq<T>, f: T -> U)
    ensures Map(a + b, f) == Map(a, f) + Map(b, f)
    decreases |a|
  {
    if a == [] {
      assert a + b == b;
    } else {
      assert (a + b)[0] == a[0] && (a + b)[1..] == a[1..] + b;
      MapConcat(a[1..], b, f);
    }
  }

  /** Mapping two rearrangements of the same elements gives two rearrangements of the same images. */
  lemma {:induction false} MapPermutation<T, U>(a: seq<T>, b: seq<T>, f: T -> U)
    requires multiset(a) == multiset(b)
    ensures multiset(Map(a, f)) == multiset(Map(b, f))
    decreases |a|
  {
    if a == [] {
      assert |b| == |multiset(b)| == 0;
    } else {
      assert a[0] in multiset(b);
      var i :| 0 <= i < |b| && b[i] == a[0];
      var p, q := b[..i], b[i + 1..];
      assert b == p + [a[0]] + q;
      MiddleOut(p, a[0], q);
      RemoveFirst(a);
      MapPermutation(a[1..], p + q, f);
      MapMiddle(p, a[0], q, f);
      MapRemoveFirst(a, f);
    }
  }

  lemma RemoveFirst<T>(s: seq<T>)
    requires s != []
    ensures multiset(s[1..]) == multiset(s) - multiset{s[0]}
  {
    assert s == [s[0]] + s[1..];
  }

  lemma MiddleOut<T>(p: seq<T>, y: T, q: seq<T>)
    ensures multiset(p + q) == multiset(p + [y] + q) - multiset{y}
  {
  }

  lemma MapRemoveFirst<T, U>(s: seq<T>, f: T -> U)
    requires s != []
    ensures multiset(Map(s, f)) == multiset(Map(s[1..], f)) + multiset{f(s[0])}
  {
    assert Map(s, f) == [f(s[0])] + Map(s[1..], f);
  }

  lemma MapMiddle<T, U>(p: seq<T>, y: T, q: seq<T>, f: T -> U)
    ensures multiset(Map(p + [y] + q, f)) == multiset(Map(p + q, f)) + multiset{f(y)}
  {
    MapConcat(p + [y], q, f);
    MapConcat(p, [y], f);
    MapConcat(p, q, f);
    assert Map([y], f) == [f(y)];
  }

  /** `parts.join(sep)`. */
  function Join(parts: seq<string>, sep: string): (r: string)
  {
    if |parts| == 0 then ""
    else if |parts| == 1 then parts[0]
    else parts[0] + sep + Join(parts[1..], sep)
  }

  /** Total length of a sequence of strings. */
  function TotalLength(parts: seq<string>): nat
  {
    if parts == [] then 0 else |parts[0]| + TotalLength(parts[1..])
  }

  /**
    The way `join` builds its result, element by element from the left:
    adding an element appends the separator and then the element, except
    for the first.
   */
  lemma {:induction false} JoinSnoc(parts: seq<string>, p: string, sep: string)
    ensures Join(parts + [p], sep) == if parts == [] then p else Join(parts, sep) + sep + p
    decreases |parts|
  {
    if |parts| >= 2 {
      assert (parts + [p])[1..] == parts[1..] + [p];
      JoinSnoc(parts[1..], p, sep);
    } else if |parts| == 1 {
      assert (parts + [p])[1..] == [p];
    }
  }

  /** Joining two non-empty runs puts exactly one separator where they meet. */
  lemma {:induction false} JoinConcat(a: seq<string>, b: seq<string>, sep: string)
    requires a != [] && b != []
    ensures Join(a + b, sep) == Join(a, sep) + sep + Join(b, sep)
    decreases |a|
  {
    if |a| == 1 {
      assert (a + b)[1..] == b;
    } else {
      assert (a + b)[1..] == a[1..] + b;
      JoinConcat(a[1..], b, sep);
    }
  }

  /** The joined string holds every element and one separator between each consecutive pair. */
  lemma {:induction false} JoinLength(parts: seq<string>, sep: string)
    requires parts != []
    ensures |Join(parts, sep)| == TotalLength(parts) + (|parts| - 1) * |sep|
    decreases |parts|
  {
    if |parts| > 1 {
      JoinLength(parts[1..], sep);
    }
  }
}
