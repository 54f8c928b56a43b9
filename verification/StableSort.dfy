/** `Array.prototype.sort`: a stable sort by a comparator, here an order given as "may come before". */
module StableSort {
  ghost predicate TotalPreorder<T(!new)>(leq: (T, T) -> bool) {
    && (forall a, b :: leq(a, b) || leq(b, a))
    && (forall a, b, c :: leq(a, b) && leq(b, c) ==> leq(a, c))
  }

  ghost predicate SortedBy<T>(xs: seq<T>, leq: (T, T) -> bool) {
    forall i, j :: 0 <= i < j < |xs| ==> leq(xs[i], xs[j])
  }

  function Insert<T>(x: T, xs: seq<T>, leq: (T, T) -> bool): seq<T> {
    if xs == [] || leq(x, xs[0]) then [x] + xs else [xs[0]] + Insert(x, xs[1..], leq)
  }

  function Sort<T>(xs: seq<T>, leq: (T, T) -> bool): seq<T> {
    if xs == [] then [] else Insert(xs[0], Sort(xs[1..], leq), leq)
  }

  function Filter<T(!new)>(xs: seq<T>, p: T -> bool): (r: seq<T>)
    ensures |r| <= |xs|
    ensures forall x :: x in r <==> x in xs && p(x)
  {
    if xs == [] then [] else (if p(xs[0]) then [xs[0]] else []) + Filter(xs[1..], p)
  }

  lemma {:induction false} InsertPermutes<T>(x: T, xs: seq<T>, leq: (T, T) -> bool)
    ensures multiset(Insert(x, xs, leq)) == multiset{x} + multiset(xs)
  {
    if xs != [] && !leq(x, xs[0]) {
      InsertPermutes(x, xs[1..], leq);
      assert xs == [xs[0]] + xs[1..];
    }
  }

  /** Sorting keeps every element as often as it occurs. */
  lemma {:induction false} SortPermutes<T(!new)>(xs: seq<T>, leq: (T, T) -> bool)
    ensures multiset(Sort(xs, leq)) == multiset(xs)
    ensures |Sort(xs, leq)| == |xs|
    ensures forall x :: x in Sort(xs, leq) <==> x in xs
  {
    if xs != [] {
      SortPermutes(xs[1..], leq);
      InsertPermutes(xs[0], Sort(xs[1..], leq), leq);
      assert xs == [xs[0]] + xs[1..];
    }
    SameElements(Sort(xs, leq), xs);
  }

  lemma {:induction false} SameElements<T(!new)>(a: seq<T>, b: seq<T>)
    requires multiset(a) == multiset(b)
    ensures |a| == |b| && forall x :: x in a <==> x in b
  {
    assert |multiset(a)| == |a| && |multiset(b)| == |b|;
    assert forall x :: x in a <==> x in multiset(a);
    assert forall x :: x in b <==> x in multiset(b);
  }

  lemma {:induction false} InsertSorts<T(!new)>(x: T, xs: seq<T>, leq: (T, T) -> bool)
    requires TotalPreorder(leq) && SortedBy(xs, leq)
    ensures SortedBy(Insert(x, xs, leq), leq)
  {
    if xs != [] {
      if leq(x, xs[0]) {
        assert forall i :: 0 <= i < |xs| ==> leq(x, xs[i]);
      } else {
        InsertSorts(x, xs[1..], leq);
        InsertPermutes(x, xs[1..], leq);
        var rest := Insert(x, xs[1..], leq);
        forall i | 0 <= i < |rest| ensures leq(xs[0], rest[i]) {
          assert rest[i] in multiset(rest);
          assert rest[i] == x || rest[i] in xs[1..];
        }
      }
    }
  }

  lemma {:induction false} SortSorts<T(!new)>(xs: seq<T>, leq: (T, T) -> bool)
    requires TotalPreorder(leq)
    ensures SortedBy(Sort(xs, leq), leq)
  {
    if xs != [] {
      SortSorts(xs[1..], leq);
      InsertSorts(xs[0], Sort(xs[1..], leq), leq);
    }
  }

  lemma {:induction false} FilterCons<T(!new)>(x: T, xs: seq<T>, p: T -> bool)
    ensures Filter([x] + xs, p) == (if p(x) then [x] else []) + Filter(xs, p)
  {
    assert ([x] + xs)[1..] == xs;
  }

  lemma {:induction false} FilterNone<T(!new)>(xs: seq<T>, p: T -> bool)
    requires xs == []
    ensures Filter(xs, p) == []
  {
  }

  lemma {:induction false} FilterAppend<T(!new)>(xs: seq<T>, x: T, p: T -> bool)
    ensures Filter(xs + [x], p) == Filter(xs, p) + if p(x) then [x] else []
    decreases |xs|
  {
    hide Filter;
    if xs == [] {
      assert xs + [x] == [x] + xs;
      FilterCons(x, xs, p);
      FilterNone(xs, p);
    } else {
      var rest := xs[1..];
      FilterAppend(rest, x, p);
      assert xs + [x] == [xs[0]] + (rest + [x]) && xs == [xs[0]] + rest;
      FilterCons(xs[0], rest + [x], p);
      FilterCons(xs[0], rest, p);
    }
  }

  lemma {:induction false} InsertIsStable<T(!new)>(x: T, xs: seq<T>, leq: (T, T) -> bool, p: T -> bool)
    requires p(x) ==> forall y :: y in xs && p(y) ==> leq(x, y)
    ensures Filter(Insert(x, xs, leq), p) == (if p(x) then [x] else []) + Filter(xs, p)
  {
    hide Filter;
    if xs == [] || leq(x, xs[0]) {
      FilterCons(x, xs, p);
    } else {
      InsertIsStable(x, xs[1..], leq, p);
      FilterCons(xs[0], Insert(x, xs[1..], leq), p);
      FilterCons(xs[0], xs[1..], p);
      assert xs == [xs[0]] + xs[1..];
    }
  }

  /** Elements that tie keep their order. */
  lemma {:induction false} SortIsStable<T(!new)>(xs: seq<T>, leq: (T, T) -> bool, p: T -> bool)
    requires forall a, b :: p(a) && p(b) ==> leq(a, b)
    ensures Filter(Sort(xs, leq), p) == Filter(xs, p)
  {
    if xs != [] {
      SortIsStable(xs[1..], leq, p);
      InsertIsStable(xs[0], Sort(xs[1..], leq), leq, p);
    }
  }
}
