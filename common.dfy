/** Values and list operations shared by the whole model: optional values, handler replies,
    JavaScript's `Array.prototype.filter`, Prisma's `take: 1`, and JavaScript's `||` defaults. */
module Common {

  /** A value that may be missing (`null` or `undefined` in the source). */
  datatype Option<+T> = None | Some(value: T)

  /** What a route handler answers: a JSON payload with status 200, or an error status and message. */
  datatype Reply<+T> = Ok(value: T) | Fail(status: int, error: string)

  /** `xs.filter(p)`: the elements satisfying `p`, in their original order. */
  function Filter<T(==)>(xs: seq<T>, p: T -> bool): (r: seq<T>)
    ensures |r| <= |xs|
    ensures forall x :: x in r ==> x in xs && p(x)
    ensures forall x :: x in xs && p(x) ==> x in r
    ensures forall x :: x in xs ==> multiset(r)[x] == if p(x) then multiset(xs)[x] else 0
  {
    if xs == [] then [] else
      var rest := Filter(xs[1..], p);
      assert xs == [xs[0]] + xs[1..];
      (if p(xs[0]) then [xs[0]] else []) + rest
  }

  /** The positions of `xs` whose element satisfies `p`. */
  function Positions<T>(xs: seq<T>, p: T -> bool): set<int>
  {
    set i | 0 <= i < |xs| && p(xs[i])
  }

  lemma PositionsSnoc<T>(ys: seq<T>, x: T, p: T -> bool)
    ensures |Positions(ys + [x], p)| == |Positions(ys, p)| + if p(x) then 1 else 0
  {
    var xs, n := ys + [x], |ys|;
    var before, after := Positions(ys, p), Positions(xs, p);
    assert n !in before;
    forall i
      ensures i in after <==> i in before || (i == n && p(x))
    {
      if 0 <= i < n {
        assert xs[i] == ys[i];
      }
    }
    if p(x) {
      assert after == before + {n};
    } else {
      assert after == before;
    }
  }

  lemma FilterSnoc<T>(ys: seq<T>, x: T, p: T -> bool)
    ensures |Filter(ys + [x], p)| == |Filter(ys, p)| + if p(x) then 1 else 0
  {
    FilterAppend(ys, [x], p);
    assert [x][1..] == [];
  }

  /** `xs.filter(p).length` is the number of positions of `xs` whose element satisfies `p`. */
  lemma {:induction false} FilterCountsPositions<T>(xs: seq<T>, p: T -> bool)
    ensures |Filter(xs, p)| == |Positions(xs, p)|
  {
    if xs != [] {
      var n := |xs| - 1;
      assert xs == xs[..n] + [xs[n]];
      FilterCountsPositions(xs[..n], p);
      FilterSnoc(xs[..n], xs[n], p);
      PositionsSnoc(xs[..n], xs[n], p);
    }
  }

  /** `a` is obtained from `b` by deleting elements, keeping the order of what remains. */
  predicate IsSubsequence<T(==)>(a: seq<T>, b: seq<T>)
    decreases |b|
  {
    a == [] || (b != [] && ((a[0] == b[0] && IsSubsequence(a[1..], b[1..])) || IsSubsequence(a, b[1..])))
  }

  lemma {:induction false} FilterIsSubsequence<T>(xs: seq<T>, p: T -> bool)
    ensures IsSubsequence(Filter(xs, p), xs)
  {
    if xs != [] {
      FilterIsSubsequence(xs[1..], p);
      var f := Filter(xs, p);
      if p(xs[0]) {
        assert f == [xs[0]] + Filter(xs[1..], p);
        assert f[0] == xs[0] && f[1..] == Filter(xs[1..], p);
      } else {
        assert f == Filter(xs[1..], p);
        assert IsSubsequence(f, xs[1..]);
      }
    }
  }

  lemma {:induction false} FilterIdempotent<T>(xs: seq<T>, p: T -> bool)
    ensures Filter(Filter(xs, p), p) == Filter(xs, p)
  {
    if xs != [] {
      FilterIdempotent(xs[1..], p);
      if p(xs[0]) {
        var f := Filter(xs, p);
        assert f == [xs[0]] + Filter(xs[1..], p);
        assert f[0] == xs[0] && f[1..] == Filter(xs[1..], p);
        assert p(f[0]);
        calc {
          Filter(f, p);
          [f[0]] + Filter(f[1..], p);
          [xs[0]] + Filter(Filter(xs[1..], p), p);
          [xs[0]] + Filter(xs[1..], p);
        }
      } else {
        assert Filter(xs, p) == Filter(xs[1..], p);
      }
    }
  }

  lemma {:induction false} FilterKeepsAll<T>(xs: seq<T>, p: T -> bool)
    requires forall x :: x in xs ==> p(x)
    ensures Filter(xs, p) == xs
  {
    if xs != [] {
      FilterKeepsAll(xs[1..], p);
    }
  }

  lemma {:induction false} FilterKeepsNone<T>(xs: seq<T>, p: T -> bool)
    requires forall x :: x in xs ==> !p(x)
    ensures Filter(xs, p) == []
  {
    if xs != [] {
      FilterKeepsNone(xs[1..], p);
    }
  }

  lemma {:induction false} FilterAppend<T>(a: seq<T>, b: seq<T>, p: T -> bool)
    ensures Filter(a + b, p) == Filter(a, p) + Filter(b, p)
  {
    if a == [] {
      assert a + b == b;
    } else {
      assert (a + b)[1..] == a[1..] + b;
      FilterAppend(a[1..], b, p);
    }
  }

  /** Two predicates that no element satisfies at once select at most `|xs|` elements together. */
  lemma {:induction false} FilterDisjointCounts<T>(xs: seq<T>, p: T -> bool, q: T -> bool)
    requires forall x :: x in xs ==> !(p(x) && q(x))
    ensures |Filter(xs, p)| + |Filter(xs, q)| <= |xs|
  {
    if xs != [] {
      FilterDisjointCounts(xs[1..], p, q);
    }
  }

  /** The first element satisfying `p`, if any: a Prisma relation `where` with `take: 1`. */
  function First<T(==)>(xs: seq<T>, p: T -> bool): (r: Option<T>)
    ensures r.None? <==> forall x :: x in xs ==> !p(x)
    ensures r.Some? ==> r.value in xs && p(r.value)
  {
    if xs == [] then None else if p(xs[0]) then Some(xs[0]) else First(xs[1..], p)
  }

  /** Skipping elements that do not satisfy `p` does not change the first one that does. */
  lemma {:induction false} FirstAfterNone<T>(a: seq<T>, b: seq<T>, p: T -> bool)
    requires forall x :: x in a ==> !p(x)
    ensures First(a + b, p) == First(b, p)
  {
    if a != [] {
      assert (a + b)[0] == a[0] && (a + b)[1..] == a[1..] + b;
      FirstAfterNone(a[1..], b, p);
    } else {
      assert a + b == b;
    }
  }

  /** `xs.map(f)`. */
  function Map<A, B>(xs: seq<A>, f: A -> B): (r: seq<B>)
    ensures |r| == |xs|
    ensures forall i :: 0 <= i < |xs| ==> r[i] == f(xs[i])
    ensures forall x :: x in xs ==> f(x) in r
    ensures forall y :: y in r ==> exists x :: x in xs && y == f(x)
  {
    var r := seq(|xs|, i requires 0 <= i < |xs| => f(xs[i]));
    assert forall x :: x in xs ==> f(x) in r by {
      forall x | x in xs ensures f(x) in r {
        var i :| 0 <= i < |xs| && xs[i] == x;
        assert r[i] == f(x);
      }
    }
    assert forall y :: y in r ==> exists x :: x in xs && y == f(x) by {
      forall y | y in r ensures exists x :: x in xs && y == f(x) {
        var i :| 0 <= i < |r| && r[i] == y;
        assert xs[i] in xs && y == f(xs[i]);
      }
    }
    r
  }

  /** An optional value as the list of at most one element that Prisma returns for `take: 1`. */
  function AsList<T>(o: Option<T>): seq<T>
  {
    match o
    case None => []
    case Some(v) => [v]
  }

  /** `x || d` for a number that may be missing: JavaScript treats a missing value and 0 alike as false. */
  function OrNumber(x: Option<int>, d: int): int
  {
    if x.Some? && x.value != 0 then x.value else d
  }

  /** `x || d` for a string that may be missing: JavaScript treats a missing value and "" alike as false. */
  function OrText(x: Option<string>, d: string): string
  {
    if x.Some? && x.value != "" then x.value else d
  }
}
