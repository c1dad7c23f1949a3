/** Sums over finite sets, in whatever order. */
module Sums {

  ghost function Sum<T(!new)>(s: set<T>, f: T -> int): int
    decreases |s|
  {
    if s == {} then 0
    else
      var x :| x in s;
      f(x) + Sum(s - {x}, f)
  }

  lemma {:induction false} SumWith<T(!new)>(s: set<T>, f: T -> int, x: T)
    requires x in s
    ensures Sum(s, f) == f(x) + Sum(s - {x}, f)
    decreases |s|
  {
    var y :| y in s && Sum(s, f) == f(y) + Sum(s - {y}, f);
    if y != x {
      SumWith(s - {y}, f, x);
      SumWith(s - {x}, f, y);
      assert s - {y} - {x} == s - {x} - {y};
    }
  }

  lemma {:induction false} SumSame<T(!new)>(s: set<T>, f: T -> int, g: T -> int)
    requires forall x :: x in s ==> f(x) == g(x)
    ensures Sum(s, f) == Sum(s, g)
    decreases |s|
  {
    if s != {} {
      var x :| x in s;
      SumWith(s, f, x);
      SumWith(s, g, x);
      SumSame(s - {x}, f, g);
    }
  }

  lemma {:induction false} SumBoth<T(!new)>(a: set<T>, b: set<T>, f: T -> int)
    requires a !! b
    ensures Sum(a + b, f) == Sum(a, f) + Sum(b, f)
    decreases |a|
  {
    if a == {} {
      assert a + b == b;
    } else {
      var x :| x in a;
      SumWith(a, f, x);
      SumWith(a + b, f, x);
      assert (a + b) - {x} == (a - {x}) + b;
      SumBoth(a - {x}, b, f);
    }
  }

  lemma {:induction false} SumAtLeast<T(!new)>(s: set<T>, f: T -> int)
    requires forall x :: x in s ==> f(x) >= 0
    ensures Sum(s, f) >= 0
    decreases |s|
  {
    if s != {} {
      var x :| x in s;
      SumWith(s, f, x);
      SumAtLeast(s - {x}, f);
    }
  }

  /** A sum over fewer is less. */
  lemma SumFewer<T(!new)>(a: set<T>, b: set<T>, f: T -> int)
    requires a <= b && forall x :: x in b ==> f(x) >= 0
    ensures Sum(a, f) <= Sum(b, f)
  {
    hide Sum;
    assert b == a + (b - a);
    SumBoth(a, b - a, f);
    SumAtLeast(b - a, f);
  }

  /** Adding one adds at most what it comes to. */
  lemma SumOneMore<T(!new)>(s: set<T>, f: T -> int, x: T)
    requires f(x) >= 0
    ensures Sum(s + {x}, f) == Sum(s, f) + if x in s then 0 else f(x)
  {
    hide Sum;
    if x in s {
      assert s + {x} == s;
    } else {
      SumWith(s + {x}, f, x);
      assert s + {x} - {x} == s;
    }
  }

  ghost function Image<S(!new), T(!new)>(s: set<S>, key: S -> T): set<T> {
    set x | x in s :: key(x)
  }

  ghost predicate Injective<S(!new), T(!new)>(s: set<S>, key: S -> T) {
    forall x, y :: x in s && y in s && key(x) == key(y) ==> x == y
  }

  ghost function Named<S, T>(key: S -> T, f: T -> int): S -> int {
    (x: S) => f(key(x))
  }

  ghost function PartSum<S, T(!new)>(part: S -> set<T>, f: T -> int): S -> int {
    (x: S) => Sum(part(x), f)
  }

  /** Summing over names for some things is summing over the things. */
  lemma {:induction false} SumImage<S(!new), T(!new)>(s: set<S>, key: S -> T, f: T -> int)
    requires Injective(s, key)
    ensures Sum(Image(s, key), f) == Sum(s, Named(key, f))
    decreases |s|
  {
    if s != {} {
      var x :| x in s;
      SumWith(s, Named(key, f), x);
      SumWith(Image(s, key), f, key(x));
      assert Image(s, key) - {key(x)} == Image(s - {x}, key);
      SumImage(s - {x}, key, f);
    } else {
      assert Image(s, key) == {};
    }
  }

  ghost function All<S(!new), T(!new)>(s: set<S>, part: S -> set<T>): set<T> {
    set x, y | x in s && y in part(x) :: y
  }

  ghost predicate Apart<S(!new), T(!new)>(s: set<S>, part: S -> set<T>) {
    forall x, y :: x in s && y in s && x != y ==> part(x) !! part(y)
  }

  /** Summing over parts that share nothing is summing each part. */
  lemma {:induction false} SumParts<S(!new), T(!new)>(s: set<S>, part: S -> set<T>, f: T -> int)
    requires Apart(s, part)
    ensures Sum(All(s, part), f) == Sum(s, PartSum(part, f))
    decreases |s|
  {
    if s != {} {
      var x :| x in s;
      SumWith(s, PartSum(part, f), x);
      assert All(s, part) == part(x) + All(s - {x}, part);
      SumBoth(part(x), All(s - {x}, part), f);
      SumParts(s - {x}, part, f);
    } else {
      assert All(s, part) == {};
    }
  }

  lemma {:induction false} ImageCount<S(!new), T(!new)>(s: set<S>, key: S -> T)
    ensures |Image(s, key)| <= |s|
    ensures |Image(s, key)| == |s| <==> Injective(s, key)
    decreases |s|
  {
    if s != {} {
      var x :| x in s;
      var rest := s - {x};
      ImageCount(rest, key);
      if key(x) in Image(rest, key) {
        var y :| y in rest && key(y) == key(x);
        assert Image(s, key) == Image(rest, key);
      } else {
        assert Image(s, key) == Image(rest, key) + {key(x)};
        assert forall y :: y in rest ==> key(y) in Image(rest, key);
      }
    } else {
      assert Image(s, key) == {};
    }
  }
}
