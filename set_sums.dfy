/** Sums of a real-valued function over a finite set.

    The source adds up per-node quantities while iterating a hash map or a
    hash set, in an order nobody controls. `Sum` fixes no order either: it
    peels off an arbitrary element, and `SumRemove` shows that the result
    does not depend on which element comes first. */
module SetSums {
  import opened Arith

  /** Some element of a non-empty set; the same one every time for the same set. */
  ghost function Pick<T>(s: set<T>): (x: T)
    requires s != {}
    ensures x in s
  {
    var x :| x in s; x
  }

  /** The sum of f(x) over all x in s. */
  ghost function Sum<T>(s: set<T>, f: T -> real): real
    decreases s
  {
    if s == {} then 0.0 else var x := Pick(s); f(x) + Sum(s - {x}, f)
  }

  /** Any element may be taken out first: the sum does not depend on the order. */
  lemma {:induction false} SumRemove<T>(s: set<T>, f: T -> real, x: T)
    requires x in s
    ensures Sum(s, f) == f(x) + Sum(s - {x}, f)
    decreases s
  {
    var y := Pick(s);
    if y != x {
      SumRemove(s - {y}, f, x);
      SumRemove(s - {x}, f, y);
      assert s - {y} - {x} == s - {x} - {y};
    }
  }

  /** Adding one new element adds its value: what an accumulating loop relies on. */
  lemma SumInsert<T>(s: set<T>, f: T -> real, x: T)
    requires x !in s
    ensures Sum(s + {x}, f) == Sum(s, f) + f(x)
  {
    SumRemove(s + {x}, f, x);
    assert (s + {x}) - {x} == s;
  }

  /** Growing s by one new element x adds one to its size and f(x) to its sum. */
  lemma SumGrow<T>(s: set<T>, s2: set<T>, f: T -> real, x: T)
    requires x !in s && s2 == s + {x}
    ensures |s2| == |s| + 1
    ensures Sum(s2, f) == Sum(s, f) + f(x)
  {
    SumInsert(s, f, x);
  }

  /** Moving x of `all` out of the pending part `rest` adds it to the done
      part `all - rest`: one more element, and f(x) more in the sum. */
  lemma SumStep<T>(all: set<T>, rest: set<T>, f: T -> real, x: T)
    requires x in all && x in rest
    ensures |all - (rest - {x})| == |all - rest| + 1
    ensures Sum(all - (rest - {x}), f) == Sum(all - rest, f) + f(x)
  {
    SumInsert(all - rest, f, x);
    assert (all - rest) + {x} == all - (rest - {x});
  }

  lemma {:induction false} SumNonnegative<T>(s: set<T>, f: T -> real)
    requires forall x :: x in s ==> f(x) >= 0.0
    ensures Sum(s, f) >= 0.0
    decreases s
  {
    if s != {} {
      SumNonnegative(s - {Pick(s)}, f);
    }
  }

  /** A sum of non-negative terms is zero exactly when every term is zero. */
  lemma {:induction false} SumZero<T>(s: set<T>, f: T -> real)
    requires forall x :: x in s ==> f(x) >= 0.0
    ensures Sum(s, f) == 0.0 <==> forall x :: x in s ==> f(x) == 0.0
    decreases s
  {
    if s != {} {
      var y := Pick(s);
      SumZero(s - {y}, f);
      SumNonnegative(s - {y}, f);
    }
  }

  /** Terms bounded by c give a sum of at most |s| copies of c. */
  lemma {:induction false} SumAtMost<T>(s: set<T>, f: T -> real, c: real)
    requires forall x :: x in s ==> f(x) <= c
    ensures Sum(s, f) <= Times(|s|, c)
    decreases s
  {
    if s != {} {
      var y := Pick(s);
      SumAtMost(s - {y}, f, c);
    }
  }

  /** Constant terms c give exactly |s| copies of c. */
  lemma {:induction false} SumConstant<T>(s: set<T>, f: T -> real, c: real)
    requires forall x :: x in s ==> f(x) == c
    ensures Sum(s, f) == Times(|s|, c)
    decreases s
  {
    if s != {} {
      var y := Pick(s);
      SumConstant(s - {y}, f, c);
    }
  }

  /** Terms in [0, |s| - 1] give a sum in [0, |s| * (|s| - 1)]. */
  lemma SumAtMostPairs<T>(s: set<T>, f: T -> real)
    requires forall x :: x in s ==> 0.0 <= f(x) <= (|s| - 1) as real
    ensures 0.0 <= Sum(s, f) <= (|s| * (|s| - 1)) as real
  {
    SumAtMost(s, f, (|s| - 1) as real);
    SumNonnegative(s, f);
    TimesPairs(|s|);
  }

  /** The mean of terms in [0, 1] lies in [0, 1]. */
  lemma MeanInUnit<T>(s: set<T>, f: T -> real)
    requires s != {}
    requires forall x :: x in s ==> 0.0 <= f(x) <= 1.0
    ensures 0.0 <= Sum(s, f) / |s| as real <= 1.0
  {
    SumAtMost(s, f, 1.0);
    SumNonnegative(s, f);
    MeanAtMost(Sum(s, f), |s|, 1.0);
  }

  /** Dividing every term by k divides the sum by k. */
  lemma {:induction false} SumScaled<T>(s: set<T>, f: T -> real, h: T -> real, k: real)
    requires k != 0.0
    requires forall x :: x in s ==> f(x) == h(x) / k
    ensures Sum(s, f) == Sum(s, h) / k
    decreases s
  {
    if s != {} {
      var y := Pick(s);
      SumScaled(s - {y}, f, h, k);
    }
  }

  /** The image of s under f. */
  ghost function Image<T, U>(s: set<T>, f: T -> U): set<U>
  {
    set x | x in s :: f(x)
  }

  /** h applied after f. */
  function Compose<T, U>(h: U -> real, f: T -> U): T -> real
  {
    (x: T) => h(f(x))
  }

  /** A function that is one-to-one on s keeps the size of s. */
  lemma {:induction false} ImageSize<T, U>(s: set<T>, f: T -> U)
    requires forall x, y :: x in s && y in s && f(x) == f(y) ==> x == y
    ensures |Image(s, f)| == |s|
    decreases s
  {
    if s != {} {
      var y := Pick(s);
      ImageSize(s - {y}, f);
      assert Image(s, f) == Image(s - {y}, f) + {f(y)};
    }
  }

  /** Summing h over the image of s under a one-to-one f is summing h after f over s. */
  lemma {:induction false} SumImage<T, U>(s: set<T>, f: T -> U, h: U -> real)
    requires forall x, y :: x in s && y in s && f(x) == f(y) ==> x == y
    ensures Sum(Image(s, f), h) == Sum(s, Compose(h, f))
    decreases s
  {
    if s != {} {
      var y := Pick(s);
      SumImage(s - {y}, f, h);
      SumRemove(Image(s, f), h, f(y));
      assert Image(s, f) - {f(y)} == Image(s - {y}, f);
    }
  }

  /** Functions that agree on s have the same sum over s. */
  lemma {:induction false} SumCongruent<T>(s: set<T>, f1: T -> real, f2: T -> real)
    requires forall x :: x in s ==> f1(x) == f2(x)
    ensures Sum(s, f1) == Sum(s, f2)
    decreases s
  {
    if s != {} {
      SumCongruent(s - {Pick(s)}, f1, f2);
    }
  }
}
