/** Mean and population variance of the out-degree over the key nodes. */
module DegreeStats {
  import opened GraphStore
  import opened SetSums
  import opened Arith

  /** The number of edges over the number of keys. */
  ghost function MeanDegree(g: Graph): (m: real)
    requires |g| > 0
    ensures m >= 0.0
  {
    SumNonnegative(g.Keys, OutDegreeOf(g));
    TotalEdges(g) / |g| as real
  }

  function SquaredDeviationOf(g: Graph, mean: real): NodeId -> real
  {
    (n: NodeId) => var d := |Successors(g, n)| as real - mean; d * d
  }

  /** The squared deviations of the out-degrees from the mean, summed and
      divided by the number of keys N (not N - 1). */
  ghost function DegreeVariance(g: Graph): (v: real)
    requires |g| > 0
    ensures v >= 0.0
  {
    var f := SquaredDeviationOf(g, MeanDegree(g));
    SumNonnegative(g.Keys, f);
    Sum(g.Keys, f) / |g| as real
  }

  /** When every key has out-degree d, the mean is d. */
  lemma MeanOfUniform(g: Graph, d: nat)
    requires |g| > 0
    requires forall n :: n in g ==> |g[n]| == d
    ensures MeanDegree(g) == d as real
  {
    SumConstant(g.Keys, OutDegreeOf(g), d as real);
    MeanOfTimes(|g|, d as real);
  }

  /** The variance is zero exactly when all keys have the same out-degree. */
  lemma VarianceZeroIffUniform(g: Graph)
    requires |g| > 0
    ensures DegreeVariance(g) == 0.0 <==> forall a, b :: a in g && b in g ==> |g[a]| == |g[b]|
  {
    var f := SquaredDeviationOf(g, MeanDegree(g));
    SumZero(g.Keys, f);
    assert DegreeVariance(g) == 0.0 <==> Sum(g.Keys, f) == 0.0;
    if forall a, b :: a in g && b in g ==> |g[a]| == |g[b]| {
      UniformHasNoDeviation(g);
    } else {
      var a, b :| a in g && b in g && |g[a]| != |g[b]|;
      DeviationPositive(g, if |g[a]| as real != MeanDegree(g) then a else b);
    }
  }

  lemma UniformHasNoDeviation(g: Graph)
    requires |g| > 0
    requires forall a, b :: a in g && b in g ==> |g[a]| == |g[b]|
    ensures forall n :: n in g.Keys ==> SquaredDeviationOf(g, MeanDegree(g))(n) == 0.0
  {
    var a :| a in g;
    MeanOfUniform(g, |g[a]|);
  }

  lemma DeviationPositive(g: Graph, c: NodeId)
    requires |g| > 0 && c in g && |g[c]| as real != MeanDegree(g)
    ensures SquaredDeviationOf(g, MeanDegree(g))(c) > 0.0
  {
    var d := |g[c]| as real - MeanDegree(g);
    assert Successors(g, c) == g[c];
    SquarePositive(d);
    calc {
      SquaredDeviationOf(g, MeanDegree(g))(c);
    ==
      d * d;
    >
      0.0;
    }
  }

  lemma SquarePositive(d: real)
    requires d != 0.0
    ensures d * d > 0.0
  {
    if d < 0.0 {
      assert d * d == (-d) * (-d);
    }
  }

  /** Renaming the node ids one-to-one leaves the mean degree unchanged. */
  lemma MeanRelabelled(g: Graph, f: NodeId -> NodeId)
    requires |g| > 0 && Injective(f)
    ensures |Relabel(g, f)| == |g| && MeanDegree(Relabel(g, f)) == MeanDegree(g)
  {
    RelabelShape(g, f);
    RelabelledSum(g, f, OutDegreeOf(Relabel(g, f)), OutDegreeOf(g));
  }

  /** Renaming the node ids one-to-one leaves the degree variance unchanged. */
  lemma VarianceRelabelled(g: Graph, f: NodeId -> NodeId)
    requires |g| > 0 && Injective(f)
    ensures |Relabel(g, f)| == |g| && DegreeVariance(Relabel(g, f)) == DegreeVariance(g)
  {
    var r := Relabel(g, f);
    MeanRelabelled(g, f);
    var m := MeanDegree(g);
    RelabelShape(g, f);
    DeviationsAgree(g, r, f, m);
    RelabelledSum(g, f, SquaredDeviationOf(r, m), SquaredDeviationOf(g, m));
  }

  /** Keys of r that keep the out-degree of the keys of g they rename keep
      their squared deviation from any mean m. */
  lemma DeviationsAgree(g: Graph, r: Graph, f: NodeId -> NodeId, m: real)
    requires forall u :: u in g ==> OutDegreeOf(r)(f(u)) == OutDegreeOf(g)(u)
    ensures forall u :: u in g ==> SquaredDeviationOf(r, m)(f(u)) == SquaredDeviationOf(g, m)(u)
  {
    forall u | u in g
      ensures SquaredDeviationOf(r, m)(f(u)) == SquaredDeviationOf(g, m)(u)
    {
      assert OutDegreeOf(r)(f(u)) == OutDegreeOf(g)(u);
    }
  }
}
