/** The two fusion strategies of the predictor, over an arbitrary likelihood model `g`,
    where `g(c)(ap)` is the effective likelihood of the AP `ap` in the cell `c`. In exact
    arithmetic both compute the normalised product of the likelihoods over the cells, so
    they agree; the result is a distribution over the cells with no zero entry, does not
    depend on the order of the APs, and ignores an AP that is equally likely everywhere. */
module Fusion {
  import opened Wrappers
  import opened LinkedMaps
  import opened Products
  import opened Normalization

  /** A likelihood model: cell, then AP, to an effective likelihood. */
  type Factors = string -> string -> real

  /** Every likelihood of the model is strictly positive. */
  ghost predicate Positive(g: Factors) {
    forall c, ap :: g(c)(ap) > 0.0
  }

  /** The uniform prior `1.0 / numCells`, counting repeated cells. An empty cell list
      never reaches a use of it; it is 0 there rather than Kotlin's infinity. */
  function Prior(cells: seq<string>): (p: real)
    ensures |cells| > 0 ==> p > 0.0
  {
    if |cells| == 0 then 0.0 else 1.0 / |cells| as real
  }

  /** A parallel cell score: the product of the cell's likelihoods over the fixed APs,
      times the prior. */
  function ParallelScore(g: Factors, fixed: seq<string>, prior: real): string -> real {
    c => Product(fixed, g(c)) * prior
  }

  /** `calculateParallelBayesian`: every cell's score, normalised. */
  function ParallelFuse(g: Factors, cells: seq<string>, fixed: seq<string>): seq<(string, real)> {
    Normalize(Associate(cells, ParallelScore(g, fixed, Prior(cells))))
  }

  /** The constant function, as in `associateWith { 1.0 / numCells }`. */
  function Constant(v: real): string -> real {
    _ => v
  }

  /** One serial update with the AP `ap`: each cell's current probability (the prior
      for a cell the map lacks) times the cell's likelihood for `ap`. */
  function SerialUpdate(g: Factors, ap: string, cur: seq<(string, real)>, prior: real): string -> real {
    c => g(c)(ap) * GetOrDefault(cur, c, prior)
  }

  /** One iteration of the serial loop: update with `ap` and renormalise. */
  function SerialStep(g: Factors, cells: seq<string>, prior: real, cur: seq<(string, real)>, ap: string): seq<(string, real)> {
    Normalize(Associate(cells, SerialUpdate(g, ap, cur, prior)))
  }

  /** A left fold of `step` over `order`, starting from `cur`. */
  function Fold<S>(step: (S, string) -> S, cur: S, order: seq<string>): S
    decreases |order|
  {
    if |order| == 0 then cur else Fold(step, step(cur, order[0]), order[1..])
  }

  /** If `step` takes the state `T(e)` with `a` to `T(e + [a])`, folding `step` over
      `rest` from `T(d)` ends in `T(d + rest)`. */
  lemma {:induction false} FoldInvariant<S>(step: (S, string) -> S, T: seq<string> -> S, d: seq<string>, rest: seq<string>)
    requires forall e, a :: step(T(e), a) == T(e + [a])
    ensures Fold(step, T(d), rest) == T(d + rest)
    decreases |rest|
  {
    if |rest| == 0 {
      assert d + rest == d;
    } else {
      FoldInvariant(step, T, d + [rest[0]], rest[1..]);
      SnocAppend(d, rest);
    }
  }

  /** Moving the head of `rest` to the end of `d` keeps the concatenation. */
  lemma SnocAppend(d: seq<string>, rest: seq<string>)
    requires |rest| > 0
    ensures d + [rest[0]] + rest[1..] == d + rest
  {
    assert rest == [rest[0]] + rest[1..];
  }

  /** A fold whose first step lands on `T(aps + [rest[0]])`, and whose step keeps to
      the states `T`, ends in `T(aps + rest)`. */
  lemma FoldFrom<S>(step: (S, string) -> S, T: seq<string> -> S, cur: S, aps: seq<string>, rest: seq<string>)
    requires forall e, a :: step(T(e), a) == T(e + [a])
    requires |rest| > 0
    requires step(cur, rest[0]) == T(aps + [rest[0]])
    ensures Fold(step, cur, rest) == T(aps + rest)
  {
    assert Fold(step, cur, rest) == Fold(step, T(aps + [rest[0]]), rest[1..]);
    FoldInvariant(step, T, aps + [rest[0]], rest[1..]);
    SnocAppend(aps, rest);
  }

  /** One serial update as a step function of the loop. */
  function StepWith(g: Factors, cells: seq<string>, prior: real): (seq<(string, real)>, string) -> seq<(string, real)> {
    (cur, ap) => SerialStep(g, cells, prior, cur, ap)
  }

  /** The serial loop over `order` from the current posterior `cur`; every AP of the
      order is processed, with no early exit. */
  function SerialFrom(g: Factors, cells: seq<string>, prior: real, cur: seq<(string, real)>, order: seq<string>): seq<(string, real)> {
    Fold(StepWith(g, cells, prior), cur, order)
  }

  /** `calculateSerialBayesian` for a given processing order: start uniform over the
      cells and update with each AP of `order` in turn. */
  function SerialFuse(g: Factors, cells: seq<string>, order: seq<string>): seq<(string, real)> {
    var prior := Prior(cells);
    SerialFrom(g, cells, prior, Associate(cells, Constant(prior)), order)
  }

  /** A cell's likelihood product over the APs `aps`, as a function of the cell. */
  function ProductScore(g: Factors, aps: seq<string>): string -> real {
    c => Product(aps, g(c))
  }

  /** The posterior after the evidence of `aps`: the likelihood products of the distinct
      cells, normalised. This is the reference both strategies are compared with. */
  function Target(g: Factors, cells: seq<string>, aps: seq<string>): seq<(string, real)> {
    Normalize(Zip(Dedup(cells), ProductScore(g, aps)))
  }

  /** The target posterior as a function of the APs processed. */
  function TargetOf(g: Factors, cells: seq<string>): seq<string> -> seq<(string, real)> {
    aps => Target(g, cells, aps)
  }

  lemma ScaleCommutes(p: real, k: real)
    ensures p * k == k * p
  {
  }

  /** Each parallel score is the prior times the cell's likelihood product. */
  lemma ParallelScoresScaled(g: Factors, d: seq<string>, fixed: seq<string>, prior: real)
    requires prior > 0.0
    ensures Normalize(Zip(d, ParallelScore(g, fixed, prior))) == Normalize(Zip(d, ProductScore(g, fixed)))
  {
    var a, b := Zip(d, ProductScore(g, fixed)), Zip(d, ParallelScore(g, fixed, prior));
    forall i | 0 <= i < |a| ensures b[i].1 == prior * a[i].1 {
      var x := Product(fixed, g(d[i]));
      assert a[i].1 == x;
      assert b[i].1 == x * prior;
      ScaleCommutes(x, prior);
    }
    NormalizeScaleInvariant(a, b, prior);
  }

  /** The parallel posterior is the target posterior of the fixed APs: the prior is a
      common factor that normalisation removes. */
  lemma ParallelIsTarget(g: Factors, cells: seq<string>, fixed: seq<string>)
    ensures ParallelFuse(g, cells, fixed) == Target(g, cells, fixed)
  {
    var prior := Prior(cells);
    var d := Dedup(cells);
    AssociateIsZipDedup(cells, ParallelScore(g, fixed, prior));
    var a, b := Zip(d, ProductScore(g, fixed)), Zip(d, ParallelScore(g, fixed, prior));
    assert ParallelFuse(g, cells, fixed) == Normalize(b);
    assert Target(g, cells, fixed) == Normalize(a);
    if |cells| > 0 {
      assert Normalize(b) == Normalize(a) by {
        ParallelScoresScaled(g, d, fixed, prior);
      }
    } else {
      assert d == [];
    }
  }

  /** With at least one cell and positive likelihoods, the target posterior is a
      distribution over the distinct cells, in their order, with no zero entry. */
  lemma TargetIsDistribution(g: Factors, cells: seq<string>, aps: seq<string>)
    requires Positive(g)
    requires |cells| > 0
    ensures var r := Target(g, cells, aps);
      && |r| == |Dedup(cells)|
      && (forall i :: 0 <= i < |r| ==> r[i].0 == Dedup(cells)[i] && 0.0 < r[i].1 <= 1.0)
      && SumValues(r) == 1.0
  {
    var d := Dedup(cells);
    assert cells[0] in d;
    var z := Zip(d, ProductScore(g, aps));
    forall i | 0 <= i < |z| ensures z[i].1 > 0.0 {
      ProductPositive(aps, g(d[i]));
    }
    NormalizeBounds(z);
    NormalizeSumsToOne(z);
  }

  /** The parallel posterior is a distribution over the distinct cells with no zero
      entry. */
  lemma ParallelIsDistribution(g: Factors, cells: seq<string>, fixed: seq<string>)
    requires Positive(g)
    requires |cells| > 0
    ensures var r := ParallelFuse(g, cells, fixed);
      && |r| == |Dedup(cells)|
      && (forall i :: 0 <= i < |r| ==> r[i].0 == Dedup(cells)[i] && 0.0 < r[i].1 <= 1.0)
      && SumValues(r) == 1.0
  {
    ParallelIsTarget(g, cells, fixed);
    TargetIsDistribution(g, cells, fixed);
  }

  /** The target posterior depends on the APs only as a multiset. */
  lemma TargetPermutation(g: Factors, cells: seq<string>, a1: seq<string>, a2: seq<string>)
    requires multiset(a1) == multiset(a2)
    ensures Target(g, cells, a1) == Target(g, cells, a2)
  {
    var d := Dedup(cells);
    var z1, z2 := Zip(d, ProductScore(g, a1)), Zip(d, ProductScore(g, a2));
    forall i | 0 <= i < |d| ensures z1[i] == z2[i] {
      ProductPermutation(a1, a2, g(d[i]));
    }
    assert z1 == z2;
  }

  /** The parallel posterior does not depend on the order of the fixed APs. */
  lemma ParallelOrderIndependent(g: Factors, cells: seq<string>, f1: seq<string>, f2: seq<string>)
    requires multiset(f1) == multiset(f2)
    ensures ParallelFuse(g, cells, f1) == ParallelFuse(g, cells, f2)
  {
    ParallelIsTarget(g, cells, f1);
    ParallelIsTarget(g, cells, f2);
    TargetPermutation(g, cells, f1, f2);
  }

  /** Two likelihood models that agree on the fixed APs give the same parallel
      posterior: only the fixed APs' likelihoods matter. */
  lemma ParallelDependsOnFixedOnly(g1: Factors, g2: Factors, cells: seq<string>, fixed: seq<string>)
    requires forall c, ap :: ap in fixed ==> g1(c)(ap) == g2(c)(ap)
    ensures ParallelFuse(g1, cells, fixed) == ParallelFuse(g2, cells, fixed)
  {
    ParallelIsTarget(g1, cells, fixed);
    ParallelIsTarget(g2, cells, fixed);
    SameScores(g1, g2, Dedup(cells), fixed);
  }

  lemma SameScores(g1: Factors, g2: Factors, d: seq<string>, fixed: seq<string>)
    requires forall c, ap :: ap in fixed ==> g1(c)(ap) == g2(c)(ap)
    ensures Zip(d, ProductScore(g1, fixed)) == Zip(d, ProductScore(g2, fixed))
  {
    var z1, z2 := Zip(d, ProductScore(g1, fixed)), Zip(d, ProductScore(g2, fixed));
    forall i | 0 <= i < |d| ensures z1[i] == z2[i] {
      forall k | 0 <= k < |fixed| ensures g1(d[i])(fixed[k]) == g2(d[i])(fixed[k]) {
        assert fixed[k] in fixed;
      }
      ProductCongruence(fixed, g1(d[i]), g2(d[i]));
    }
  }

  /** An AP whose likelihood is the same positive value in every cell does not change
      the parallel posterior: removing it from the fixed APs gives the same result. */
  lemma ParallelDropsConstantAp(g: Factors, cells: seq<string>, fixed: seq<string>, j: int, v: real)
    requires 0 <= j < |fixed| && v > 0.0
    requires forall c :: c in cells ==> g(c)(fixed[j]) == v
    ensures ParallelFuse(g, cells, fixed) == ParallelFuse(g, cells, fixed[..j] + fixed[j + 1..])
  {
    var rest := fixed[..j] + fixed[j + 1..];
    ParallelIsTarget(g, cells, fixed);
    ParallelIsTarget(g, cells, rest);
    ConstantApScaled(g, Dedup(cells), fixed, j, v);
  }

  /** The products with the AP are `v` times the products without it, so the two
      normalise alike. */
  lemma ConstantApScaled(g: Factors, d: seq<string>, fixed: seq<string>, j: int, v: real)
    requires 0 <= j < |fixed| && v > 0.0
    requires forall c :: c in d ==> g(c)(fixed[j]) == v
    ensures Normalize(Zip(d, ProductScore(g, fixed))) == Normalize(Zip(d, ProductScore(g, fixed[..j] + fixed[j + 1..])))
  {
    var rest := fixed[..j] + fixed[j + 1..];
    var a, b := Zip(d, ProductScore(g, rest)), Zip(d, ProductScore(g, fixed));
    forall i | 0 <= i < |a| ensures b[i].1 == v * a[i].1 {
      ProductRemoveAt(fixed, g(d[i]), j);
    }
    NormalizeScaleInvariant(a, b, v);
  }

  /** When every cell gives each fixed AP the same likelihood, the evidence does not
      discriminate and the parallel posterior is uniform over the distinct cells. */
  lemma ParallelUniformWhenUninformative(g: Factors, cells: seq<string>, fixed: seq<string>)
    requires Positive(g)
    requires |cells| > 0
    requires forall c, ap :: c in cells && ap in fixed ==> g(c)(ap) == g(cells[0])(ap)
    ensures var r := ParallelFuse(g, cells, fixed);
      |r| == |Dedup(cells)| && forall i :: 0 <= i < |r| ==> r[i].1 == 1.0 / |Dedup(cells)| as real
  {
    ParallelIsTarget(g, cells, fixed);
    var d := Dedup(cells);
    assert cells[0] in d;
    var v := Product(fixed, g(cells[0]));
    ProductPositive(fixed, g(cells[0]));
    UninformativeScores(g, d, fixed, cells[0]);
    NormalizeConstant(Zip(d, ProductScore(g, fixed)), v);
  }

  lemma UninformativeScores(g: Factors, d: seq<string>, fixed: seq<string>, c0: string)
    requires forall c, ap :: c in d && ap in fixed ==> g(c)(ap) == g(c0)(ap)
    ensures forall i :: 0 <= i < |d| ==> Zip(d, ProductScore(g, fixed))[i].1 == Product(fixed, g(c0))
  {
    forall i | 0 <= i < |d| ensures Zip(d, ProductScore(g, fixed))[i].1 == Product(fixed, g(c0)) {
      ProductCongruence(fixed, g(d[i]), g(c0));
    }
  }

  /** One serial step yields a distribution over the distinct cells, whatever the
      current posterior. */
  lemma SerialStepIsDistribution(g: Factors, cells: seq<string>, prior: real, cur: seq<(string, real)>, ap: string)
    requires |cells| > 0
    ensures var r := SerialStep(g, cells, prior, cur, ap);
      && |r| == |Dedup(cells)|
      && (forall i :: 0 <= i < |r| ==> r[i].0 == Dedup(cells)[i])
      && SumValues(r) == 1.0
  {
    var d := Dedup(cells);
    assert cells[0] in d;
    AssociateIsZipDedup(cells, SerialUpdate(g, ap, cur, prior));
    NormalizeSumsToOne(Zip(d, SerialUpdate(g, ap, cur, prior)));
  }

  /** The serial loop invariant: `cur` holds, for each cell of `d` in order, the cell's
      likelihood product over the APs `aps` processed so far, divided by a common `z`. */
  ghost predicate ScaledScores(g: Factors, d: seq<string>, aps: seq<string>, z: real, cur: seq<(string, real)>) {
    z > 0.0 && |cur| == |d| && forall i :: 0 <= i < |d| ==> cur[i].0 == d[i] && cur[i].1 == Product(aps, g(d[i])) / z
  }

  lemma StepArithmetic(b: real, t: real, f: real, z: real, p: real)
    requires z != 0.0
    requires b == f * (p / z) && t == p * f
    ensures b == (1.0 / z) * t
  {
  }

  /** A serial step from a posterior that is proportional to the products over `aps`
      gives the target posterior of `aps` extended by the new AP. */
  lemma SerialStepTarget(g: Factors, cells: seq<string>, prior: real, cur: seq<(string, real)>, aps: seq<string>, a: string, z: real)
    requires ScaledScores(g, Dedup(cells), aps, z, cur)
    ensures SerialStep(g, cells, prior, cur, a) == Target(g, cells, aps + [a])
  {
    var d := Dedup(cells);
    AssociateIsZipDedup(cells, SerialUpdate(g, a, cur, prior));
    assert Keys(cur) == d;
    forall i | 0 <= i < |d| ensures GetOrDefault(cur, d[i], prior) == Product(aps, g(d[i])) / z {
      CurrentEntry(g, d, prior, cur, aps, z, i);
    }
    StepScaled(g, d, prior, cur, aps, a, z);
  }

  lemma StepScaled(g: Factors, d: seq<string>, prior: real, cur: seq<(string, real)>, aps: seq<string>, a: string, z: real)
    requires z > 0.0
    requires forall i :: 0 <= i < |d| ==> GetOrDefault(cur, d[i], prior) == Product(aps, g(d[i])) / z
    ensures Normalize(Zip(d, SerialUpdate(g, a, cur, prior))) == Normalize(Zip(d, ProductScore(g, aps + [a])))
  {
    var b, t := Zip(d, SerialUpdate(g, a, cur, prior)), Zip(d, ProductScore(g, aps + [a]));
    forall i | 0 <= i < |d| ensures b[i].1 == (1.0 / z) * t[i].1 {
      StepEntry(g, d, prior, cur, aps, a, z, i);
    }
    NormalizeScaleInvariant(t, b, 1.0 / z);
  }

  lemma CurrentEntry(g: Factors, d: seq<string>, prior: real, cur: seq<(string, real)>, aps: seq<string>, z: real, i: int)
    requires Valid(cur)
    requires ScaledScores(g, d, aps, z, cur)
    requires 0 <= i < |d|
    ensures GetOrDefault(cur, d[i], prior) == Product(aps, g(d[i])) / z
  {
    assert cur[i].0 == d[i];
    GetOrDefaultAt(cur, i, prior);
  }

  lemma StepEntry(g: Factors, d: seq<string>, prior: real, cur: seq<(string, real)>, aps: seq<string>, a: string, z: real, i: int)
    requires z != 0.0
    requires 0 <= i < |d|
    requires GetOrDefault(cur, d[i], prior) == Product(aps, g(d[i])) / z
    ensures SerialUpdate(g, a, cur, prior)(d[i]) == (1.0 / z) * ProductScore(g, aps + [a])(d[i])
  {
    var c := d[i];
    SerialUpdateAt(g, a, cur, prior, c);
    ProductScoreSnoc(g, aps, a, c);
    StepArithmetic(SerialUpdate(g, a, cur, prior)(c), ProductScore(g, aps + [a])(c),
                   g(c)(a), z, Product(aps, g(c)));
  }

  lemma SerialUpdateAt(g: Factors, a: string, cur: seq<(string, real)>, prior: real, c: string)
    ensures SerialUpdate(g, a, cur, prior)(c) == g(c)(a) * GetOrDefault(cur, c, prior)
  {
  }

  lemma ProductScoreSnoc(g: Factors, aps: seq<string>, a: string, c: string)
    ensures ProductScore(g, aps + [a])(c) == Product(aps, g(c)) * g(c)(a)
  {
    ProductSnoc(aps, a, g(c));
  }

  /** The target posterior itself satisfies the loop invariant, divided by the sum of
      the products. */
  lemma TargetIsScaled(g: Factors, cells: seq<string>, aps: seq<string>) returns (s: real)
    requires Positive(g)
    requires |cells| > 0
    ensures s == SumValues(Zip(Dedup(cells), ProductScore(g, aps)))
    ensures ScaledScores(g, Dedup(cells), aps, s, Target(g, cells, aps))
  {
    var d := Dedup(cells);
    assert cells[0] in d;
    var z := Zip(d, ProductScore(g, aps));
    forall i | 0 <= i < |z| ensures z[i].1 > 0.0 {
      ProductPositive(aps, g(d[i]));
    }
    PositiveSum(z);
    s := SumValues(z);
  }

  /** From a target posterior, one serial step with `a` gives the target posterior with
      `a` appended. */
  lemma StepOfTarget(g: Factors, cells: seq<string>, prior: real)
    requires Positive(g)
    requires |cells| > 0
    ensures forall e, a :: StepWith(g, cells, prior)(TargetOf(g, cells)(e), a) == TargetOf(g, cells)(e + [a])
  {
    forall e, a ensures StepWith(g, cells, prior)(TargetOf(g, cells)(e), a) == TargetOf(g, cells)(e + [a]) {
      var s := TargetIsScaled(g, cells, e);
      SerialStepTarget(g, cells, prior, Target(g, cells, e), e, a, s);
    }
  }

  /** The serial loop from a target posterior stays on target posteriors: it ends in
      the target posterior of the APs processed before and during the loop. */
  lemma SerialFromTargetState(g: Factors, cells: seq<string>, prior: real, d: seq<string>, rest: seq<string>)
    requires Positive(g)
    requires |cells| > 0
    ensures SerialFrom(g, cells, prior, Target(g, cells, d), rest) == Target(g, cells, d + rest)
  {
    StepOfTarget(g, cells, prior);
    FoldInvariant(StepWith(g, cells, prior), TargetOf(g, cells), d, rest);
  }

  /** The serial loop from a posterior proportional to the products over `aps` ends in
      the target posterior of `aps` followed by the remaining order. */
  lemma SerialFromTarget(g: Factors, cells: seq<string>, prior: real, cur: seq<(string, real)>,
                         aps: seq<string>, rest: seq<string>, z: real)
    requires Positive(g)
    requires |cells| > 0
    requires ScaledScores(g, Dedup(cells), aps, z, cur)
    requires |rest| > 0
    ensures SerialFrom(g, cells, prior, cur, rest) == Target(g, cells, aps + rest)
  {
    SerialStepTarget(g, cells, prior, cur, aps, rest[0], z);
    StepOfTarget(g, cells, prior);
    FoldFrom(StepWith(g, cells, prior), TargetOf(g, cells), cur, aps, rest);
  }

  /** If every step yields `v`, a fold over a non-empty order ends in `v`. */
  lemma {:induction false} FoldConstant<S>(step: (S, string) -> S, v: S, cur: S, order: seq<string>)
    requires forall c, a :: step(c, a) == v
    requires |order| > 0
    ensures Fold(step, cur, order) == v
    decreases |order|
  {
    if |order| > 1 {
      FoldConstant(step, v, step(cur, order[0]), order[1..]);
    }
  }

  /** With no cells every serial step yields the empty map. */
  lemma SerialFromNoCells(g: Factors, prior: real, cur: seq<(string, real)>, order: seq<string>)
    requires |order| > 0
    ensures SerialFrom(g, [], prior, cur, order) == []
  {
    var step := StepWith(g, [], prior);
    forall c, a ensures step(c, a) == [] {
      assert Associate([], SerialUpdate(g, a, c, prior)) == [];
    }
    FoldConstant(step, [], cur, order);
  }

  /** The two strategies agree: the serial posterior over any processing order of the
      fixed APs equals the parallel posterior, provided there is at least one AP. */
  lemma SerialEqualsParallel(g: Factors, cells: seq<string>, order: seq<string>, fixed: seq<string>)
    requires Positive(g)
    requires multiset(order) == multiset(fixed)
    requires |fixed| > 0
    ensures SerialFuse(g, cells, order) == ParallelFuse(g, cells, fixed)
  {
    assert |order| == |multiset(order)| == |multiset(fixed)| == |fixed|;
    ParallelIsTarget(g, cells, fixed);
    if |cells| == 0 {
      SerialFromNoCells(g, Prior(cells), Associate(cells, Constant(Prior(cells))), order);
      assert Dedup(cells) == [];
    } else {
      var prior := Prior(cells);
      var d := Dedup(cells);
      var init := Associate(cells, Constant(prior));
      AssociateIsZipDedup(cells, Constant(prior));
      var n := |cells| as real;
      forall i | 0 <= i < |d| ensures init[i].0 == d[i] && init[i].1 == Product([], g(d[i])) / n {
      }
      SerialFromTarget(g, cells, prior, init, [], order, n);
      assert [] + order == order;
      TargetPermutation(g, cells, order, fixed);
    }
  }
}
