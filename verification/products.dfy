/** Products of real-valued factors taken over a sequence, with the facts the fusion
    proofs need: splitting, permutation invariance, congruence and bounds. */
module Products {

  /** The product of `f(x)` over the elements `x` of `s`, in sequence order. */
  function Product<T>(s: seq<T>, f: T -> real): real {
    if |s| == 0 then 1.0 else f(s[0]) * Product(s[1..], f)
  }

  /** The product over a concatenation is the product of the two products. */
  lemma {:induction false} ProductConcat<T>(s: seq<T>, t: seq<T>, f: T -> real)
    ensures Product(s + t, f) == Product(s, f) * Product(t, f)
  {
    if |s| == 0 {
      assert s + t == t;
    } else {
      assert (s + t)[1..] == s[1..] + t;
      ProductConcat(s[1..], t, f);
    }
  }

  /** Appending one element multiplies the product by its factor. */
  lemma ProductSnoc<T>(s: seq<T>, x: T, f: T -> real)
    ensures Product(s + [x], f) == Product(s, f) * f(x)
  {
    ProductConcat(s, [x], f);
    assert [x][1..] == [];
  }

  /** Any one factor can be pulled out of the product. */
  lemma {:induction false} ProductRemoveAt<T>(s: seq<T>, f: T -> real, j: int)
    requires 0 <= j < |s|
    ensures Product(s, f) == f(s[j]) * Product(s[..j] + s[j + 1..], f)
  {
    var pre, x, post := s[..j], s[j], s[j + 1..];
    var tail := [x] + post;
    assert s == pre + tail;
    assert tail[1..] == post;
    ProductConcat(pre, tail, f);
    ProductConcat(pre, post, f);
    var a, b, c := Product(pre, f), f(x), Product(post, f);
    assert Product(tail, f) == b * c;
    assert a * (b * c) == b * (a * c);
  }

  /** The product does not depend on the order in which the factors are taken. */
  lemma {:induction false} ProductPermutation<T>(s: seq<T>, t: seq<T>, f: T -> real)
    requires multiset(s) == multiset(t)
    ensures Product(s, f) == Product(t, f)
  {
    if |s| == 0 {
      assert |t| == |multiset(t)| == 0;
    } else {
      var j := RemoveFirstMatch(s, t);
      var t' := t[..j] + t[j + 1..];
      ProductPermutation(s[1..], t', f);
      ProductRemoveAt(t, f, j);
      var a, p, q := f(s[0]), Product(s[1..], f), Product(t', f);
      assert Product(s, f) == a * p;
      assert Product(t, f) == a * q;
    }
  }

  /** The position in `t` of the head of `s`, where `t` is a permutation of `s`; what is
      left of both after removing it is again a permutation. */
  lemma RemoveFirstMatch<T>(s: seq<T>, t: seq<T>) returns (j: int)
    requires |s| > 0
    requires multiset(s) == multiset(t)
    ensures 0 <= j < |t| && t[j] == s[0]
    ensures multiset(s[1..]) == multiset(t[..j] + t[j + 1..])
  {
    var x := s[0];
    assert x in multiset(t);
    j :| 0 <= j < |t| && t[j] == x;
    assert t == t[..j] + [x] + t[j + 1..];
    assert multiset(t) == multiset(t[..j]) + multiset{x} + multiset(t[j + 1..]);
    assert multiset(t[..j] + t[j + 1..]) == multiset(t[..j]) + multiset(t[j + 1..]);
    assert s == [x] + s[1..];
    assert multiset(s) == multiset{x} + multiset(s[1..]);
    calc {
      multiset(s[1..]);
      multiset(s) - multiset{x};
      multiset(t) - multiset{x};
      multiset(t[..j]) + multiset(t[j + 1..]);
    }
  }

  /** Two factor functions that agree on the elements give the same product. */
  lemma {:induction false} ProductCongruence<T>(s: seq<T>, f: T -> real, g: T -> real)
    requires forall i :: 0 <= i < |s| ==> f(s[i]) == g(s[i])
    ensures Product(s, f) == Product(s, g)
  {
    if |s| > 0 {
      ProductCongruence(s[1..], f, g);
    }
  }

  /** Factors in (0, 1] give a product in (0, 1]. */
  lemma {:induction false} ProductInUnitInterval<T>(s: seq<T>, f: T -> real)
    requires forall i :: 0 <= i < |s| ==> 0.0 < f(s[i]) <= 1.0
    ensures 0.0 < Product(s, f) <= 1.0
  {
    if |s| > 0 {
      ProductInUnitInterval(s[1..], f);
      var a, b := f(s[0]), Product(s[1..], f);
      assert 0.0 < a * b <= b by {
        assert a * b <= 1.0 * b;
      }
    }
  }

  /** Positive factors give a positive product. */
  lemma {:induction false} ProductPositive<T>(s: seq<T>, f: T -> real)
    requires forall i :: 0 <= i < |s| ==> f(s[i]) > 0.0
    ensures Product(s, f) > 0.0
  {
    if |s| > 0 {
      ProductPositive(s[1..], f);
      var a, b := f(s[0]), Product(s[1..], f);
      assert a * b > 0.0;
    }
  }
}
