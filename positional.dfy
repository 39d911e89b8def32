/**
 * Unsigned integers written as big-endian digit strings in a base, defined once
 * and used for the byte form of integer headers (base 256) and for the hex form
 * of the authorization counter (base 16).
 */
module Positional {

  function Pow(base: nat, k: nat): nat
  {
    if k == 0 then 1 else base * Pow(base, k - 1)
  }

  /** The value of a big-endian digit string; the empty string is 0. */
  function FromDigits(ds: seq<nat>, base: nat): nat
  {
    if ds == [] then 0 else FromDigits(ds[..|ds| - 1], base) * base + ds[|ds| - 1]
  }

  /** Every digit is below the base. */
  predicate AllBelow(ds: seq<nat>, base: nat)
  {
    forall i :: 0 <= i < |ds| ==> ds[i] < base
  }

  /**
   * The shortest big-endian digit string of n: never empty, no leading zero
   * digit, the single digit 0 for zero, and its value is n.
   */
  function ToDigits(n: nat, base: nat): (ds: seq<nat>)
    requires base >= 2
    ensures 1 <= |ds| && AllBelow(ds, base)
    ensures ds[0] == 0 <==> n == 0
    ensures n == 0 ==> ds == [0]
    ensures FromDigits(ds, base) == n
    decreases n
  {
    if n < base then [n]
    else
      var q := n / base;
      var r := n % base;
      DivMod(n, base);
      DivShrinks(n, base);
      var init := ToDigits(q, base);
      AppendDigit(init, r, base);
      var ds := init + [r];
      assert ds[0] == init[0];
      ds
  }

  /** Appending a digit multiplies the value by the base and adds the digit. */
  lemma AppendDigit(ds: seq<nat>, d: nat, base: nat)
    requires AllBelow(ds, base) && d < base
    ensures AllBelow(ds + [d], base)
    ensures FromDigits(ds + [d], base) == FromDigits(ds, base) * base + d
  {
    assert (ds + [d])[..|ds|] == ds;
  }

  /** A digit string ToDigits can produce: non-empty, in range, no leading zero. */
  predicate Canonical(ds: seq<nat>, base: nat)
  {
    1 <= |ds| && AllBelow(ds, base) && (ds[0] == 0 ==> |ds| == 1)
  }

  lemma DivMod(n: nat, base: nat)
    requires base >= 1
    ensures (n / base) * base + n % base == n
    ensures n % base < base
    ensures n >= base ==> n / base >= 1
  {
  }

  lemma DivShrinks(n: nat, base: nat)
    requires base >= 2 && n >= 1
    ensures n / base < n
  {
    DivMod(n, base);
    MulMono(2, base, n / base);
  }

  /** Dividing by the base and multiplying the bound by it are the same test. */
  lemma DivBelow(n: nat, base: nat, p: nat)
    requires base >= 1
    ensures n / base < p <==> n < p * base
  {
    DivMod(n, base);
    if n / base < p {
      MulMono(n / base + 1, p, base);
    } else {
      MulMono(p, n / base, base);
    }
  }

  /** A value built from a quotient and a digit divides back into them. */
  lemma DivOfDigit(v: nat, base: nat, d: nat)
    requires d < base
    ensures (v * base + d) / base == v && (v * base + d) % base == d
  {
    var n := v * base + d;
    DivMod(n, base);
    var q := n / base;
    if q > v {
      MulMono(v + 1, q, base);
      assert false;
    } else if q < v {
      MulMono(q + 1, v, base);
      assert false;
    }
  }

  lemma MulMono(a: nat, b: nat, c: nat)
    requires a <= b
    ensures a * c <= b * c
  {
  }

  lemma PowPositive(base: nat, k: nat)
    requires base >= 1
    ensures Pow(base, k) >= 1
  {
    if k > 0 {
      PowPositive(base, k - 1);
      assert Pow(base, k) == base * Pow(base, k - 1);
    }
  }

  lemma {:induction false} PowMono(base: nat, j: nat, k: nat)
    requires base >= 1 && j <= k
    ensures Pow(base, j) <= Pow(base, k)
    decreases k
  {
    if j < k {
      PowMono(base, j, k - 1);
      PowPositive(base, k - 1);
      MulMono(1, base, Pow(base, k - 1));
    }
  }

  /** A digit string of length k stays below base^k. */
  lemma {:induction false} FromDigitsBound(ds: seq<nat>, base: nat)
    requires base >= 1 && AllBelow(ds, base)
    ensures FromDigits(ds, base) < Pow(base, |ds|)
  {
    if ds != [] {
      var init := ds[..|ds| - 1];
      var d := ds[|ds| - 1];
      FromDigitsBound(init, base);
      var v := FromDigits(init, base);
      var p := Pow(base, |init|);
      assert FromDigits(ds, base) == v * base + d;
      MulMono(v + 1, p, base);
      assert (v + 1) * base == v * base + base;
      assert Pow(base, |ds|) == base * p == p * base;
    }
  }

  /** A digit string whose first digit is non-zero has a positive value. */
  lemma {:induction false} LeadingDigitPositive(ds: seq<nat>, base: nat)
    requires base >= 1 && |ds| >= 1 && ds[0] != 0
    ensures FromDigits(ds, base) >= 1
  {
    if |ds| > 1 {
      var init := ds[..|ds| - 1];
      assert init[0] == ds[0];
      LeadingDigitPositive(init, base);
      var v := FromDigits(init, base);
      assert FromDigits(ds, base) == v * base + ds[|ds| - 1];
      MulMono(1, base, v);
    }
  }

  /** Canonical digit strings are exactly the ones ToDigits produces. */
  lemma {:induction false} ToFromDigits(ds: seq<nat>, base: nat)
    requires base >= 2 && Canonical(ds, base)
    ensures ToDigits(FromDigits(ds, base), base) == ds
  {
    if |ds| > 1 {
      var init := ds[..|ds| - 1];
      var d := ds[|ds| - 1];
      assert init[0] == ds[0];
      ToFromDigits(init, base);
      var v := FromDigits(init, base);
      LeadingDigitPositive(init, base);
      var n := v * base + d;
      assert FromDigits(ds, base) == n;
      MulMono(1, v, base);
      DivOfDigit(v, base, d);
      assert ToDigits(n, base) == ToDigits(v, base) + [d];
      assert init + [d] == ds;
    }
  }

  /**
   * ToDigits uses the fewest digits: n fits in k >= 1 digits exactly when n is
   * below base^k.
   */
  lemma {:induction false} ToDigitsLength(n: nat, base: nat, k: nat)
    requires base >= 2 && k >= 1
    ensures |ToDigits(n, base)| <= k <==> n < Pow(base, k)
    decreases n
  {
    var p := Pow(base, k - 1);
    PowPositive(base, k - 1);
    var pk := Pow(base, k);
    assert pk == base * p;
    MulMono(1, p, base);
    assert base <= pk;
    if n >= base {
      var q := n / base;
      DivMod(n, base);
      ToDigitsUnfold(n, base);
      if k > 1 {
        DivShrinks(n, base);
        ToDigitsLength(q, base, k - 1);
        DivBelow(n, base, p);
        assert p * base == pk;
      }
    }
  }

  lemma ToDigitsUnfold(n: nat, base: nat)
    requires base >= 2 && n >= base
    ensures |ToDigits(n, base)| == |ToDigits(n / base, base)| + 1
  {
  }
}
