/** A normal form of decimal text: two numbers are equal exactly when their normal forms are. */
module NumberParts {
  import opened Wire
  import opened Powers

  type Digits = seq<nat>

  predicate AllDigits(ds: Digits) {
    forall i :: 0 <= i < |ds| ==> ds[i] < 10
  }

  /** Decimal text taken apart: sign, digits before and after the point, exponent. */
  datatype Number = Number(negative: bool, whole: Digits, fraction: Digits, exponent: int)

  /** Digits without outer zeros; zero is no digits at all. */
  datatype Parts = Parts(negative: bool, digits: Digits, exponent: int)

  const MIN64: int := -0x8000_0000_0000_0000
  const MAX64: int := 0x7fff_ffff_ffff_ffff

  function TrimLeft(ds: Digits): (r: Digits)
    ensures |r| <= |ds| && r == ds[|ds| - |r|..] && (r != [] ==> r[0] != 0)
    ensures forall i :: 0 <= i < |ds| - |r| ==> ds[i] == 0
  {
    if ds != [] && ds[0] == 0 then
      var r := TrimLeft(ds[1..]);
      assert r == ds[|ds| - |r|..];
      r
    else ds
  }

  function TrimRight(ds: Digits): (r: Digits)
    ensures |r| <= |ds| && r == ds[..|r|] && (r != [] ==> r[|r| - 1] != 0)
    ensures forall i :: |r| <= i < |ds| ==> ds[i] == 0
  {
    if ds != [] && ds[|ds| - 1] == 0 then TrimRight(ds[..|ds| - 1]) else ds
  }

  /** The normal form, unless an exponent leaves the machine's range. */
  function PropertyNumberParts(t: Number): Option<Parts> {
    if t.exponent < MIN64 || t.exponent > MAX64 then None
    else if t.exponent < MIN64 + |t.fraction| then None
    else
      var text := TrimLeft(t.whole + t.fraction);
      if text == [] then Some(Parts(false, [], 0))
      else
        var digits := TrimRight(text);
        var zeros := |text| - |digits|;
        var exponent := t.exponent - |t.fraction|;
        if exponent > MAX64 - zeros then None
        else Some(Parts(t.negative, digits, exponent + zeros))
  }

  // --- values ---

  function Val(ds: Digits): nat {
    if ds == [] then 0 else 10 * Val(ds[..|ds| - 1]) + ds[|ds| - 1]
  }

  function Mantissa(negative: bool, ds: Digits): int {
    if negative then -(Val(ds) as int) else Val(ds)
  }

  /** m * 10^e == n * 10^f, without negative powers. */
  predicate Equal(m: int, e: int, n: int, f: int) {
    if e >= f then m * Pow(10, e - f) == n else m == n * Pow(10, f - e)
  }

  predicate SameNumber(a: Number, b: Number) {
    Equal(Mantissa(a.negative, a.whole + a.fraction), a.exponent - |a.fraction|,
          Mantissa(b.negative, b.whole + b.fraction), b.exponent - |b.fraction|)
  }

  lemma {:induction false} ValShift(ds: Digits, k: nat)
    requires k <= |ds| && forall i :: k <= i < |ds| ==> ds[i] == 0
    ensures Val(ds) == Val(ds[..k]) * Pow(10, |ds| - k)
    decreases |ds|
  {
    if k == |ds| {
      assert ds[..k] == ds;
    } else {
      var init := ds[..|ds| - 1];
      assert init[..k] == ds[..k];
      ValShift(init, k);
      PowUnfold(10, |ds| - k);
      assert 10 * (Val(ds[..k]) * Pow(10, |ds| - k - 1)) == Val(ds[..k]) * (10 * Pow(10, |ds| - k - 1));
    }
  }

  lemma {:induction false} ValTrimmed(ds: Digits, k: nat)
    requires k <= |ds| && forall i :: 0 <= i < k ==> ds[i] == 0
    ensures Val(ds[k..]) == Val(ds)
    decreases |ds|
  {
    if k < |ds| {
      assert ds[k..][..|ds| - k - 1] == ds[..|ds| - 1][k..];
      ValTrimmed(ds[..|ds| - 1], k);
    } else if k > 0 {
      assert ds[..|ds| - 1][k - 1..] == [];
      ValTrimmed(ds[..|ds| - 1], k - 1);
    }
  }

  lemma {:induction false} ValPositive(ds: Digits)
    requires ds != [] && ds[0] != 0
    ensures Val(ds) > 0
    decreases |ds|
  {
    if |ds| > 1 {
      ValPositive(ds[..|ds| - 1]);
    }
  }

  /** Digits without a leading zero are determined by their value. */
  lemma {:induction false} ValInjective(a: Digits, b: Digits)
    requires AllDigits(a) && AllDigits(b) && (a != [] ==> a[0] != 0) && (b != [] ==> b[0] != 0)
    requires Val(a) == Val(b)
    ensures a == b
    decreases |a|
  {
    if a == [] {
      if b != [] { ValPositive(b); }
    } else if b == [] {
      ValPositive(a);
    } else {
      var x, y := a[..|a| - 1], b[..|b| - 1];
      assert a[|a| - 1] == b[|b| - 1] && Val(x) == Val(y);
      ValInjective(x, y);
      assert a == x + [a[|a| - 1]] && b == y + [b[|b| - 1]];
    }
  }

  // --- the normal form keeps the value and is unique ---

  lemma Apart(a: int, b: int, k: nat)
    requires k >= 1
    ensures a < b ==> a * k < b * k
  {
    if a < b {
      MulMonotonic(a + 1, b, k);
      assert (a + 1) * k == a * k + k;
    }
  }

  lemma Cancel(a: int, b: int, k: nat)
    requires k >= 1
    ensures a * k == b * k <==> a == b
  {
    Apart(a, b, k);
    Apart(b, a, k);
  }

  lemma EqualSymmetric(m: int, e: int, n: int, f: int)
    ensures Equal(m, e, n, f) <==> Equal(n, f, m, e)
  {
    assert Pow(10, 0) == 1;
  }

  /** Trailing zeros can be moved into the exponent. */
  lemma EqualScale(m: int, e: int, z: nat, n: int, f: int, p: int, g: int)
    requires m == n * Pow(10, z) && f == e + z
    ensures Equal(m, e, p, g) <==> Equal(n, f, p, g)
  {
    if e >= g {
      PowAdds(10, z, e - g);
      MulAssoc(n, Pow(10, z), Pow(10, e - g));
    } else if f >= g {
      PowAdds(10, f - g, g - e);
      MulAssoc(n, Pow(10, f - g), Pow(10, g - e));
      Cancel(n * Pow(10, f - g), p, Pow(10, g - e));
    } else {
      PowAdds(10, g - f, z);
      MulAssoc(p, Pow(10, g - f), Pow(10, z));
      Cancel(n, p * Pow(10, g - f), Pow(10, z));
    }
  }

  ghost predicate Normal(p: Parts) {
    && AllDigits(p.digits)
    && (p.digits == [] ==> !p.negative && p.exponent == 0)
    && (p.digits != [] ==> p.digits[0] != 0 && p.digits[|p.digits| - 1] != 0)
  }

  lemma LastDigit(p: Parts)
    requires Normal(p) && p.digits != []
    ensures Mantissa(p.negative, p.digits) % 10 != 0
  {
    var d := p.digits[|p.digits| - 1];
    assert Val(p.digits) == 10 * Val(p.digits[..|p.digits| - 1]) + d;
  }

  lemma TimesTen(n: int, k: nat)
    requires k > 0
    ensures (n * Pow(10, k)) % 10 == 0
  {
    hide Pow;
    PowUnfold(10, k - 1);
    var x := Pow(10, k - 1);
    MulAssoc(n, 10, x);
    MulAssoc(10, n, x);
    TenFold(n * x);
  }

  lemma TenFold(x: int)
    ensures (10 * x) % 10 == 0
  {
  }

  /** Equal normal numbers are identical. */
  lemma NormalUnique(p: Parts, q: Parts)
    requires Normal(p) && Normal(q)
    ensures Equal(Mantissa(p.negative, p.digits), p.exponent, Mantissa(q.negative, q.digits), q.exponent) <==> p == q
  {
    var m, n := Mantissa(p.negative, p.digits), Mantissa(q.negative, q.digits);
    assert Pow(10, 0) == 1;
    if Equal(m, p.exponent, n, q.exponent) {
      if p.digits == [] || q.digits == [] {
        ZeroOnly(p, q);
      } else {
        LastDigit(p);
        LastDigit(q);
        if p.exponent > q.exponent {
          TimesTen(m, p.exponent - q.exponent);
        } else if p.exponent < q.exponent {
          TimesTen(n, q.exponent - p.exponent);
        }
        assert p.exponent == q.exponent && m == n;
        ValPositive(p.digits);
        ValPositive(q.digits);
        ValInjective(p.digits, q.digits);
      }
    }
  }

  lemma ZeroOnly(p: Parts, q: Parts)
    requires Normal(p) && Normal(q) && (p.digits == [] || q.digits == [])
    requires Equal(Mantissa(p.negative, p.digits), p.exponent, Mantissa(q.negative, q.digits), q.exponent)
    ensures p == q
  {
    var m, n := Mantissa(p.negative, p.digits), Mantissa(q.negative, q.digits);
    if p.exponent >= q.exponent {
      Cancel(m, 0, Pow(10, p.exponent - q.exponent));
    } else {
      Cancel(n, 0, Pow(10, q.exponent - p.exponent));
    }
    if p.digits != [] { ValPositive(p.digits); }
    if q.digits != [] { ValPositive(q.digits); }
  }

  lemma PartsNormal(t: Number)
    requires AllDigits(t.whole) && AllDigits(t.fraction) && PropertyNumberParts(t).Some?
    ensures Normal(PropertyNumberParts(t).value)
  {
    hide TrimLeft, TrimRight;
    var all := t.whole + t.fraction;
    assert AllDigits(all);
    var text := TrimLeft(all);
    assert AllDigits(text) && AllDigits(TrimRight(text));
    NothingToTrim();
  }

  lemma NothingToTrim()
    ensures TrimRight([]) == []
  {
  }

  /** The normal form denotes the number it came from. */
  lemma PartsValue(t: Number, n: int, f: int)
    requires PropertyNumberParts(t).Some?
    ensures var p := PropertyNumberParts(t).value;
            Equal(Mantissa(t.negative, t.whole + t.fraction), t.exponent - |t.fraction|, n, f)
            <==> Equal(Mantissa(p.negative, p.digits), p.exponent, n, f)
  {
    hide Equal, Pow, Val, TrimLeft, TrimRight;
    var all := t.whole + t.fraction;
    var text := TrimLeft(all);
    TrimValue(all);
    assert Val([]) == 0 by { NoDigits(); }
    if text == [] {
      ZeroScale(t.exponent - |t.fraction|, n, f);
    } else {
      var digits := TrimRight(text);
      var z := |text| - |digits|;
      MantissaScale(t.negative, all, digits, z);
      EqualScale(Mantissa(t.negative, all), t.exponent - |t.fraction|, z, Mantissa(t.negative, digits),
                 t.exponent - |t.fraction| + z, n, f);
    }
  }

  lemma NoDigits()
    ensures Val([]) == 0
  {
  }

  /** Trimming zeros on both sides only scales the value. */
  lemma TrimValue(ds: Digits)
    ensures TrimLeft(ds) == [] ==> Val(ds) == 0
    ensures var text := TrimLeft(ds);
            Val(ds) == Val(TrimRight(text)) * Pow(10, |text| - |TrimRight(text)|)
  {
    hide Val, Pow, TrimLeft, TrimRight;
    var text := TrimLeft(ds);
    var digits := TrimRight(text);
    ValTrimmed(ds, |ds| - |text|);
    ValShift(text, |digits|);
    NoDigits();
  }

  lemma MantissaScale(negative: bool, a: Digits, b: Digits, z: nat)
    requires Val(a) == Val(b) * Pow(10, z)
    ensures Mantissa(negative, a) == Mantissa(negative, b) * Pow(10, z)
  {
    hide Val, Pow;
    Negate(Val(b), Pow(10, z));
  }

  lemma Negate(a: int, b: int)
    ensures (-a) * b == -(a * b)
  {
  }

  lemma ZeroScale(e: int, n: int, f: int)
    ensures Equal(0, e, n, f) <==> Equal(0, 0, n, f)
  {
    if e < f { Cancel(n, 0, Pow(10, f - e)); }
    if 0 < f { Cancel(n, 0, Pow(10, f)); }
  }

  /** Two numbers have the same normal form exactly when they are equal. */
  lemma PartsDecideEquality(a: Number, b: Number)
    requires AllDigits(a.whole) && AllDigits(a.fraction) && AllDigits(b.whole) && AllDigits(b.fraction)
    requires PropertyNumberParts(a).Some? && PropertyNumberParts(b).Some?
    ensures PropertyNumberParts(a) == PropertyNumberParts(b) <==> SameNumber(a, b)
  {
    hide PropertyNumberParts, Equal, Normal, Mantissa, Pow, Val, TrimLeft, TrimRight;
    var p, q := PropertyNumberParts(a).value, PropertyNumberParts(b).value;
    PartsNormal(a);
    PartsNormal(b);
    NormalUnique(p, q);
    var n, f := Mantissa(b.negative, b.whole + b.fraction), b.exponent - |b.fraction|;
    PartsValue(a, n, f);
    EqualSymmetric(Mantissa(p.negative, p.digits), p.exponent, n, f);
    PartsValue(b, Mantissa(p.negative, p.digits), p.exponent);
    EqualSymmetric(Mantissa(q.negative, q.digits), q.exponent, Mantissa(p.negative, p.digits), p.exponent);
  }
}
