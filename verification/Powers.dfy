/** Integer powers and the few non-linear facts the arithmetic modules need. */
module Powers {
  function Pow(base: nat, e: nat): (p: nat)
    ensures base >= 1 ==> p >= 1
  {
    if e == 0 then 1 else base * Pow(base, e - 1)
  }

  lemma PowUnfold(base: nat, e: nat)
    ensures Pow(base, e + 1) == base * Pow(base, e)
  {
  }

  function Abs(x: int): nat {
    if x < 0 then -x else x
  }

  lemma {:induction false} PowMonotonic(base: nat, a: nat, b: nat)
    requires base >= 1 && a <= b
    ensures Pow(base, a) <= Pow(base, b)
    decreases b
  {
    if a < b {
      PowMonotonic(base, a, b - 1);
    }
  }

  lemma {:induction false} PowAdds(base: nat, a: nat, b: nat)
    ensures Pow(base, a + b) == Pow(base, a) * Pow(base, b)
    decreases a
  {
    if a > 0 {
      PowAdds(base, a - 1, b);
      assert Pow(base, a + b) == base * Pow(base, a + b - 1);
      MulAssoc(base, Pow(base, a - 1), Pow(base, b));
    }
  }

  lemma MulAssoc(a: int, b: int, c: int)
    ensures a * (b * c) == (a * b) * c
  {
  }

  lemma MulMonotonic(a: int, b: int, c: int)
    requires a <= b && c >= 0
    ensures a * c <= b * c
  {
  }

  lemma {:induction false} PowByteIsPowTwo(n: nat)
    ensures Pow(0x100, n) == Pow(2, 8 * n)
  {
    if n > 0 {
      PowByteIsPowTwo(n - 1);
      PowAdds(2, 8, 8 * n - 8);
      assert Pow(2, 8) == 0x100 by {
        assert Pow(2, 4) == 16;
        PowAdds(2, 4, 4);
      }
    }
  }
}
