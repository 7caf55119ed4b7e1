/** Products, quotients and remainders of variables. The solver is not left to reason about them: each
    step has a lemma, and proofs that use the lemmas hide the operations. */
module Modulo {
  function Times(a: int, b: int): int
  {
    a * b
  }

  function Quotient(i: nat, p: nat): nat
    requires p > 0
  {
    i / p
  }

  function Remainder(i: nat, p: nat): (r: nat)
    requires p > 0
    ensures r < p
  {
    i % p
  }

  lemma TimesAdd(a: int, b: int, c: int)
    ensures Times(a, b + c) == Times(a, b) + Times(a, c)
    ensures Times(b + c, a) == Times(b, a) + Times(c, a)
  {
  }

  lemma TimesCommutes(a: int, b: int)
    ensures Times(a, b) == Times(b, a)
  {
  }

  lemma TimesAssociates(a: int, b: int, c: int)
    ensures Times(a, Times(b, c)) == Times(Times(a, b), c)
  {
  }

  lemma TimesSmall(a: int)
    ensures Times(a, 0) == 0 && Times(a, 1) == Times(1, a) == a && Times(-1, a) == -a
  {
  }

  lemma TimesNonNegative(a: nat, b: nat)
    ensures Times(a, b) >= 0
  {
  }

  lemma TimesMonotone(a: int, m: int, b: nat)
    requires a <= m
    ensures Times(a, b) <= Times(m, b)
  {
    var d: nat := m - a;
    TimesAdd(b, a, d);
    TimesNonNegative(d, b);
  }

  lemma MulMonotone(a: nat, m: nat, b: nat)
    requires a <= m
    ensures a * b <= m * b
  {
    TimesMonotone(a, m, b);
  }

  lemma Divided(i: nat, p: nat)
    requires p > 0
    ensures i == Times(p, Quotient(i, p)) + Remainder(i, p)
  {
  }

  /** There is only one way to divide. */
  lemma DividedOnce(i: nat, p: nat, q: int, r: int)
    requires 0 <= r < p && i == Times(p, q) + r
    ensures Quotient(i, p) == q && Remainder(i, p) == r
  {
    hide *;
    var d := Quotient(i, p) - q;
    Divided(i, p);
    TimesAdd(p, q, d);
    TimesCommutes(p, d);
    TimesSmall(p);
    if d >= 1 {
      TimesMonotone(1, d, p);
    } else if d <= -1 {
      TimesMonotone(d, -1, p);
    }
  }

  lemma RemainderSmall(i: nat, p: nat)
    requires i < p
    ensures Remainder(i, p) == i
  {
    hide *;
    TimesSmall(p);
    DividedOnce(i, p, 0, i);
  }

  lemma RemainderOne(i: nat)
    ensures Remainder(i, 1) == 0
  {
  }

  /** One more binary digit of the remainder. */
  lemma RemainderTwice(i: nat, bit: nat)
    requires bit > 0
    ensures Remainder(i, 2 * bit) ==
            if Quotient(i, bit) % 2 == 1 then Remainder(i, bit) + bit else Remainder(i, bit)
  {
    hide *;
    var h, r := Quotient(i, bit), Remainder(i, bit);
    var g, o := h / 2, h % 2;
    Divided(i, bit);
    TimesAdd(bit, g + g, o);
    TimesAdd(bit, g, g);
    TimesAdd(g, bit, bit);
    TimesCommutes(bit, g);
    TimesCommutes(bit + bit, g);
    TimesSmall(bit);
    assert Times(2 * bit, g) == Times(bit, g) + Times(bit, g);
    DividedOnce(i, 2 * bit, g, if o == 1 then r + bit else r);
  }
}
