/** Powers of two and the division facts that address arithmetic needs. */
module Arith {
  datatype Option<+T> = None | Some(value: T)

  const PAGE_SHIFT: nat := 12
  const PAGE_SIZE: nat := 4096
  const TWO_32: nat := 0x1_0000_0000
  const TWO_64: nat := 0x1_0000_0000_0000_0000

  function Min(a: int, b: int): int {
    if a < b then a else b
  }

  function Max(a: int, b: int): int {
    if a > b then a else b
  }

  function Pow2(n: nat): (p: nat)
    ensures p > 0
  {
    if n == 0 then 1 else 2 * Pow2(n - 1)
  }

  function AlignDown(x: nat, unit: nat): nat
    requires unit > 0
  {
    x - x % unit
  }

  function AlignUp(x: nat, unit: nat): nat
    requires unit > 0
  {
    AlignDown(x + (unit - 1), unit)
  }

  lemma {:induction false} Pow2Add(a: nat, b: nat)
    ensures Pow2(a + b) == Pow2(a) * Pow2(b)
  {
    if b > 0 {
      Pow2Add(a, b - 1);
      assert Pow2(a + b) == 2 * Pow2(a + (b - 1));
      MulAssoc(2, Pow2(a), Pow2(b - 1));
      MulAssoc(Pow2(a), 2, Pow2(b - 1));
      MulCommute(2, Pow2(a));
    }
  }

  lemma {:induction false} Pow2Monotone(a: nat, b: nat)
    requires a <= b
    ensures Pow2(a) <= Pow2(b)
  {
    if a < b { Pow2Monotone(a, b - 1); }
  }

  lemma MulAssoc(a: int, b: int, c: int)
    ensures a * (b * c) == (a * b) * c
  {
  }

  lemma MulCommute(a: int, b: int)
    ensures a * b == b * a
  {
  }

  lemma MulDistribute(a: int, b: int, c: int)
    ensures (a + b) * c == a * c + b * c
  {
  }

  lemma MulMonotone(a: int, b: int, c: int)
    requires a <= b && c >= 0
    ensures a * c <= b * c
  {
  }

  /** The quotient and remainder are determined by their defining equation. */
  lemma DivModUnique(x: int, d: nat, q: int, r: int)
    requires d > 0
    requires x == q * d + r && 0 <= r < d
    ensures x / d == q && x % d == r
  {
    var q', r' := x / d, x % d;
    assert x == q' * d + r';
    MulDistribute(q', -q, d);
    assert (q' - q) * d == r - r';
    if q' > q {
      MulMonotone(1, q' - q, d);
      assert false;
    } else if q' < q {
      MulMonotone(1, q - q', d);
      assert false;
    }
  }

  lemma DivModRebuild(x: int, d: nat)
    requires d > 0
    ensures x == (x / d) * d + x % d && 0 <= x % d < d
  {
  }

  lemma DivLower(x: nat, d: nat, q: nat)
    requires d > 0
    requires q * d <= x
    ensures q <= x / d
  {
    DivModRebuild(x, d);
    if x / d < q {
      MulMonotone(x / d + 1, q, d);
      MulDistribute(x / d, 1, d);
      assert false;
    }
  }

  /** Adding whole units moves the quotient by that many and leaves the remainder. */
  lemma DivAddUnits(x: int, k: int, d: nat)
    requires d > 0
    ensures (x + k * d) / d == x / d + k
    ensures (x + k * d) % d == x % d
  {
    DivModRebuild(x, d);
    MulDistribute(x / d, k, d);
    DivModUnique(x + k * d, d, x / d + k, x % d);
  }

  lemma DivDiv(x: nat, a: nat, b: nat)
    requires a > 0 && b > 0
    ensures a * b > 0
    ensures (x / a) / b == x / (a * b)
    ensures x % (a * b) == (x / a) % b * a + x % a
  {
    var q := x / a;
    MulMonotone(1, b, a);
    MulCommute(a, b);
    DivModRebuild(x, a);
    DivModRebuild(q, b);
    var r := (q % b) * a + x % a;
    assert q * a == (q / b) * b * a + (q % b) * a by { MulDistribute((q / b) * b, q % b, a); }
    assert (q / b) * b * a == (q / b) * (a * b) by { MulAssoc(q / b, b, a); }
    assert r < a * b by {
      MulMonotone(q % b, b - 1, a);
      MulDistribute(b - 1, 1, a);
    }
    assert 0 <= (q % b) * a by { MulMonotone(0, q % b, a); }
    DivModUnique(x, a * b, q / b, r);
  }

  lemma DivPow2(x: nat, a: nat, b: nat)
    ensures x / Pow2(a + b) == (x / Pow2(a)) / Pow2(b)
    ensures x % Pow2(a + b) == (x / Pow2(a)) % Pow2(b) * Pow2(a) + x % Pow2(a)
  {
    Pow2Add(a, b);
    DivDiv(x, Pow2(a), Pow2(b));
  }

  /** A remainder by a larger power of two keeps the remainder by a smaller one. */
  lemma ModModPow2(x: nat, a: nat, b: nat)
    requires a <= b
    ensures (x % Pow2(b)) % Pow2(a) == x % Pow2(a)
    ensures (x % Pow2(b)) / Pow2(a) == (x / Pow2(a)) % Pow2(b - a)
  {
    DivPow2(x, a, b - a);
    var q := (x / Pow2(a)) % Pow2(b - a);
    DivModUnique(x % Pow2(b), Pow2(a), q, x % Pow2(a));
  }

  lemma Pow2Twelve()
    ensures Pow2(12) == PAGE_SIZE
  {
    assert Pow2(4) == 16;
    Pow2Add(4, 4);
    Pow2Add(8, 4);
  }

  lemma Pow2ThirtyTwo()
    ensures Pow2(32) == TWO_32
  {
    assert Pow2(4) == 16;
    hide Pow2;
    Pow2Twelve();
    Pow2Add(12, 4);
    Pow2Add(16, 16);
  }

  lemma Pow2SixtyFour()
    ensures Pow2(64) == TWO_64
  {
    hide Pow2;
    Pow2ThirtyTwo();
    Pow2Add(32, 32);
  }

  lemma AlignFacts(x: nat, unit: nat)
    requires unit > 0
    ensures AlignDown(x, unit) % unit == 0 && AlignDown(x, unit) <= x < AlignDown(x, unit) + unit
    ensures AlignUp(x, unit) % unit == 0 && x <= AlignUp(x, unit) < x + unit
    ensures x % unit == 0 ==> AlignUp(x, unit) == x && AlignDown(x, unit) == x
  {
    AlignedDown(x, unit);
    AlignedDown(x + (unit - 1), unit);
    if x % unit == 0 {
      DivModRebuild(x, unit);
      DivModUnique(x + (unit - 1), unit, x / unit, unit - 1);
    }
  }

  lemma AlignedDown(x: nat, unit: nat)
    requires unit > 0
    ensures AlignDown(x, unit) % unit == 0 && AlignDown(x, unit) <= x < AlignDown(x, unit) + unit
  {
    DivModRebuild(x, unit);
    DivModUnique(x - x % unit, unit, x / unit, 0);
  }

  /** Multiples of a unit that are less than a unit apart are equal. */
  lemma MultiplesApart(a: nat, b: nat, unit: nat)
    requires unit > 0 && a % unit == 0 && b % unit == 0 && a < b
    ensures a + unit <= b
  {
    DivModRebuild(a, unit);
    DivModRebuild(b, unit);
    if b < a + unit {
      DivModUnique(b, unit, a / unit, b - a);
      assert false;
    }
  }

  lemma MultiplesStep(x: nat, y: nat, unit: nat)
    requires unit > 0 && x % unit == 0 && y % unit == 0
    ensures x < y ==> x + unit <= y
    ensures y < x ==> y + unit <= x
  {
    if x < y { MultiplesApart(x, y, unit); }
    if y < x { MultiplesApart(y, x, unit); }
  }
}
