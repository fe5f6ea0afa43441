/** The 64-bit arithmetic routines of loader/gcc_builtins.c for 32-bit targets. */
module LongDivision {
  import opened Arith
  import opened Buffers

  /** Significant bits: 64 less the leading zeros. */
  function BitLength(a: nat): nat {
    if a == 0 then 0 else 1 + BitLength(a / 2)
  }

  lemma {:induction false} BitLengthBound(a: nat, n: nat)
    requires a < Pow2(n)
    ensures BitLength(a) <= n && a < Pow2(BitLength(a))
  {
    if a != 0 {
      BitLengthBound(a / 2, n - 1);
    }
  }

  /** Bitwise or. */
  function Or(x: nat, y: nat): nat {
    if x == 0 && y == 0 then 0 else Max(x % 2, y % 2) + 2 * Or(x / 2, y / 2)
  }

  /** Or of numbers with no bits in common is their sum. */
  lemma {:induction false} OrDisjoint(x: nat, y: nat, bits: nat)
    requires x % Pow2(bits) == 0 && y < Pow2(bits)
    ensures Or(x, y) == x + y
    decreases bits
  {
    if x == 0 && y == 0 {
    } else if bits == 0 {
      OrZero(x);
    } else {
      var k := x / Pow2(bits);
      DivModRebuild(x, Pow2(bits));
      assert x == 2 * (k * Pow2(bits - 1)) by {
        MulAssoc(k, 2, Pow2(bits - 1));
        MulCommute(k, 2);
        MulAssoc(2, k, Pow2(bits - 1));
      }
      DivModUnique(x / 2, Pow2(bits - 1), k, 0);
      OrDisjoint(x / 2, y / 2, bits - 1);
    }
  }

  lemma {:induction false} OrZero(x: nat)
    ensures Or(x, 0) == x
  {
    if x != 0 { OrZero(x / 2); }
  }

  /** The loop at `bit`: the high bits of `a` are divided, and the quotient has only those bits. */
  ghost predicate Divided(a: nat, b: nat, bit: nat, q: nat, r: nat) {
    && r < b
    && q % Pow2(bit) == 0
    && a / Pow2(bit) == (q / Pow2(bit)) * b + r
  }

  /** The next bit of `a` comes into the remainder without leaving 64 bits. */
  lemma NextBit(a: nat, b: nat, bit: nat, q: nat, r: nat)
    requires a < TWO_64 && bit > 0 && Divided(a, b, bit, q, r)
    ensures 2 * r + a / Pow2(bit - 1) % 2 < TWO_64
    ensures a / Pow2(bit - 1) == 2 * (a / Pow2(bit)) + a / Pow2(bit - 1) % 2
  {
    var high := a / Pow2(bit - 1);
    DivDiv(a, Pow2(bit - 1), 2);
    assert high / 2 == a / Pow2(bit);
    assert r <= a / Pow2(bit) by { assert (q / Pow2(bit)) * b >= 0; }
    DivModRebuild(a, Pow2(bit - 1));
    MulMonotone(1, Pow2(bit - 1), high);
  }

  lemma NextQuotient(q: nat, bit: nat)
    requires bit > 0 && q % Pow2(bit) == 0
    ensures q % Pow2(bit - 1) == 0 && q / Pow2(bit - 1) == 2 * (q / Pow2(bit))
    ensures var q' := Or(q, Pow2(bit - 1)); q' % Pow2(bit - 1) == 0 && q' / Pow2(bit - 1) == 2 * (q / Pow2(bit)) + 1
  {
    var p, k := Pow2(bit - 1), q / Pow2(bit);
    DivModRebuild(q, Pow2(bit));
    assert q == 2 * k * p by { MulAssoc(k, 2, p); MulCommute(k, 2); }
    DivModUnique(q, p, 2 * k, 0);
    MulDistribute(2 * k, 1, p);
    OrDisjoint(q, p, bit);
    DivModUnique(q + p, p, 2 * k + 1, 0);
  }

  lemma LowBit(r: nat, d: nat)
    requires d < 2 && 2 * r + d < TWO_64
    ensures Or(r * 2 % TWO_64, d) == 2 * r + d
  {
    hide Or;
    assert Pow2(1) == 2;
    DivModUnique(r * 2, TWO_64, 0, r * 2);
    OrDisjoint(r * 2, d, 1);
  }

  /** One round of the loop. */
  lemma Round(a: nat, b: nat, bit: nat, q: nat, r: nat, r': nat)
    requires a < TWO_64 && bit > 0 && Divided(a, b, bit, q, r)
    requires r' == 2 * r + a / Pow2(bit - 1) % 2
    ensures if r' < b then Divided(a, b, bit - 1, q, r') else Divided(a, b, bit - 1, Or(q, Pow2(bit - 1)), r' - b)
  {
    hide Pow2, Or;
    NextBit(a, b, bit, q, r);
    NextQuotient(q, bit);
    var k := q / Pow2(bit);
    MulAssoc(2, k, b);
    MulDistribute(2 * k, 1, b);
  }

  /** `do_64bit_division`: long division bit by bit. */
  method Divide(a: nat, b: nat) returns (quotient: nat, remainder: nat)
    requires 0 < a < TWO_64 && 0 < b < TWO_64
    ensures a == quotient * b + remainder && remainder < b
  {
    hide Divided, Or, Pow2;
    quotient, remainder := 0, 0;
    var bit := BitLength(a);
    StartDivision(a, b);
    while bit > 0
      invariant Divided(a, b, bit, quotient, remainder)
    {
      NextBit(a, b, bit, quotient, remainder);
      bit := bit - 1;
      ghost var r := remainder;
      LowBit(remainder, a / Pow2(bit) % 2);
      remainder := Or(remainder * 2 % TWO_64, a / Pow2(bit) % 2);
      Round(a, b, bit + 1, quotient, r, remainder);
      if remainder >= b {
        remainder := remainder - b;
        quotient := Or(quotient, Pow2(bit));
      }
    }
    EndDivision(a, b, quotient, remainder);
  }

  lemma EndDivision(a: nat, b: nat, q: nat, r: nat)
    requires Divided(a, b, 0, q, r)
    ensures a == q * b + r && r < b
  {
  }

  lemma StartDivision(a: nat, b: nat)
    requires a < TWO_64 && b > 0
    ensures Divided(a, b, BitLength(a), 0, 0)
  {
    hide Pow2, BitLength;
    Pow2SixtyFour();
    BitLengthBound(a, 64);
    DivModUnique(a, Pow2(BitLength(a)), 0, a);
    DivModUnique(0, Pow2(BitLength(a)), 0, 0);
  }

  /** `__udivmoddi4`; `None` is the division-by-zero bug check, which zero by zero does not reach. */
  method UDivMod(a: nat, b: nat) returns (r: Option<(nat, nat)>)
    requires a < TWO_64 && b < TWO_64
    ensures b > 0 ==> r.Some? && a == r.value.0 * b + r.value.1 && r.value.1 < b
    ensures b == 0 ==> r == if a == 0 then Some((1, 0)) else None
  {
    if b > a {
      return Some((0, a));
    }
    if b == a {
      return Some((1, 0));
    }
    if b < TWO_32 {
      if b == 0 {
        return None;
      }
      if b == 1 {
        return Some((a, 0));
      }
      if a < TWO_32 {
        DivModRebuild(a, b);
        return Some((a / b, a % b));
      }
    }
    var q, m := Divide(a, b);
    r := Some((q, m));
  }

  /** `__ashldi3`: a 64-bit left shift made of shifts of 32-bit halves. */
  function ShiftLeft(a: nat, b: nat): nat
    requires a < TWO_64 && b < 64
  {
    var hi, lo := a / TWO_32, a % TWO_32;
    if b == 0 then a
    else if b >= 32 then Times(lo, Pow2(b - 32)) % TWO_32 * TWO_32
    else Or(Times(hi, Pow2(b)) % TWO_32, Quot(lo, Pow2(32 - b))) * TWO_32 + Times(lo, Pow2(b)) % TWO_32
  }

  lemma WordModulus(x: nat)
    ensures x * TWO_32 % TWO_64 == x % TWO_32 * TWO_32
  {
    DivModUnique(x * TWO_32, TWO_64, x / TWO_32, x % TWO_32 * TWO_32);
  }

  lemma ModTimes(x: nat, k: nat)
    ensures x % TWO_32 * k % TWO_32 == x * k % TWO_32
  {
    var q, r := x / TWO_32, x % TWO_32;
    DivModRebuild(r * k, TWO_32);
    var m := r * k / TWO_32;
    assert x * k == q * k * TWO_32 + r * k by {
      MulDistribute(q * TWO_32, r, k);
      MulAssoc(q, TWO_32, k);
      MulCommute(TWO_32, k);
      MulAssoc(q, k, TWO_32);
    }
    MulDistribute(q * k, m, TWO_32);
    DivModUnique(x * k, TWO_32, q * k + m, r * k % TWO_32);
  }

  /** It is the 64-bit shift, for every amount below 64. */
  lemma ShiftLeftIsShift(a: nat, b: nat)
    requires a < TWO_64 && b < 64
    ensures ShiftLeft(a, b) == a * Pow2(b) % TWO_64
  {
    if b >= 32 {
      ShiftHigh(a, b);
    } else if b > 0 {
      ShiftLow(a, b);
    }
  }

  lemma ShiftHigh(a: nat, b: nat)
    requires a < TWO_64 && 32 <= b < 64
    ensures ShiftLeft(a, b) == a * Pow2(b) % TWO_64
  {
    hide Pow2;
    Pow2ThirtyTwo();
    Pow2Add(b - 32, 32);
    MulAssoc(a, Pow2(b - 32), TWO_32);
    WordModulus(a * Pow2(b - 32));
    ModTimes(a, Pow2(b - 32));
  }

  /** Shifting the low half left by `b` carries its top `b` bits out. */
  lemma Carry(lo: nat, b: nat)
    requires lo < TWO_32 && 0 < b < 32
    ensures lo / Pow2(32 - b) < Pow2(b)
    ensures lo * Pow2(b) == lo / Pow2(32 - b) * TWO_32 + lo * Pow2(b) % TWO_32
  {
    hide Pow2;
    var p, s := Pow2(32 - b), Pow2(b);
    var c, m := lo / p, lo % p;
    Pow2ThirtyTwo();
    Pow2Add(32 - b, b);
    DivModRebuild(lo, p);
    if c >= s { MulMonotone(s, c, p); MulCommute(s, p); }
    MulDistribute(c * p, m, s);
    MulAssoc(c, p, s);
    assert m * s < TWO_32 by { MulMonotone(m + 1, p, s); MulDistribute(m, 1, s); }
    DivModUnique(lo * s, TWO_32, c, m * s);
  }

  /** The shifted high half leaves room for the carry. */
  lemma HighHalf(hi: nat, b: nat, c: nat)
    requires 0 < b < 32 && c < Pow2(b)
    ensures Or(hi * Pow2(b) % TWO_32, c) == (hi * Pow2(b) + c) % TWO_32
  {
    hide Pow2;
    var s, p := Pow2(b), Pow2(32 - b);
    Pow2ThirtyTwo();
    Pow2Add(32 - b, b);
    var q, m := hi / p, hi % p;
    DivModRebuild(hi, p);
    MulDistribute(q * p, m, s);
    MulAssoc(q, p, s);
    assert m * s + s <= TWO_32 by { MulMonotone(m + 1, p, s); MulDistribute(m, 1, s); }
    DivModUnique(hi * s, TWO_32, q, m * s);
    DivModUnique(hi * s + c, TWO_32, q, m * s + c);
    DivModUnique(m * s, s, m, 0);
    OrDisjoint(m * s, c, b);
  }

  lemma ShiftLow(a: nat, b: nat)
    requires a < TWO_64 && 0 < b < 32
    ensures ShiftLeft(a, b) == a * Pow2(b) % TWO_64
  {
    hide Pow2, Or;
    var hi, lo, s := a / TWO_32, a % TWO_32, Pow2(b);
    var c, l := lo / Pow2(32 - b), lo * s % TWO_32;
    Carry(lo, b);
    HighHalf(hi, b, c);
    assert a * s == (hi * s + c) * TWO_32 + l by {
      MulDistribute(hi * TWO_32, lo, s);
      MulAssoc(hi, TWO_32, s);
      MulCommute(TWO_32, s);
      MulAssoc(hi, s, TWO_32);
      MulDistribute(hi * s, c, TWO_32);
    }
    JoinHalves(hi * s + c, l);
  }

  lemma JoinHalves(x: nat, l: nat)
    requires l < TWO_32
    ensures (x * TWO_32 + l) % TWO_64 == x % TWO_32 * TWO_32 + l
  {
    DivModUnique(x * TWO_32 + l, TWO_64, x / TWO_32, x % TWO_32 * TWO_32 + l);
  }
}
