/** Bitwise operations on unbounded naturals, bit by bit. */
module Bits {
  import opened Bytes

  function And(a: nat, b: nat): (r: nat)
    ensures r <= a && r <= b
  {
    if a == 0 || b == 0 then 0 else (a % 2) * (b % 2) + 2 * And(a / 2, b / 2)
  }

  function Xor(a: nat, b: nat): nat
    decreases a + b
  {
    if a == 0 && b == 0 then 0 else (if a % 2 == b % 2 then 0 else 1) + 2 * Xor(a / 2, b / 2)
  }

  function Power2(k: nat): (p: nat)
    ensures p > 0
  {
    if k == 0 then 1 else 2 * Power2(k - 1)
  }

  lemma XorStep(a: nat, b: nat)
    ensures Xor(a, b) == (if a % 2 == b % 2 then 0 else 1) + 2 * Xor(a / 2, b / 2)
  {
  }

  lemma {:induction false} XorZero(a: nat)
    ensures Xor(a, 0) == a
  {
    if a > 0 {
      XorZero(a / 2);
    }
  }

  /** Bit i of a. */
  predicate Bit(a: nat, i: nat) {
    (a / Power2(i)) % 2 == 1
  }

  lemma BitShift(a: nat, i: nat)
    requires i > 0
    ensures Bit(a, i) <==> Bit(a / 2, i - 1)
  {
    DivHalf(a, Power2(i - 1));
  }

  lemma DivHalf(a: nat, p: nat)
    requires p > 0
    ensures (a / 2) / p == a / (2 * p)
  {
    var q, r := (a / 2) / p, (a / 2) % p;
    assert a / 2 == q * p + r;
    assert a == q * (2 * p) + (2 * r + a % 2);
    ModUnique(a, 2 * p, q, 2 * r + a % 2);
  }

  /** Both operations work bit by bit. */
  lemma {:induction false} BitwiseOperations(a: nat, b: nat, i: nat)
    ensures Bit(And(a, b), i) <==> Bit(a, i) && Bit(b, i)
    ensures Bit(Xor(a, b), i) <==> Bit(a, i) != Bit(b, i)
    decreases i
  {
    hide And; hide Xor;
    Halves(a, b);
    if i > 0 {
      BitShift(a, i);
      BitShift(b, i);
      BitShift(And(a, b), i);
      BitShift(Xor(a, b), i);
      BitwiseOperations(a / 2, b / 2, i - 1);
    } else {
      assert Power2(0) == 1;
    }
  }

  lemma AndStep(a: nat, b: nat)
    ensures And(a, b) == (if a % 2 == 1 && b % 2 == 1 then 1 else 0) + 2 * And(a / 2, b / 2)
  {
    if a % 2 == 0 {
    } else if b % 2 == 0 {
    } else {
      assert a % 2 == 1 && b % 2 == 1;
    }
  }

  lemma Halves(a: nat, b: nat)
    ensures And(a, b) / 2 == And(a / 2, b / 2) && And(a, b) % 2 == if a % 2 == 1 && b % 2 == 1 then 1 else 0
    ensures Xor(a, b) / 2 == Xor(a / 2, b / 2) && Xor(a, b) % 2 == if a % 2 == b % 2 then 0 else 1
  {
    hide And; hide Xor;
    AndStep(a, b);
    XorStep(a, b);
  }

  /** Xor with the same number twice is the identity. */
  lemma {:induction false} XorTwice(a: nat, b: nat)
    ensures Xor(Xor(a, b), b) == a
    decreases a + b
  {
    if a != 0 || b != 0 {
      XorTwiceStep(a, b, Xor(a, b));
      XorTwice(a / 2, b / 2);
    }
  }

  lemma XorTwiceStep(a: nat, b: nat, x: nat)
    requires x == Xor(a, b)
    ensures Xor(x, b) == a % 2 + 2 * Xor(Xor(a / 2, b / 2), b / 2)
  {
    hide Xor;
    XorStep(a, b);
    XorStep(x, b);
    var half := Xor(a / 2, b / 2);
    assert x / 2 == half && x % 2 == if a % 2 == b % 2 then 0 else 1;
  }

  lemma {:induction false} XorCommutes(a: nat, b: nat)
    ensures Xor(a, b) == Xor(b, a)
    decreases a + b
  {
    if a != 0 || b != 0 {
      XorCommutes(a / 2, b / 2);
    }
  }

  lemma {:induction false} XorBound(a: nat, b: nat, k: nat)
    requires a < Power2(k) && b < Power2(k)
    ensures Xor(a, b) < Power2(k)
    decreases k
  {
    if k > 0 {
      XorBound(a / 2, b / 2, k - 1);
    }
  }

  lemma AndOdd(a: nat, q: nat)
    ensures And(a, 2 * q + 1) == a % 2 + 2 * And(a / 2, q)
  {
    assert (2 * q + 1) / 2 == q && (2 * q + 1) % 2 == 1;
  }

  /** Masking with 2^k - 1 is the remainder modulo 2^k. */
  lemma {:induction false} AndMask(a: nat, k: nat)
    ensures And(a, Power2(k) - 1) == a % Power2(k)
    decreases k
  {
    hide And; hide Power2;
    if k == 0 {
      MaskNone(a);
    } else {
      Doubles(k);
      AndMask(a / 2, k - 1);
      AndMaskStep(a, Power2(k - 1));
    }
  }

  lemma MaskNone(a: nat)
    ensures Power2(0) == 1 && And(a, 0) == 0 == a % 1
  {
  }

  lemma Doubles(k: nat)
    requires k > 0
    ensures Power2(k) == 2 * Power2(k - 1)
  {
  }

  lemma AndMaskStep(a: nat, p: nat)
    requires p > 0 && And(a / 2, p - 1) == (a / 2) % p
    ensures And(a, 2 * p - 1) == a % (2 * p)
  {
    hide And;
    AndOdd(a, p - 1);
    ModTwice(a, p);
  }

  lemma ModTwice(a: nat, p: nat)
    requires p > 0
    ensures a % (2 * p) == a % 2 + 2 * ((a / 2) % p)
  {
    var q, r := (a / 2) / p, (a / 2) % p;
    assert a == q * (2 * p) + (2 * r + a % 2) by {
      assert a / 2 == q * p + r;
    }
    ModUnique(a, 2 * p, q, 2 * r + a % 2);
  }

  /** The test n & (n - 1) == 0 accepts exactly zero and the powers of two. */
  predicate IsPowerOfTwo(number: nat) {
    number == 0 || And(number, number - 1) == 0
  }

  ghost predicate IsPower(n: nat) {
    exists k: nat :: n == Power2(k)
  }

  lemma {:induction false} PowerOfTwoTest(n: nat)
    ensures IsPowerOfTwo(n) <==> n == 0 || IsPower(n)
  {
    hide IsPower;
    if n == 1 {
      PowerOne();
    } else if n > 1 && n % 2 == 1 {
      OddAnd(n);
      OddPower(n);
    } else if n > 0 {
      EvenAnd(n);
      EvenPower(n);
      PowerOfTwoTest(n / 2);
    }
  }

  lemma PowerOne()
    ensures IsPower(1)
  {
    assert Power2(0) == 1;
  }

  lemma OddPower(n: nat)
    requires n % 2 == 1 && n > 1
    ensures !IsPower(n)
  {
  }

  lemma EvenPower(n: nat)
    requires n % 2 == 0 && n > 0
    ensures IsPower(n) <==> IsPower(n / 2)
  {
    if IsPower(n / 2) {
      var k: nat :| n / 2 == Power2(k);
      assert n == Power2(k + 1);
    }
    if IsPower(n) {
      var k: nat :| n == Power2(k);
      assert k > 0 && n / 2 == Power2(k - 1);
    }
  }

  lemma OddAnd(n: nat)
    requires n % 2 == 1 && n > 1
    ensures And(n, n - 1) != 0
  {
    assert (n - 1) / 2 == n / 2;
    AndSelf(n / 2);
  }

  lemma EvenAnd(n: nat)
    requires n % 2 == 0 && n > 0
    ensures And(n, n - 1) == 2 * And(n / 2, n / 2 - 1)
  {
    assert (n - 1) / 2 == n / 2 - 1;
  }

  lemma {:induction false} AndSelf(n: nat)
    ensures And(n, n) == n
  {
    if n > 0 {
      AndSelf(n / 2);
    }
  }
}
