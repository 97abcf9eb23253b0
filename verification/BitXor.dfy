/** Exclusive or on unbounded naturals, bit by bit. */
module BitXor {

  function Xor(a: nat, b: nat): (r: nat)
    decreases a + b
  {
    if a == 0 && b == 0 then 0
    else 2 * Xor(a / 2, b / 2) + (if a % 2 == b % 2 then 0 else 1)
  }

  function Pow2(k: nat): (p: nat)
    ensures p > 0
  {
    if k == 0 then 1 else 2 * Pow2(k - 1)
  }

  lemma Powers()
    ensures Pow2(8) == 256 && Pow2(15) == 0x8000 && Pow2(16) == 0x1_0000
  {
    assert Pow2(4) == 16;
    assert Pow2(8) == 256;
    assert Pow2(12) == 4096;
    assert Pow2(15) == 0x8000;
  }

  /** The number of one bits, modulo two. */
  function Odd(a: nat): bool {
    if a == 0 then false else (a % 2 == 1) != Odd(a / 2)
  }

  lemma {:induction false} Zero(a: nat)
    ensures Xor(a, 0) == a && Xor(0, a) == a
  {
    if a > 0 {
      Zero(a / 2);
    }
  }

  lemma {:induction false} Cancel(a: nat, b: nat)
    ensures Xor(a, b) == 0 <==> a == b
    decreases a + b
  {
    if a + b > 0 {
      Cancel(a / 2, b / 2);
    }
  }

  lemma {:induction false} Commutes(a: nat, b: nat)
    ensures Xor(a, b) == Xor(b, a)
    decreases a + b
  {
    if a + b > 0 {
      Commutes(a / 2, b / 2);
    }
  }

  lemma {:induction false} Associates(a: nat, b: nat, c: nat)
    ensures Xor(Xor(a, b), c) == Xor(a, Xor(b, c))
    decreases a + b + c
  {
    if a + b + c > 0 {
      Associates(a / 2, b / 2, c / 2);
      Halves(a, b);
      Halves(b, c);
      Halves(Xor(a, b), c);
      Halves(a, Xor(b, c));
    }
  }

  lemma Halves(a: nat, b: nat)
    ensures Xor(a, b) == 2 * Xor(a / 2, b / 2) + (if a % 2 == b % 2 then 0 else 1)
    ensures Xor(a, b) / 2 == Xor(a / 2, b / 2)
    ensures Xor(a, b) % 2 == (if a % 2 == b % 2 then 0 else 1)
  {
  }

  /** (a ^ b) ^ (c ^ d) regrouped. */
  lemma Exchange(a: nat, b: nat, c: nat, d: nat)
    ensures Xor(Xor(a, b), Xor(c, d)) == Xor(Xor(a, c), Xor(b, d))
  {
    hide Xor;
    Associates(a, b, Xor(c, d));
    Associates(b, c, d);
    Commutes(b, c);
    Associates(c, b, d);
    Associates(a, c, Xor(b, d));
  }

  /** High and low parts do not interact. */
  lemma {:induction false} Split(k: nat, x: nat, y: nat, l: nat, m: nat)
    requires l < Pow2(k) && m < Pow2(k)
    ensures Xor(x * Pow2(k) + l, y * Pow2(k) + m) == Xor(x, y) * Pow2(k) + Xor(l, m)
    ensures Xor(l, m) < Pow2(k)
  {
    hide Xor;
    if k == 0 {
      Cancel(0, 0);
    } else {
      var q := Pow2(k - 1);
      Split(k - 1, x, y, l / 2, m / 2);
      TwiceProduct(x, q);
      TwiceProduct(y, q);
      TwiceProduct(Xor(x, y), q);
      SplitStep(x * q, y * q, Xor(x, y) * q, l, m);
    }
  }

  lemma TwiceProduct(x: nat, q: nat)
    ensures x * (2 * q) == 2 * (x * q) >= 0
  {
  }

  lemma SplitStep(x: nat, y: nat, r: nat, l: nat, m: nat)
    requires Xor(x + l / 2, y + m / 2) == r + Xor(l / 2, m / 2)
    ensures Xor(2 * x + l, 2 * y + m) == 2 * r + Xor(l, m)
    ensures Xor(l, m) <= 2 * Xor(l / 2, m / 2) + 1
  {
    hide Xor;
    Halves(2 * x + l, 2 * y + m);
    Halves(l, m);
    assert (2 * x + l) / 2 == x + l / 2 && (2 * y + m) / 2 == y + m / 2;
  }

  lemma {:induction false} OddXor(a: nat, b: nat)
    ensures Odd(Xor(a, b)) == (Odd(a) != Odd(b))
    decreases a + b
  {
    if a + b > 0 {
      OddXor(a / 2, b / 2);
      Halves(a, b);
    }
  }
}
