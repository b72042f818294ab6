/**
 * Bitwise operators on unsigned integers, written as arithmetic so that
 * they can be mixed freely with `/` and `%`: `x >> k` is `x / Pow2(k)`,
 * `x & (2^k - 1)` is `x % Pow2(k)`, `x << k` is `x * Pow2(k)` (truncated by
 * the caller to the machine width), and `x ^ y` is `Xor(x, y)`.
 */
module Bits {
  function Pow2(k: nat): (r: nat)
    ensures r >= 1
  {
    if k == 0 then 1 else 2 * Pow2(k - 1)
  }

  lemma {:induction false} Pow2Add(j: nat, k: nat)
    ensures Pow2(j + k) == Pow2(j) * Pow2(k)
  {
    if k > 0 {
      Pow2Add(j, k - 1);
      assert Pow2(j + k) == 2 * Pow2(j + k - 1);
    }
  }

  lemma {:induction false} Pow2Monotone(j: nat, k: nat)
    requires j <= k
    ensures Pow2(j) <= Pow2(k)
  {
    if j < k {
      Pow2Monotone(j, k - 1);
    }
  }

  /** Bitwise exclusive or, one bit at a time from the lowest. */
  function Xor(x: nat, y: nat): nat
    decreases x + y
  {
    if x == 0 then y
    else if y == 0 then x
    else 2 * Xor(x / 2, y / 2) + (x % 2 + y % 2) % 2
  }

  /** The lowest bit of `x ^ y` is the exclusive or of the lowest bits, and the rest shift down. */
  lemma XorStep(x: nat, y: nat)
    ensures Xor(x, y) % 2 == (x % 2 + y % 2) % 2 && Xor(x, y) / 2 == Xor(x / 2, y / 2)
  {
    if x == 0 {
      assert Xor(x / 2, y / 2) == y / 2;
    } else if y == 0 {
      assert Xor(x / 2, y / 2) == x / 2;
    } else {
      Halves(Xor(x / 2, y / 2), (x % 2 + y % 2) % 2);
    }
  }

  /** `2 * h + b` with `b` a bit has lowest bit `b` and halves to `h`. */
  lemma Halves(h: nat, b: nat)
    requires b < 2
    ensures (2 * h + b) % 2 == b && (2 * h + b) / 2 == h
  {
  }

  /** One step of `Xor`, for evaluating it on given numbers. */
  lemma XorUnfold(x: nat, y: nat, half: nat)
    requires x > 0 && y > 0 && Xor(x / 2, y / 2) == half
    ensures Xor(x, y) == 2 * half + (x % 2 + y % 2) % 2
  {
  }

  /** Exclusive or of two numbers below `2^n` stays below `2^n`. */
  lemma {:induction false} XorBound(x: nat, y: nat, n: nat)
    requires x < Pow2(n) && y < Pow2(n)
    ensures Xor(x, y) < Pow2(n)
    decreases n
  {
    if x != 0 && y != 0 {
      assert n > 0;
      XorBound(x / 2, y / 2, n - 1);
    }
  }

  lemma {:induction false} XorCommutes(x: nat, y: nat)
    ensures Xor(x, y) == Xor(y, x)
    decreases x + y
  {
    if x != 0 && y != 0 {
      XorCommutes(x / 2, y / 2);
    }
  }

  /** `x ^ x == 0` and `x ^ 0 == x`. */
  lemma {:induction false} XorSelf(x: nat)
    ensures Xor(x, x) == 0 && Xor(x, 0) == x
    decreases x
  {
    if x != 0 {
      XorSelf(x / 2);
    }
  }

  /** Two numbers with the same lowest bit and the same higher bits are equal. */
  lemma SameBits(l: nat, r: nat)
    requires l / 2 == r / 2 && l % 2 == r % 2
    ensures l == r
  {
  }

  /** `x ^ y` is odd exactly when one of `x` and `y` is odd. */
  lemma XorOdd(x: nat, y: nat)
    ensures (Xor(x, y) % 2 == 1) == ((x % 2 == 1) != (y % 2 == 1))
  {
    XorStep(x, y);
  }

  /** Both groupings of a three-way exclusive or have the same lowest bit. */
  lemma XorLowBits(x: nat, y: nat, z: nat)
    ensures Xor(Xor(x, y), z) % 2 == Xor(x, Xor(y, z)) % 2
  {
    var left, right := Xor(x, y), Xor(y, z);
    XorOdd(x, y);
    XorOdd(y, z);
    XorOdd(left, z);
    XorOdd(x, right);
  }

  /** Both groupings of a three-way exclusive or shift down to the groupings of the halves. */
  lemma XorHighBits(x: nat, y: nat, z: nat)
    ensures Xor(Xor(x, y), z) / 2 == Xor(Xor(x / 2, y / 2), z / 2)
    ensures Xor(x, Xor(y, z)) / 2 == Xor(x / 2, Xor(y / 2, z / 2))
  {
    XorStep(x, y);
    XorStep(y, z);
    XorStep(Xor(x, y), z);
    XorStep(x, Xor(y, z));
  }

  /** `(x ^ y) ^ z == x ^ (y ^ z)`. */
  lemma {:induction false} XorAssociates(x: nat, y: nat, z: nat)
    ensures Xor(Xor(x, y), z) == Xor(x, Xor(y, z))
    decreases x + y + z
  {
    if x + y + z > 0 {
      XorAssociates(x / 2, y / 2, z / 2);
      XorLowBits(x, y, z);
      XorHighBits(x, y, z);
      SameBits(Xor(Xor(x, y), z), Xor(x, Xor(y, z)));
    }
  }

  /** `y << k` without a width limit. */
  function Shl(y: nat, k: nat): nat {
    if k == 0 then y else 2 * Shl(y, k - 1)
  }

  /** Exclusive or with a number whose bits all lie above the bits of `x` is addition. */
  lemma {:induction false} XorDisjoint(x: nat, y: nat, k: nat)
    requires x < Pow2(k)
    ensures Xor(x, Shl(y, k)) == x + Shl(y, k)
    decreases k
  {
    var z := Shl(y, k);
    if k == 0 {
      assert x == 0;
    } else if x != 0 && z != 0 {
      var w := Shl(y, k - 1);
      assert z == 2 * w;
      Halves(w, 0);
      Halves(x / 2, x % 2);
      assert x / 2 < Pow2(k - 1);
      XorDisjoint(x / 2, y, k - 1);
      XorUnfold(x, z, x / 2 + w);
      assert (x % 2 + z % 2) % 2 == x % 2;
      assert Xor(x, z) == 2 * (x / 2) + x % 2 + 2 * w;
    }
  }

  /** Euclidean division is unique. */
  lemma DivModUnique(v: nat, m: nat, q: nat, r: nat)
    requires m > 0 && v == q * m + r && r < m
    ensures v / m == q && v % m == r
  {
    var q0, r0 := v / m, v % m;
    assert v == q0 * m + r0;
    if q0 < q {
      assert (q - q0) * m == q * m - q0 * m == r0 - r;
      MulAtLeast(q - q0, m);
    } else if q0 > q {
      assert (q0 - q) * m == q0 * m - q * m == r - r0;
      MulAtLeast(q0 - q, m);
    }
  }

  lemma {:induction false} MulAtLeast(k: nat, m: nat)
    requires k >= 1
    ensures k * m >= m
  {
    if k > 1 {
      MulAtLeast(k - 1, m);
      assert k * m == (k - 1) * m + m;
    }
  }

  /** Reducing modulo `2m` keeps the lowest bit and reduces the halves modulo `m`. */
  lemma ModDouble(v: nat, m: nat)
    requires m > 0
    ensures (v % (2 * m)) / 2 == (v / 2) % m && (v % (2 * m)) % 2 == v % 2
  {
    var q, r, b := (v / 2) / m, (v / 2) % m, v % 2;
    assert v / 2 == q * m + r;
    assert v == q * (2 * m) + (2 * r + b);
    DivModUnique(v, 2 * m, q, 2 * r + b);
  }

  /** The low `n` bits of `x ^ y` depend only on the low `n` bits of `x` and `y`. */
  lemma {:induction false} XorMod(x: nat, y: nat, n: nat)
    ensures Xor(x, y) % Pow2(n) == Xor(x % Pow2(n), y % Pow2(n))
    decreases n
  {
    if n > 0 {
      var h := Pow2(n - 1);
      assert Pow2(n) == 2 * h;
      var v, xl, yl := Xor(x, y), x % (2 * h), y % (2 * h);
      XorMod(x / 2, y / 2, n - 1);
      XorStep(x, y);
      XorStep(xl, yl);
      ModDouble(v, h);
      ModDouble(x, h);
      ModDouble(y, h);
      SameBits(v % (2 * h), Xor(xl, yl));
    }
  }

  /** Reducing modulo a multiple of `m` first does not change the remainder modulo `m`. */
  lemma ModOfMultipleMod(a: nat, m: nat, k: nat)
    requires m > 0 && k > 0
    ensures (a % (m * k)) % m == a % m
  {
    var mk := m * k;
    var q, r := a / mk, a % mk;
    assert a == q * mk + r;
    var qk := q * k;
    MulRegroup(q, m, k);
    var q2, r2 := r / m, r % m;
    assert r == q2 * m + r2;
    MulAddDistrib(qk, q2, m);
    DivModUnique(a, m, qk + q2, r2);
  }

  lemma MulRegroup(q: nat, m: nat, k: nat)
    ensures q * (m * k) == (q * k) * m
  {
  }

  lemma MulAddDistrib(x: nat, y: nat, m: nat)
    ensures x * m + y * m == (x + y) * m
  {
  }

  /** The remainder of a product modulo `m` depends only on the remainder of the first factor. */
  lemma MulMod(a: nat, c: nat, m: nat)
    requires m > 0
    ensures (a * c) % m == ((a % m) * c) % m
  {
    var q: nat, r: nat := a / m, a % m;
    assert a == q * m + r;
    var rc: nat := r * c;
    var q2: nat, r2: nat := rc / m, rc % m;
    assert rc == q2 * m + r2;
    var qc: nat := q * c;
    assert a * c == qc * m + rc by {
      assert a * c == (q * m + r) * c;
      assert (q * m + r) * c == q * m * c + r * c;
      assert q * m * c == qc * m;
    }
    assert a * c == (qc + q2) * m + r2;
    DivModUnique(a * c, m, qc + q2, r2);
  }
}
