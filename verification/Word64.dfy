/** Unsigned 64-bit arithmetic on Python integers: masking, `|`, `^`, shifts and rotation, with their inverses. */
module Word64 {
  const M: int := 0x1_0000_0000_0000_0000

  type word = x: int | 0 <= x < 0x1_0000_0000_0000_0000

  function Pow2(k: nat): (p: nat)
    ensures p > 0
  {
    if k == 0 then 1 else 2 * Pow2(k - 1)
  }

  /** `v & MASK64`. */
  function Mask(v: int): word {
    v % 0x1_0000_0000_0000_0000
  }

  /** `v << k` on an unbounded integer. */
  function ShiftLeft(v: nat, k: nat): nat {
    if k == 0 then v else 2 * ShiftLeft(v, k - 1)
  }

  /** `v >> k`. */
  function ShiftRight(v: nat, k: nat): nat {
    if k == 0 then v else ShiftRight(v / 2, k - 1)
  }

  function BitOr(a: nat, b: nat): nat
    decreases a + b
  {
    if a == 0 && b == 0 then 0
    else (if a % 2 == 1 || b % 2 == 1 then 1 else 0) + 2 * BitOr(a / 2, b / 2)
  }

  function BitXor(a: nat, b: nat): nat
    decreases a + b
  {
    if a == 0 && b == 0 then 0
    else (if a % 2 != b % 2 then 1 else 0) + 2 * BitXor(a / 2, b / 2)
  }

  /** `_rotate_left`: both shifts on an unbounded integer, one mask at the end. */
  function RotateLeft(v: word, count: nat): word
    requires count <= 64
  {
    Mask(BitOr(ShiftLeft(v, count), ShiftRight(v, 64 - count)))
  }

  /** `x ^ (x >> s)`. */
  function XorShift(x: nat, s: nat): nat {
    BitXor(x, ShiftRight(x, s))
  }

  // ---------- powers of two and shifts ----------

  lemma {:induction false} Pow2Add(a: nat, b: nat)
    ensures Pow2(a + b) == Pow2(a) * Pow2(b)
  {
    if a > 0 {
      Pow2Add(a - 1, b);
      Associate(2, Pow2(a - 1), Pow2(b));
    }
  }

  lemma Associate(x: int, y: int, z: int)
    ensures x * y * z == x * (y * z)
  {
  }

  lemma Twice(q: int, p: int)
    ensures q * (2 * p) == 2 * (q * p)
  {
  }

  lemma Pow2Of32()
    ensures Pow2(32) == 0x1_0000_0000
  {
    assert Pow2(8) == 2 * (2 * (2 * (2 * Pow2(4)))) == 256;
    Pow2Add(8, 8);
    assert Pow2(16) == 0x1_0000;
    Pow2Add(16, 16);
  }

  lemma Pow2Of64()
    ensures Pow2(64) == M
  {
    Pow2Of32();
    Pow2Add(32, 32);
  }

  lemma {:induction false} ShiftLeftMultiplies(v: nat, k: nat)
    ensures ShiftLeft(v, k) == v * Pow2(k)
  {
    if k > 0 {
      ShiftLeftMultiplies(v, k - 1);
      Associate(v, 2, Pow2(k - 1));
    }
  }

  lemma {:induction false} ShiftRightDivides(v: nat, k: nat)
    ensures 0 <= v - ShiftRight(v, k) * Pow2(k) < Pow2(k)
  {
    if k > 0 {
      ShiftRightDivides(v / 2, k - 1);
      var q, p := ShiftRight(v, k), Pow2(k - 1);
      Twice(q, p);
      assert Pow2(k) == 2 * p && v == 2 * (v / 2) + v % 2;
    }
  }

  lemma {:induction false} ShiftRightSmaller(v: nat, k: nat)
    ensures ShiftRight(v, k) <= v
    ensures k > 0 && v > 0 ==> ShiftRight(v, k) < v
  {
    if k > 0 {
      ShiftRightSmaller(v / 2, k - 1);
    }
  }

  lemma MultiplyMonotone(x: int, y: int, z: nat)
    requires x <= y
    ensures x * z <= y * z
  {
  }

  /** Quotient and remainder are determined by the equation they satisfy. */
  lemma QuotientUnique(q: int, q': int, d: int, r: int, r': int)
    requires 0 <= r < d && 0 <= r' < d && q * d + r == q' * d + r'
    ensures q == q' && r == r'
  {
    if q > q' {
      MultiplyMonotone(q' + 1, q, d);
    } else if q < q' {
      MultiplyMonotone(q + 1, q', d);
    }
  }

  // ---------- bitwise operations ----------

  /** `|` adds when the left operand has no bits below `k` and the right operand has none at or above it. */
  lemma {:induction false} BitOrDisjoint(v: nat, lo: nat, k: nat)
    requires lo < Pow2(k)
    ensures BitOr(ShiftLeft(v, k), lo) == ShiftLeft(v, k) + lo
  {
    if k == 0 {
      BitOrZero(v);
    } else {
      BitOrDisjoint(v, lo / 2, k - 1);
    }
  }

  lemma {:induction false} BitOrZero(a: nat)
    ensures BitOr(a, 0) == a
  {
    if a > 0 {
      BitOrZero(a / 2);
    }
  }

  lemma BitXorParts(a: nat, b: nat)
    ensures BitXor(a, b) % 2 == if a % 2 != b % 2 then 1 else 0
    ensures BitXor(a, b) / 2 == BitXor(a / 2, b / 2)
  {
  }

  lemma {:induction false} BitXorUndo(a: nat, b: nat)
    ensures BitXor(BitXor(a, b), b) == a
    decreases a + b
  {
    BitXorParts(a, b);
    BitXorParts(BitXor(a, b), b);
    if a + b > 0 {
      BitXorUndo(a / 2, b / 2);
    }
  }

  lemma {:induction false} BitXorSymmetric(a: nat, b: nat)
    ensures BitXor(a, b) == BitXor(b, a)
    decreases a + b
  {
    if a + b > 0 {
      BitXorSymmetric(a / 2, b / 2);
    }
  }

  lemma {:induction false} BitXorBound(a: nat, b: nat, k: nat)
    requires a < Pow2(k) && b < Pow2(k)
    ensures BitXor(a, b) < Pow2(k)
  {
    if k > 0 {
      BitXorBound(a / 2, b / 2, k - 1);
    }
  }

  lemma {:induction false} BitXorShiftRight(a: nat, b: nat, s: nat)
    ensures ShiftRight(BitXor(a, b), s) == BitXor(ShiftRight(a, s), ShiftRight(b, s))
  {
    if s > 0 {
      BitXorHalf(a, b);
      hide BitXor;
      BitXorShiftRight(a / 2, b / 2, s - 1);
    }
  }

  lemma BitXorHalf(a: nat, b: nat)
    ensures BitXor(a, b) / 2 == BitXor(a / 2, b / 2)
  {
  }

  /** `a ^ b` as a step on 64-bit values. */
  function Xor(a: word, b: word): word {
    Pow2Of64();
    BitXorBound(a, b, 64);
    BitXor(a, b)
  }

  // ---------- every step of the hash can be undone ----------

  /** Multiplying by an odd constant is undone by multiplying by its inverse modulo 2^64. */
  lemma MultiplyUndo(x: word, p: int, inverse: int)
    requires (p * inverse) % M == 1
    ensures Mask(Mask(x * p) * inverse) == x
  {
    var q, k := x * p / M, p * inverse / M;
    var y := Mask(x * p);
    assert y == x * p - q * M;
    calc {
      y * inverse;
      (x * p - q * M) * inverse;
      x * p * inverse - q * M * inverse;
      { Associate(x, p, inverse); }
      x * (k * M + 1) - q * M * inverse;
      { assert x * (k * M + 1) == (x * k) * M + x; assert q * M * inverse == (q * inverse) * M; }
      (x * k) * M + x - (q * inverse) * M;
      (x * k - q * inverse) * M + x;
    }
    QuotientUnique(y * inverse / M, x * k - q * inverse, M, y * inverse % M, x);
  }

  lemma RotateArithmetic(v: word, a: nat, b: nat, hi: nat, lo: nat)
    requires a > 0 && b > 0 && a * b == M && v == hi * b + lo && lo < b
    ensures hi < a
    ensures Mask(v * a + hi) == lo * a + hi
  {
    if hi >= a {
      MultiplyMonotone(a, hi, b);
    }
    assert v * a + hi == hi * M + (lo * a + hi) by {
      assert v * a == hi * b * a + lo * a;
      Associate(hi, b, a);
    }
    assert (lo + 1) * a <= b * a;
    QuotientUnique((v * a + hi) / M, hi, M, (v * a + hi) % M, lo * a + hi);
  }

  /** A rotation moves the high `count` bits below the others. */
  lemma RotateLeftSplit(v: word, count: nat) returns (hi: nat, lo: nat)
    requires count <= 64
    ensures v == hi * Pow2(64 - count) + lo && lo < Pow2(64 - count) && hi < Pow2(count)
    ensures RotateLeft(v, count) == lo * Pow2(count) + hi
  {
    hi := ShiftRight(v, 64 - count);
    ShiftRightDivides(v, 64 - count);
    lo := v - hi * Pow2(64 - count);
    Pow2Add(count, 64 - count);
    Pow2Of64();
    RotateArithmetic(v, Pow2(count), Pow2(64 - count), hi, lo);
    BitOrDisjoint(v, hi, count);
    ShiftLeftMultiplies(v, count);
  }

  /** Rotation is undone by rotating through the remaining bits. */
  lemma RotateUndo(v: word, count: nat)
    requires count <= 64
    ensures RotateLeft(RotateLeft(v, count), 64 - count) == v
  {
    var hi, lo := RotateLeftSplit(v, count);
    var w := RotateLeft(v, count);
    var hi', lo' := RotateLeftSplit(w, 64 - count);
    QuotientUnique(lo, hi', Pow2(count), hi, lo');
  }

  /** What undoes `x ^ (x >> s)`. */
  function XorShiftUndo(y: nat, s: nat): nat
    requires s > 0
  {
    if y == 0 then 0
    else
      ShiftRightSmaller(y, s);
      BitXor(y, XorShiftUndo(ShiftRight(y, s), s))
  }

  lemma {:induction false} XorShiftUndoes(x: nat, s: nat)
    requires s > 0
    ensures XorShiftUndo(XorShift(x, s), s) == x
  {
    var h := ShiftRight(x, s);
    ShiftRightSmaller(x, s);
    BitXorShiftRight(x, h, s);
    BitXorUndo(x, h);
    if x > 0 {
      XorShiftUndoes(h, s);
      assert ShiftRight(XorShift(x, s), s) == XorShift(h, s);
      if XorShift(x, s) == 0 {
        BitXorZero(x, h);
      }
    }
  }

  lemma {:induction false} XorShiftRedoes(y: nat, s: nat)
    requires s > 0
    ensures XorShift(XorShiftUndo(y, s), s) == y
  {
    if y == 0 {
      ShiftRightSmaller(0, s);
    } else {
      var t := ShiftRight(y, s);
      ShiftRightSmaller(y, s);
      var u := XorShiftUndo(t, s);
      XorShiftRedoes(t, s);
      BitXorShiftRight(y, u, s);
      BitXorUndo(u, ShiftRight(u, s));
      BitXorUndo(y, u);
    }
  }

  lemma {:induction false} XorShiftUndoBound(y: nat, s: nat, k: nat)
    requires s > 0 && y < Pow2(k)
    ensures XorShiftUndo(y, s) < Pow2(k)
  {
    if y > 0 {
      var t := ShiftRight(y, s);
      ShiftRightSmaller(y, s);
      XorShiftUndoBound(t, s, k);
      BitXorBound(y, XorShiftUndo(t, s), k);
    }
  }

  lemma {:induction false} BitXorZero(a: nat, b: nat)
    requires BitXor(a, b) == 0
    ensures a == b
  {
    if a + b > 0 {
      BitXorZero(a / 2, b / 2);
    }
  }
}
