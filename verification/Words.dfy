/** Machine words as natural numbers: powers of two, wrap-around subtraction, the bit
    operations the index code uses, and the C routine that rounds up to a power of two. */
module Words {

  function Pow2(k: nat): (p: nat)
    ensures p > 0
  {
    if k == 0 then 1 else 2 * Pow2(k - 1)
  }

  /** The values of a 64-bit word. */
  const WORD: nat := 0x1_0000_0000_0000_0000

  type word = x: int | 0 <= x < WORD

  /** What a 64-bit counter holds when its true value is `x`, which may be negative. */
  function Wrap(x: int): (w: word)
    ensures 0 <= x < WORD ==> w == x
  {
    x % WORD
  }

  /** Subtraction of two unsigned words of `width` bits. */
  function WrapSub(a: nat, b: nat, width: nat): (r: nat)
    requires a < Pow2(width) && b < Pow2(width)
    ensures r < Pow2(width)
  {
    (a + Pow2(width) - b) % Pow2(width)
  }

  function WordSub(a: nat, b: nat): (r: nat)
    requires a < WORD && b < WORD
    ensures r < WORD
  {
    (a + WORD - b) % WORD
  }

  function And(a: nat, b: nat): (n: nat)
  {
    if a == 0 || b == 0 then 0
    else 2 * And(a / 2, b / 2) + (if a % 2 == 1 && b % 2 == 1 then 1 else 0)
  }

  function Or(a: nat, b: nat): (n: nat)
  {
    if a == 0 && b == 0 then 0
    else 2 * Or(a / 2, b / 2) + (if a % 2 == 1 || b % 2 == 1 then 1 else 0)
  }

  function ShiftRight(a: nat, k: nat): (n: nat)
  {
    if k == 0 then a else ShiftRight(a / 2, k - 1)
  }

  predicate Bit(a: nat, i: nat)
  {
    if i == 0 then a % 2 == 1 else Bit(a / 2, i - 1)
  }

  lemma {:induction false} Pow2Monotone(j: nat, k: nat)
    requires j <= k
    ensures Pow2(j) <= Pow2(k)
    ensures j < k ==> Pow2(j) < Pow2(k)
  {
    if j < k {
      Pow2Monotone(j, k - 1);
    }
  }

  lemma {:induction false} Pow2Sum(j: nat, k: nat)
    ensures Pow2(j + k) == Pow2(j) * Pow2(k)
  {
    if j > 0 {
      Pow2Sum(j - 1, k);
      assert Pow2(j + k) == 2 * Pow2(j - 1 + k);
    }
  }

  lemma WordIsPow2()
    ensures WORD == Pow2(64)
  {
    assert Pow2(2) == 4;
    Pow2Sum(2, 2);
    Pow2Sum(4, 4);
    Pow2Sum(8, 8);
    Pow2Sum(16, 16);
    Pow2Sum(32, 32);
  }

  lemma DivModUnique(x: nat, n: nat, d: nat, e: nat)
    requires n > 0 && e < n && x == n * d + e
    ensures x / n == d && x % n == e
  {
    var k := x / n - d;
    assert n * k == e - x % n;
    if k >= 1 {
      MulAtLeast(n, k);
    } else if k <= -1 {
      MulAtLeast(n, -k);
    }
  }

  lemma MulAtLeast(n: nat, k: int)
    requires k >= 1
    ensures n * k >= n
  {
  }

  /** Subtracting one lap does not change the remainder. */
  lemma ModLap(x: nat, n: nat)
    requires 0 < n <= x
    ensures x % n == (x - n) % n
  {
    var d, e := (x - n) / n, (x - n) % n;
    assert x == n * (d + 1) + e;
    DivModUnique(x, n, d + 1, e);
  }

  lemma ModHalves(x: nat, m: nat)
    requires m > 0
    ensures x % (2 * m) == 2 * (x / 2 % m) + x % 2
  {
    var d, e := x / 2 / m, x / 2 % m;
    assert x / 2 == m * d + e;
    assert x == 2 * m * d + (2 * e + x % 2);
    DivModUnique(x, 2 * m, d, 2 * e + x % 2);
  }

  /** Masking with 2^k - 1 is the remainder modulo 2^k. */
  lemma {:induction false} AndMask(x: nat, k: nat)
    ensures And(x, Pow2(k) - 1) == x % Pow2(k)
  {
    if k > 0 {
      AndMask(x / 2, k - 1);
      ModHalves(x, Pow2(k - 1));
    }
  }

  /** Two nested remainders of the upper bits give those of the number. */
  lemma ModOfModDoubles(x: nat, m: nat, n: nat)
    requires m > 0 && n > 0 && x / 2 % m % n == x / 2 % n
    ensures x % (2 * m) % (2 * n) == x % (2 * n)
  {
    var e, b := x / 2 % m, x % 2;
    ModHalves(x, m);
    ModHalves(x, n);
    ModHalves(2 * e + b, n);
    assert (2 * e + b) / 2 == e && (2 * e + b) % 2 == b;
  }

  lemma {:induction false} ModOfMod(x: nat, k: nat, width: nat)
    requires k <= width
    ensures x % Pow2(width) % Pow2(k) == x % Pow2(k)
  {
    if k > 0 {
      ModOfMod(x / 2, k - 1, width - 1);
      ModOfModDoubles(x, Pow2(width - 1), Pow2(k - 1));
    }
  }

  /** The slot of a wrapped counter is the slot of the true one: the ring size divides 2^width. */
  lemma MaskedSlot(x: nat, k: nat, width: nat)
    requires k <= width
    ensures And(x % Pow2(width), Pow2(k) - 1) == x % Pow2(k)
  {
    AndMask(x % Pow2(width), k);
    ModOfMod(x, k, width);
  }

  lemma {:induction false} ModDifference(h: nat, t: nat, n: nat)
    requires t <= h < t + n
    ensures (h % n + n - t % n) % n == h - t
    decreases t
  {
    if t >= n {
      ModLap(h, n);
      ModLap(t, n);
      ModDifference(h - n, t - n, n);
    } else {
      DivModUnique(t, n, 0, t);
      if h < n {
        DivModUnique(h, n, 0, h);
        DivModUnique(h + n - t, n, 1, h - t);
      } else {
        DivModUnique(h, n, 1, h - n);
        DivModUnique(h - t, n, 0, h - t);
      }
    }
  }

  /** Two positions less than one lap apart never share a slot. */
  lemma DistinctSlots(i: nat, j: nat, n: nat)
    requires i < j < i + n
    ensures i % n != j % n
  {
    ModDifference(j, i, n);
    DivModUnique(n, n, 1, 0);
  }

  lemma NextMod(x: nat, n: nat)
    requires n > 0
    ensures (x % n + 1) % n == (x + 1) % n
  {
    var d, e := x / n, x % n;
    assert x == n * d + e;
    if e + 1 < n {
      DivModUnique(x + 1, n, d, e + 1);
    } else {
      assert n * (d + 1) == n * d + n;
      DivModUnique(x + 1, n, d + 1, 0);
    }
  }

  /** The masked difference of two wrapped counters is the true element count. */
  lemma MaskedDifference(h: nat, t: nat, k: nat, width: nat)
    requires k <= width && t <= h && h - t < Pow2(k)
    ensures And(WrapSub(h % Pow2(width), t % Pow2(width), width), Pow2(k) - 1) == h - t
  {
    Pow2Monotone(k, width);
    ModDifference(h, t, Pow2(width));
    AndMask(h - t, k);
    DivModUnique(h - t, Pow2(k), 0, h - t);
  }

  lemma WordDifference(h: nat, t: nat, k: nat)
    requires k <= 64 && t <= h && h - t < Pow2(k)
    ensures And(WordSub(h % WORD, t % WORD), Pow2(k) - 1) == h - t
  {
    WordIsPow2();
    MaskedDifference(h, t, k, 64);
  }

  lemma WordSlot(x: nat, k: nat)
    requires k <= 64
    ensures And(x % WORD, Pow2(k) - 1) == x % Pow2(k)
  {
    WordIsPow2();
    MaskedSlot(x, k, 64);
  }

  /** Counters less than one lap apart are equal exactly when their wrapped forms are. */
  lemma WrappedEqual(h: nat, t: nat, n: nat)
    requires t <= h < t + n
    ensures h % n == t % n <==> h == t
  {
    ModDifference(h, t, n);
    DivModUnique(n, n, 1, 0);
  }

  lemma {:induction false} OrBit(a: nat, b: nat, i: nat)
    ensures Bit(Or(a, b), i) == (Bit(a, i) || Bit(b, i))
  {
    if a == 0 && b == 0 {
      ZeroBit(i);
    } else {
      OrHalves(a, b);
      if i > 0 {
        OrBit(a / 2, b / 2, i - 1);
      }
    }
  }

  lemma OrHalves(a: nat, b: nat)
    ensures Or(a, b) / 2 == Or(a / 2, b / 2)
    ensures Or(a, b) % 2 == 1 <==> a % 2 == 1 || b % 2 == 1
  {
    var h, low := Or(a / 2, b / 2), if a % 2 == 1 || b % 2 == 1 then 1 else 0;
    assert Or(a, b) == 2 * h + low;
  }

  lemma {:induction false} ZeroBit(i: nat)
    ensures !Bit(0, i)
  {
    if i > 0 {
      ZeroBit(i - 1);
    }
  }

  lemma {:induction false} ShiftBit(a: nat, k: nat, i: nat)
    ensures Bit(ShiftRight(a, k), i) == Bit(a, i + k)
  {
    if k > 0 {
      ShiftBit(a / 2, k - 1, i);
    }
  }

  lemma {:induction false} ShiftBound(a: nat, k: nat)
    ensures ShiftRight(a, k) <= a
  {
    if k > 0 {
      ShiftBound(a / 2, k - 1);
    }
  }

  lemma {:induction false} OrBound(a: nat, b: nat, len: nat)
    requires a < Pow2(len) && b < Pow2(len)
    ensures Or(a, b) < Pow2(len)
  {
    if len > 0 {
      OrBound(a / 2, b / 2, len - 1);
    }
  }

  lemma {:induction false} AllBitsSet(a: nat, len: nat)
    requires a < Pow2(len) && forall i: nat :: i < len ==> Bit(a, i)
    ensures a == Pow2(len) - 1
  {
    if len > 0 {
      assert Bit(a, 0);
      forall i: nat | i < len - 1 ensures Bit(a / 2, i) {
        assert Bit(a, i + 1);
      }
      AllBitsSet(a / 2, len - 1);
    }
  }

  /** `a` has `len` bits, of which the top `w` are all ones. */
  ghost predicate TopOnes(a: nat, len: nat, w: nat)
  {
    a < Pow2(len) && forall i: nat :: len - w <= i < len ==> Bit(a, i)
  }

  lemma SmearDoubles(a: nat, len: nat, w: nat)
    requires TopOnes(a, len, w)
    ensures TopOnes(Or(a, ShiftRight(a, w)), len, 2 * w)
  {
    ShiftBound(a, w);
    OrBound(a, ShiftRight(a, w), len);
    forall i: nat | len - 2 * w <= i < len ensures Bit(Or(a, ShiftRight(a, w)), i) {
      OrBit(a, ShiftRight(a, w), i);
      ShiftBit(a, w, i);
    }
  }

  /** Every positive number has a length, and its top bit is set. */
  lemma {:induction false} BitLength(a: nat) returns (len: nat)
    requires a > 0
    ensures len > 0 && Pow2(len - 1) <= a < Pow2(len) && TopOnes(a, len, 1)
  {
    if a == 1 {
      len := 1;
      assert Pow2(1) == 2;
    } else {
      len := BitLength(a / 2);
      assert Bit(a / 2, len - 1);
      len := len + 1;
    }
  }

  lemma Pow2Below(j: nat, k: nat)
    requires Pow2(j) < Pow2(k)
    ensures j < k
  {
    if k <= j {
      Pow2Monotone(k, j);
    }
  }

  /** The power of two with exponent `j` is at least `n`. */
  ghost predicate Covers(n: nat, j: nat)
  {
    n <= Pow2(j)
  }

  /** `r` is the least power of two that is at least `n`. */
  ghost predicate LeastPow2(n: nat, r: nat, k: nat)
  {
    r == Pow2(k) && n <= r && forall j: nat {:trigger Covers(n, j)} :: Covers(n, j) ==> r <= Pow2(j)
  }

  /** What rounding a 64-bit word up gives: the least power of two, or 0 when it does not fit. */
  ghost predicate RoundedUp(n: nat, r: nat, k: nat)
  {
    && (n == 0 ==> r == 1)
    && (1 <= n <= Pow2(63) ==> k <= 63 && LeastPow2(n, r, k))
    && (n > Pow2(63) ==> r == 0)
  }

  /** nextPowerOf2 on 64-bit words. */
  method NextPowerOf2(n0: nat) returns (r: nat, ghost k: nat)
    requires n0 < Pow2(64)
    ensures RoundedUp(n0, r, k)
    ensures n0 > 0 && r != 0 ==> n0 <= r <= 2 * n0
  {
    if n0 == 0 {
      return 1, 0;
    }
    k := Length(n0 - 1);
    var n := SmearAll(n0 - 1, k);
    RoundUpFromLength(n0 - 1, k);
    r := (n + 1) % Pow2(64);
  }

  /** The six shifts set every bit below the top one. */
  method SmearAll(n0: nat, ghost len: nat) returns (n: nat)
    requires len <= 64 && TopOnes(n0, len, 1)
    ensures n == Pow2(len) - 1
  {
    n := Smear(n0, 1, len);
    n := Smear(n, 2, len);
    n := Smear(n, 4, len);
    n := Smear(n, 8, len);
    n := Smear(n, 16, len);
    n := Smear(n, 32, len);
    AllBitsSet(n, len);
  }

  /** n |= n >> w: a run of w leading ones becomes a run of 2w. */
  method Smear(n: nat, w: nat, ghost len: nat) returns (r: nat)
    requires TopOnes(n, len, w)
    ensures r == Or(n, ShiftRight(n, w)) && TopOnes(r, len, 2 * w)
  {
    SmearDoubles(n, len, w);
    r := Or(n, ShiftRight(n, w));
  }

  lemma Length(n: nat) returns (len: nat)
    requires n < Pow2(64)
    ensures len <= 64 && TopOnes(n, len, 1)
    ensures if n == 0 then len == 0 else len > 0 && Pow2(len - 1) <= n < Pow2(len)
  {
    if n == 0 {
      len := 0;
    } else {
      len := BitLength(n);
      Pow2Below(len - 1, 64);
    }
  }

  lemma RoundUpFromLength(n: nat, len: nat)
    requires n < Pow2(64) && len <= 64
    requires if n == 0 then len == 0 else len > 0 && Pow2(len - 1) <= n < Pow2(len)
    ensures RoundedUp(n + 1, Pow2(len) % Pow2(64), len)
    ensures Pow2(len) % Pow2(64) == 0 || n + 1 <= Pow2(len) % Pow2(64) <= 2 * (n + 1)
  {
    if n + 1 > Pow2(63) {
      Pow2Monotone(0, 63);
      if len <= 63 { Pow2Monotone(len, 63); }
      DivModUnique(Pow2(64), Pow2(64), 1, 0);
    } else {
      if len == 64 { assert false; }
      Pow2Monotone(len, 63);
      DivModUnique(Pow2(len), Pow2(64), 0, Pow2(len));
      forall j: nat | Covers(n + 1, j) ensures Pow2(len) <= Pow2(j) {
        if len > 0 { Pow2Below(len - 1, j); }
        Pow2Monotone(len, if j < len then len else j);
      }
    }
  }
}
