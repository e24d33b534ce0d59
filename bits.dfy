/*
 * Two's-complement truncation and sign-extension helpers of the RISC-V
 * instruction-set plugin (riscv/utils.py).
 *
 * The helpers are written with Python's unbounded integers and its bitwise
 * operators.  Here those operators are defined bit by bit over natural
 * numbers (BitAnd, BitOr), and Python's `&` with a non-negative mask below
 * 2^64 is PyAnd: for a negative left operand Python behaves as if the number
 * had infinitely many leading one bits, so only its residue modulo 2^64
 * matters.  Each helper is then stated in plain arithmetic (modulo 2^n,
 * ranges, high bits) and proved.
 */
module PyBits {

  function Pow2(n: nat): (r: nat)
    ensures r >= 1
  {
    if n == 0 then 1 else 2 * Pow2(n - 1)
  }

  /** 0xffffffffffffffff, the widest mask the helpers use. */
  const Mask64: nat := 0xffff_ffff_ffff_ffff

  /** Python's `a & b` on non-negative integers, one bit at a time. */
  function BitAnd(a: nat, b: nat): nat
    decreases a
  {
    if a == 0 || b == 0 then 0
    else 2 * BitAnd(a / 2, b / 2) + (if a % 2 == 1 && b % 2 == 1 then 1 else 0)
  }

  /** Python's `a | b` on non-negative integers, one bit at a time. */
  function BitOr(a: nat, b: nat): nat
    decreases a + b
  {
    if a == 0 then b
    else if b == 0 then a
    else 2 * BitOr(a / 2, b / 2) + (if a % 2 == 1 || b % 2 == 1 then 1 else 0)
  }

  /** Python's `v & m` for any integer v and a mask 0 <= m <= 0xffffffffffffffff. */
  function PyAnd(v: int, m: nat): nat
    requires m <= Mask64
  {
    BitAnd(v % (Mask64 + 1), m)
  }

  /** Python's `~a`. */
  function PyNot(a: int): int
  {
    -a - 1
  }

  /** Python's `a << k`. */
  function ShiftLeft(a: int, k: nat): int
  {
    a * Pow2(k)
  }

  /** Python's `a >> k` for non-negative a. */
  function ShiftRight(a: nat, k: nat): nat
  {
    DivNonNegative(a, Pow2(k));
    a / Pow2(k)
  }

  lemma DivNonNegative(a: nat, d: int)
    requires d > 0
    ensures a / d >= 0
  {
  }

  // ---------------------------------------------------------------------
  // The helpers of riscv/utils.py, as written
  // ---------------------------------------------------------------------

  /** trim(value, nbits): keep the low nbits bits (a negative shift count raises beyond 64). */
  function Trim(value: int, nbits: nat): nat
    requires nbits <= 64
  {
    ShiftRightBelowMask(64 - nbits);
    PyAnd(value, ShiftRight(Mask64, 64 - nbits))
  }

  function Trim64(value: int): nat
  {
    PyAnd(value, Mask64)
  }

  function Sext32(value: int): nat
  {
    var v := PyAnd(value, 0x0000_0000_ffff_ffff);
    if PyAnd(v, 0x8000_0000) != 0 then BitOr(0xffff_ffff_0000_0000, v) else v
  }

  function Sext(value: int, nbits: nat): nat
    requires 1 <= nbits <= 64
  {
    var v := Trim(value, nbits);
    var signMask := ShiftLeft(1, nbits - 1);
    var mask := Trim64(ShiftLeft(0xff_ffff_ffff_ffff, nbits));
    Pow2Below64(nbits - 1);
    if PyAnd(v, signMask) != 0 then BitOr(mask, v) else v
  }

  function Signed(value: int, nbits: nat): int
    requires 1 <= nbits <= 64
  {
    var mask := ShiftLeft(1, nbits - 1);
    var v := Trim(value, nbits);
    Pow2Below64(nbits - 1);
    if PyAnd(v, mask) != 0 then
      var twosComplement := PyNot(v) + 1;
      var magnitude: int := Trim(twosComplement, nbits);
      -magnitude
    else
      v
  }

  // ---------------------------------------------------------------------
  // Arithmetic facts the proofs rest on
  // ---------------------------------------------------------------------

  lemma {:induction false} Pow2Add(a: nat, b: nat)
    ensures Pow2(a + b) == Pow2(a) * Pow2(b)
  {
    if a > 0 {
      Pow2Add(a - 1, b);
      assert Pow2(a + b) == 2 * Pow2(a - 1 + b);
    }
  }

  lemma Pow2Split(n: nat, m: nat)
    requires n <= m
    ensures Pow2(m) == Pow2(n) * Pow2(m - n)
  {
    Pow2Add(n, m - n);
  }

  lemma {:induction false} Pow2Mono(a: nat, b: nat)
    requires a <= b
    ensures Pow2(a) <= Pow2(b)
  {
    if a < b {
      Pow2Mono(a, b - 1);
    }
  }

  lemma Pow2Of8()
    ensures Pow2(8) == 0x100
  {
    assert Pow2(2) == 4 by { assert Pow2(1) == 2; }
    assert Pow2(4) == 16 by { Pow2Add(2, 2); }
    Pow2Add(4, 4);
  }

  lemma Pow2Of16()
    ensures Pow2(16) == 0x1_0000
  {
    Pow2Of8();
    Pow2Add(8, 8);
  }

  lemma Pow2Of32()
    ensures Pow2(32) == 0x1_0000_0000
  {
    Pow2Of16();
    Pow2Add(16, 16);
  }

  lemma Pow2Of31()
    ensures Pow2(31) == 0x8000_0000
  {
    Pow2Of32();
    Pow2Add(31, 1);
  }

  lemma Pow2Of48()
    ensures Pow2(48) == 0x1_0000_0000_0000
  {
    Pow2Of16();
    Pow2Of32();
    Pow2Add(32, 16);
  }

  lemma Pow2Of56()
    ensures Pow2(56) == 0x100_0000_0000_0000
  {
    Pow2Of48();
    Pow2Of8();
    Pow2Add(48, 8);
  }

  lemma Pow2Of64()
    ensures Pow2(64) == Mask64 + 1
  {
    Pow2Of32();
    Pow2Add(32, 32);
  }

  lemma Pow2Of63()
    ensures Pow2(63) == 0x8000_0000_0000_0000
  {
    Pow2Of64();
    Pow2Add(63, 1);
  }

  /** Every width up to 64 bits fits in 2^64. */
  lemma Pow2AtMost64(n: nat)
    requires n <= 64
    ensures Pow2(n) <= Mask64 + 1
  {
    Pow2Mono(n, 64);
    Pow2Of64();
  }

  /** Every single bit up to bit 63 fits under the 64-bit mask. */
  lemma Pow2Below64(k: nat)
    requires k <= 63
    ensures Pow2(k) <= Mask64
  {
    Pow2Mono(k, 63);
    Pow2Of63();
  }

  lemma MulPredecessor(p: int, q: int)
    ensures (p - 1) * q == p * q - q
  {
  }

  lemma MulAtLeast(a: int, d: int)
    requires a >= 1 && d > 0
    ensures a * d >= d
  {
    assert a * d == (a - 1) * d + d;
  }

  lemma DivModUnique(x: int, d: int, q: int, r: int)
    requires d > 0 && 0 <= r < d && x == q * d + r
    ensures x / d == q && x % d == r
  {
    var q', r' := x / d, x % d;
    assert x == q' * d + r';
    assert (q - q') * d == r' - r;
    if q > q' {
      MulAtLeast(q - q', d);
    } else if q < q' {
      MulAtLeast(q' - q, d);
    }
  }

  /** Dividing by q == 2p is halving x to h, then dividing by p. */
  lemma DivModDouble(x: nat, h: nat, p: nat, q: nat)
    requires p > 0 && q == 2 * p && h == x / 2
    ensures x / q == h / p
    ensures x % q == 2 * (h % p) + x % 2
  {
    var d, r := h / p, h % p;
    assert h == d * p + r;
    assert x == d * q + (2 * r + x % 2);
    DivModUnique(x, q, d, 2 * r + x % 2);
  }

  lemma Pow2Step(n: nat, m: nat)
    requires n == m + 1
    ensures Pow2(n) == 2 * Pow2(m)
  {
  }

  /** x == 2h + r with r a bit: h is x halved and r its lowest bit. */
  lemma Halve(x: int, h: int, r: int)
    requires 0 <= r < 2 && x == 2 * h + r
    ensures x / 2 == h && x % 2 == r
  {
    DivModUnique(x, 2, h, r);
  }

  lemma MulDouble(h: int, b: int, q: int)
    requires q == 2 * h
    ensures 2 * (h * b) == q * b
  {
  }

  lemma ModOfMod(v: int, a: nat, b: nat)
    requires a > 0 && b > 0
    ensures (v % (a * b)) % a == v % a
  {
    var q, r := v / (a * b), v % (a * b);
    assert v == q * (a * b) + r;
    assert v == (q * b + r / a) * a + r % a;
    DivModUnique(v, a, q * b + r / a, r % a);
  }

  lemma ShiftRightBelowMask(k: nat)
    ensures ShiftRight(Mask64, k) <= Mask64
  {
  }

  /** 0xffffffffffffffff >> (64 - n) is the mask of the n low bits. */
  lemma LowMaskShift(n: nat)
    requires n <= 64
    ensures ShiftRight(Mask64, 64 - n) == Pow2(n) - 1
  {
    var p, q := Pow2(n), Pow2(64 - n);
    assert p * q == Mask64 + 1 by { Pow2Of64(); Pow2Add(n, 64 - n); }
    MulPredecessor(p, q);
    DivModUnique(Mask64, q, p - 1, q - 1);
  }

  // ---------------------------------------------------------------------
  // Bitwise operators against arithmetic
  // ---------------------------------------------------------------------

  /** One step of `a & b`: the halves, then the lowest bit. */
  lemma BitAndStep(a: nat, b: nat, ha: nat, hb: nat)
    requires a != 0 && b != 0 && ha == a / 2 && hb == b / 2
    ensures BitAnd(a, b) == 2 * BitAnd(ha, hb) + (if a % 2 == 1 && b % 2 == 1 then 1 else 0)
  {
  }

  /** One step of `a | b`: the halves, then the lowest bit. */
  lemma BitOrStep(a: nat, b: nat, ha: nat, hb: nat)
    requires a != 0 && b != 0 && ha == a / 2 && hb == b / 2
    ensures BitOr(a, b) == 2 * BitOr(ha, hb) + (if a % 2 == 1 || b % 2 == 1 then 1 else 0)
  {
  }

  /** Masking with 2^n - 1 is reduction modulo 2^n. */
  lemma {:induction false} BitAndLowMask(x: nat, n: nat)
    ensures BitAnd(x, Pow2(n) - 1) == x % Pow2(n)
  {
    if n == 0 {
      assert BitAnd(x, 0) == 0;
      DivModUnique(x, 1, x, 0);
    } else if x == 0 {
      assert BitAnd(0, Pow2(n) - 1) == 0;
      DivModUnique(0, Pow2(n), 0, 0);
    } else {
      var h, m := x / 2, n - 1;
      BitAndLowMask(h, m);
      LowMaskStep(x, h, n, m);
    }
  }

  /** The step of BitAndLowMask from h == x / 2 and width m to x and width m + 1. */
  lemma LowMaskStep(x: nat, h: nat, n: nat, m: nat)
    requires x != 0 && h == x / 2 && n == m + 1
    requires BitAnd(h, Pow2(m) - 1) == h % Pow2(m)
    ensures BitAnd(x, Pow2(n) - 1) == x % Pow2(n)
  {
    var p, q := Pow2(m), Pow2(n);
    Pow2Step(n, m);
    Halve(q - 1, p - 1, 1);
    BitAndStep(x, q - 1, h, p - 1);
    DivModDouble(x, h, p, q);
  }

  /** Masking with a single bit 2^k yields that bit of x, in place. */
  lemma {:induction false} BitAndSingleBit(x: nat, k: nat)
    ensures BitAnd(x, Pow2(k)) == Pow2(k) * ((x / Pow2(k)) % 2)
  {
    if x == 0 {
      assert BitAnd(0, Pow2(k)) == 0;
      DivModUnique(0, Pow2(k), 0, 0);
    } else if k == 0 {
      BitAndStep(x, 1, x / 2, 0);
      assert BitAnd(x / 2, 0) == 0;
      DivModUnique(x, 1, x, 0);
    } else {
      var h, j := x / 2, k - 1;
      BitAndSingleBit(h, j);
      SingleBitStep(x, h, k, j);
    }
  }

  /** The step of BitAndSingleBit from h == x / 2 and bit j to x and bit j + 1. */
  lemma SingleBitStep(x: nat, h: nat, k: nat, j: nat)
    requires x != 0 && h == x / 2 && k == j + 1
    requires BitAnd(h, Pow2(j)) == Pow2(j) * ((h / Pow2(j)) % 2)
    ensures BitAnd(x, Pow2(k)) == Pow2(k) * ((x / Pow2(k)) % 2)
  {
    var p, q := Pow2(j), Pow2(k);
    Pow2Step(k, j);
    Halve(q, p, 0);
    BitAndStep(x, q, h, p);
    DivModDouble(x, h, p, q);
    MulDouble(p, (h / p) % 2, q);
  }

  /** `a | b` is `a + b` when b fits below the lowest bit a may have set. */
  lemma {:induction false} BitOrDisjoint(a: nat, b: nat, n: nat)
    requires a % Pow2(n) == 0 && b < Pow2(n)
    ensures BitOr(a, b) == a + b
  {
    if n > 0 && a != 0 && b != 0 {
      var ha, hb, m := a / 2, b / 2, n - 1;
      DisjointHalves(a, b, ha, hb, n, m);
      BitOrDisjoint(ha, hb, m);
      BitOrStep(a, b, ha, hb);
    }
  }

  /** Halving keeps a aligned and b below the (halved) alignment. */
  lemma DisjointHalves(a: nat, b: nat, ha: nat, hb: nat, n: nat, m: nat)
    requires ha == a / 2 && hb == b / 2 && n == m + 1
    requires a % Pow2(n) == 0 && b < Pow2(n)
    ensures a % 2 == 0 && ha % Pow2(m) == 0 && hb < Pow2(m)
  {
    Pow2Step(n, m);
    DivModDouble(a, ha, Pow2(m), Pow2(n));
  }

  /** `a & b` never exceeds b. */
  lemma {:induction false} BitAndBound(a: nat, b: nat)
    ensures BitAnd(a, b) <= b
  {
    if a != 0 && b != 0 {
      BitAndBound(a / 2, b / 2);
    }
  }

  /** Masking with the bits k..n-1 keeps x mod 2^n without its part below 2^k. */
  lemma {:induction false} BitAndHighMask(x: nat, n: nat, k: nat)
    requires k <= n
    ensures Pow2(k) <= Pow2(n)
    ensures BitAnd(x, Pow2(n) - Pow2(k)) == x % Pow2(n) - x % Pow2(k)
  {
    Pow2Mono(k, n);
    if k == 0 {
      BitAndLowMask(x, n);
      DivModUnique(x, 1, x, 0);
    } else if x == 0 {
      DivModUnique(0, Pow2(n), 0, 0);
      DivModUnique(0, Pow2(k), 0, 0);
    } else if k == n {
      assert BitAnd(x, 0) == 0;
    } else {
      var h, n', k' := x / 2, n - 1, k - 1;
      BitAndHighMask(h, n', k');
      HighMaskStep(x, h, n, n', k, k');
    }
  }

  /** The step of BitAndHighMask from h == x / 2 and widths n', k' to x and widths n' + 1, k' + 1. */
  lemma HighMaskStep(x: nat, h: nat, n: nat, n': nat, k: nat, k': nat)
    requires x != 0 && h == x / 2 && n == n' + 1 && k == k' + 1 && k < n
    requires Pow2(k') <= Pow2(n')
    requires BitAnd(h, Pow2(n') - Pow2(k')) == h % Pow2(n') - h % Pow2(k')
    ensures Pow2(k) <= Pow2(n)
    ensures BitAnd(x, Pow2(n) - Pow2(k)) == x % Pow2(n) - x % Pow2(k)
  {
    var a, b, p, q := Pow2(n'), Pow2(k'), Pow2(n), Pow2(k);
    Pow2Step(n, n');
    Pow2Step(k, k');
    assert q <= a by { Pow2Mono(k, n'); }
    Halve(p - q, a - b, 0);
    BitAndStep(x, p - q, h, a - b);
    DivModDouble(x, h, a, p);
    DivModDouble(x, h, b, q);
  }

  /** Python's `v & (2^n - 2^k)` for every integer v. */
  lemma PyAndHighMask(v: int, n: nat, k: nat)
    requires k <= n <= 64
    ensures 0 <= Pow2(n) - Pow2(k) <= Mask64
    ensures PyAnd(v, Pow2(n) - Pow2(k)) == v % Pow2(n) - v % Pow2(k)
  {
    Pow2Mono(k, n);
    assert Pow2(n) <= Mask64 + 1 by { Pow2Mono(n, 64); Pow2Of64(); }
    var w := v % (Mask64 + 1);
    assert BitAnd(w, Pow2(n) - Pow2(k)) == w % Pow2(n) - w % Pow2(k) by { BitAndHighMask(w, n, k); }
    assert w % Pow2(n) == v % Pow2(n) by { ResidueBelow64(v, n); }
    assert w % Pow2(k) == v % Pow2(k) by { ResidueBelow64(v, k); }
  }

  /** Reducing modulo 2^64 first does not change a residue modulo 2^n, n <= 64. */
  lemma ResidueBelow64(v: int, n: nat)
    requires n <= 64
    ensures (v % (Mask64 + 1)) % Pow2(n) == v % Pow2(n)
  {
    Pow2Of64();
    Pow2Split(n, 64);
    ModOfMod(v, Pow2(n), Pow2(64 - n));
  }

  /** Python's `v & (2^n - 1)` is `v mod 2^n`, for every integer v. */
  lemma PyAndLowMask(v: int, n: nat)
    requires n <= 64
    ensures Pow2(n) - 1 <= Mask64
    ensures PyAnd(v, Pow2(n) - 1) == v % Pow2(n)
  {
    Pow2Of64();
    Pow2Mono(n, 64);
    Pow2Add(n, 64 - n);
    var w := v % (Mask64 + 1);
    calc {
      PyAnd(v, Pow2(n) - 1);
      BitAnd(w, Pow2(n) - 1);
      { BitAndLowMask(w, n); }
      w % Pow2(n);
      { ModOfMod(v, Pow2(n), Pow2(64 - n)); }
      v % Pow2(n);
    }
  }

  /** For 0 <= v < 2^n, bit n-1 of v is set exactly when v >= 2^(n-1). */
  lemma SignBit(v: nat, n: nat)
    requires 1 <= n <= 64 && v < Pow2(n)
    ensures Pow2(n - 1) <= Mask64
    ensures PyAnd(v, Pow2(n - 1)) != 0 <==> v >= Pow2(n - 1)
  {
    var h := Pow2(n - 1);
    assert h <= Mask64 by { Pow2Below64(n - 1); }
    assert v % (Mask64 + 1) == v by { Pow2AtMost64(n); DivModUnique(v, Mask64 + 1, 0, v); }
    assert BitAnd(v, h) == h * ((v / h) % 2) by { BitAndSingleBit(v, n - 1); }
    assert Pow2(n) == 2 * h;
    if v >= h {
      assert v / h == 1 by { DivModUnique(v, h, 1, v - h); }
    } else {
      assert v / h == 0 by { DivModUnique(v, h, 0, v); }
    }
  }

  // ---------------------------------------------------------------------
  // What each helper computes
  // ---------------------------------------------------------------------

  /** trim(value, nbits) is value modulo 2^nbits, for negative values too. */
  lemma TrimIsMod(value: int, nbits: nat)
    requires nbits <= 64
    ensures Trim(value, nbits) == value % Pow2(nbits)
    ensures 0 <= Trim(value, nbits) < Pow2(nbits)
  {
    LowMaskShift(nbits);
    PyAndLowMask(value, nbits);
  }

  lemma TrimIdempotent(value: int, nbits: nat)
    requires nbits <= 64
    ensures Trim(Trim(value, nbits), nbits) == Trim(value, nbits)
  {
    TrimIsMod(value, nbits);
    TrimIsMod(Trim(value, nbits), nbits);
    var t := Trim(value, nbits);
    DivModUnique(t, Pow2(nbits), 0, t);
  }

  lemma Trim64IsMod(value: int)
    ensures Trim64(value) == value % (Mask64 + 1)
  {
    assert Pow2(64) == Mask64 + 1 by { Pow2Of64(); }
    PyAndLowMask(value, 64);
  }

  /** trim_64(value) lies in [0, 2^64) and leaves values in that range alone. */
  lemma Trim64Range(value: int)
    ensures Trim64(value) == value % Pow2(64)
    ensures 0 <= Trim64(value) < Pow2(64)
    ensures 0 <= value < Pow2(64) ==> Trim64(value) == value
  {
    assert Pow2(64) - 1 == Mask64 by { Pow2Of64(); }
    PyAndLowMask(value, 64);
    if 0 <= value < Pow2(64) {
      DivModUnique(value, Pow2(64), 0, value);
    }
  }

  /** With bit 31 clear, sext_32 is the low 32 bits. */
  lemma Sext32WhenClear(value: int)
    requires value % 0x1_0000_0000 < 0x8000_0000
    ensures Sext32(value) == value % 0x1_0000_0000
  {
    var v := value % 0x1_0000_0000;
    assert PyAnd(value, 0xffff_ffff) == v by { Pow2Of32(); PyAndLowMask(value, 32); }
    assert PyAnd(v, 0x8000_0000) == 0 by { Pow2Of32(); Pow2Of31(); SignBit(v, 32); }
  }

  /** With bit 31 set, sext_32 sets bits 32..63 above the low 32 bits. */
  lemma Sext32WhenSet(value: int)
    requires value % 0x1_0000_0000 >= 0x8000_0000
    ensures Sext32(value) == 0xffff_ffff_0000_0000 + value % 0x1_0000_0000
  {
    var v := value % 0x1_0000_0000;
    assert PyAnd(value, 0xffff_ffff) == v by { Pow2Of32(); PyAndLowMask(value, 32); }
    assert PyAnd(v, 0x8000_0000) != 0 by { Pow2Of32(); Pow2Of31(); SignBit(v, 32); }
    assert BitOr(0xffff_ffff_0000_0000, v) == 0xffff_ffff_0000_0000 + v by {
      Pow2Of32();
      DivModUnique(0xffff_ffff_0000_0000, Pow2(32), 0xffff_ffff, 0);
      BitOrDisjoint(0xffff_ffff_0000_0000, v, 32);
    }
  }

  /**
   * sext_32(value) keeps the low 32 bits, copies bit 31 into bits 32..63 and
   * stays below 2^64.
   */
  lemma Sext32Spec(value: int)
    ensures Sext32(value) % 0x1_0000_0000 == value % 0x1_0000_0000
    ensures value % 0x1_0000_0000 >= 0x8000_0000 ==> Sext32(value) == 0xffff_ffff_0000_0000 + value % 0x1_0000_0000
    ensures value % 0x1_0000_0000 < 0x8000_0000 ==> Sext32(value) == value % 0x1_0000_0000
    ensures Sext32(value) <= Mask64
  {
    var v := value % 0x1_0000_0000;
    if v >= 0x8000_0000 {
      Sext32WhenSet(value);
      DivModUnique(0xffff_ffff_0000_0000 + v, 0x1_0000_0000, 0xffff_ffff, v);
    } else {
      Sext32WhenClear(value);
      ModSmall(v, 0x1_0000_0000);
    }
  }

  /** sext_32 is the signed 32-bit reading taken modulo 2^64. */
  lemma Sext32IsSignedMod64(value: int)
    ensures Sext32(value) == Signed(value, 32) % (Mask64 + 1)
  {
    var v := value % 0x1_0000_0000;
    assert Pow2(32) == 0x1_0000_0000 && Pow2(31) == 0x8000_0000 by { Pow2Of32(); Pow2Of31(); }
    if v >= 0x8000_0000 {
      Sext32WhenSet(value);
      assert Signed(value, 32) == v - 0x1_0000_0000 by { SignedWhenSet(value, 32); }
      ModWrap(v - 0x1_0000_0000, Mask64 + 1);
    } else {
      Sext32WhenClear(value);
      assert Signed(value, 32) == v by { SignedWhenClear(value, 32); }
      ModSmall(v, Mask64 + 1);
    }
  }

  lemma SignedWhenClear(value: int, nbits: nat)
    requires 1 <= nbits <= 64 && value % Pow2(nbits) < Pow2(nbits - 1)
    ensures Signed(value, nbits) == value % Pow2(nbits)
  {
    var v := value % Pow2(nbits);
    assert Trim(value, nbits) == v by { TrimIsMod(value, nbits); }
    assert ShiftLeft(1, nbits - 1) == Pow2(nbits - 1);
    assert PyAnd(v, Pow2(nbits - 1)) == 0 by { SignBit(v, nbits); }
  }

  lemma SignedWhenSet(value: int, nbits: nat)
    requires 1 <= nbits <= 64 && value % Pow2(nbits) >= Pow2(nbits - 1)
    ensures Signed(value, nbits) == value % Pow2(nbits) - Pow2(nbits)
  {
    var t := Trim(value, nbits);
    assert t == value % Pow2(nbits) by { TrimIsMod(value, nbits); }
    assert PyAnd(t, Pow2(nbits - 1)) != 0 by { SignBit(t, nbits); }
    SetSignBitWraps(value, nbits);
  }

  /** With the sign bit of the low nbits set, signed subtracts 2^nbits from them. */
  lemma SetSignBitWraps(value: int, nbits: nat)
    requires 1 <= nbits <= 64
    requires Pow2(nbits - 1) <= Mask64 && PyAnd(Trim(value, nbits), Pow2(nbits - 1)) != 0
    ensures Signed(value, nbits) == Trim(value, nbits) - Pow2(nbits)
  {
    var t := Trim(value, nbits);
    assert ShiftLeft(1, nbits - 1) == Pow2(nbits - 1);
    // the sign bit of 0 is clear, so t is not 0
    assert PyAnd(0, Pow2(nbits - 1)) == BitAnd(0, Pow2(nbits - 1)) == 0;
    assert Signed(value, nbits) == -(Trim(PyNot(t) + 1, nbits) as int);
    assert Trim(PyNot(t) + 1, nbits) == Pow2(nbits) - t by {
      TrimIsMod(value, nbits);
      NegatedTrim(t, nbits);
    }
  }

  /** Trimming the two's complement of a value in (0, 2^n) gives 2^n minus it. */
  lemma NegatedTrim(t: int, nbits: nat)
    requires nbits <= 64 && 0 < t < Pow2(nbits)
    ensures Trim(PyNot(t) + 1, nbits) == Pow2(nbits) - t
  {
    TrimIsMod(PyNot(t) + 1, nbits);
    ModWrap(PyNot(t) + 1, Pow2(nbits));
  }

  /** signed(value, nbits) reads the low nbits bits as a two's-complement number. */
  lemma SignedSpec(value: int, nbits: nat)
    requires 1 <= nbits <= 64
    ensures Pow2(nbits) == 2 * Pow2(nbits - 1)
    ensures -(Pow2(nbits - 1) as int) <= Signed(value, nbits) < Pow2(nbits - 1)
    ensures value % Pow2(nbits) < Pow2(nbits - 1) ==> Signed(value, nbits) == value % Pow2(nbits)
    ensures value % Pow2(nbits) >= Pow2(nbits - 1) ==> Signed(value, nbits) == value % Pow2(nbits) - Pow2(nbits)
  {
    assert Pow2(nbits) == 2 * Pow2(nbits - 1);
    if value % Pow2(nbits) < Pow2(nbits - 1) {
      SignedWhenClear(value, nbits);
    } else {
      SignedWhenSet(value, nbits);
    }
  }

  /** Round trip: truncating the signed reading gives back the truncated value. */
  lemma SignedTrimRoundTrip(value: int, nbits: nat)
    requires 1 <= nbits <= 64
    ensures Trim(Signed(value, nbits), nbits) == Trim(value, nbits)
  {
    SignedSpec(value, nbits);
    TrimIsMod(value, nbits);
    TrimIsMod(Signed(value, nbits), nbits);
    var v := value % Pow2(nbits);
    if v >= Pow2(nbits - 1) {
      DivModUnique(v - Pow2(nbits), Pow2(nbits), -1, v);
    } else {
      DivModUnique(v, Pow2(nbits), 0, v);
    }
  }

  /** 0xffffffffffffff << nbits, before it is cut to 64 bits. */
  lemma SextMaskShifted(nbits: nat)
    ensures ShiftLeft(0xff_ffff_ffff_ffff, nbits) == Pow2(nbits + 56) - Pow2(nbits)
    ensures ShiftLeft(0xff_ffff_ffff_ffff, nbits) == (Pow2(56) - 1) * Pow2(nbits)
  {
    Pow2Of56();
    Pow2Add(nbits, 56);
    MulPredecessor(Pow2(56), Pow2(nbits));
  }

  /** 2^m - 2^n is a multiple of 2^n. */
  lemma HighBitsAligned(x: int, nbits: nat, m: nat)
    requires nbits <= m && x == Pow2(m) - Pow2(nbits)
    ensures x % Pow2(nbits) == 0
  {
    Pow2Split(nbits, m);
    MultipleLessOne(Pow2(m), Pow2(nbits), Pow2(m - nbits));
  }

  /** If t == p * q then t - p is a multiple of p. */
  lemma MultipleLessOne(t: int, p: int, q: int)
    requires p > 0 && t == p * q
    ensures (t - p) % p == 0
  {
    MulPredecessor(q, p);
    DivModUnique(t - p, p, q - 1, 0);
  }

  lemma SextMaskWide(nbits: nat)
    requires 8 <= nbits <= 64
    ensures Trim64(ShiftLeft(0xff_ffff_ffff_ffff, nbits)) == Pow2(64) - Pow2(nbits)
  {
    SextMaskShifted(nbits);
    TrimWide(ShiftLeft(0xff_ffff_ffff_ffff, nbits), nbits);
  }

  /** 2^(n+56) - 2^n, cut to 64 bits, is 2^64 - 2^n when n >= 8. */
  lemma TrimWide(x: int, nbits: nat)
    requires 8 <= nbits <= 64 && x == Pow2(nbits + 56) - Pow2(nbits)
    ensures Trim64(x) == Pow2(64) - Pow2(nbits)
  {
    var big := Mask64 + 1;
    assert x % big == big - Pow2(nbits) by { ShiftedMod(nbits); Pow2Of64(); }
    assert Trim64(x) == x % big by { Trim64IsMod(x); }
    assert big == Pow2(64) by { Pow2Of64(); }
  }

  /** (2^(n+56) - 2^n) mod 2^64 is 2^64 - 2^n when n >= 8. */
  lemma ShiftedMod(nbits: nat)
    requires 8 <= nbits <= 64
    ensures (Pow2(nbits + 56) - Pow2(nbits)) % Pow2(64) == Pow2(64) - Pow2(nbits)
  {
    var big, p, wide := Pow2(64), Pow2(nbits), Pow2(nbits + 56);
    assert p <= big by { Pow2Mono(nbits, 64); }
    assert wide == big * Pow2(nbits - 8) by {
      Pow2Add(64, nbits - 8);
      assert 64 + (nbits - 8) == nbits + 56;
    }
    ModBelowMultiple(wide, big, Pow2(nbits - 8), p);
  }

  /** If t == k * d with k >= 1 and 0 < p <= d, then (t - p) mod d is d - p. */
  lemma ModBelowMultiple(t: int, d: int, k: int, p: int)
    requires k >= 1 && 0 < p <= d && t == d * k
    ensures (t - p) % d == d - p
  {
    MulPredecessor(k, d);
    if p == d {
      DivModUnique(t - p, d, k - 1, 0);
    } else {
      DivModUnique(t - p, d, k - 1, d - p);
    }
  }

  lemma SextMaskNarrow(nbits: nat)
    requires 1 <= nbits < 8
    ensures Trim64(ShiftLeft(0xff_ffff_ffff_ffff, nbits)) == Pow2(nbits + 56) - Pow2(nbits)
    ensures (Pow2(nbits + 56) - Pow2(nbits)) % Pow2(nbits) == 0
  {
    var p := Pow2(nbits);
    var x := ShiftLeft(0xff_ffff_ffff_ffff, nbits);
    SextMaskShifted(nbits);
    Trim64Range(x);
    Pow2Mono(nbits + 56, 63);
    Pow2Of56();
    Pow2Of64();
    DivModUnique(x, Pow2(64), 0, x);
    DivModUnique(x, p, Pow2(56) - 1, 0);
  }

  lemma SextWhenClear(value: int, nbits: nat)
    requires 1 <= nbits <= 64 && value % Pow2(nbits) < Pow2(nbits - 1)
    ensures Sext(value, nbits) == Trim(value, nbits) == value % Pow2(nbits)
  {
    var v := value % Pow2(nbits);
    assert Trim(value, nbits) == v by { TrimIsMod(value, nbits); }
    assert ShiftLeft(1, nbits - 1) == Pow2(nbits - 1);
    assert PyAnd(v, Pow2(nbits - 1)) == 0 by { SignBit(v, nbits); }
  }

  /** With the sign bit set, sext is the mask plus the kept low bits. */
  lemma SextWhenSet(value: int, nbits: nat)
    requires 1 <= nbits <= 64 && value % Pow2(nbits) >= Pow2(nbits - 1)
    ensures Sext(value, nbits) == Trim64(ShiftLeft(0xff_ffff_ffff_ffff, nbits)) + value % Pow2(nbits)
  {
    var v := Trim(value, nbits);
    var mask := Trim64(ShiftLeft(0xff_ffff_ffff_ffff, nbits));
    assert v == value % Pow2(nbits) < Pow2(nbits) by { TrimIsMod(value, nbits); }
    assert ShiftLeft(1, nbits - 1) == Pow2(nbits - 1);
    assert PyAnd(v, Pow2(nbits - 1)) != 0 by { SignBit(v, nbits); }
    assert BitOr(mask, v) == mask + v by { SextMaskAligned(nbits); BitOrDisjoint(mask, v, nbits); }
  }

  /** The fill mask of sext has none of the low nbits bits set. */
  lemma SextMaskAligned(nbits: nat)
    requires 1 <= nbits <= 64
    ensures Trim64(ShiftLeft(0xff_ffff_ffff_ffff, nbits)) % Pow2(nbits) == 0
  {
    if nbits >= 8 {
      SextMaskWide(nbits);
      HighBitsAligned(Trim64(ShiftLeft(0xff_ffff_ffff_ffff, nbits)), nbits, 64);
    } else {
      SextMaskNarrow(nbits);
    }
  }

  /**
   * sext(value, nbits): with bit nbits-1 clear the result is trim(value, nbits);
   * with it set the low nbits bits are kept, the result stays below 2^64, and
   * for nbits >= 8 every bit from nbits to 63 is set.
   */
  lemma SextSpec(value: int, nbits: nat)
    requires 1 <= nbits <= 64
    ensures Pow2(nbits) == 2 * Pow2(nbits - 1)
    ensures value % Pow2(nbits) < Pow2(nbits - 1) ==> Sext(value, nbits) == Trim(value, nbits)
    ensures Sext(value, nbits) % Pow2(nbits) == value % Pow2(nbits)
    ensures Sext(value, nbits) < Pow2(64)
    ensures nbits >= 8 && value % Pow2(nbits) >= Pow2(nbits - 1) ==>
              Sext(value, nbits) == Pow2(64) - Pow2(nbits) + value % Pow2(nbits)
    ensures nbits < 8 && value % Pow2(nbits) >= Pow2(nbits - 1) ==>
              Sext(value, nbits) == Pow2(nbits + 56) - Pow2(nbits) + value % Pow2(nbits)
  {
    var p := Pow2(nbits);
    assert p == 2 * Pow2(nbits - 1);
    var v := value % p;
    if v < Pow2(nbits - 1) {
      SextClearRange(value, nbits);
    } else if nbits >= 8 {
      SextSetWide(value, nbits);
    } else {
      SextSetNarrow(value, nbits);
    }
  }

  lemma SextClearRange(value: int, nbits: nat)
    requires 1 <= nbits <= 64 && value % Pow2(nbits) < Pow2(nbits - 1)
    ensures Sext(value, nbits) == Trim(value, nbits) == value % Pow2(nbits)
    ensures Sext(value, nbits) % Pow2(nbits) == value % Pow2(nbits)
    ensures Sext(value, nbits) < Pow2(64)
  {
    var p, v := Pow2(nbits), value % Pow2(nbits);
    assert p <= Pow2(64) by { Pow2Mono(nbits, 64); }
    SextWhenClear(value, nbits);
    DivModUnique(v, p, 0, v);
  }

  lemma SextSetWide(value: int, nbits: nat)
    requires 8 <= nbits <= 64 && value % Pow2(nbits) >= Pow2(nbits - 1)
    ensures Sext(value, nbits) == Pow2(64) - Pow2(nbits) + value % Pow2(nbits)
    ensures Sext(value, nbits) % Pow2(nbits) == value % Pow2(nbits)
    ensures Sext(value, nbits) < Pow2(64)
  {
    var p, v := Pow2(nbits), value % Pow2(nbits);
    var mask := Trim64(ShiftLeft(0xff_ffff_ffff_ffff, nbits));
    assert mask == Pow2(64) - p by { SextMaskWide(nbits); }
    assert Sext(value, nbits) == mask + v by { SextWhenSet(value, nbits); }
    assert mask % p == 0 by { HighBitsAligned(mask, nbits, 64); }
    MaskedSum(Sext(value, nbits), mask, v, p, Pow2(64));
  }

  lemma SextSetNarrow(value: int, nbits: nat)
    requires 1 <= nbits < 8 && value % Pow2(nbits) >= Pow2(nbits - 1)
    ensures Sext(value, nbits) == Pow2(nbits + 56) - Pow2(nbits) + value % Pow2(nbits)
    ensures Sext(value, nbits) % Pow2(nbits) == value % Pow2(nbits)
    ensures Sext(value, nbits) < Pow2(nbits + 56) <= Pow2(63) < Pow2(64)
  {
    var p, v := Pow2(nbits), value % Pow2(nbits);
    var mask := Trim64(ShiftLeft(0xff_ffff_ffff_ffff, nbits));
    assert Sext(value, nbits) == mask + v by { SextWhenSet(value, nbits); }
    assert mask == Pow2(nbits + 56) - p && mask % p == 0 by { SextMaskNarrow(nbits); }
    assert Pow2(nbits + 56) <= Pow2(63) by { Pow2Mono(nbits + 56, 63); }
    Pow2Of63();
    Pow2Of64();
    MaskedSum(Sext(value, nbits), mask, v, p, Pow2(nbits + 56));
  }

  /**
   * A multiple of p below t - p, plus a remainder below p, keeps that
   * remainder modulo p and stays below t.
   */
  lemma MaskedSum(s: int, mask: int, v: int, p: int, t: int)
    requires 0 <= v < p && mask % p == 0 && mask == t - p && s == mask + v
    ensures s % p == v && s < t
  {
    DivModUnique(s, p, mask / p, v);
  }

  /** A value in [0, d) is its own residue modulo d. */
  lemma ModSmall(x: int, d: int)
    requires 0 <= x < d
    ensures x % d == x
  {
    DivModUnique(x, d, 0, x);
  }

  /** A value in [-d, 0) wraps to x + d modulo d. */
  lemma ModWrap(x: int, d: int)
    requires d > 0 && -d <= x < 0
    ensures x % d == x + d
  {
    DivModUnique(x, d, -1, x + d);
  }

  /** With nbits >= 8, sext is the signed reading taken modulo 2^64. */
  lemma SextIsSignedMod64(value: int, nbits: nat)
    requires 8 <= nbits <= 64
    ensures Sext(value, nbits) == Signed(value, nbits) % Pow2(64)
  {
    var p, v, big := Pow2(nbits), value % Pow2(nbits), Pow2(64);
    assert p <= big by { Pow2Mono(nbits, 64); }
    if v >= Pow2(nbits - 1) {
      assert Sext(value, nbits) == big - p + v by { SextSetWide(value, nbits); }
      assert Signed(value, nbits) == v - p by { SignedWhenSet(value, nbits); }
      ModWrap(v - p, big);
    } else {
      assert Sext(value, nbits) == v by { SextWhenClear(value, nbits); }
      assert Signed(value, nbits) == v by { SignedWhenClear(value, nbits); }
      ModSmall(v, big);
    }
  }

  // ---------------------------------------------------------------------
  // sext below 8 bits: the 56-bit fill constant falls short of bit 63
  // ---------------------------------------------------------------------

  /**
   * For widths below 8 with the sign bit set, sext as written does not
   * agree with the signed reading taken modulo 2^64: bit 63 stays clear.
   */
  lemma SextNarrowDiffers(value: int, nbits: nat)
    requires 1 <= nbits < 8 && value % Pow2(nbits) >= Pow2(nbits - 1)
    ensures Sext(value, nbits) < Pow2(63) <= Signed(value, nbits) % Pow2(64)
  {
    var p, v := Pow2(nbits), value % Pow2(nbits);
    SextSpec(value, nbits);
    SignedSpec(value, nbits);
    assert Pow2(nbits + 56) <= Pow2(63) by { Pow2Mono(nbits + 56, 63); }
    assert p <= Pow2(8) by { Pow2Mono(nbits, 8); Pow2Of8(); }
    Pow2Of63();
    Pow2Of64();
    DivModUnique(v - p, Pow2(64), -1, Pow2(64) - p + v);
  }

  /** One input that shows it: sext(0x20, 6) leaves bits 62 and 63 clear. */
  lemma SextNarrowExample()
    ensures Sext(0x20, 6) == 0x3fff_ffff_ffff_ffe0
    ensures Signed(0x20, 6) % Pow2(64) == 0xffff_ffff_ffff_ffe0
  {
    Pow2Of64();
    assert Pow2(6) == 64 && Pow2(5) == 32;
    DivModUnique(0x20, 64, 0, 0x20);
    SextSpec(0x20, 6);
    SignedSpec(0x20, 6);
    DivModUnique(-32, Pow2(64), -1, 0xffff_ffff_ffff_ffe0);
  }

  /** sext with the fill built from all 64 one bits, as evidently intended. */
  function SextFull(value: int, nbits: nat): nat
    requires 1 <= nbits <= 64
  {
    var v := Trim(value, nbits);
    var signMask := ShiftLeft(1, nbits - 1);
    var mask := Trim64(ShiftLeft(Mask64, nbits));
    Pow2Below64(nbits - 1);
    if PyAnd(v, signMask) != 0 then BitOr(mask, v) else v
  }

  /** (2^64 - 1) << n, cut to 64 bits, is 2^64 - 2^n. */
  lemma FullMask(nbits: nat)
    requires nbits <= 64
    ensures Trim64(ShiftLeft(Mask64, nbits)) == Pow2(64) - Pow2(nbits)
  {
    var x := ShiftLeft(Mask64, nbits);
    assert x == Pow2(64 + nbits) - Pow2(nbits) by {
      Pow2Of64();
      MulPredecessor(Pow2(64), Pow2(nbits));
      Pow2Add(64, nbits);
    }
    var big := Mask64 + 1;
    assert x % big == big - Pow2(nbits) by { WideMod(nbits); Pow2Of64(); }
    assert Trim64(x) == x % big by { Trim64IsMod(x); }
    assert big == Pow2(64) by { Pow2Of64(); }
  }

  /** (2^(64+n) - 2^n) mod 2^64 is 2^64 - 2^n. */
  lemma WideMod(nbits: nat)
    requires nbits <= 64
    ensures (Pow2(64 + nbits) - Pow2(nbits)) % Pow2(64) == Pow2(64) - Pow2(nbits)
  {
    var big, p := Pow2(64), Pow2(nbits);
    assert p <= big by { Pow2Mono(nbits, 64); }
    assert Pow2(64 + nbits) == big * p by { Pow2Add(64, nbits); }
    ModBelowMultiple(Pow2(64 + nbits), big, p, p);
  }

  lemma SextFullWhenSet(value: int, nbits: nat)
    requires 1 <= nbits <= 64 && value % Pow2(nbits) >= Pow2(nbits - 1)
    ensures SextFull(value, nbits) == Pow2(64) - Pow2(nbits) + value % Pow2(nbits)
  {
    var v := Trim(value, nbits);
    var mask := Trim64(ShiftLeft(Mask64, nbits));
    assert v == value % Pow2(nbits) < Pow2(nbits) by { TrimIsMod(value, nbits); }
    assert ShiftLeft(1, nbits - 1) == Pow2(nbits - 1);
    assert PyAnd(v, Pow2(nbits - 1)) != 0 by { SignBit(v, nbits); }
    assert mask == Pow2(64) - Pow2(nbits) by { FullMask(nbits); }
    assert mask % Pow2(nbits) == 0 by { HighBitsAligned(mask, nbits, 64); }
    BitOrDisjoint(mask, v, nbits);
  }

  lemma SextFullWhenClear(value: int, nbits: nat)
    requires 1 <= nbits <= 64 && value % Pow2(nbits) < Pow2(nbits - 1)
    ensures SextFull(value, nbits) == value % Pow2(nbits)
  {
    var v := value % Pow2(nbits);
    assert Trim(value, nbits) == v by { TrimIsMod(value, nbits); }
    assert ShiftLeft(1, nbits - 1) == Pow2(nbits - 1);
    assert PyAnd(v, Pow2(nbits - 1)) == 0 by { SignBit(v, nbits); }
  }

  /** The corrected sext is the signed reading modulo 2^64 at every width. */
  lemma SextFullIsSignedMod64(value: int, nbits: nat)
    requires 1 <= nbits <= 64
    ensures SextFull(value, nbits) == Signed(value, nbits) % Pow2(64)
  {
    var p, v, big := Pow2(nbits), value % Pow2(nbits), Pow2(64);
    assert p <= big by { Pow2Mono(nbits, 64); }
    if v >= Pow2(nbits - 1) {
      assert SextFull(value, nbits) == big - p + v by { SextFullWhenSet(value, nbits); }
      assert Signed(value, nbits) == v - p by { SignedWhenSet(value, nbits); }
      ModWrap(v - p, big);
    } else {
      assert SextFull(value, nbits) == v by { SextFullWhenClear(value, nbits); }
      assert Signed(value, nbits) == v by { SignedWhenClear(value, nbits); }
      ModSmall(v, big);
    }
  }

  /** Where the widths overlap, the corrected sext agrees with sext as written. */
  lemma SextFullAgrees(value: int, nbits: nat)
    requires 8 <= nbits <= 64
    ensures SextFull(value, nbits) == Sext(value, nbits)
  {
    SextFullIsSignedMod64(value, nbits);
    SextIsSignedMod64(value, nbits);
  }
}
