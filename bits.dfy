/**
 * Python's integer operators as both drivers use them, on unbounded integers:
 * `<<`, `>>` (which floors, also for negative operands), `//` (which floors,
 * also for a negative divisor), and `|`, `&` on non-negative integers.
 */
module Bits {

  function Pow2(k: nat): (r: nat)
    ensures r >= 1
  {
    if k == 0 then 1 else 2 * Pow2(k - 1)
  }

  /** The powers of two the drivers shift by. */
  lemma Pow2Values()
    ensures Pow2(3) == 8 && Pow2(4) == 16 && Pow2(8) == 256 && Pow2(11) == 2048
    ensures Pow2(12) == 4096 && Pow2(13) == 8192 && Pow2(14) == 16384 && Pow2(16) == 65536
    ensures Pow2(17) == 131072 && Pow2(19) == 524288 && Pow2(20) == 1048576
    ensures Pow2(25) == 33554432 && Pow2(31) == 2147483648 && Pow2(33) == 8589934592
    ensures Pow2(35) == 34359738368 && Pow2(47) == 140737488355328
  {
    assert Pow2(1) == 2;
    assert Pow2(2) == 4;
    assert Pow2(3) == 8;
    assert Pow2(4) == 16;
    assert Pow2(5) == 32;
    assert Pow2(6) == 64;
    assert Pow2(7) == 128;
    assert Pow2(8) == 256;
    assert Pow2(9) == 512;
    assert Pow2(10) == 1024;
    assert Pow2(11) == 2048;
    assert Pow2(12) == 4096;
    assert Pow2(13) == 8192;
    assert Pow2(14) == 16384;
    assert Pow2(15) == 32768;
    assert Pow2(16) == 65536;
    assert Pow2(17) == 131072;
    assert Pow2(18) == 262144;
    assert Pow2(19) == 524288;
    assert Pow2(20) == 1048576;
    assert Pow2(21) == 2097152;
    assert Pow2(22) == 4194304;
    assert Pow2(23) == 8388608;
    assert Pow2(24) == 16777216;
    assert Pow2(25) == 33554432;
    assert Pow2(26) == 67108864;
    assert Pow2(27) == 134217728;
    assert Pow2(28) == 268435456;
    assert Pow2(29) == 536870912;
    assert Pow2(30) == 1073741824;
    assert Pow2(31) == 2147483648;
    assert Pow2(32) == 4294967296;
    assert Pow2(33) == 8589934592;
    assert Pow2(34) == 17179869184;
    assert Pow2(35) == 34359738368;
    assert Pow2(36) == 68719476736;
    assert Pow2(37) == 137438953472;
    assert Pow2(38) == 274877906944;
    assert Pow2(39) == 549755813888;
    assert Pow2(40) == 1099511627776;
    assert Pow2(41) == 2199023255552;
    assert Pow2(42) == 4398046511104;
    assert Pow2(43) == 8796093022208;
    assert Pow2(44) == 17592186044416;
    assert Pow2(45) == 35184372088832;
    assert Pow2(46) == 70368744177664;
    assert Pow2(47) == 140737488355328;
  }

  /** Python `x << k`. */
  function Shl(x: int, k: nat): (r: int)
    ensures x >= 0 ==> r >= 0
  {
    x * Pow2(k)
  }

  /** Python `x >> k`: the floor of x / 2^k, for negative x too. */
  function Shr(x: int, k: nat): (r: int)
    ensures Pow2(k) * r <= x < Pow2(k) * r + Pow2(k)
    ensures x >= 0 ==> r >= 0
  {
    var d := Pow2(k);
    var r := x / d;
    assert x == d * r + x % d && 0 <= x % d < d;
    assert x >= 0 ==> r >= 0 by {
      if x >= 0 && r < 0 {
        MulAtLeast(d, -r);
      }
    }
    r
  }

  /** Shifting a multiple of 2^k right by k bits divides it exactly, for either sign. */
  lemma ShrMultiple(y: int, k: nat)
    ensures Shr(Pow2(k) * y, k) == y
  {
    DivModUnique(Pow2(k) * y, Pow2(k), y, 0);
  }

  /** A shift right gives 0 exactly for the values in [0, 2^k). */
  lemma ShrZero(x: int, k: nat)
    ensures Shr(x, k) == 0 <==> 0 <= x < Pow2(k)
  {
    var r := Shr(x, k);
    if r >= 1 {
      MulAtLeast(Pow2(k), r);
    } else if r <= -1 {
      MulAtLeast(Pow2(k), -r);
    }
  }

  /**
   * Python `a // b`: the floor of a / b. Dafny's `/` is Euclidean, which
   * agrees with the floor only when the divisor is positive.
   */
  function FloorDiv(a: int, b: int): (q: int)
    requires b != 0
    ensures b > 0 ==> b * q <= a < b * q + b
    ensures b < 0 ==> b * q + b < a <= b * q
  {
    if b > 0 then a / b else (-a) / (-b)
  }

  /** Python `a | b` on non-negative integers, bit by bit from the least significant. */
  function Or(a: nat, b: nat): nat
    decreases a + b
  {
    if a == 0 then b
    else if b == 0 then a
    else 2 * Or(a / 2, b / 2) + (if a % 2 == 1 || b % 2 == 1 then 1 else 0)
  }

  /** Python `a & b` on non-negative integers, bit by bit from the least significant. */
  function And(a: nat, b: nat): nat
    decreases a + b
  {
    if a == 0 || b == 0 then 0
    else 2 * And(a / 2, b / 2) + (if a % 2 == 1 && b % 2 == 1 then 1 else 0)
  }

  /** Or-ing a value below 2^k into a value shifted left by k bits is addition. */
  lemma {:induction false} OrShifted(a: nat, b: nat, k: nat)
    requires b < Pow2(k)
    ensures Or(a * Pow2(k), b) == a * Pow2(k) + b
  {
    if k > 0 && a != 0 && b != 0 {
      var x := a * Pow2(k - 1);
      assert a * Pow2(k) == 2 * x;
      assert (2 * x) / 2 == x && (2 * x) % 2 == 0;
      assert b / 2 < Pow2(k - 1);
      OrShifted(a, b / 2, k - 1);
      assert Or(2 * x, b) == 2 * Or(x, b / 2) + b % 2;
    }
  }

  /** The remainder by 2m, through the remainder of the halved value by m. */
  lemma ModDouble(x: nat, m: nat)
    requires m > 0
    ensures x % (2 * m) == 2 * ((x / 2) % m) + x % 2
  {
    var h, q, r := x / 2, (x / 2) / m, (x / 2) % m;
    assert x == 2 * h + x % 2;
    assert h == m * q + r;
    assert x == (2 * m) * q + (2 * r + x % 2);
    DivModUnique(x, 2 * m, q, 2 * r + x % 2);
  }

  /** Euclidean division has one quotient and one remainder. */
  lemma DivModUnique(x: int, d: int, q: int, r: int)
    requires d > 0 && x == d * q + r && 0 <= r < d
    ensures x / d == q && x % d == r
  {
    var q', r' := x / d, x % d;
    assert x == d * q' + r';
    assert d * (q - q') == r' - r by {
      assert d * (q - q') == d * q - d * q';
    }
    if q - q' >= 1 {
      MulAtLeast(d, q - q');
    } else if q' - q >= 1 {
      MulAtLeast(d, q' - q);
    }
  }

  lemma MulAtLeast(d: nat, k: int)
    requires k >= 1
    ensures d * k >= d
  {
    assert d * k == d * (k - 1) + d;
  }

  /** Masking with 2^k - 1 keeps the k low bits: the remainder by 2^k. */
  lemma {:induction false} AndLowMask(x: nat, k: nat)
    ensures And(x, Pow2(k) - 1) == x % Pow2(k)
  {
    var p := Pow2(k);
    if k == 0 {
      assert p == 1 && And(x, 0) == 0;
    } else if x == 0 {
      assert And(0, p - 1) == 0 && 0 % p == 0;
    } else {
      var m := Pow2(k - 1);
      assert p == 2 * m;
      AndLowMask(x / 2, k - 1);
      AndLowMaskStep(x, m);
      assert And(x, 2 * m - 1) == x % (2 * m);
    }
  }

  /** One bit of AndLowMask: masking with 2m - 1 from masking the halved value with m - 1. */
  lemma AndLowMaskStep(x: nat, m: nat)
    requires x != 0 && m >= 1 && And(x / 2, m - 1) == (x / 2) % m
    ensures And(x, 2 * m - 1) == x % (2 * m)
  {
    var mask: nat := 2 * m - 1;
    assert mask / 2 == m - 1 && mask % 2 == 1 by {
      MaskHalves(m);
    }
    assert And(x, mask) == 2 * And(x / 2, m - 1) + x % 2 by {
      AndStep(x, mask);
    }
    assert x % (2 * m) == 2 * ((x / 2) % m) + x % 2 by {
      ModDouble(x, m);
    }
  }

  /** 2m - 1 is odd and halves to m - 1. */
  lemma MaskHalves(m: nat)
    requires m >= 1
    ensures (2 * m - 1) / 2 == m - 1 && (2 * m - 1) % 2 == 1
  {
    DivModUnique(2 * m - 1, 2, m - 1, 1);
  }

  lemma AndStep(x: nat, mask: nat)
    requires x != 0 && mask % 2 == 1
    ensures And(x, mask) == 2 * And(x / 2, mask / 2) + x % 2
  {
  }
}
