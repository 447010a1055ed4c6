/** The Goldilocks modulus is prime; powers, inverses and roots of unity in the field. */
module FieldTheory {
  import opened Bits
  import opened Goldilocks
  import opened Wrappers
  import Algebra

  // ---------- Powers ----------

  function Pow(a: F, n: nat): F {
    if n == 0 then 1 else Mul(a, Pow(a, n - 1))
  }

  lemma {:induction false} PowAdd(a: F, m: nat, n: nat)
    ensures Pow(a, m + n) == Mul(Pow(a, m), Pow(a, n))
  {
    hide Mul;
    if m == 0 {
      MulUnit(Pow(a, n));
    } else {
      PowAdd(a, m - 1, n);
      MulAssoc(a, Pow(a, m - 1), Pow(a, n));
    }
  }

  lemma {:induction false} PowMul(a: F, m: nat, n: nat)
    ensures Pow(Pow(a, m), n) == Pow(a, m * n)
    decreases n
  {
    hide Mul;
    if n > 0 {
      PowMul(a, m, n - 1);
      assert m * n == m + m * (n - 1);
      PowAdd(a, m, m * (n - 1));
    }
  }

  lemma {:induction false} MulPow(a: F, b: F, n: nat)
    ensures Pow(Mul(a, b), n) == Mul(Pow(a, n), Pow(b, n))
  {
    hide Mul;
    if n == 0 {
      MulUnit(1);
    } else {
      MulPow(a, b, n - 1);
      MulSwap(a, b, Pow(a, n - 1), Pow(b, n - 1));
    }
  }

  lemma {:induction false} PowOne(n: nat)
    ensures Pow(1, n) == 1
  {
    hide Mul;
    if n > 0 {
      PowOne(n - 1);
      MulUnit(1);
    }
  }

  lemma PowOnce(a: F)
    ensures Pow(a, 0) == 1 && Pow(a, 1) == a
  {}

  lemma PowNext(a: F, n: nat)
    ensures Pow(a, n + 1) == Mul(Pow(a, n), a)
  {
    hide Mul;
    MulComm(a, Pow(a, n));
  }

  lemma PowSquare(a: F, n: nat)
    ensures Pow(Mul(a, a), n) == Pow(a, 2 * n)
  {
    hide Mul, Pow;
    MulPow(a, a, n);
    PowAdd(a, n, n);
  }

  const MINUS_ONE: F := P - 1

  lemma MinusOneSquared()
    ensures Mul(MINUS_ONE, MINUS_ONE) == 1
    ensures forall a: F :: Mul(MINUS_ONE, a) == Neg(a)
  {
    hide Mul;
    forall a: F
      ensures Mul(MINUS_ONE, a) == Neg(a)
    {
      MulNeg(1, a);
      MulUnit(a);
    }
    assert Mul(MINUS_ONE, MINUS_ONE) == Neg(MINUS_ONE);
  }

  lemma {:induction false} PowMinusOne(n: nat)
    ensures Pow(MINUS_ONE, n) == if n % 2 == 0 then 1 else MINUS_ONE
  {
    hide Mul;
    if n > 0 {
      PowMinusOne(n - 1);
      MinusOneSquared();
      MulUnit(MINUS_ONE);
    }
  }

  // ---------- Congruence modulo a divisor of P ----------

  ghost predicate Congruent(d: int, x: int, y: int)
    requires d > 0
  {
    exists k :: x - y == k * d
  }

  lemma CongruentMul(d: int, e: int, x: F, y: F, z: F)
    requires d > 0 && d * e == P && Congruent(d, x, y)
    ensures Congruent(d, Mul(x, z), Mul(y, z))
  {
    hide Mul;
    var k :| x - y == k * d;
    MulIsMod(x, z); MulIsMod(y, z);
    var a, b := x * z / P, y * z / P;
    assert x * z - y * z == (x - y) * z;
    assert Mul(x, z) == x * z - a * P && Mul(y, z) == y * z - b * P;
    assert Mul(x, z) - Mul(y, z) == (k * z - a * e + b * e) * d;
  }

  lemma {:induction false} CongruentPow(d: int, e: int, x: F, n: nat)
    requires d > 0 && d * e == P && Congruent(d, x, 1)
    ensures Congruent(d, Pow(x, n), 1)
  {
    hide Mul;
    if n == 0 {
      assert 1 - 1 == 0 * d;
    } else {
      CongruentPow(d, e, x, n - 1);
      CongruentMul(d, e, x, 1, Pow(x, n - 1));
      MulUnit(Pow(x, n - 1));
      CongruentTrans(d, Pow(x, n), Pow(x, n - 1), 1);
    }
  }

  lemma CongruentTrans(d: int, x: int, y: int, z: int)
    requires d > 0 && Congruent(d, x, y) && Congruent(d, y, z)
    ensures Congruent(d, x, z)
  {
    var k :| x - y == k * d;
    var l :| y - z == l * d;
    assert x - z == (k + l) * d;
  }

  lemma MinusOneNotOne(d: int, e: int)
    requires d > 1 && d * e == P
    ensures !Congruent(d, MINUS_ONE, 1)
  {
    forall k
      ensures MINUS_ONE - 1 != k * d
    {
      var m := e - k;
      assert m * d == P - k * d;
      if m <= 0 {
        assert m * d <= 0;
      } else if m >= 2 {
        assert m * d >= 2 * d;
      }
    }
  }

  /** If h^(2^(n-1)) = -1 then no smaller positive power of h is 1, modulo any divisor of P. */
  lemma {:induction false} OrderExact(d: int, e: int, h: F, n: nat, k: nat)
    requires d > 1 && d * e == P
    requires n >= 1 && Pow(h, Pow2(n - 1)) == MINUS_ONE
    requires 0 < k < Pow2(n)
    ensures !Congruent(d, Pow(h, k), 1)
    decreases n
  {
    hide Mul, Pow;
    var half := Pow2(n - 1);
    if Congruent(d, Pow(h, k), 1) {
      if k % 2 == 0 {
        PowSquare(h, k / 2);
        PowSquare(h, Pow2(n - 2));
        OrderExact(d, e, Mul(h, h), n - 1, k / 2);
        assert false;
      } else {
        CongruentPow(d, e, Pow(h, k), half);
        PowMul(h, k, half);
        PowMul(h, half, k);
        assert k * half == half * k;
        PowMinusOne(k);
        MinusOneNotOne(d, e);
        assert false;
      }
    }
  }

  // ---------- P is prime ----------

  lemma {:induction false} Pigeonhole(s: seq<int>, d: nat)
    requires forall i :: 0 <= i < |s| ==> 0 <= s[i] < d
    requires forall i, j :: 0 <= i < j < |s| ==> s[i] != s[j]
    ensures |s| <= d
    decreases d
  {
    if s != [] { assert 0 <= s[0] < d; }
    if d > 0 {
      if i :| 0 <= i < |s| && s[i] == d - 1 {
        Pigeonhole(s[..i] + s[i + 1..], d - 1);
      } else {
        Pigeonhole(s, d - 1);
      }
    }
  }

  /** An element of order 2^32. */
  const ROOT_OF_UNITY: F := 0xEE41_F532_0C4E_A145

  /** Not a power of `ROOT_OF_UNITY`, and its inverse. */
  const NOT_ROOT_OF_UNITY: F := 0x79BC_2F50_ACD7_4161
  const NOT_ROOT_OF_UNITY_INV: F := 0x1036_C402_3580_CE8D

  /** One squaring: from base^(2^n) = x and x * x = y modulo P to base^(2^(n+1)) = y. */
  lemma SquareStep(base: F, n: nat, x: F, y: F)
    requires Pow(base, Pow2(n)) == x && (x * x) % P == y
    ensures Pow(base, Pow2(n + 1)) == y
  {
    hide Pow, Mul;
    PowAdd(base, Pow2(n), Pow2(n));
    MulIsMod(x, x);
  }

  lemma RootSquaringsStart()
    ensures Pow(ROOT_OF_UNITY, Pow2(16)) == 0x28CF_646D_8210_67BF
  {
    PowOnce(ROOT_OF_UNITY);
    Pow2Zero();
    hide Pow, Pow2;
    SquareStep(ROOT_OF_UNITY, 0, 0xEE41_F532_0C4E_A145, 0xFE2B_D158_C8BF_DE91);
    SquareStep(ROOT_OF_UNITY, 1, 0xFE2B_D158_C8BF_DE91, 0x98D6_65EF_4420_8E85);
    SquareStep(ROOT_OF_UNITY, 2, 0x98D6_65EF_4420_8E85, 0xE33F_993D_87D5_4971);
    SquareStep(ROOT_OF_UNITY, 3, 0xE33F_993D_87D5_4971, 0x6806_6D60_C87A_13F2);
    SquareStep(ROOT_OF_UNITY, 4, 0x6806_6D60_C87A_13F2, 0x6F0A_281D_07C8_7280);
    SquareStep(ROOT_OF_UNITY, 5, 0x6F0A_281D_07C8_7280, 0xAEBC_08E2_95BE_EC23);
    SquareStep(ROOT_OF_UNITY, 6, 0xAEBC_08E2_95BE_EC23, 0x2385_5662_93D5_FB45);
    SquareStep(ROOT_OF_UNITY, 7, 0x2385_5662_93D5_FB45, 0x11B8_AE96_7C84_2532);
    SquareStep(ROOT_OF_UNITY, 8, 0x11B8_AE96_7C84_2532, 0x51C9_4B76_63CF_FCB9);
    SquareStep(ROOT_OF_UNITY, 9, 0x51C9_4B76_63CF_FCB9, 0x768E_D6C1_2738_CDE5);
    SquareStep(ROOT_OF_UNITY, 10, 0x768E_D6C1_2738_CDE5, 0xAA87_0AC2_4649_310A);
    SquareStep(ROOT_OF_UNITY, 11, 0xAA87_0AC2_4649_310A, 0xB14E_4E24_A8CE_1B9F);
    SquareStep(ROOT_OF_UNITY, 12, 0xB14E_4E24_A8CE_1B9F, 0x9C9E_0ED0_4473_50D7);
    SquareStep(ROOT_OF_UNITY, 13, 0x9C9E_0ED0_4473_50D7, 0xD948_D20C_7583_9724);
    SquareStep(ROOT_OF_UNITY, 14, 0xD948_D20C_7583_9724, 0x1D12_68D1_4513_5299);
    SquareStep(ROOT_OF_UNITY, 15, 0x1D12_68D1_4513_5299, 0x28CF_646D_8210_67BF);
  }

  lemma RootEight()
    ensures Pow(ROOT_OF_UNITY, Pow2(26)) == 8
  {
    RootSquaringsStart();
    hide Pow, Pow2;
    SquareStep(ROOT_OF_UNITY, 16, 0x28CF_646D_8210_67BF, 0x151F_6E79_4E46_95B3);
    SquareStep(ROOT_OF_UNITY, 17, 0x151F_6E79_4E46_95B3, 0x368D_704C_6FCA_ACC6);
    SquareStep(ROOT_OF_UNITY, 18, 0x368D_704C_6FCA_ACC6, 0xE710_D6A1_A0D3_10D6);
    SquareStep(ROOT_OF_UNITY, 19, 0xE710_D6A1_A0D3_10D6, 0x15CD_19EC_38EC_6CC0);
    SquareStep(ROOT_OF_UNITY, 20, 0x15CD_19EC_38EC_6CC0, 0x2198_3D81_660D_53D8);
    SquareStep(ROOT_OF_UNITY, 21, 0x2198_3D81_660D_53D8, 0x1151_9AAD_463D_A060);
    SquareStep(ROOT_OF_UNITY, 22, 0x1151_9AAD_463D_A060, 0xA6B3_9460_0E9C_A35C);
    SquareStep(ROOT_OF_UNITY, 23, 0xA6B3_9460_0E9C_A35C, 0x3D21_2E8C_BC8A_1ED3);
    SquareStep(ROOT_OF_UNITY, 24, 0x3D21_2E8C_BC8A_1ED3, 0x0000_01FF_FDFF_FE00);
    SquareStep(ROOT_OF_UNITY, 25, 0x0000_01FF_FDFF_FE00, 0x0000_0000_0000_0008);
  }

  /** ROOT_OF_UNITY^(2^31) = -1, by 31 squarings; the 26th gives 8. */
  lemma RootSquarings()
    ensures Pow(ROOT_OF_UNITY, Pow2(31)) == MINUS_ONE
  {
    RootEight();
    hide Pow, Pow2;
    SquareStep(ROOT_OF_UNITY, 26, 0x0000_0000_0000_0008, 0x0000_0000_0000_0040);
    SquareStep(ROOT_OF_UNITY, 27, 0x0000_0000_0000_0040, 0x0000_0000_0000_1000);
    SquareStep(ROOT_OF_UNITY, 28, 0x0000_0000_0000_1000, 0x0000_0000_0100_0000);
    SquareStep(ROOT_OF_UNITY, 29, 0x0000_0000_0100_0000, 0x0001_0000_0000_0000);
    SquareStep(ROOT_OF_UNITY, 30, 0x0001_0000_0000_0000, 0xFFFF_FFFF_0000_0000);
  }

  lemma SkewSquaringsStart()
    ensures Pow(NOT_ROOT_OF_UNITY, Pow2(16)) == 0xCC5B_89F7_8154_D328
  {
    PowOnce(NOT_ROOT_OF_UNITY);
    Pow2Zero();
    hide Pow, Pow2;
    SquareStep(NOT_ROOT_OF_UNITY, 0, 0x79BC_2F50_ACD7_4161, 0x0854_8052_351C_E6D8);
    SquareStep(NOT_ROOT_OF_UNITY, 1, 0x0854_8052_351C_E6D8, 0x8FB7_D620_258C_796F);
    SquareStep(NOT_ROOT_OF_UNITY, 2, 0x8FB7_D620_258C_796F, 0xA15A_393E_1150_D796);
    SquareStep(NOT_ROOT_OF_UNITY, 3, 0xA15A_393E_1150_D796, 0x0405_9D95_9B62_2153);
    SquareStep(NOT_ROOT_OF_UNITY, 4, 0x0405_9D95_9B62_2153, 0xB65C_8D79_D41E_58F9);
    SquareStep(NOT_ROOT_OF_UNITY, 5, 0xB65C_8D79_D41E_58F9, 0xD8C7_B64B_A805_5D9D);
    SquareStep(NOT_ROOT_OF_UNITY, 6, 0xD8C7_B64B_A805_5D9D, 0x9395_108B_8BD3_E349);
    SquareStep(NOT_ROOT_OF_UNITY, 7, 0x9395_108B_8BD3_E349, 0x8FF3_92AE_DEF4_29CD);
    SquareStep(NOT_ROOT_OF_UNITY, 8, 0x8FF3_92AE_DEF4_29CD, 0xE00D_0006_C78D_508E);
    SquareStep(NOT_ROOT_OF_UNITY, 9, 0xE00D_0006_C78D_508E, 0x8280_5965_F7C6_BC8F);
    SquareStep(NOT_ROOT_OF_UNITY, 10, 0x8280_5965_F7C6_BC8F, 0x8192_FE1C_D2BA_0F99);
    SquareStep(NOT_ROOT_OF_UNITY, 11, 0x8192_FE1C_D2BA_0F99, 0xDB1D_E3A2_8C34_BB98);
    SquareStep(NOT_ROOT_OF_UNITY, 12, 0xDB1D_E3A2_8C34_BB98, 0x4DC6_5D2D_CA8B_9A87);
    SquareStep(NOT_ROOT_OF_UNITY, 13, 0x4DC6_5D2D_CA8B_9A87, 0x5306_9DB6_4FA8_2D2D);
    SquareStep(NOT_ROOT_OF_UNITY, 14, 0x5306_9DB6_4FA8_2D2D, 0xECCA_910F_00BF_A6C3);
    SquareStep(NOT_ROOT_OF_UNITY, 15, 0xECCA_910F_00BF_A6C3, 0xCC5B_89F7_8154_D328);
  }

  /** NOT_ROOT_OF_UNITY^(2^32) is NOT_ROOT_OF_UNITY again, by 32 squarings. */
  lemma SkewSquarings()
    ensures Pow(NOT_ROOT_OF_UNITY, Pow2(32)) == NOT_ROOT_OF_UNITY
  {
    SkewSquaringsStart();
    hide Pow, Pow2;
    SquareStep(NOT_ROOT_OF_UNITY, 16, 0xCC5B_89F7_8154_D328, 0x51E6_DAA6_16D8_F715);
    SquareStep(NOT_ROOT_OF_UNITY, 17, 0x51E6_DAA6_16D8_F715, 0x239B_DA77_AC0F_FC4C);
    SquareStep(NOT_ROOT_OF_UNITY, 18, 0x239B_DA77_AC0F_FC4C, 0xF0A2_3E01_A432_F69D);
    SquareStep(NOT_ROOT_OF_UNITY, 19, 0xF0A2_3E01_A432_F69D, 0x7CD7_79C8_EBBD_56C2);
    SquareStep(NOT_ROOT_OF_UNITY, 20, 0x7CD7_79C8_EBBD_56C2, 0x4497_0D0E_B92E_870E);
    SquareStep(NOT_ROOT_OF_UNITY, 21, 0x4497_0D0E_B92E_870E, 0x7DB0_2578_BF7D_806A);
    SquareStep(NOT_ROOT_OF_UNITY, 22, 0x7DB0_2578_BF7D_806A, 0xE847_86CA_1FB4_B1D3);
    SquareStep(NOT_ROOT_OF_UNITY, 23, 0xE847_86CA_1FB4_B1D3, 0xAED6_18E6_6EEE_6A4F);
    SquareStep(NOT_ROOT_OF_UNITY, 24, 0xAED6_18E6_6EEE_6A4F, 0x3AF5_2AAE_6128_3425);
    SquareStep(NOT_ROOT_OF_UNITY, 25, 0x3AF5_2AAE_6128_3425, 0xB85E_615D_95B1_2DFA);
    SquareStep(NOT_ROOT_OF_UNITY, 26, 0xB85E_615D_95B1_2DFA, 0xAFA3_43A3_EE3D_5B87);
    SquareStep(NOT_ROOT_OF_UNITY, 27, 0xAFA3_43A3_EE3D_5B87, 0xD203_D9BE_F636_25A6);
    SquareStep(NOT_ROOT_OF_UNITY, 28, 0xD203_D9BE_F636_25A6, 0x8A83_5119_23A7_2F75);
    SquareStep(NOT_ROOT_OF_UNITY, 29, 0x8A83_5119_23A7_2F75, 0xB140_1A4E_72A4_AD62);
    SquareStep(NOT_ROOT_OF_UNITY, 30, 0xB140_1A4E_72A4_AD62, 0x5C5D_B57C_C3CE_D3AB);
    SquareStep(NOT_ROOT_OF_UNITY, 31, 0x5C5D_B57C_C3CE_D3AB, 0x79BC_2F50_ACD7_4161);
  }

  /** Every divisor of P above 1 has 2^32 different residues among the powers of the root. */
  lemma DivisorLarge(d: int, e: int)
    requires d > 1 && d * e == P
    ensures d >= 0x1_0000_0000
  {
    hide Pow, Mul;
    var n := 0x1_0000_0000;
    var s := seq(n, i requires i >= 0 => Pow(ROOT_OF_UNITY, i) % d);
    forall i, j | 0 <= i < j < n
      ensures s[i] != s[j]
    {
      PowersDiffer(d, e, i, j);
    }
    Pigeonhole(s, d);
  }

  lemma PowersDiffer(d: int, e: int, i: nat, j: nat)
    requires d > 1 && d * e == P && i < j < 0x1_0000_0000
    ensures Pow(ROOT_OF_UNITY, i) % d != Pow(ROOT_OF_UNITY, j) % d
  {
    hide Pow, Mul, Pow2;
    var n, g := 0x1_0000_0000, ROOT_OF_UNITY;
    var x, y, z := Pow(g, i), Pow(g, j), Pow(g, n - i);
    RootOrder();
    PowAdd(g, i, n - i);
    PowAdd(g, j, n - i);
    assert Mul(x, z) == 1;
    PowAdd(g, n, j - i);
    MulUnit(Pow(g, j - i));
    Pow2Values();
    RootSquarings();
    OrderExact(d, e, g, 32, j - i);
    if x % d == y % d {
      assert y - x == (y / d - x / d) * d;
      CongruentMul(d, e, y, x, z);
      assert false;
    }
  }

  lemma RootOrder()
    ensures Pow(ROOT_OF_UNITY, 0x1_0000_0000) == 1
  {
    hide Pow, Mul, Pow2;
    RootSquarings();
    Pow2Values();
    MinusOneSquared();
    PowAdd(ROOT_OF_UNITY, 0x8000_0000, 0x8000_0000);
  }

  /** P is prime. */
  lemma PIsPrime(d: int, e: int)
    requires d > 1 && d * e == P
    ensures d == P
  {
    DivisorLarge(d, e);
    if e > 1 {
      DivisorLarge(e, d);
      ProductLarge(d, e);
      assert false;
    }
  }

  lemma ProductLarge(d: int, e: int)
    requires d >= 0x1_0000_0000 && e >= 0x1_0000_0000
    ensures d * e >= WORD
  {}

  /** The field has no zero divisors: descend from a to P mod a. */
  lemma {:induction false} NoZeroDivisors(a: F, b: F)
    requires a != 0 && Mul(a, b) == 0
    ensures b == 0
    decreases a
  {
    hide Mul;
    var q, r := P / a, P % a;
    assert P == a * q + r;
    if r == 0 {
      if a > 1 {
        PIsPrime(a, q);
      }
      MulUnit(b);
    } else {
      MulIsMod(a, b);
      MulIsMod(r, b);
      var k := a * b / P;
      assert a * b == k * P;
      assert r * b == (b - q * k) * P by {
        assert r * b == P * b - q * (a * b);
      }
      ModAddMultiple(0, b - q * k);
      NoZeroDivisors(r, b);
    }
  }

  lemma MulCancel(a: F, b: F, c: F)
    requires a != 0 && Mul(a, b) == Mul(a, c)
    ensures b == c
  {
    hide Mul;
    MulSub(a, b, c);
    AddCancel(Mul(a, b), Mul(a, c));
    NoZeroDivisors(a, Sub(b, c));
    AddCancel(b, c);
  }

  lemma NonZeroProduct(a: F, b: F)
    requires a != 0 && b != 0
    ensures Mul(a, b) != 0
  {
    hide Mul;
    if Mul(a, b) == 0 {
      NoZeroDivisors(a, b);
      assert false;
    }
  }

  lemma {:induction false} NonZeroPow(a: F, n: nat)
    requires a != 0
    ensures Pow(a, n) != 0
  {
    hide Mul;
    if n > 0 {
      NonZeroPow(a, n - 1);
      NonZeroProduct(a, Pow(a, n - 1));
    }
  }

  // ---------- Fermat's little theorem and inverses ----------

  ghost function SetProduct(s: set<F>): F
    decreases |s|
  {
    if s == {} then 1
    else
      var x :| x in s;
      Mul(x, SetProduct(s - {x}))
  }

  lemma {:induction false} SetProductRemove(s: set<F>, y: F)
    requires y in s
    ensures SetProduct(s) == Mul(y, SetProduct(s - {y}))
    decreases |s|
  {
    hide Mul;
    var x :| x in s && SetProduct(s) == Mul(x, SetProduct(s - {x}));
    if x != y {
      SetProductRemove(s - {x}, y);
      SetProductRemove(s - {y}, x);
      assert s - {x} - {y} == s - {y} - {x};
      var rest := SetProduct(s - {x} - {y});
      MulAssoc(x, y, rest);
      MulAssoc(y, x, rest);
      MulComm(x, y);
    }
  }

  ghost function Scaled(a: F, s: set<F>): set<F> {
    set x | x in s :: Mul(a, x)
  }

  lemma ScaledFresh(a: F, x: F, s: set<F>)
    requires a != 0 && x !in s
    ensures Mul(a, x) !in Scaled(a, s)
  {
    hide Mul;
    if Mul(a, x) in Scaled(a, s) {
      var y :| y in s && Mul(a, y) == Mul(a, x);
      MulCancel(a, y, x);
      assert false;
    }
  }

  lemma {:induction false} ScaledProduct(a: F, s: set<F>)
    requires a != 0
    ensures |Scaled(a, s)| == |s|
    ensures SetProduct(Scaled(a, s)) == Mul(Pow(a, |s|), SetProduct(s))
    decreases |s|
  {
    hide Mul, SetProduct;
    if s == {} {
      assert Scaled(a, s) == {};
      SetProductEmpty();
      MulUnit(1);
    } else {
      var x :| x in s;
      var rest, y := s - {x}, Mul(a, x);
      ScaledProduct(a, rest);
      ScaledFresh(a, x, rest);
      var t := Scaled(a, rest);
      assert Scaled(a, s) == t + {y};
      assert t + {y} - {y} == t;
      SetProductRemove(t + {y}, y);
      SetProductRemove(s, x);
      MulSwap(a, x, Pow(a, |rest|), SetProduct(rest));
    }
  }

  lemma SetProductEmpty()
    ensures SetProduct({}) == 1
  {}

  ghost predicate Unit(x: F) { x != 0 }

  ghost function Units(n: int): set<F> {
    set x: F | Unit(x) && x < n
  }

  lemma {:induction false} UnitsCount(n: int)
    requires 1 <= n <= P
    ensures |Units(n)| == n - 1
  {
    if n == 1 {
      assert Units(n) == {};
    } else {
      UnitsCount(n - 1);
      assert Units(n) == Units(n - 1) + {n - 1};
    }
  }

  lemma {:induction false} SetProductNonZero(s: set<F>)
    requires 0 !in s
    ensures SetProduct(s) != 0
    decreases |s|
  {
    hide Mul;
    if s != {} {
      var x :| x in s;
      SetProductRemove(s, x);
      SetProductNonZero(s - {x});
      NonZeroProduct(x, SetProduct(s - {x}));
    }
  }

  lemma SubsetSameSize(a: set<F>, b: set<F>)
    requires a <= b && |a| == |b|
    ensures a == b
  {
    assert |b - a| == |b| - |a|;
  }

  lemma Fermat(a: F)
    requires a != 0
    ensures Pow(a, P - 1) == 1
  {
    hide Mul, SetProduct;
    var s := Units(P);
    UnitsCount(P);
    ScaledProduct(a, s);
    forall x | x in s
      ensures Mul(a, x) in s
    {
      NonZeroProduct(a, x);
    }
    SubsetSameSize(Scaled(a, s), s);
    SetProductNonZero(s);
    MulComm(Pow(a, P - 1), SetProduct(s));
    MulUnit(SetProduct(s));
    MulCancel(SetProduct(s), Pow(a, P - 1), 1);
  }

  /** The multiplicative inverse, as the power P - 2. */
  function Inv(a: F): F { Pow(a, P - 2) }

  lemma InvCorrect(a: F)
    ensures a != 0 ==> Mul(a, Inv(a)) == 1
    ensures a == 0 ==> Inv(a) == 0
  {
    hide Mul, Pow;
    if a != 0 {
      Fermat(a);
      PowAdd(a, 1, P - 2);
      PowOnce(a);
    } else {
      PowAdd(0, 1, P - 3);
      PowOnce(0);
      MulUnit(Pow(0, P - 3));
    }
  }

  /** `Ring::exp` in the field. */
  method Exp(x: F, bitsLe: seq<U64>) returns (r: F)
    ensures r == Pow(x, Algebra.LimbsValue(bitsLe))
  {
    FieldMonoid();
    r := Algebra.MonoidExp(1, Mul, (a: F) => Mul(a, a), x, bitsLe);
    PowIsMonoidPow(x, Algebra.LimbsValue(bitsLe));
  }

  lemma FieldMonoid()
    ensures Algebra.IsMonoid(1, Mul)
  {
    hide Mul;
    forall a: F
      ensures Mul(1, a) == a && Mul(a, 1) == a
    {
      MulUnit(a);
    }
    forall a: F, b: F, c: F
      ensures Mul(Mul(a, b), c) == Mul(a, Mul(b, c))
    {
      MulAssoc(a, b, c);
    }
  }

  lemma {:induction false} PowIsMonoidPow(x: F, n: nat)
    ensures Algebra.MonoidPow(1, Mul, x, n) == Pow(x, n)
  {
    hide Mul;
    if n > 0 { PowIsMonoidPow(x, n - 1); }
  }

  /** `F::inv`. */
  method Invert(x: F) returns (r: F)
    ensures r == Inv(x)
  {
    hide Pow;
    r := Exp(x, [P - 2]);
    assert Algebra.LimbsValue([P - 2]) == P - 2;
  }

  // ---------- Roots of unity ----------

  /** w generates the 2^k-th roots of unity. */
  ghost predicate IsRoot(w: F, k: nat) {
    if k == 0 then w == 1 else Pow(w, Pow2(k - 1)) == MINUS_ONE
  }

  lemma RootProperties(w: F, k: nat)
    requires IsRoot(w, k)
    ensures Pow(w, Pow2(k)) == 1 && w != 0
    ensures k > 0 ==> IsRoot(Mul(w, w), k - 1)
  {
    hide Mul, Pow;
    PowOnce(w);
    if k > 0 {
      PowAdd(w, Pow2(k - 1), Pow2(k - 1));
      MinusOneSquared();
      if k > 1 {
        PowSquare(w, Pow2(k - 2));
      } else {
        assert w == MINUS_ONE;
      }
      if w == 0 {
        PowAdd(w, 1, Pow2(k - 1) - 1);
        MulUnit(Pow(w, Pow2(k - 1) - 1));
        assert false;
      }
    }
  }

  /** The powers of w below 2^k are distinct. */
  lemma RootPowersDistinct(w: F, k: nat, i: nat, j: nat)
    requires IsRoot(w, k) && i < Pow2(k) && j < Pow2(k) && i != j
    ensures Pow(w, i) != Pow(w, j)
  {
    hide Mul, Pow;
    if i > j {
      RootPowersDistinct(w, k, j, i);
    } else {
      PowAdd(w, i, j - i);
      OrderExact(P, 1, w, k, j - i);
      assert 1 - 1 == 0 * P;
      RootProperties(w, k);
      NonZeroPow(w, i);
      MulUnit(Pow(w, i));
      if Pow(w, i) == Pow(w, j) {
        MulCancel(Pow(w, i), 1, Pow(w, j - i));
        assert false;
      }
    }
  }

  /** `F::root_of_unity`: start from the element of order 2^32 and square 32 - k times. */
  method RootOfUnity(k: nat) returns (r: Option<F>)
    ensures r.None? <==> k > 32
    ensures r.Some? ==> r.value == Root(k)
  {
    hide Mul, Pow, Pow2;
    if k > 32 {
      return None;
    }
    var out := ROOT_OF_UNITY;
    PowOnce(out);
    Pow2Zero();
    for i := 0 to 32 - k
      invariant out == Pow(ROOT_OF_UNITY, Pow2(i))
    {
      PowAdd(ROOT_OF_UNITY, Pow2(i), Pow2(i));
      Pow2Next(i);
      out := Mul(out, out);
    }
    r := Some(out);
  }

  function Root(k: nat): F
    requires k <= 32
  {
    Pow(ROOT_OF_UNITY, Pow2(32 - k))
  }

  lemma RootIsRoot(k: nat)
    requires k <= 32
    ensures IsRoot(Root(k), k)
  {
    hide Mul, Pow, Pow2;
    if k == 0 {
      RootOrder();
      Pow2Values();
    } else {
      RootSquarings();
      PowMul(ROOT_OF_UNITY, Pow2(32 - k), Pow2(k - 1));
      Pow2Add(32 - k, k - 1);
    }
  }

  /** The skew is not a 2^k-th root of unity: multiplying by it moves every point off the domain. */
  lemma SkewNotRoot(k: nat)
    requires k <= 32
    ensures Pow(NOT_ROOT_OF_UNITY, Pow2(k)) != 1
  {
    hide Mul, Pow, Pow2;
    SkewSquarings();
    if Pow(NOT_ROOT_OF_UNITY, Pow2(k)) == 1 {
      PowMul(NOT_ROOT_OF_UNITY, Pow2(k), Pow2(32 - k));
      Pow2Add(k, 32 - k);
      PowOne(Pow2(32 - k));
      assert false;
    }
  }

  lemma SkewInverse()
    ensures Mul(NOT_ROOT_OF_UNITY, NOT_ROOT_OF_UNITY_INV) == 1
  {
    hide Mul;
    MulIsMod(NOT_ROOT_OF_UNITY, NOT_ROOT_OF_UNITY_INV);
  }

  // ---------- Where the constants come from ----------

  /** The other constants are powers of it. */
  const GENERATOR: F := 0xD64F_9511_01AF_F9BF

  /** The generator is 7^133. */
  lemma GeneratorOrigin(base: F, n: nat)
    requires base == 7 && n == 133
    ensures Pow(base, n) == GENERATOR
  {
    hide Pow, Pow2, Mul;
    PowOnce(base);
    Pow2Zero();
    Pow2Small();
    Pow2Add(1, 1);
    SquareStep(base, 0, 0x0000_0000_0000_0007, 0x0000_0000_0000_0031);
    SquareStep(base, 1, 0x0000_0000_0000_0031, 0x0000_0000_0000_0961);
    SquareStep(base, 2, 0x0000_0000_0000_0961, 0x0000_0000_0057_F6C1);
    SquareStep(base, 3, 0x0000_0000_0057_F6C1, 0x0000_1E39_A505_7D81);
    SquareStep(base, 4, 0x0000_1E39_A505_7D81, 0x33CD_C300_6AFF_AB59);
    SquareStep(base, 5, 0x33CD_C300_6AFF_AB59, 0x9C23_2DFB_69AB_851E);
    SquareStep(base, 6, 0x9C23_2DFB_69AB_851E, 0xA8C0_0422_5447_0173);
    PowAdd(base, Pow2(7), Pow2(2));
    MulIsMod(0xA8C0_0422_5447_0173, 0x0000_0000_0000_0961);
    PowAdd(base, n - 1, 1);
    MulIsMod(0xB0E6_CC26_6DF4_9165, base);
  }

  lemma GeneratorSquaringsStart()
    ensures Pow(GENERATOR, Pow2(16)) == 0x9E1E_9B9C_05F4_3D2F
  {
    PowOnce(GENERATOR);
    Pow2Zero();
    hide Pow, Pow2;
    SquareStep(GENERATOR, 0, 0xD64F_9511_01AF_F9BF, 0x501A_6787_6B3F_E94C);
    SquareStep(GENERATOR, 1, 0x501A_6787_6B3F_E94C, 0x6FE9_ADDC_428A_F068);
    SquareStep(GENERATOR, 2, 0x6FE9_ADDC_428A_F068, 0xF90E_BEF2_8E3D_A358);
    SquareStep(GENERATOR, 3, 0xF90E_BEF2_8E3D_A358, 0x1150_49DF_A433_167F);
    SquareStep(GENERATOR, 4, 0x1150_49DF_A433_167F, 0x7F6D_D635_BA81_9814);
    SquareStep(GENERATOR, 5, 0x7F6D_D635_BA81_9814, 0x30DE_4136_0306_5190);
    SquareStep(GENERATOR, 6, 0x30DE_4136_0306_5190, 0x5D4A_C54A_D7FC_411D);
    SquareStep(GENERATOR, 7, 0x5D4A_C54A_D7FC_411D, 0x8F48_6022_CD69_E8AA);
    SquareStep(GENERATOR, 8, 0x8F48_6022_CD69_E8AA, 0x883E_13E3_898C_A4BC);
    SquareStep(GENERATOR, 9, 0x883E_13E3_898C_A4BC, 0x0ABF_82CD_2137_C611);
    SquareStep(GENERATOR, 10, 0x0ABF_82CD_2137_C611, 0x35AE_CF3E_9E93_E0D7);
    SquareStep(GENERATOR, 11, 0x35AE_CF3E_9E93_E0D7, 0x504A_98FC_0691_FB80);
    SquareStep(GENERATOR, 12, 0x504A_98FC_0691_FB80, 0x0175_9888_73AA_4126);
    SquareStep(GENERATOR, 13, 0x0175_9888_73AA_4126, 0xF7C4_2058_E286_D038);
    SquareStep(GENERATOR, 14, 0xF7C4_2058_E286_D038, 0x3040_D0D9_82DD_A3DA);
    SquareStep(GENERATOR, 15, 0x3040_D0D9_82DD_A3DA, 0x9E1E_9B9C_05F4_3D2F);
  }

  /** The skew is the generator to 2^32, by 32 squarings. */
  lemma SkewOrigin()
    ensures Pow(GENERATOR, Pow2(32)) == NOT_ROOT_OF_UNITY
  {
    GeneratorSquaringsStart();
    hide Pow, Pow2;
    SquareStep(GENERATOR, 16, 0x9E1E_9B9C_05F4_3D2F, 0xCD6A_1DC0_B60C_73D3);
    SquareStep(GENERATOR, 17, 0xCD6A_1DC0_B60C_73D3, 0x89B9_2DEA_24C0_3226);
    SquareStep(GENERATOR, 18, 0x89B9_2DEA_24C0_3226, 0xED2A_A264_A8C0_2A05);
    SquareStep(GENERATOR, 19, 0xED2A_A264_A8C0_2A05, 0x96AE_A94E_B22E_F24F);
    SquareStep(GENERATOR, 20, 0x96AE_A94E_B22E_F24F, 0xD3B3_82ED_AD4A_1396);
    SquareStep(GENERATOR, 21, 0xD3B3_82ED_AD4A_1396, 0x5B1C_822D_3A27_81A6);
    SquareStep(GENERATOR, 22, 0x5B1C_822D_3A27_81A6, 0xE284_DF10_F660_AA0E);
    SquareStep(GENERATOR, 23, 0xE284_DF10_F660_AA0E, 0xF6C6_DF5D_5C28_6BA8);
    SquareStep(GENERATOR, 24, 0xF6C6_DF5D_5C28_6BA8, 0x9E66_01D8_EF77_0873);
    SquareStep(GENERATOR, 25, 0x9E66_01D8_EF77_0873, 0xD70B_CC2A_F2B6_25C0);
    SquareStep(GENERATOR, 26, 0xD70B_CC2A_F2B6_25C0, 0xE6BE_8D0D_ABB8_F56F);
    SquareStep(GENERATOR, 27, 0xE6BE_8D0D_ABB8_F56F, 0xA5AD_203C_F64F_6363);
    SquareStep(GENERATOR, 28, 0xA5AD_203C_F64F_6363, 0x58D0_8B8A_2A80_8E24);
    SquareStep(GENERATOR, 29, 0x58D0_8B8A_2A80_8E24, 0x384F_8D5B_1A4F_23E5);
    SquareStep(GENERATOR, 30, 0x384F_8D5B_1A4F_23E5, 0xA3A2_4A82_3C31_2C56);
    SquareStep(GENERATOR, 31, 0xA3A2_4A82_3C31_2C56, 0x79BC_2F50_ACD7_4161);
  }

  /** The root of unity is the generator to (P - 1) / 2^32, and its power 2^26, which is the generator's to
      (P - 1) / 64, is 8. */
  lemma RootOrigin()
    ensures Pow(GENERATOR, (P - 1) / 0x1_0000_0000) == ROOT_OF_UNITY
    ensures Pow(ROOT_OF_UNITY, Pow2(26)) == 8
    ensures Pow(GENERATOR, (P - 1) / 64) == 8
  {
    SkewOrigin();
    Pow2Values();
    RootEight();
    Pow26();
    hide Pow, Mul, Pow2;
    var k := (P - 1) / 0x1_0000_0000;
    assert k == 0xFFFF_FFFF && (P - 1) / 64 == k * 0x400_0000;
    PowAdd(GENERATOR, k, 1);
    PowOnce(GENERATOR);
    MulIsMod(ROOT_OF_UNITY, GENERATOR);
    MulComm(GENERATOR, Pow(GENERATOR, k));
    MulComm(GENERATOR, ROOT_OF_UNITY);
    MulCancel(GENERATOR, Pow(GENERATOR, k), ROOT_OF_UNITY);
    PowMul(GENERATOR, k, 0x400_0000);
  }

  lemma Pow26()
    ensures Pow2(26) == 0x400_0000
  {
    Pow2Small();
    hide Pow2;
    Pow2Add(8, 8); Pow2Add(16, 8); Pow2Add(1, 1); Pow2Add(24, 2);
  }
}
