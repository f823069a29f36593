/** The table of powers of ten that scales a float before its digits are generated:
    every entry is right to half a unit of its last bit, and the entry chosen brings the
    exponent into the range that digit generation needs. */
module CachedPowers {
  import opened Prelude

  // ---- powers with negative exponents ----

  function RPow(b: real, n: int): (p: real)
    requires b > 0.0
    ensures p > 0.0
    decreases if n < 0 then -n else n
  {
    if n == 0 then 1.0 else if n > 0 then b * RPow(b, n - 1) else RPow(b, n + 1) / b
  }

  lemma RPowStep(b: real, n: int)
    requires b > 0.0
    ensures RPow(b, n + 1) == b * RPow(b, n)
  {}

  lemma RPowZero(b: real)
    requires b > 0.0
    ensures RPow(b, 0) == 1.0 && RPow(b, 1) == b
  {}

  lemma {:induction false} RPowAdd(b: real, m: int, n: int)
    requires b > 0.0
    ensures RPow(b, m + n) == RPow(b, m) * RPow(b, n)
    decreases if n < 0 then -n else n
  {
    hide RPow;
    RPowZero(b);
    if n > 0 {
      var k := n - 1;
      RPowAdd(b, m, k);
      RPowBoth(b, m, k);
      assert k + 1 == n && m + k + 1 == m + n;
    } else if n < 0 {
      RPowAdd(b, m, n + 1);
      assert m + (n + 1) == m + n + 1;
      RPowBoth(b, m, n);
    }
  }

  lemma RPowBoth(b: real, m: int, n: int)
    requires b > 0.0
    ensures RPow(b, m + n) == RPow(b, m) * RPow(b, n) <==> RPow(b, m + n + 1) == RPow(b, m) * RPow(b, n + 1)
  {
    hide RPow;
    RPowStep(b, m + n);
    RPowStep(b, n);
    BothTimes(b, RPow(b, m), RPow(b, n), RPow(b, m + n));
  }

  lemma BothTimes(b: real, x: real, y: real, z: real)
    requires b > 0.0
    ensures z == x * y <==> b * z == x * (b * y)
  {
    Regroup(b, x, y);
    if b * z == b * (x * y) { Cancel(b, z, x * y); }
  }

  lemma Regroup(a: real, b: real, c: real)
    ensures a * (b * c) == (a * b) * c == b * (a * c)
  {}

  lemma Cancel(a: real, b: real, c: real)
    requires a != 0.0 && a * b == a * c
    ensures b == c
  {}

  // ---- the table ----

  /** An entry: fraction and binary exponent as the code has them, and, to certify them,
      the next 64 bits of the fraction, signed, with the error they may still have. */
  datatype Power = Power(f: int, b: int, rest: int, slack: int)

  /** The powers below one. */
  function NegativeRow(i: nat): Power
    requires 0 <= i < 44
  {
    match i
    case 0 => Power(0xFA8F_D5A0_081C_0288, -1220, 0x1732_C869_CD60_E454, 48)
    case 1 => Power(0xBAAE_E17F_A23E_BF76, -1193, 0x5D79_BCF0_0D2D_F64A, 35)
    case 2 => Power(0x8B16_FB20_3055_AC76, -1166, 0x4C3B_CB50_21AF_CC31, 25)
    case 3 => Power(0xCF42_894A_5DCE_35EA, -1140, 0x5206_4CAC_8286_75B9, 36)
    case 4 => Power(0x9A6B_B0AA_5565_3B2D, -1113, 0x47B2_33C9_2125_366F, 26)
    case 5 => Power(0xE61A_CF03_3D1A_45DF, -1087, 0x6FB9_2487_298E_33BE, 38)
    case 6 => Power(0xAB70_FE17_C79A_C6CA, -1060, 0x6DBD_630A_48AA_F407, 28)
    case 7 => Power(0xFF77_B1FC_BEBC_DC4F, -1034, 0x25E8_E89C_13BB_0F7B, 41)
    case 8 => Power(0xBE56_91EF_416B_D60C, -1007, 0x23CC_986B_C656_D554, 30)
    case 9 => Power(0x8DD0_1FAD_907F_FC3C, -980, -0x51C2_5826_8098_6D1C, 22)
    case 10 => Power(0xD351_5C28_3155_9A83, -954, 0xD5A_5B44_CA87_3E04, 32)
    case 11 => Power(0x9D71_AC8F_ADA6_C9B5, -927, 0x6F77_3FC3_603D_B4A9, 23)
    case 12 => Power(0xEA9C_2277_23EE_8BCB, -901, 0x465E_15A9_79C1_CADC, 33)
    case 13 => Power(0xAECC_4991_4078_536D, -874, 0x58FA_E9F7_7388_6E19, 24)
    case 14 => Power(0x823C_1279_5DB6_CE57, -847, 0x76C5_3D08_D6B7_0858, 17)
    case 15 => Power(0xC210_9436_4DFB_5637, -821, -0x67A6_EA03_ED0A_BD1B, 24)
    case 16 => Power(0x9096_EA6F_3848_984F, -794, 0x3FF0_D2C8_5DEF_7622, 17)
    case 17 => Power(0xD774_85CB_2582_3AC7, -768, 0x7D63_3293_366B_828B, 24)
    case 18 => Power(0xA086_CFCD_97BF_97F4, -741, -0x7F17_5BF1_332D_D75B, 17)
    case 19 => Power(0xEF34_0A98_172A_ACE5, -715, -0x7904_768E_E937_83CB, 25)
    case 20 => Power(0xB238_67FB_2A35_B28E, -688, -0x1661_9E65_B0DC_55BD, 18)
    case 21 => Power(0x84C8_D4DF_D2C6_3F3B, -661, 0x29EC_D9F4_0041_E073, 13)
    case 22 => Power(0xC5DD_4427_1AD3_CDBA, -635, 0x40EF_F1E1_853F_29FE, 18)
    case 23 => Power(0x936B_9FCE_BB25_C996, -608, -0x354E_F226_FF41_13CB, 13)
    case 24 => Power(0xDBAC_6C24_7D62_A584, -582, -0x20BA_08B9_48B5_40C7, 18)
    case 25 => Power(0xA3AB_6658_0D5F_DAF6, -555, -0x3EC1_9F2F_2D1F_1446, 13)
    case 26 => Power(0xF3E2_F893_DEC3_F126, -529, 0x5A89_DBA3_C3EF_CCFB, 18)
    case 27 => Power(0xB5B5_ADA8_AAFF_80B8, -502, 0xD81_9992_1324_56BB, 13)
    case 28 => Power(0x8762_5F05_6C7C_4A8B, -475, 0x1147_1CD7_64AD_4973, 9)
    case 29 => Power(0xC9BC_FF60_34C1_3053, -449, -0x376_4C6C_22FD_0F4A, 13)
    case 30 => Power(0x964E_858C_91BA_2655, -422, 0x3A6A_07F8_D510_F870, 9)
    case 31 => Power(0xDFF9_7724_7029_7EBD, -396, 0x5978_7E2B_93BC_56F7, 13)
    case 32 => Power(0xA6DF_BD9F_B8E5_B88F, -369, -0x34B3_32AF_F094_46AD, 9)
    case 33 => Power(0xF8A9_5FCF_8874_7D94, -343, 0x75A4_4C63_97CE_912A, 13)
    case 34 => Power(0xB944_7093_8FA8_9BCF, -316, -0x7F7_1BF1_72A4_C196, 9)
    case 35 => Power(0x8A08_F0F8_BF0F_156B, -289, 0x1B8E_9ECB_641B_5900, 6)
    case 36 => Power(0xCDB0_2555_6531_31B6, -263, 0x3792_F412_CB06_794D, 7)
    case 37 => Power(0x993F_E2C6_D07B_7FAC, -236, -0x1AB9_57FC_7101_BFD7, 5)
    case 38 => Power(0xE45C_10C4_2A2B_3B06, -210, -0x7347_6582_4883_AF95, 6)
    case 39 => Power(0xAA24_2499_6973_92D3, -183, -0x221A_F42E_2A2F_4616, 4)
    case 40 => Power(0xFD87_B5F2_8300_CA0E, -157, -0x7435_6291_E777_AC04, 4)
    case 41 => Power(0xBCE5_0864_9211_1AEB, -130, -0x770B_44E3_5943_0A7C, 2)
    case 42 => Power(0x8CBC_CC09_6F50_88CC, -103, -0x6C0_7848_BBD1_BA2C, 1)
    case _ => Power(0xD1B7_1758_E219_652C, -77, -0x2C3C_9EEC_BFB1_5B57, 1)
  }

  /** The powers above one. */
  function PositiveRow(i: nat): Power
    requires 44 <= i < 87
  {
    match i
    case 44 => Power(0x9C40_0000_0000_0000, -50, 0x0, 0)
    case 45 => Power(0xE8D4_A510_0000_0000, -24, 0x0, 0)
    case 46 => Power(0xAD78_EBC5_AC62_0000, 3, 0x0, 0)
    case 47 => Power(0x813F_3978_F894_0984, 30, 0x4000_0000_0000_0000, 0)
    case 48 => Power(0xC097_CE7B_C907_15B3, 56, 0x4B9F_1000_0000_0000, 0)
    case 49 => Power(0x8F7E_32CE_7BEA_5C70, 83, -0x1B7D_FFDC_5E00_0000, 0)
    case 50 => Power(0xD5D2_38A4_ABE9_8068, 109, 0x72A4_9045_98D6_D880, 0)
    case 51 => Power(0x9F4F_2726_179A_2245, 136, 0x1D7_6242_2C94_6591, 1)
    case 52 => Power(0xED63_A231_D4C4_FB27, 162, 0x4CA7_AAA8_63EE_4BDD, 2)
    case 53 => Power(0xB0DE_6538_8CC8_ADA8, 189, 0x3B25_A55F_4329_4BCC, 2)
    case 54 => Power(0x83C7_088E_1AAB_65DB, 216, 0x7926_67C6_DA79_E0FA, 2)
    case 55 => Power(0xC45D_1DF9_4271_1D9A, 242, 0x3BA5_D0BD_324F_8394, 3)
    case 56 => Power(0x924D_692C_A61B_E758, 269, 0x593C_2626_705F_9C56, 3)
    case 57 => Power(0xDA01_EE64_1A70_8DEA, 295, -0x17F1_90B7_DF33_6B6A, 6)
    case 58 => Power(0xA26D_A399_9AEF_774A, 322, -0x1C41_A1CC_F0C7_0F62, 5)
    case 59 => Power(0xF209_787B_B47D_6B85, 348, -0x3F98_73A2_42DC_5B66, 8)
    case 60 => Power(0xB454_E4A1_79DD_1877, 375, 0x29BA_BE45_98C3_11FC, 7)
    case 61 => Power(0x865B_8692_5B9B_C5C2, 402, 0xB8A_2392_BA45_A9B2, 6)
    case 62 => Power(0xC835_53C5_C896_5D3D, 428, 0x6F92_8294_94E5_ACC7, 10)
    case 63 => Power(0x952A_B45C_FA97_A0B3, 455, -0x226B_A58B_840D_9E7C, 9)
    case 64 => Power(0xDE46_9FBD_99A0_5FE3, 481, 0x6FCA_5F8E_D9AE_F3BB, 15)
    case 65 => Power(0xA59B_C234_DB39_8C25, 508, 0x43FA_B983_7E69_9096, 12)
    case 66 => Power(0xF6C6_9A72_A398_9F5C, 534, -0x7552_AB61_A8D8_C2BB, 19)
    case 67 => Power(0xB7DC_BF53_54E9_BECE, 561, 0xC11_ED6D_538A_EB2F, 15)
    case 68 => Power(0x88FC_F317_F222_41E2, 588, 0x441F_ECE3_BDF8_1F03, 12)
    case 69 => Power(0xCC20_CE9B_D35C_78A5, 614, 0x31EC_038D_F7B4_41F4, 18)
    case 70 => Power(0x9816_5AF3_7B21_53DF, 641, -0x3C8D_85CC_8574_8FB6, 14)
    case 71 => Power(0xE2A0_B5DC_971F_303A, 667, 0x2E44_AE64_840F_D61E, 22)
    case 72 => Power(0xA8D9_D153_5CE3_B396, 694, 0x7F18_39A7_41A1_4D0D, 17)
    case 73 => Power(0xFB9B_7CD9_A4A7_443C, 720, 0x1698_40EF_017D_A3B1, 26)
    case 74 => Power(0xBB76_4C4C_A7A4_4410, 747, -0x6292_E52B_E541_C80E, 21)
    case 75 => Power(0x8BAB_8EEF_B640_9C1A, 774, 0x1AD0_89B6_C2F7_548E, 17)
    case 76 => Power(0xD01F_EF10_A657_842C, 800, 0x2D2B_7569_B043_2D85, 26)
    case 77 => Power(0x9B10_A4E5_E991_3129, 827, -0x3583_0D4B_E6E3_7CD9, 20)
    case 78 => Power(0xE710_9BFB_A19C_0C9D, 853, 0xCC5_1267_0A78_3AD5, 31)
    case 79 => Power(0xAC28_20D9_623B_F429, 880, 0x5463_45FA_9FBD_CD44, 24)
    case 80 => Power(0x8044_4B5E_7AA7_CF85, 907, 0x7980_D163_CF5B_81B3, 18)
    case 81 => Power(0xBF21_E440_03AC_DD2D, 933, -0x1FB8_F59C_1942_A93D, 27)
    case 82 => Power(0x8E67_9C2F_5E44_FF8F, 960, 0x570F_09EA_A7EA_7648, 21)
    case 83 => Power(0xD433_179D_9C8C_B841, 986, 0x5FA6_0692_A461_51EC, 33)
    case 84 => Power(0x9E19_DB92_B4E3_1BA9, 1013, 0x6C07_A2C2_6A83_46D1, 26)
    case 85 => Power(0xEB96_BF6E_BADF_77D9, 1039, -0x1BE3_A42E_73A8_1771, 39)
    case _ => Power(0xAF87_023B_9BF0_EE6B, 1066, -0x1470_5283_8079_7F4C, 30)
  }

  /** pow_cache_fract and pow_cache_b_exp */
  function Row(i: nat): Power
    requires i < 87
  {
    if i < 44 then NegativeRow(i) else PositiveRow(i)
  }

  /** pow_cache_d_exp */
  function DecExp(i: nat): int { 8 * i - 348 }

  /** The fraction with 64 bits more. */
  function Long(p: Power): int { p.f * 0x1_0000_0000_0000_0000 + p.rest }

  function TwoTo26Or27(k: int): int { if k == 26 then 67108864 else 134217728 }

  function Distance(x: int, y: int): int { if x < y then y - x else x - y }

  /** Error of q, the power eight above p, from that of p. */
  predicate UpOk(p: Power, q: Power) {
    var two := TwoTo26Or27(q.b - p.b);
    100000000 * p.slack + Distance(100000000 * Long(p), two * Long(q)) <= two * q.slack
  }

  /** Error of p, the power eight below q, from that of q. */
  predicate DownOk(p: Power, q: Power) {
    var two := TwoTo26Or27(q.b - p.b);
    two * q.slack + Distance(two * Long(q), 100000000 * Long(p)) <= 100000000 * p.slack
  }

  predicate StepOk(i: nat)
    requires i < 86
  {
    var p, q := Row(i), Row(i + 1);
    (q.b - p.b == 26 || q.b - p.b == 27) && if i < 44 then DownOk(p, q) else UpOk(p, q)
  }

  /** A normalised fraction right to half a unit, and exponents that fit together. */
  predicate PowerOk(p: Power, d: int) {
    && 0x8000_0000_0000_0000 <= p.f < 0x1_0000_0000_0000_0000
    && Abs(p.rest) + p.slack <= 0x8000_0000_0000_0000
    && d as real + 0.0005 < (p.b + 64) as real * LOG && (p.b + 34) as real * LOG <= d as real - 8.0005
  }

  /** D_1_LOG2_10 */
  const LOG: real := 0.30102999566398114

  lemma RowOk(i: nat)
    requires i < 87
    ensures PowerOk(Row(i), DecExp(i))
  {
    hide NegativeRow, PositiveRow, PowerOk;
    if i < 44 { NegativeRowOk(i); } else { PositiveRowOk(i); }
  }

  lemma NegativeRowOk(i: nat)
    requires i < 44
    ensures PowerOk(NegativeRow(i), DecExp(i))
  {}

  lemma PositiveRowOk(i: nat)
    requires 44 <= i < 87
    ensures PowerOk(PositiveRow(i), DecExp(i))
  {}

  lemma RowStep(i: nat)
    requires i < 86
    ensures StepOk(i)
  {
    hide StepOk;
    if i < 22 { RowStep0(i); } else if i < 33 { RowStep22(i); } else if i < 44 { RowStep33(i); }
    else if i < 66 { RowStep44(i); } else { RowStep66(i); }
  }

  lemma RowStep0(i: nat)
    requires i < 22
    ensures StepOk(i)
  {}

  lemma RowStep22(i: nat)
    requires 22 <= i < 33
    ensures StepOk(i)
  {}

  lemma RowStep33(i: nat)
    requires 33 <= i < 44
    ensures StepOk(i)
  {}

  lemma RowStep44(i: nat)
    requires 44 <= i < 66
    ensures StepOk(i)
  {}

  lemma RowStep66(i: nat)
    requires 66 <= i < 86
    ensures StepOk(i)
  {}

  // ---- how far the entries are off ----

  /** The power of ten in units of the long fraction. */
  ghost function Exact(i: nat): real
    requires i < 87
  {
    RPow(10.0, DecExp(i)) * RPow(2.0, 64 - Row(i).b)
  }

  lemma SmallPowers()
    ensures RPow(10.0, 8) == 100000000.0 && RPow(2.0, 26) == 67108864.0 && RPow(2.0, 27) == 134217728.0
  {
    assert RPow(2.0, 8) == 256.0;
    RPowAdd(2.0, 8, 8);
    RPowAdd(2.0, 16, 8);
    RPowAdd(2.0, 24, 2);
    RPowAdd(2.0, 26, 1);
  }

  lemma TwoTo64()
    ensures RPow(2.0, 64) == 18446744073709551616.0
  {
    assert RPow(2.0, 8) == 256.0;
    hide RPow;
    RPowAdd(2.0, 8, 8);
    RPowAdd(2.0, 16, 16);
    RPowAdd(2.0, 32, 32);
  }

  lemma ExactStep(i: nat)
    requires i < 86
    ensures TwoTo26Or27(Row(i + 1).b - Row(i).b) as real * Exact(i + 1) == 100000000.0 * Exact(i)
  {
    hide RPow, Row;
    RowStep(i);
    SmallPowers();
    var k := Row(i + 1).b - Row(i).b;
    RPowAdd(10.0, DecExp(i), 8);
    RPowAdd(2.0, 64 - Row(i + 1).b, k);
    assert 64 - Row(i + 1).b + k == 64 - Row(i).b && DecExp(i) + 8 == DecExp(i + 1);
    StepTimes(RPow(10.0, DecExp(i)), RPow(2.0, 64 - Row(i + 1).b), TwoTo26Or27(k) as real);
  }

  lemma StepTimes(t: real, w: real, two: real)
    ensures two * (t * 100000000.0 * w) == 100000000.0 * (t * (w * two))
  {
    Regroup(two, t, 100000000.0 * w);
    Regroup(t, w, two);
    Regroup(two, t, w);
  }

  ghost predicate Near(x: real, p: Power) {
    Long(p) as real - p.slack as real <= x <= Long(p) as real + p.slack as real
  }

  lemma NearUp(p: Power, q: Power, x: real, y: real)
    requires q.b - p.b == 26 || q.b - p.b == 27
    requires TwoTo26Or27(q.b - p.b) as real * y == 100000000.0 * x
    ensures UpOk(p, q) && Near(x, p) ==> Near(y, q)
    ensures DownOk(p, q) && Near(y, q) ==> Near(x, p)
  {
    hide Long;
  }

  /** The long fraction is off by no more than its slack: up and down from 10^4, which is exact. */
  lemma {:induction false} ExactNear(i: nat)
    requires i < 87
    ensures Near(Exact(i), Row(i))
    decreases if i < 44 then 44 - i else i - 44
  {
    hide RPow, Row, Exact, Near, UpOk, DownOk;
    if i == 44 {
      Exact44();
    } else {
      var j := if i > 44 then i - 1 else i;
      ExactNear(if i > 44 then i - 1 else i + 1);
      RowStep(j);
      ExactStep(j);
      NearUp(Row(j), Row(j + 1), Exact(j), Exact(j + 1));
    }
  }

  lemma Exact44()
    ensures Near(Exact(44), Row(44))
  {
    assert RPow(10.0, 4) == 10000.0;
    assert RPow(2.0, 2) == 4.0;
    SmallPowers();
    TwoTo64();
    RPowAdd(2.0, 64, 26);
    RPowAdd(2.0, 90, 26);
    RPowAdd(2.0, 112, 2);
    RPowAdd(2.0, 114, 2);
  }

  /** What an entry promises: a normalised fraction, right to half a unit. */
  ghost predicate IsPower(f: int, e: int, d: int) {
    && 0x8000_0000_0000_0000 <= f < 0x1_0000_0000_0000_0000
    && -0.5 <= f as real - RPow(10.0, d) * RPow(2.0, -e) <= 0.5
  }

  lemma Accurate(i: nat)
    requires i < 87
    ensures IsPower(Row(i).f, Row(i).b, DecExp(i))
  {
    hide RPow, Row;
    RowOk(i);
    ExactNear(i);
    TwoTo64();
    RPowAdd(2.0, -Row(i).b, 64);
    Regroup(RPow(10.0, DecExp(i)), RPow(2.0, -Row(i).b), RPow(2.0, 64));
  }

  // ---- choosing an entry ----

  /** A product of doubles of this size is rounded by far less. */
  ghost predicate Rounds(round: real -> real) {
    forall x :: -400.0 <= x <= 400.0 ==> -0.0001 <= round(x) - x <= 0.0001
  }

  function Ceil(x: real): (k: int)
    ensures (k - 1) as real < x <= k as real
  {
    -(-x).Floor
  }

  /** cached_pow: a power of ten, accurate, that brings an exponent of -124 - exp between
      -60 and -32 in the product. */
  method CachedPow(exp: int, round: real -> real) returns (f: int, e: int, d: int)
    requires Rounds(round) && -1085 <= exp <= 1013
    ensures IsPower(f, e, d) && 0 <= e - exp <= 28 && -348 <= d <= 340
  {
    hide RPow, Row, IsPower;
    var val := round((exp + 63) as real * LOG);
    var k := Ceil(val);
    var i := (k + 347) / 8 + 1;
    Accurate(i);
    RowOk(i);
    f, e, d := Row(i).f, Row(i).b, DecExp(i);
  }
}
