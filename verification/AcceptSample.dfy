/**
 The sample handshake of section 1.3 of RFC 6455: the accept value for its key, computed round by round. It fixes
 every constant, shift and byte order of SHA-1, the GUID and the Base64 alphabet at once.
 */
module AcceptSample {
  import Base64
  import Handshake
  import opened Sha1
  import opened Sha1Base64Module

  // ----- sixteen words of a schedule -----

  /** The sixteen words `u` continue the words `v` of a schedule. */
  predicate Follows<T(==)>(mix: (T, T, T, T) -> T, v: seq<T>, u: seq<T>)
    requires |v| == |u| == 16
  {
    && u[0] == mix(v[13], v[8], v[2], v[0]) && u[1] == mix(v[14], v[9], v[3], v[1])
    && u[2] == mix(v[15], v[10], v[4], v[2]) && u[3] == mix(u[0], v[11], v[5], v[3])
    && u[4] == mix(u[1], v[12], v[6], v[4]) && u[5] == mix(u[2], v[13], v[7], v[5])
    && u[6] == mix(u[3], v[14], v[8], v[6]) && u[7] == mix(u[4], v[15], v[9], v[7])
    && u[8] == mix(u[5], u[0], v[10], v[8]) && u[9] == mix(u[6], u[1], v[11], v[9])
    && u[10] == mix(u[7], u[2], v[12], v[10]) && u[11] == mix(u[8], u[3], v[13], v[11])
    && u[12] == mix(u[9], u[4], v[14], v[12]) && u[13] == mix(u[10], u[5], v[15], v[13])
    && u[14] == mix(u[11], u[6], u[0], v[14]) && u[15] == mix(u[12], u[7], u[1], v[15])
  }

  predicate Mixed<T(==)>(mix: (T, T, T, T) -> T, x: seq<T>, j: nat)
    requires 16 <= j < |x|
  {
    x[j] == mix(x[j - 3], x[j - 8], x[j - 14], x[j - 16])
  }

  lemma Continues<T>(mix: (T, T, T, T) -> T, x: seq<T>, u: seq<T>)
    requires |x| == 32 && |u| == 16 && Follows(mix, x[..16], u)
    requires forall j: nat :: 16 <= j < 32 ==> Mixed(mix, x, j)
    ensures x[16..] == u
  {
    assert Mixed(mix, x, 16) && Mixed(mix, x, 17) && Mixed(mix, x, 18) && Mixed(mix, x, 19);
    assert Mixed(mix, x, 20) && Mixed(mix, x, 21) && Mixed(mix, x, 22) && Mixed(mix, x, 23);
    assert Mixed(mix, x, 24) && Mixed(mix, x, 25) && Mixed(mix, x, 26) && Mixed(mix, x, 27);
    assert Mixed(mix, x, 28) && Mixed(mix, x, 29) && Mixed(mix, x, 30) && Mixed(mix, x, 31);
  }

  lemma ExtendFollows<T>(mix: (T, T, T, T) -> T, block: seq<T>, t: nat, v: seq<T>, u: seq<T>)
    requires |block| == |v| == |u| == 16 && t + 32 <= 80
    requires Extend(mix, block, 80)[t..t + 16] == v && Follows(mix, v, u)
    ensures Extend(mix, block, 80)[t + 16..t + 32] == u
  {
    var w := Extend(mix, block, 80);
    var x := w[t..t + 32];
    assert x[..16] == v && x[16..] == w[t + 16..t + 32];
    forall j: nat | 16 <= j < 32 ensures Mixed(mix, x, j) {
      ExtendWord(mix, block, 80, t + j);
    }
    Continues(mix, x, u);
  }

  predicate InSchedule(block: seq<bv32>, t: nat, v: seq<bv32>) {
    |block| == |v| == 16 && t + 16 <= 80 && Schedule(block)[t..t + 16] == v
  }

  lemma ScheduleStarts(block: seq<bv32>)
    requires |block| == 16
    ensures InSchedule(block, 0, block)
  {
    ExtendTake(Mix, block, 16, 80);
  }

  lemma ScheduleFollows(block: seq<bv32>, t: nat, v: seq<bv32>, u: seq<bv32>)
    requires InSchedule(block, t, v) && t + 32 <= 80 && |u| == 16 && Follows(Mix, v, u)
    ensures InSchedule(block, t + 16, u)
  {
    ExtendFollows(Mix, block, t, v, u);
  }

  // ----- four rounds -----

  /** The registers, given the values that the first of them had last: v, x, y, z and a in turn. */
  function Registers(v: bv32, x: bv32, y: bv32, z: bv32, a: bv32): Regs {
    Regs(a, z, RollLeft(y, 30), RollLeft(x, 30), RollLeft(v, 30))
  }

  /** Step d of section 6.1 of RFC 3174 in shifts and logical operations: `n` is the first register after round `t`. */
  predicate Step(t: nat, v: bv32, x: bv32, y: bv32, z: bv32, a: bv32, w: bv32, n: bv32) {
    n == Sum((a << 5) | (a >> 27), Logical(t, z, (y << 30) | (y >> 2), (x << 30) | (x >> 2)),
             (v << 30) | (v >> 2), w, K(t))
  }

  /** The function of round `t`. */
  function Logical(t: nat, b: bv32, c: bv32, d: bv32): bv32 {
    if t < 20 then (b & c) | (!b & d)
    else if 40 <= t < 60 then (b & c) | (b & d) | (c & d)
    else b ^ c ^ d
  }

  lemma ShiftedAndLogical(t: nat, x: bv32, b: bv32, c: bv32, d: bv32)
    ensures RollLeft(x, 5) == (x << 5) | (x >> 27) && RollLeft(x, 30) == (x << 30) | (x >> 2)
    ensures F(t, b, c, d) == Logical(t, b, c, d)
  {}

  lemma OneRoundOn(t: nat, v: bv32, x: bv32, y: bv32, z: bv32, a: bv32, w: bv32, n: bv32)
    requires Step(t, v, x, y, z, a, w, n)
    ensures Round(t, w, Registers(v, x, y, z, a)) == Registers(x, y, z, a, n)
  {
    ShiftedAndLogical(t, a, z, RollLeft(y, 30), RollLeft(x, 30));
    ShiftedAndLogical(t, v, z, y, x);
    ShiftedAndLogical(t, x, z, y, x);
    ShiftedAndLogical(t, y, z, y, x);
  }

  /** Says of a number of rounds and five values whether these are what the registers then hold. */
  type Track = (nat, bv32, bv32, bv32, bv32, bv32) -> bool

  ghost function Rounding(h: Regs, w: seq<bv32>): Track {
    (t: nat, v, x, y, z, a) => t <= |w| && Rounds(h, w, t) == Registers(v, x, y, z, a)
  }

  /** Steps lead from what the registers hold to what they hold next. */
  ghost predicate Advances(at: Track, w: seq<bv32>) {
    forall t: nat, v, x, y, z, a, n ::
      t < |w| && at(t, v, x, y, z, a) && Step(t, v, x, y, z, a, w[t], n) ==> at(t + 1, x, y, z, a, n)
  }

  lemma RoundingAdvances(h: Regs, w: seq<bv32>)
    ensures Advances(Rounding(h, w), w)
  {
    var at := Rounding(h, w);
    forall t: nat, v, x, y, z, a, n | t < |w| && at(t, v, x, y, z, a) && Step(t, v, x, y, z, a, w[t], n)
      ensures at(t + 1, x, y, z, a, n)
    {
      OneRoundOn(t, v, x, y, z, a, w[t], n);
    }
  }

  /** Whatever leads through all steps leads through all rounds. */
  lemma BlockBySteps(
      h: Regs, block: seq<bv32>, v: bv32, x: bv32, y: bv32, z: bv32, a: bv32,
      v1: bv32, x1: bv32, y1: bv32, z1: bv32, a1: bv32)
    requires |block| == 16 && h == Registers(v, x, y, z, a)
    requires forall at: Track :: Advances(at, Schedule(block)) && at(0, v, x, y, z, a) ==> at(80, v1, x1, y1, z1, a1)
    ensures Block(h, block) == Plus(h, Registers(v1, x1, y1, z1, a1))
  {
    var w := Schedule(block);
    RoundingAdvances(h, w);
    assert Rounding(h, w)(0, v, x, y, z, a);
    assert Rounding(h, w)(80, v1, x1, y1, z1, a1);
  }

  lemma Advance(at: Track, w: seq<bv32>, t: nat, v: bv32, x: bv32, y: bv32, z: bv32, a: bv32, n: bv32)
    requires Advances(at, w) && t < |w| && at(t, v, x, y, z, a) && Step(t, v, x, y, z, a, w[t], n)
    ensures at(t + 1, x, y, z, a, n)
  {}

  lemma SixteenWords(w: seq<bv32>, t: nat, words: seq<bv32>)
    requires t + 16 <= |w| && |words| == 16 && w[t..t + 16] == words
    ensures w[t] == words[0] && w[t + 1] == words[1] && w[t + 2] == words[2] && w[t + 3] == words[3]
    ensures w[t + 4] == words[4] && w[t + 5] == words[5] && w[t + 6] == words[6] && w[t + 7] == words[7]
    ensures w[t + 8] == words[8] && w[t + 9] == words[9] && w[t + 10] == words[10] && w[t + 11] == words[11]
    ensures w[t + 12] == words[12] && w[t + 13] == words[13] && w[t + 14] == words[14] && w[t + 15] == words[15]
  {
    assert forall j :: t <= j < t + 16 ==> w[j] == w[t..t + 16][j - t];
  }

  lemma FourRounds(
      at: Track, w: seq<bv32>, t: nat, v: bv32, x: bv32, y: bv32, z: bv32, a: bv32,
      a1: bv32, a2: bv32, a3: bv32, a4: bv32)
    requires Advances(at, w) && t + 4 <= |w| && at(t, v, x, y, z, a)
    requires Step(t, v, x, y, z, a, w[t], a1) && Step(t + 1, x, y, z, a, a1, w[t + 1], a2)
    requires Step(t + 2, y, z, a, a1, a2, w[t + 2], a3) && Step(t + 3, z, a, a1, a2, a3, w[t + 3], a4)
    ensures at(t + 4, a, a1, a2, a3, a4)
  {
    Advance(at, w, t, v, x, y, z, a, a1);
    Advance(at, w, t + 1, x, y, z, a, a1, a2);
    Advance(at, w, t + 2, y, z, a, a1, a2, a3);
    Advance(at, w, t + 3, z, a, a1, a2, a3, a4);
  }

  // ----- the first block -----

  const FIRST0: seq<bv32> := [
    0x6447_686C, 0x4948_4E68, 0x6258_4273, 0x5A53_4275, 0x6232_356A, 0x5A51_3D3D,
    0x3235_3845, 0x4146_4135, 0x2D45_3931, 0x342D_3437, 0x4441_2D39, 0x3543_412D,
    0x4335_4142, 0x3044_4338, 0x3542_3131, 0x8000_0000]

  const FIRST1: seq<bv32> := [
    0x363C_A02C, 0x24E8_1236, 0x8856_B441, 0x06FB_3C92, 0x6FB4_BCB6, 0x460B_16E3,
    0x5992_19AE, 0x35BF_9369, 0x3267_458E, 0xF828_FD04, 0x753A_96A7, 0x6336_F612,
    0xC3D6_6383, 0x06EB_86F9, 0x73B4_FD42, 0xA503_C5B8]

  const FIRST2: seq<bv32> := [
    0x15CD_AE35, 0x531E_5DC5, 0x6FB6_B7D0, 0x6C16_E4AC, 0x4DDD_36BD, 0x35D3_6946,
    0xE8AE_8B9C, 0x4A93_3AD0, 0xCE86_28B4, 0x415D_BA9E, 0x2792_F049, 0x8E9B_79E7,
    0x79C4_25C5, 0x6353_B49D, 0x0099_4218, 0x8A95_0ED1]

  const FIRST3: seq<bv32> := [
    0xAF5D_0B99, 0xFD98_83DE, 0x1ED8_FFEB, 0xF007_FF28, 0x425E_3674, 0x0596_31C0,
    0xAD6C_3C31, 0x860B_71D7, 0x87BF_C548, 0x3E64_F92D, 0x8D0A_B761, 0x34E1_EE35,
    0x0ACF_5108, 0xC2B4_79DA, 0x6C93_370A, 0xF793_5BA1]

  const FIRST4: seq<bv32> := [
    0xE91C_91C1, 0xBED1_65A2, 0x4C3E_4ABE, 0x50D9_6238, 0xB658_7DDE, 0x1A2E_E6E6,
    0x2D33_5896, 0xF349_5D0B, 0xF30E_0A1D, 0x32CE_5459, 0x7165_E3B8, 0xAB05_FF94,
    0xC594_9F0B, 0xBCD8_4E4A, 0x0772_0392, 0xFF3F_F806]

  const FIRST: Regs := Regs(0x5BCF_7727, 0x7327_416A, 0xBE7B_FBF9, 0x5A78_1878, 0x5E46_A4E2)

  lemma FirstSchedule()
    ensures InSchedule(FIRST0, 0, FIRST0)
    ensures InSchedule(FIRST0, 16, FIRST1)
    ensures InSchedule(FIRST0, 32, FIRST2)
    ensures InSchedule(FIRST0, 48, FIRST3)
    ensures InSchedule(FIRST0, 64, FIRST4)
  {
    ScheduleStarts(FIRST0);
    FirstFollows0(FIRST0);
    FirstFollows1(FIRST0);
    FirstFollows2(FIRST0);
    FirstFollows3(FIRST0);
  }

  lemma FirstFollows0(block: seq<bv32>)
    requires InSchedule(block, 0, FIRST0)
    ensures InSchedule(block, 16, FIRST1)
  {
    ScheduleFollows(block, 0, FIRST0, FIRST1);
  }

  lemma FirstFollows1(block: seq<bv32>)
    requires InSchedule(block, 16, FIRST1)
    ensures InSchedule(block, 32, FIRST2)
  {
    ScheduleFollows(block, 16, FIRST1, FIRST2);
  }

  lemma FirstFollows2(block: seq<bv32>)
    requires InSchedule(block, 32, FIRST2)
    ensures InSchedule(block, 48, FIRST3)
  {
    ScheduleFollows(block, 32, FIRST2, FIRST3);
  }

  lemma FirstFollows3(block: seq<bv32>)
    requires InSchedule(block, 48, FIRST3)
    ensures InSchedule(block, 64, FIRST4)
  {
    ScheduleFollows(block, 48, FIRST3, FIRST4);
  }

  lemma FirstWords(w: seq<bv32>)
    requires |w| == 80
    requires w[0..16] == FIRST0
    requires w[16..32] == FIRST1
    requires w[32..48] == FIRST2
    requires w[48..64] == FIRST3
    requires w[64..80] == FIRST4
    ensures w[0] == 0x6447_686C && w[1] == 0x4948_4E68 && w[2] == 0x6258_4273 && w[3] == 0x5A53_4275
    ensures w[4] == 0x6232_356A && w[5] == 0x5A51_3D3D && w[6] == 0x3235_3845 && w[7] == 0x4146_4135
    ensures w[8] == 0x2D45_3931 && w[9] == 0x342D_3437 && w[10] == 0x4441_2D39 && w[11] == 0x3543_412D
    ensures w[12] == 0x4335_4142 && w[13] == 0x3044_4338 && w[14] == 0x3542_3131 && w[15] == 0x8000_0000
    ensures w[16] == 0x363C_A02C && w[17] == 0x24E8_1236 && w[18] == 0x8856_B441 && w[19] == 0x06FB_3C92
    ensures w[20] == 0x6FB4_BCB6 && w[21] == 0x460B_16E3 && w[22] == 0x5992_19AE && w[23] == 0x35BF_9369
    ensures w[24] == 0x3267_458E && w[25] == 0xF828_FD04 && w[26] == 0x753A_96A7 && w[27] == 0x6336_F612
    ensures w[28] == 0xC3D6_6383 && w[29] == 0x06EB_86F9 && w[30] == 0x73B4_FD42 && w[31] == 0xA503_C5B8
    ensures w[32] == 0x15CD_AE35 && w[33] == 0x531E_5DC5 && w[34] == 0x6FB6_B7D0 && w[35] == 0x6C16_E4AC
    ensures w[36] == 0x4DDD_36BD && w[37] == 0x35D3_6946 && w[38] == 0xE8AE_8B9C && w[39] == 0x4A93_3AD0
    ensures w[40] == 0xCE86_28B4 && w[41] == 0x415D_BA9E && w[42] == 0x2792_F049 && w[43] == 0x8E9B_79E7
    ensures w[44] == 0x79C4_25C5 && w[45] == 0x6353_B49D && w[46] == 0x0099_4218 && w[47] == 0x8A95_0ED1
    ensures w[48] == 0xAF5D_0B99 && w[49] == 0xFD98_83DE && w[50] == 0x1ED8_FFEB && w[51] == 0xF007_FF28
    ensures w[52] == 0x425E_3674 && w[53] == 0x0596_31C0 && w[54] == 0xAD6C_3C31 && w[55] == 0x860B_71D7
    ensures w[56] == 0x87BF_C548 && w[57] == 0x3E64_F92D && w[58] == 0x8D0A_B761 && w[59] == 0x34E1_EE35
    ensures w[60] == 0x0ACF_5108 && w[61] == 0xC2B4_79DA && w[62] == 0x6C93_370A && w[63] == 0xF793_5BA1
    ensures w[64] == 0xE91C_91C1 && w[65] == 0xBED1_65A2 && w[66] == 0x4C3E_4ABE && w[67] == 0x50D9_6238
    ensures w[68] == 0xB658_7DDE && w[69] == 0x1A2E_E6E6 && w[70] == 0x2D33_5896 && w[71] == 0xF349_5D0B
    ensures w[72] == 0xF30E_0A1D && w[73] == 0x32CE_5459 && w[74] == 0x7165_E3B8 && w[75] == 0xAB05_FF94
    ensures w[76] == 0xC594_9F0B && w[77] == 0xBCD8_4E4A && w[78] == 0x0772_0392 && w[79] == 0xFF3F_F806
  {
    SixteenWords(w, 0, FIRST0);
    SixteenWords(w, 16, FIRST1);
    SixteenWords(w, 32, FIRST2);
    SixteenWords(w, 48, FIRST3);
    SixteenWords(w, 64, FIRST4);
  }

  lemma FirstRounds0(at: Track, w: seq<bv32>)
    requires |w| == 80 && Advances(at, w) && w[0..16] == FIRST0 && w[16..32] == FIRST1
    requires w[32..48] == FIRST2 && w[48..64] == FIRST3 && w[64..80] == FIRST4
    requires at(0, 0x0F4B_87C3, 0x40C9_51D8, 0x62EB_73FA, 0xEFCD_AB89, 0x6745_2301)
    ensures at(40, 0x9DE7_93C8, 0x4CCD_2227, 0x6876_0824, 0xD086_9081, 0x2BA2_C83E)
  {
    FirstWords(w);
    FourRounds(at, w, 0, 0x0F4B_87C3, 0x40C9_51D8, 0x62EB_73FA, 0xEFCD_AB89, 0x6745_2301,
      0x03FC_011F, 0x2F79_3F55, 0xBE90_EE8F, 0x53E0_39AC);
    FourRounds(at, w, 4, 0x6745_2301, 0x03FC_011F, 0x2F79_3F55, 0xBE90_EE8F, 0x53E0_39AC,
      0xDD8C_7C12, 0x7320_B969, 0x7355_3E84, 0x2E0C_E601);
    FourRounds(at, w, 8, 0x53E0_39AC, 0xDD8C_7C12, 0x7320_B969, 0x7355_3E84, 0x2E0C_E601,
      0x32BE_B05A, 0xFAAD_2675, 0x5FF4_238C, 0x34CE_B986);
    FourRounds(at, w, 12, 0x2E0C_E601, 0x32BE_B05A, 0xFAAD_2675, 0x5FF4_238C, 0x34CE_B986,
      0x61BD_B2BF, 0xAE1A_096E, 0xE922_CC9D, 0xA004_C468);
    FourRounds(at, w, 16, 0x34CE_B986, 0x61BD_B2BF, 0xAE1A_096E, 0xE922_CC9D, 0xA004_C468,
      0xD7DA_F575, 0x7EBB_296B, 0x8DC5_10B6, 0x091A_B97C);
    FourRounds(at, w, 20, 0xA004_C468, 0xD7DA_F575, 0x7EBB_296B, 0x8DC5_10B6, 0x091A_B97C,
      0x5184_70A3, 0xD12F_0B56, 0xBEAF_D554, 0x250E_26EF);
    FourRounds(at, w, 24, 0x091A_B97C, 0x5184_70A3, 0xD12F_0B56, 0xBEAF_D554, 0x250E_26EF,
      0x23D1_C91B, 0x748B_39A0, 0xEF01_2F20, 0x571F_7D82);
    FourRounds(at, w, 28, 0x250E_26EF, 0x23D1_C91B, 0x748B_39A0, 0xEF01_2F20, 0x571F_7D82,
      0x1ABB_1C37, 0x081B_63E5, 0xB7DA_BC8B, 0xA668_0A1F);
    FourRounds(at, w, 32, 0x571F_7D82, 0x1ABB_1C37, 0x081B_63E5, 0xB7DA_BC8B, 0xA668_0A1F,
      0x1AE3_60A9, 0xEEAB_A35A, 0x149B_B4D3, 0x9DE7_93C8);
    FourRounds(at, w, 36, 0xA668_0A1F, 0x1AE3_60A9, 0xEEAB_A35A, 0x149B_B4D3, 0x9DE7_93C8,
      0x4CCD_2227, 0x6876_0824, 0xD086_9081, 0x2BA2_C83E);
  }

  lemma FirstRounds40(at: Track, w: seq<bv32>)
    requires |w| == 80 && Advances(at, w) && w[0..16] == FIRST0 && w[16..32] == FIRST1
    requires w[32..48] == FIRST2 && w[48..64] == FIRST3 && w[64..80] == FIRST4
    requires at(40, 0x9DE7_93C8, 0x4CCD_2227, 0x6876_0824, 0xD086_9081, 0x2BA2_C83E)
    ensures at(80, 0x69CF_0BCA, 0x2917_1009, 0x9704_7BEC, 0x8359_95E1, 0xF48A_5426)
  {
    FirstWords(w);
    FourRounds(at, w, 40, 0x9DE7_93C8, 0x4CCD_2227, 0x6876_0824, 0xD086_9081, 0x2BA2_C83E,
      0xCB8C_52D0, 0x4F58_9A44, 0x8688_29B7, 0x6DC6_A3D7);
    FourRounds(at, w, 44, 0x2BA2_C83E, 0xCB8C_52D0, 0x4F58_9A44, 0x8688_29B7, 0x6DC6_A3D7,
      0x5F5F_3452, 0x72FF_334D, 0xDEE4_B7A8, 0xABE1_748A);
    FourRounds(at, w, 48, 0x6DC6_A3D7, 0x5F5F_3452, 0x72FF_334D, 0xDEE4_B7A8, 0xABE1_748A,
      0x7510_D04F, 0x065F_8486, 0x0E5D_77C4, 0x10E7_F671);
    FourRounds(at, w, 52, 0xABE1_748A, 0x7510_D04F, 0x065F_8486, 0x0E5D_77C4, 0x10E7_F671,
      0x26C6_9395, 0x4C60_8AC4, 0x50C9_104C, 0x7E12_42F2);
    FourRounds(at, w, 56, 0x10E7_F671, 0x26C6_9395, 0x4C60_8AC4, 0x50C9_104C, 0x7E12_42F2,
      0x6EF6_FEF4, 0x0C24_7C2E, 0xD284_F163, 0x4872_D85A);
    FourRounds(at, w, 60, 0x7E12_42F2, 0x6EF6_FEF4, 0x0C24_7C2E, 0xD284_F163, 0x4872_D85A,
      0xCD42_00B8, 0x90F0_0D8F, 0x8400_54D3, 0x685E_2FF6);
    FourRounds(at, w, 64, 0x4872_D85A, 0xCD42_00B8, 0x90F0_0D8F, 0x8400_54D3, 0x685E_2FF6,
      0xA4CE_E018, 0xC3C2_E45B, 0x5313_1A40, 0xCF86_58EC);
    FourRounds(at, w, 68, 0x685E_2FF6, 0xA4CE_E018, 0xC3C2_E45B, 0x5313_1A40, 0xCF86_58EC,
      0x966E_049A, 0x0738_1B7E, 0x80D5_9773, 0x7E65_E044);
    FourRounds(at, w, 72, 0xCF86_58EC, 0x966E_049A, 0x0738_1B7E, 0x80D5_9773, 0x7E65_E044,
      0x628E_7B47, 0x143A_8388, 0xE209_83F9, 0x69CF_0BCA);
    FourRounds(at, w, 76, 0x7E65_E044, 0x628E_7B47, 0x143A_8388, 0xE209_83F9, 0x69CF_0BCA,
      0x2917_1009, 0x9704_7BEC, 0x8359_95E1, 0xF48A_5426);
  }

  lemma FirstBlock()
    ensures |FIRST0| == 16 && Block(INITIAL, FIRST0) == FIRST
  {
    FirstSchedule();
    var w := Schedule(FIRST0);
    forall at: Track | Advances(at, w) && at(0, 0x0F4B_87C3, 0x40C9_51D8, 0x62EB_73FA, 0xEFCD_AB89, 0x6745_2301)
      ensures at(80, 0x69CF_0BCA, 0x2917_1009, 0x9704_7BEC, 0x8359_95E1, 0xF48A_5426)
    {
      FirstRounds0(at, w);
      FirstRounds40(at, w);
    }
    BlockBySteps(INITIAL, FIRST0,
      0x0F4B_87C3, 0x40C9_51D8, 0x62EB_73FA, 0xEFCD_AB89, 0x6745_2301,
      0x69CF_0BCA, 0x2917_1009, 0x9704_7BEC, 0x8359_95E1, 0xF48A_5426);
  }

  // ----- the second block -----

  const SECOND0: seq<bv32> := [
    0x0000_0000, 0x0000_0000, 0x0000_0000, 0x0000_0000, 0x0000_0000, 0x0000_0000,
    0x0000_0000, 0x0000_0000, 0x0000_0000, 0x0000_0000, 0x0000_0000, 0x0000_0000,
    0x0000_0000, 0x0000_0000, 0x0000_0000, 0x0000_01E0]

  const SECOND1: seq<bv32> := [
    0x0000_0000, 0x0000_0000, 0x0000_03C0, 0x0000_0000, 0x0000_0000, 0x0000_0780,
    0x0000_0000, 0x0000_03C0, 0x0000_0F00, 0x0000_0000, 0x0000_0000, 0x0000_1E00,
    0x0000_0000, 0x0000_0CC0, 0x0000_3C00, 0x0000_0440]

  const SECOND2: seq<bv32> := [
    0x0000_0000, 0x0000_7800, 0x0000_0F00, 0x0000_3300, 0x0000_F000, 0x0000_0F00,
    0x0000_0000, 0x0001_EF00, 0x0000_0000, 0x0000_CC00, 0x0003_C000, 0x0000_4380,
    0x0000_0000, 0x0007_8F00, 0x0000_FF00, 0x0003_2680]

  const SECOND3: seq<bv32> := [
    0x000F_0000, 0x0000_F000, 0x0000_3300, 0x001E_FF00, 0x0000_0000, 0x000C_B800,
    0x003C_0000, 0x0004_0B00, 0x0000_F000, 0x0078_FF00, 0x000F_F000, 0x0033_8700,
    0x00F0_0000, 0x000F_C300, 0x0000_F000, 0x01EF_BB00]

  const SECOND4: seq<bv32> := [
    0x0000_0000, 0x00CC_0000, 0x03C0_F000, 0x0043_8000, 0x0000_0000, 0x078F_0000,
    0x00FF_0000, 0x0326_9E00, 0x0F00_0000, 0x00F0_F000, 0x0033_3C00, 0x1EFF_8800,
    0x0000_0000, 0x0CB8_8800, 0x3C00_F000, 0x040A_4A00]

  const SECOND: Regs := Regs(0xB37A_4F2C, 0xC062_4F16, 0x90F6_4606, 0xCF38_5945, 0xB2BE_C4EA)

  lemma SecondSchedule()
    ensures InSchedule(SECOND0, 0, SECOND0)
    ensures InSchedule(SECOND0, 16, SECOND1)
    ensures InSchedule(SECOND0, 32, SECOND2)
    ensures InSchedule(SECOND0, 48, SECOND3)
    ensures InSchedule(SECOND0, 64, SECOND4)
  {
    ScheduleStarts(SECOND0);
    SecondFollows0(SECOND0);
    SecondFollows1(SECOND0);
    SecondFollows2(SECOND0);
    SecondFollows3(SECOND0);
  }

  lemma SecondFollows0(block: seq<bv32>)
    requires InSchedule(block, 0, SECOND0)
    ensures InSchedule(block, 16, SECOND1)
  {
    ScheduleFollows(block, 0, SECOND0, SECOND1);
  }

  lemma SecondFollows1(block: seq<bv32>)
    requires InSchedule(block, 16, SECOND1)
    ensures InSchedule(block, 32, SECOND2)
  {
    ScheduleFollows(block, 16, SECOND1, SECOND2);
  }

  lemma SecondFollows2(block: seq<bv32>)
    requires InSchedule(block, 32, SECOND2)
    ensures InSchedule(block, 48, SECOND3)
  {
    ScheduleFollows(block, 32, SECOND2, SECOND3);
  }

  lemma SecondFollows3(block: seq<bv32>)
    requires InSchedule(block, 48, SECOND3)
    ensures InSchedule(block, 64, SECOND4)
  {
    ScheduleFollows(block, 48, SECOND3, SECOND4);
  }

  lemma SecondWords(w: seq<bv32>)
    requires |w| == 80
    requires w[0..16] == SECOND0
    requires w[16..32] == SECOND1
    requires w[32..48] == SECOND2
    requires w[48..64] == SECOND3
    requires w[64..80] == SECOND4
    ensures w[0] == 0x0000_0000 && w[1] == 0x0000_0000 && w[2] == 0x0000_0000 && w[3] == 0x0000_0000
    ensures w[4] == 0x0000_0000 && w[5] == 0x0000_0000 && w[6] == 0x0000_0000 && w[7] == 0x0000_0000
    ensures w[8] == 0x0000_0000 && w[9] == 0x0000_0000 && w[10] == 0x0000_0000 && w[11] == 0x0000_0000
    ensures w[12] == 0x0000_0000 && w[13] == 0x0000_0000 && w[14] == 0x0000_0000 && w[15] == 0x0000_01E0
    ensures w[16] == 0x0000_0000 && w[17] == 0x0000_0000 && w[18] == 0x0000_03C0 && w[19] == 0x0000_0000
    ensures w[20] == 0x0000_0000 && w[21] == 0x0000_0780 && w[22] == 0x0000_0000 && w[23] == 0x0000_03C0
    ensures w[24] == 0x0000_0F00 && w[25] == 0x0000_0000 && w[26] == 0x0000_0000 && w[27] == 0x0000_1E00
    ensures w[28] == 0x0000_0000 && w[29] == 0x0000_0CC0 && w[30] == 0x0000_3C00 && w[31] == 0x0000_0440
    ensures w[32] == 0x0000_0000 && w[33] == 0x0000_7800 && w[34] == 0x0000_0F00 && w[35] == 0x0000_3300
    ensures w[36] == 0x0000_F000 && w[37] == 0x0000_0F00 && w[38] == 0x0000_0000 && w[39] == 0x0001_EF00
    ensures w[40] == 0x0000_0000 && w[41] == 0x0000_CC00 && w[42] == 0x0003_C000 && w[43] == 0x0000_4380
    ensures w[44] == 0x0000_0000 && w[45] == 0x0007_8F00 && w[46] == 0x0000_FF00 && w[47] == 0x0003_2680
    ensures w[48] == 0x000F_0000 && w[49] == 0x0000_F000 && w[50] == 0x0000_3300 && w[51] == 0x001E_FF00
    ensures w[52] == 0x0000_0000 && w[53] == 0x000C_B800 && w[54] == 0x003C_0000 && w[55] == 0x0004_0B00
    ensures w[56] == 0x0000_F000 && w[57] == 0x0078_FF00 && w[58] == 0x000F_F000 && w[59] == 0x0033_8700
    ensures w[60] == 0x00F0_0000 && w[61] == 0x000F_C300 && w[62] == 0x0000_F000 && w[63] == 0x01EF_BB00
    ensures w[64] == 0x0000_0000 && w[65] == 0x00CC_0000 && w[66] == 0x03C0_F000 && w[67] == 0x0043_8000
    ensures w[68] == 0x0000_0000 && w[69] == 0x078F_0000 && w[70] == 0x00FF_0000 && w[71] == 0x0326_9E00
    ensures w[72] == 0x0F00_0000 && w[73] == 0x00F0_F000 && w[74] == 0x0033_3C00 && w[75] == 0x1EFF_8800
    ensures w[76] == 0x0000_0000 && w[77] == 0x0CB8_8800 && w[78] == 0x3C00_F000 && w[79] == 0x040A_4A00
  {
    SixteenWords(w, 0, SECOND0);
    SixteenWords(w, 16, SECOND1);
    SixteenWords(w, 32, SECOND2);
    SixteenWords(w, 48, SECOND3);
    SixteenWords(w, 64, SECOND4);
  }

  lemma SecondRounds0(at: Track, w: seq<bv32>)
    requires |w| == 80 && Advances(at, w) && w[0..16] == SECOND0 && w[16..32] == SECOND1
    requires w[32..48] == SECOND2 && w[48..64] == SECOND3 && w[64..80] == SECOND4
    requires at(0, 0x791A_9389, 0x69E0_61E1, 0xF9EF_EFE6, 0x7327_416A, 0x5BCF_7727)
    ensures at(40, 0x7692_2A14, 0x7DBC_F2ED, 0x796A_DEF3, 0xC6FF_0CD3, 0x6F69_8F1A)
  {
    SecondWords(w);
    FourRounds(at, w, 0, 0x791A_9389, 0x69E0_61E1, 0xF9EF_EFE6, 0x7327_416A, 0x5BCF_7727,
      0x6D33_5CDE, 0x1860_06B8, 0xF9FB_295D, 0x1585_5523);
    FourRounds(at, w, 4, 0x5BCF_7727, 0x6D33_5CDE, 0x1860_06B8, 0xF9FB_295D, 0x1585_5523,
      0xE43D_D2F2, 0x93A5_EFBB, 0xB3BB_CAFE, 0x25C0_18BE);
    FourRounds(at, w, 8, 0x1585_5523, 0xE43D_D2F2, 0x93A5_EFBB, 0xB3BB_CAFE, 0x25C0_18BE,
      0x8094_6593, 0x0B08_14C3, 0x4CE9_2417, 0x2506_01AD);
    FourRounds(at, w, 12, 0x25C0_18BE, 0x8094_6593, 0x0B08_14C3, 0x4CE9_2417, 0x2506_01AD,
      0x6576_D2DC, 0xAD43_F39E, 0x990B_7BE7, 0x986D_F268);
    FourRounds(at, w, 16, 0x2506_01AD, 0x6576_D2DC, 0xAD43_F39E, 0x990B_7BE7, 0x986D_F268,
      0x3AD7_440E, 0x7219_8F06, 0x2F19_3A09, 0x2A00_8B51);
    FourRounds(at, w, 20, 0x986D_F268, 0x3AD7_440E, 0x7219_8F06, 0x2F19_3A09, 0x2A00_8B51,
      0x1231_5B2B, 0x40FB_CF98, 0x3E51_79E7, 0x53C7_3650);
    FourRounds(at, w, 24, 0x2A00_8B51, 0x1231_5B2B, 0x40FB_CF98, 0x3E51_79E7, 0x53C7_3650,
      0x1D24_C44A, 0x646C_677D, 0xD2E7_26DA, 0x9327_DF6F);
    FourRounds(at, w, 28, 0x53C7_3650, 0x1D24_C44A, 0x646C_677D, 0xD2E7_26DA, 0x9327_DF6F,
      0xF57C_B53E, 0x243E_E057, 0xF4DD_D7B7, 0x3CF6_EB58);
    FourRounds(at, w, 32, 0x9327_DF6F, 0xF57C_B53E, 0x243E_E057, 0xF4DD_D7B7, 0x3CF6_EB58,
      0x730E_9170, 0x96D9_E59E, 0x942A_C4D3, 0x7692_2A14);
    FourRounds(at, w, 36, 0x3CF6_EB58, 0x730E_9170, 0x96D9_E59E, 0x942A_C4D3, 0x7692_2A14,
      0x7DBC_F2ED, 0x796A_DEF3, 0xC6FF_0CD3, 0x6F69_8F1A);
  }

  lemma SecondRounds40(at: Track, w: seq<bv32>)
    requires |w| == 80 && Advances(at, w) && w[0..16] == SECOND0 && w[16..32] == SECOND1
    requires w[32..48] == SECOND2 && w[48..64] == SECOND3 && w[64..80] == SECOND4
    requires at(40, 0x7692_2A14, 0x7DBC_F2ED, 0x796A_DEF3, 0xC6FF_0CD3, 0x6F69_8F1A)
    ensures at(80, 0x51E0_8021, 0xD301_0335, 0x49E9_2837, 0x4D3B_0DAC, 0x57AA_D805)
  {
    SecondWords(w);
    FourRounds(at, w, 40, 0x7692_2A14, 0x7DBC_F2ED, 0x796A_DEF3, 0xC6FF_0CD3, 0x6F69_8F1A,
      0x7871_6769, 0xFC34_3A02, 0xEDFC_D85B, 0x1E93_4ACF);
    FourRounds(at, w, 44, 0x6F69_8F1A, 0x7871_6769, 0xFC34_3A02, 0xEDFC_D85B, 0x1E93_4ACF,
      0xFC7B_D35F, 0x3BD9_203B, 0xC8CD_A3DA, 0xA3EF_857E);
    FourRounds(at, w, 48, 0x1E93_4ACF, 0xFC7B_D35F, 0x3BD9_203B, 0xC8CD_A3DA, 0xA3EF_857E,
      0xA39F_2041, 0xA516_F265, 0xA3AB_E4F5, 0x5FE2_A3DB);
    FourRounds(at, w, 52, 0xA3EF_857E, 0xA39F_2041, 0xA516_F265, 0xA3AB_E4F5, 0x5FE2_A3DB,
      0x9E54_0637, 0x2C73_BD78, 0x660D_D0B1, 0xA1B6_8141);
    FourRounds(at, w, 56, 0x5FE2_A3DB, 0x9E54_0637, 0x2C73_BD78, 0x660D_D0B1, 0xA1B6_8141,
      0x0503_3FA3, 0x2128_9715, 0x085E_B2FE, 0x5611_9F19);
    FourRounds(at, w, 60, 0xA1B6_8141, 0x0503_3FA3, 0x2128_9715, 0x085E_B2FE, 0x5611_9F19,
      0x7748_9E23, 0x1113_2F8F, 0xD5EF_1ED7, 0xA593_7450);
    FourRounds(at, w, 64, 0x5611_9F19, 0x7748_9E23, 0x1113_2F8F, 0xD5EF_1ED7, 0xA593_7450,
      0x9ECF_A66C, 0x17A2_2EF7, 0xC97F_1968, 0x097A_511C);
    FourRounds(at, w, 68, 0xA593_7450, 0x9ECF_A66C, 0x17A2_2EF7, 0xC97F_1968, 0x097A_511C,
      0x4E36_3DB9, 0xBF3A_7F95, 0xF6D1_AFEE, 0xC908_88CA);
    FourRounds(at, w, 72, 0x097A_511C, 0x4E36_3DB9, 0xBF3A_7F95, 0xF6D1_AFEE, 0xC908_88CA,
      0xC765_2EDB, 0x26F9_9990, 0xE22B_36D1, 0x51E0_8021);
    FourRounds(at, w, 76, 0xC908_88CA, 0xC765_2EDB, 0x26F9_9990, 0xE22B_36D1, 0x51E0_8021,
      0xD301_0335, 0x49E9_2837, 0x4D3B_0DAC, 0x57AA_D805);
  }

  lemma SecondBlock()
    ensures |SECOND0| == 16 && Block(FIRST, SECOND0) == SECOND
  {
    SecondSchedule();
    var w := Schedule(SECOND0);
    forall at: Track | Advances(at, w) && at(0, 0x791A_9389, 0x69E0_61E1, 0xF9EF_EFE6, 0x7327_416A, 0x5BCF_7727)
      ensures at(80, 0x51E0_8021, 0xD301_0335, 0x49E9_2837, 0x4D3B_0DAC, 0x57AA_D805)
    {
      SecondRounds0(at, w);
      SecondRounds40(at, w);
    }
    BlockBySteps(FIRST, SECOND0,
      0x791A_9389, 0x69E0_61E1, 0xF9EF_EFE6, 0x7327_416A, 0x5BCF_7727,
      0x51E0_8021, 0xD301_0335, 0x49E9_2837, 0x4D3B_0DAC, 0x57AA_D805);
  }

  // ----- the message and its two blocks -----

  const KEY0: Handshake.Text := [0x64, 0x47, 0x68, 0x6C, 0x49, 0x48, 0x4E, 0x68, 0x62, 0x58, 0x42, 0x73]
  const KEY1: Handshake.Text := [0x5A, 0x53, 0x42, 0x75, 0x62, 0x32, 0x35, 0x6A, 0x5A, 0x51, 0x3D, 0x3D]
  const KEY_TEXT: string := "dGhlIHNhbXBs" + "ZSBub25jZQ=="

  /** The key of the example. */
  function Key(): (k: Handshake.Text)
    ensures |k| == 24
  {
    KEY0 + KEY1
  }

  lemma KeyIsText()
    ensures Handshake.Spelled(Key(), KEY_TEXT)
  {
    Handshake.SpelledTwelve(KEY0, "dGhlIHNhbXBs");
    Handshake.SpelledTwelve(KEY1, "ZSBub25jZQ==");
    Handshake.SpelledJoin(KEY0, "dGhlIHNhbXBs", KEY1, "ZSBub25jZQ==");
  }

  lemma WordsOfTwelve(m: seq<bv8>, c: seq<bv8>, i: nat)
    requires i + 12 <= |m| && |c| == 12 && m[i..i + 12] == c
    ensures Word(m, i) == Word(c, 0) && Word(m, i + 4) == Word(c, 4) && Word(m, i + 8) == Word(c, 8)
  {
    assert forall j :: i <= j < i + 12 ==> m[j] == m[i..i + 12][j - i];
  }

  /** The words of the sixty bytes. */
  predicate MessageWords(m: seq<bv8>)
    requires |m| == 60
  {
    && Word(m, 0) == 0x6447_686C && Word(m, 4) == 0x4948_4E68 && Word(m, 8) == 0x6258_4273
    && Word(m, 12) == 0x5A53_4275 && Word(m, 16) == 0x6232_356A && Word(m, 20) == 0x5A51_3D3D
    && Word(m, 24) == 0x3235_3845 && Word(m, 28) == 0x4146_4135 && Word(m, 32) == 0x2D45_3931
    && Word(m, 36) == 0x342D_3437 && Word(m, 40) == 0x4441_2D39 && Word(m, 44) == 0x3543_412D
    && Word(m, 48) == 0x4335_4142 && Word(m, 52) == 0x3044_4338 && Word(m, 56) == 0x3542_3131
  }

  lemma PieceWords()
    ensures Word(KEY0, 0) == 0x6447_686C && Word(KEY0, 4) == 0x4948_4E68
    ensures Word(KEY0, 8) == 0x6258_4273
    ensures Word(KEY1, 0) == 0x5A53_4275 && Word(KEY1, 4) == 0x6232_356A
    ensures Word(KEY1, 8) == 0x5A51_3D3D
    ensures Word(Handshake.GUID0, 0) == 0x3235_3845 && Word(Handshake.GUID0, 4) == 0x4146_4135
    ensures Word(Handshake.GUID0, 8) == 0x2D45_3931
    ensures Word(Handshake.GUID1, 0) == 0x342D_3437 && Word(Handshake.GUID1, 4) == 0x4441_2D39
    ensures Word(Handshake.GUID1, 8) == 0x3543_412D
    ensures Word(Handshake.GUID2, 0) == 0x4335_4142 && Word(Handshake.GUID2, 4) == 0x3044_4338
    ensures Word(Handshake.GUID2, 8) == 0x3542_3131
  {}

  lemma FivePieces(a: seq<bv8>, b: seq<bv8>, c: seq<bv8>, d: seq<bv8>, e: seq<bv8>, m: seq<bv8>)
    requires |a| == |b| == |c| == |d| == |e| == 12 && m == a + b + (c + d + e)
    ensures m[0..12] == a && m[12..24] == b && m[24..36] == c && m[36..48] == d && m[48..60] == e
  {}

  lemma MessageHasWords(m: seq<bv8>)
    requires m == Key() + Handshake.Guid()
    ensures |m| == 60 && MessageWords(m)
  {
    FivePieces(KEY0, KEY1, Handshake.GUID0, Handshake.GUID1, Handshake.GUID2, m);
    WordsOfTwelve(m, KEY0, 0);
    WordsOfTwelve(m, KEY1, 12);
    WordsOfTwelve(m, Handshake.GUID0, 24);
    WordsOfTwelve(m, Handshake.GUID1, 36);
    WordsOfTwelve(m, Handshake.GUID2, 48);
    PieceWords();
  }

  lemma FirstBlockWords(m: seq<bv8>, b: seq<bv32>)
    requires |m| == 60 && MessageWords(m) && b == BlockAt(Pad(m), 0)
    ensures b == FIRST0
  {
    forall k | 0 <= k < 15 ensures b[k] == Word(m, 4 * k) {
    }
  }

  lemma SecondBlockWords(m: seq<bv8>, b: seq<bv32>)
    requires |m| == 60 && b == BlockAt(Pad(m), 64)
    ensures b == SECOND0
  {
  }

  // ----- the accept value -----

  lemma ChainOn(s: seq<bv8>, n: nat, b: seq<bv32>, h: Regs, r: Regs)
    requires 64 * n + 64 <= |s| && BlockAt(s, 64 * n) == b && Chain(s, n) == h && Block(h, b) == r
    ensures Chain(s, n + 1) == r
  {}

  lemma DigestBy(m: seq<bv8>, n: nat, h: Regs)
    requires |m| < LENGTH_LIMIT && n == PaddedLength(|m|) / 64 && Chain(Pad(m), n) == h
    ensures Digest(m) == RegsBytes(h)
  {}

  lemma ChainIsFirst(m: seq<bv8>, s: seq<bv8>)
    requires m == Key() + Handshake.Guid() && s == Pad(m)
    ensures Chain(s, 1) == FIRST
  {
    MessageHasWords(m);
    FirstBlockWords(m, BlockAt(s, 0));
    FirstBlock();
    ChainOn(s, 0, FIRST0, INITIAL, FIRST);
  }

  lemma ChainIsSecond(m: seq<bv8>, s: seq<bv8>)
    requires m == Key() + Handshake.Guid() && s == Pad(m)
    ensures Chain(s, 2) == SECOND
  {
    ChainIsFirst(m, s);
    SecondBlockWords(m, BlockAt(s, 64));
    SecondBlock();
    ChainOn(s, 1, SECOND0, FIRST, SECOND);
  }

  lemma DigestIsSecond(m: seq<bv8>)
    requires m == Key() + Handshake.Guid()
    ensures Digest(m) == RegsBytes(SECOND)
  {
    ChainIsSecond(m, Pad(m));
    DigestBy(m, 2, SECOND);
  }

  const DIGEST: seq<bv8> := [
    0xB3, 0x7A, 0x4F, 0x2C, 0xC0, 0x62, 0x4F, 0x16, 0x90, 0xF6,
    0x46, 0x06, 0xCF, 0x38, 0x59, 0x45, 0xB2, 0xBE, 0xC4, 0xEA]

  lemma DigestBytes()
    ensures RegsBytes(SECOND) == DIGEST
  {}

  lemma EncodedGroup(d: seq<bv8>, i: nat, g: seq<bv8>, rest: seq<bv8>)
    requires i + 3 <= |d| && g == Base64.Group(d[i], d[i + 1], d[i + 2]) && Base64.EncodeFrom(d, i + 3) == rest
    ensures Base64.EncodeFrom(d, i) == g + rest
  {}

  const ACCEPT0: Handshake.Text := [0x73, 0x33, 0x70, 0x50, 0x4C, 0x4D, 0x42, 0x69, 0x54, 0x78, 0x61, 0x51]
  const ACCEPT1: Handshake.Text := [0x39, 0x6B, 0x59, 0x47, 0x7A, 0x7A, 0x68, 0x5A, 0x52, 0x62, 0x4B, 0x2B]
  const ACCEPT2: Handshake.Text := [0x78, 0x4F, 0x6F, 0x3D]
  const ACCEPT_TEXT: string := "s3pPLMBiTxaQ" + "9kYGzzhZRbK+" + "xOo="

  lemma DigestEncoded(d: seq<bv8>)
    requires d == DIGEST
    ensures Base64.Encode(d) == ACCEPT0 + ACCEPT1 + ACCEPT2
  {
    var g0, g1, g2 := [0x73, 0x33, 0x70, 0x50], [0x4C, 0x4D, 0x42, 0x69], [0x54, 0x78, 0x61, 0x51];
    var g3, g4, g5 := [0x39, 0x6B, 0x59, 0x47], [0x7A, 0x7A, 0x68, 0x5A], [0x52, 0x62, 0x4B, 0x2B];
    DigestGroups(d);
    var r5 := g5 + ACCEPT2;
    var r4 := g4 + r5;
    var r3 := g3 + r4;
    var r2 := g2 + r3;
    var r1 := g1 + r2;
    EncodedGroup(d, 15, g5, ACCEPT2);
    EncodedGroup(d, 12, g4, r5);
    EncodedGroup(d, 9, g3, r4);
    EncodedGroup(d, 6, g2, r3);
    EncodedGroup(d, 3, g1, r2);
    EncodedGroup(d, 0, g0, r1);
    assert ACCEPT0 == g0 + g1 + g2 && ACCEPT1 == g3 + g4 + g5;
  }

  lemma DigestGroups(d: seq<bv8>)
    requires d == DIGEST
    ensures |d| == 20 && Base64.EncodeFrom(d, 18) == ACCEPT2
    ensures Base64.Group(d[0], d[1], d[2]) == [0x73, 0x33, 0x70, 0x50]
    ensures Base64.Group(d[3], d[4], d[5]) == [0x4C, 0x4D, 0x42, 0x69]
    ensures Base64.Group(d[6], d[7], d[8]) == [0x54, 0x78, 0x61, 0x51]
    ensures Base64.Group(d[9], d[10], d[11]) == [0x39, 0x6B, 0x59, 0x47]
    ensures Base64.Group(d[12], d[13], d[14]) == [0x7A, 0x7A, 0x68, 0x5A]
    ensures Base64.Group(d[15], d[16], d[17]) == [0x52, 0x62, 0x4B, 0x2B]
  {}

  /** Examples of section 10 of RFC 4648: "f", "fo", "foo" and "foobar". */
  lemma EncodingSamples()
    ensures Handshake.Spelled(Base64.Encode([0x66]), "Zg==")
    ensures Handshake.Spelled(Base64.Encode([0x66, 0x6F]), "Zm8=")
    ensures Handshake.Spelled(Base64.Encode([0x66, 0x6F, 0x6F]), "Zm9v")
    ensures Handshake.Spelled(Base64.Encode([0x66, 0x6F, 0x6F, 0x62, 0x61, 0x72]), "Zm9v" + "YmFy")
  {
    var foo: Handshake.Text, bar: Handshake.Text := [0x5A, 0x6D, 0x39, 0x76], [0x59, 0x6D, 0x46, 0x79];
    var bytes: seq<bv8> := [0x66, 0x6F, 0x6F, 0x62, 0x61, 0x72];
    EncodedGroup([0x66, 0x6F, 0x6F], 0, foo, []);
    EncodedGroup(bytes, 3, bar, []);
    EncodedGroup(bytes, 0, foo, bar);
    assert Handshake.FourAt(foo, "Zm9v", 0) && Handshake.FourAt(bar, "YmFy", 0);
    Handshake.SpelledJoin(foo, "Zm9v", bar, "YmFy");
  }

  /** The accept value for the key of the example is the one that the standard gives for it. */
  lemma SampleAccept()
    ensures Handshake.Spelled(Key(), KEY_TEXT)
    ensures Handshake.Spelled(Handshake.AcceptValue(Key()), ACCEPT_TEXT)
  {
    KeyIsText();
    DigestIsSecond(Key() + Handshake.Guid());
    DigestBytes();
    DigestEncoded(DIGEST);
    AcceptIsText();
  }

  lemma AcceptIsText()
    ensures Handshake.Spelled(ACCEPT0 + ACCEPT1 + ACCEPT2, ACCEPT_TEXT)
  {
    Handshake.SpelledTwelve(ACCEPT0, "s3pPLMBiTxaQ");
    Handshake.SpelledTwelve(ACCEPT1, "9kYGzzhZRbK+");
    assert Handshake.FourAt(ACCEPT2, "xOo=", 0);
    Handshake.SpelledJoin(ACCEPT0, "s3pPLMBiTxaQ", ACCEPT1, "9kYGzzhZRbK+");
    Handshake.SpelledJoin(ACCEPT0 + ACCEPT1, "s3pPLMBiTxaQ" + "9kYGzzhZRbK+", ACCEPT2, "xOo=");
  }
}
