/** The limit of that: two sequence numbers the hash confuses after eight zero bytes, step by step. */
module AuditConfusion {
  import opened Common
  import opened Bits
  import opened AuditLog
  import opened AuditBurst

  function Differ(x: nat, y: nat): nat { if x % 2 != y % 2 then 1 else 0 }

  /** The exclusive OR of the low four bits. */
  function Nibble(x: nat, y: nat): nat {
    Differ(x, y) + 2 * Differ(x / 2, y / 2) + 4 * Differ(x / 4, y / 4) + 8 * Differ(x / 8, y / 8)
  }

  lemma XorBit(x: nat, y: nat)
    ensures Xor(x, y) == 2 * Xor(x / 2, y / 2) + Differ(x, y)
  {
    hide Xor;
    XorHalf(x, y);
  }

  lemma XorNibble(x: nat, y: nat)
    ensures Xor(x, y) == 16 * Xor(x / 16, y / 16) + Nibble(x, y)
  {
    hide Xor, Differ;
    XorBit(x, y);
    XorBit(x / 2, y / 2);
    XorBit(x / 4, y / 4);
    XorBit(x / 8, y / 8);
    assert x / 2 / 2 == x / 4 && x / 4 / 2 == x / 8 && x / 8 / 2 == x / 16;
    assert y / 2 / 2 == y / 4 && y / 4 / 2 == y / 8 && y / 8 / 2 == y / 16;
  }

  lemma XorNone(x: nat)
    ensures Xor(x, 0) == x
  {
  }

  /** A step, nibble by nibble: the exclusive OR times the prime is k * 2^64 + next. */
  lemma StepAt(q: nat, m: nat, n: nat, b1: nat, b0: nat, k: nat, next: nat)
    requires m < 16 && n < 16 && b1 < 16 && b0 < 16 && next < M64
    requires (256 * q + 16 * Nibble(m, b1) + Nibble(n, b0)) * 0x100_0000_01b3 == M64 * k + next
    ensures FnvStep(256 * q + 16 * m + n, 16 * b1 + b0) == next
  {
    hide Xor, Nibble;
    var h, b := 256 * q + 16 * m + n, 16 * b1 + b0;
    XorLow(16 * q + m, n, b1, b0);
    XorLow(q, m, 0, b1);
    XorNone(q);
    DivUnique(Xor(h, b) * 0x100_0000_01b3, M64, k, next);
  }

  lemma XorLow(x: nat, m: nat, y: nat, n: nat)
    requires m < 16 && n < 16
    ensures Xor(16 * x + m, 16 * y + n) == 16 * Xor(x, y) + Nibble(m, n)
  {
    hide Xor, Differ;
    var a, b := 16 * x + m, 16 * y + n;
    XorNibble(a, b);
    assert a / 16 == x && b / 16 == y;
    SameNibble(x, m, y, n);
  }

  lemma SameNibble(x: nat, m: nat, y: nat, n: nat)
    requires m < 16 && n < 16
    ensures Nibble(16 * x + m, 16 * y + n) == Nibble(m, n)
  {
    LowBits(x, m);
    LowBits(y, n);
  }

  lemma LowBits(x: nat, m: nat)
    ensures var a := 16 * x + m;
      a % 2 == m % 2 && a / 2 % 2 == m / 2 % 2 && a / 4 % 2 == m / 4 % 2 && a / 8 % 2 == m / 8 % 2
  {
    var a := 16 * x + m;
    DivUnique(a, 2, 8 * x + m / 2, m % 2);
    DivUnique(a, 4, 4 * x + m / 4, m % 4);
    DivUnique(a, 8, 2 * x + m / 8, m % 8);
    ModShift(2, 4 * x, m / 2);
    ModShift(2, 2 * x, m / 4);
    ModShift(2, x, m / 8);
  }

  lemma ZeroStep(h: nat, k: nat, next: nat)
    requires next < M64 && h * 0x100_0000_01b3 == M64 * k + next
    ensures FnvStep(h, 0) == next
  {
    hide Xor;
    XorNone(h);
    DivUnique(h * 0x100_0000_01b3, M64, k, next);
  }

  lemma FnvTwo(b: Byte, c: Byte, h: nat)
    ensures Fnv([b, c], h) == FnvStep(FnvStep(h, b), c)
  {
    hide FnvStep;
    assert [b, c][1..] == [c] && [c][1..] == [];
    assert Fnv([b, c], h) == Fnv([c], FnvStep(h, b));
  }

  lemma Zeros0()
    ensures Fnv([0, 0, 0, 0], 0xcbf2_9ce4_8422_2325) == 0x4d25_767f_9dce_13f5
  {
    hide FnvStep, Fnv;
    ZeroStep(0xcbf2_9ce4_8422_2325, 0xcb_f29c_e5de, 0xaf63_bd4c_8601_b7df);
    ZeroStep(0xaf63_bd4c_8601_b7df, 0xaf_63bd_4db0, 0x832_8807_b4eb_6fed);
    ZeroStep(0x832_8807_b4eb_6fed, 0x8_3288_07c2, 0xd94d_1218_6c0f_2fb7);
    ZeroStep(0xd94d_1218_6c0f_2fb7, 0xd9_4d12_19dd, 0x4d25_767f_9dce_13f5);
    FnvFour([0, 0, 0, 0], 0xcbf2_9ce4_8422_2325);
  }

  lemma Zeros4()
    ensures Fnv([0, 0, 0, 0], 0x4d25_767f_9dce_13f5) == 0xa8c7_f832_281a_39c5
  {
    hide FnvStep, Fnv;
    ZeroStep(0x4d25_767f_9dce_13f5, 0x4d_2576_8020, 0xe4bc_4fd9_252b_e94f);
    ZeroStep(0xe4bc_4fd9_252b_e94f, 0xe4_bc4f_daa9, 0xd7e4_fcfa_299d_713d);
    ZeroStep(0xd7e4_fcfa_299d_713d, 0xd7_e4fc_fb98, 0x778b_1a14_b687_6aa7);
    ZeroStep(0x778b_1a14_b687_6aa7, 0x77_8b1a_1581, 0xa8c7_f832_281a_39c5);
    FnvFour([0, 0, 0, 0], 0x4d25_767f_9dce_13f5);
  }

  lemma Left0()
    ensures Fnv([201, 39], 0xa8c7_f832_281a_39c5) == 0x675e_30cc_1ee0_8ed9
  {
    hide FnvStep, Fnv;
    StepAt(0xa8_c7f8_3228_1a39, 12, 5, 12, 9, 0xa8_c7f8_3346, 0xe603_c93a_248e_ef64);
    StepAt(0xe6_03c9_3a24_8eef, 6, 4, 2, 7, 0xe6_03c9_3bab, 0x675e_30cc_1ee0_8ed9);
    FnvTwo(201, 39, 0xa8c7_f832_281a_39c5);
  }

  lemma Left2()
    ensures Fnv([253, 199], 0x675e_30cc_1ee0_8ed9) == 0x9802_24d3_2c49_f451
  {
    hide FnvStep, Fnv;
    StepAt(0x67_5e30_cc1e_e08e, 13, 9, 15, 13, 0x67_5e30_ccce, 0x859b_0ed8_7791_872c);
    StepAt(0x85_9b0e_d877_9187, 2, 12, 12, 7, 0x85_9b0e_d95a, 0x9802_24d3_2c49_f451);
    FnvTwo(253, 199, 0x675e_30cc_1ee0_8ed9);
  }

  lemma Left4()
    ensures Fnv([237, 247], 0x9802_24d3_2c49_f451) == 0xde5c_75ab_9552_ff99
  {
    hide FnvStep, Fnv;
    StepAt(0x98_0224_d32c_49f4, 5, 1, 14, 13, 0x98_0224_d42e, 0x9599_4ed4_41aa_db74);
    StepAt(0x95_994e_d441_aadb, 7, 4, 15, 7, 0x95_994e_d53f, 0xde5c_75ab_9552_ff99);
    FnvTwo(237, 247, 0x9802_24d3_2c49_f451);
  }

  lemma Left6()
    ensures Fnv([137, 0], 0xde5c_75ab_9552_ff99) == 0x934d_8889_8096_0990
  {
    hide FnvStep, Fnv;
    StepAt(0xde_5c75_ab95_52ff, 9, 9, 8, 9, 0xde_5c75_ad0f, 0x2a1b_028e_bc07_6830);
    StepAt(0x2a_1b02_8ebc_0768, 3, 0, 0, 0, 0x2a_1b02_8f03, 0x934d_8889_8096_0990);
    FnvTwo(137, 0, 0xde5c_75ab_9552_ff99);
  }

  lemma Left()
    ensures Fnv([201, 39, 253, 199, 237, 247, 137, 0], 0xa8c7_f832_281a_39c5) == 0x934d_8889_8096_0990
  {
    hide Fnv;
    Left0();
    Left2();
    Left4();
    Left6();
    Halves([201, 39, 253, 199, 237, 247, 137, 0], [201, 39], [253, 199, 237, 247, 137, 0], 0xa8c7_f832_281a_39c5);
    Halves([253, 199, 237, 247, 137, 0], [253, 199], [237, 247, 137, 0], 0x675e_30cc_1ee0_8ed9);
    Halves([237, 247, 137, 0], [237, 247], [137, 0], 0x9802_24d3_2c49_f451);
  }

  lemma Right0()
    ensures Fnv([99, 44], 0xa8c7_f832_281a_39c5) == 0x6969_d9cc_209d_b85a
  {
    hide FnvStep, Fnv;
    StepAt(0xa8_c7f8_3228_1a39, 12, 5, 6, 3, 0xa8_c7f8_3346, 0xe604_633a_248f_f512);
    StepAt(0xe6_0463_3a24_8ff5, 1, 2, 2, 12, 0xe6_0463_3bab, 0x6969_d9cc_209d_b85a);
    FnvTwo(99, 44, 0xa8c7_f832_281a_39c5);
  }

  lemma Right2()
    ensures Fnv([240, 236], 0x6969_d9cc_209d_b85a) == 0x733d_33d8_8554_2cf6
  {
    hide FnvStep, Fnv;
    StepAt(0x69_69d9_cc20_9db8, 5, 10, 15, 0, 0x69_69d9_ccd3, 0xbc95_bfdb_6c00_c8de);
    StepAt(0xbc_95bf_db6c_00c8, 13, 14, 14, 12, 0xbc_95bf_dcac, 0x733d_33d8_8554_2cf6);
    FnvTwo(240, 236, 0x6969_d9cc_209d_b85a);
  }

  lemma Right4()
    ensures Fnv([238, 91], 0x733d_33d8_8554_2cf6) == 0x2f50_b18f_55c3_fdc9
  {
    hide FnvStep, Fnv;
    StepAt(0x73_3d33_d885_542c, 15, 6, 14, 14, 0x73_3d33_d949, 0x252b_30ea_8e06_ecc8);
    StepAt(0x25_2b30_ea8e_06ec, 12, 8, 5, 11, 0x25_2b30_eacd, 0x2f50_b18f_55c3_fdc9);
    FnvTwo(238, 91, 0x733d_33d8_8554_2cf6);
  }

  lemma Right6()
    ensures Fnv([133, 20], 0x2f50_b18f_55c3_fdc9) == 0x934d_8889_8096_0990
  {
    hide FnvStep, Fnv;
    StepAt(0x2f_50b1_8f55_c3fd, 12, 9, 8, 5, 0x2f_50b1_8fa6, 0x2a1b_028e_bc07_6824);
    StepAt(0x2a_1b02_8ebc_0768, 2, 4, 1, 4, 0x2a_1b02_8f03, 0x934d_8889_8096_0990);
    FnvTwo(133, 20, 0x2f50_b18f_55c3_fdc9);
  }

  lemma Right()
    ensures Fnv([99, 44, 240, 236, 238, 91, 133, 20], 0xa8c7_f832_281a_39c5) == 0x934d_8889_8096_0990
  {
    hide Fnv;
    Right0();
    Right2();
    Right4();
    Right6();
    Halves([99, 44, 240, 236, 238, 91, 133, 20], [99, 44], [240, 236, 238, 91, 133, 20], 0xa8c7_f832_281a_39c5);
    Halves([240, 236, 238, 91, 133, 20], [240, 236], [238, 91, 133, 20], 0x6969_d9cc_209d_b85a);
    Halves([238, 91, 133, 20], [238, 91], [133, 20], 0x733d_33d8_8554_2cf6);
  }

  lemma Halves(b: seq<Byte>, x: seq<Byte>, y: seq<Byte>, h: nat)
    requires b == x + y
    ensures Fnv(b, h) == Fnv(y, Fnv(x, h))
  {
    FnvAppend(x, y, h);
  }

  lemma ConsByte(x: nat, c: Byte, n: nat)
    ensures LittleEndian(256 * x + c, n + 1) == [c] + LittleEndian(x, n)
  {
    DivUnique(256 * x + c, 256, x, c);
  }

  lemma ConsFour(x: nat, a: Byte, b: Byte, c: Byte, d: Byte, n: nat)
    ensures var y: nat := 256 * (256 * (256 * (256 * x + d) + c) + b) + a;
      LittleEndian(y, n + 4) == [a, b, c, d] + LittleEndian(x, n)
  {
    hide LittleEndian;
    ConsByte(x, d, n);
    ConsByte(256 * x + d, c, n + 1);
    ConsByte(256 * (256 * x + d) + c, b, n + 2);
    ConsByte(256 * (256 * (256 * x + d) + c) + b, a, n + 3);
  }

  lemma NoBytes()
    ensures LittleEndian(0, 0) == []
  {
  }

  lemma LeftBytes()
    ensures LittleEndian(0x89_f7ed_c7fd_27c9, 8) == [201, 39, 253, 199, 237, 247, 137, 0]
  {
    hide LittleEndian;
    ConsFour(0, 237, 247, 137, 0, 0);
    ConsFour(0x89_f7ed, 201, 39, 253, 199, 4);
    NoBytes();
  }

  lemma RightBytes()
    ensures LittleEndian(0x1485_5bee_ecf0_2c63, 8) == [99, 44, 240, 236, 238, 91, 133, 20]
  {
    hide LittleEndian;
    ConsFour(0, 238, 91, 133, 20, 0);
    ConsFour(0x1485_5bee, 99, 44, 240, 236, 4);
    NoBytes();
  }

  /** Eight bytes from one state can meet again: not every renumbering is found. */
  lemma RenumberedUnseen(e: Event)
    requires e.head == [0, 0, 0, 0, 0, 0, 0, 0]
    ensures NumberHash(e, 0x89_f7ed_c7fd_27c9) == NumberHash(e, 0x1485_5bee_ecf0_2c63)
  {
    hide Fnv, LittleEndian;
    Halves(e.head, [0, 0, 0, 0], [0, 0, 0, 0], BASIS);
    Zeros0();
    Zeros4();
    LeftBytes();
    RightBytes();
    Left();
    Right();
  }
}
