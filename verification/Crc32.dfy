/** The table-driven CRC-32 of limine-deploy.c against the bit-serial register it speeds up. */
module Crc32 {

  // ----- The reference: a shift register fed one message bit at a time (section 8 of RFC 1952)

  const POLYNOMIAL: bv32 := 0xedb8_8320

  function Xor(e: bv32, d: bv32): (r: bv32) {
    e ^ d
  }

  function Feedback(crc: bv32): (r: bv32) {
    crc ^ POLYNOMIAL
  }

  function Shift(m: bv32): (r: bv32) {
    m >> 1
  }

  /** The low bit of the register xor the low message bit decides on the feedback. */
  predicate Taps(crc: bv32, m: bv32) {
    (crc ^ m) & 1 == 1
  }

  /** A shift register with feedback. What it holds may be of any type: the inductions below use the
      laws of `Linear` and nothing about bits. */
  datatype Register<!T(!new)> = Register(taps: (T, T) -> bool, xor: (T, T) -> T, shift: T -> T, feedback: T -> T) {
    function Clock(crc: T, m: T): (crc': T) {
      if taps(crc, m) then feedback(shift(crc)) else shift(crc)
    }

    /** `n` clocks, with the message shifted along. */
    function Feed(crc: T, m: T, n: nat): (crc': T)
      decreases n
    {
      if n == 0 then crc else Feed(Clock(crc, m), shift(m), n - 1)
    }

    function Shifted(e: T, n: nat): (r: T)
      decreases n
    {
      if n == 0 then e else Shifted(shift(e), n - 1)
    }

    ghost predicate TapsMove(e: T, d: T, m: T) {
      taps(xor(e, d), m) == taps(d, xor(e, m))
    }

    ghost predicate ShiftSpreads(e: T, d: T) {
      shift(xor(e, d)) == xor(shift(e), shift(d))
    }

    ghost predicate FeedbackMoves(e: T, d: T) {
      feedback(xor(e, d)) == xor(e, feedback(d))
    }

    ghost predicate Linear() {
      && (forall e, d, m :: TapsMove(e, d, m))
      && (forall e, d :: ShiftSpreads(e, d))
      && (forall e, d :: FeedbackMoves(e, d))
    }

    /** Messages that no register contents tell apart in `n` clocks. */
    ghost predicate Alike(m: T, w: T, n: nat)
      decreases n
    {
      n == 0 || ((forall crc :: taps(crc, m) == taps(crc, w)) && Alike(shift(m), shift(w), n - 1))
    }

    lemma AlikeStep(m: T, w: T, n: nat)
      requires n > 0 && (forall crc :: taps(crc, m) == taps(crc, w)) && Alike(shift(m), shift(w), n - 1)
      ensures Alike(m, w, n)
    {
    }

    lemma {:induction false} FeedAlike(crc: T, m: T, w: T, n: nat)
      requires Alike(m, w, n)
      ensures Feed(crc, m, n) == Feed(crc, w, n)
      decreases n
    {
      if n > 0 {
        FeedAlike(Clock(crc, m), shift(m), shift(w), n - 1);
      }
    }

    /** What lies in the register on top of `d` moves down, and acts as message when it leaves. */
    lemma ClockSplits(e: T, d: T, m: T)
      requires Linear()
      ensures Clock(xor(e, d), m) == xor(shift(e), Clock(d, xor(e, m)))
    {
      assert TapsMove(e, d, m) && ShiftSpreads(e, d) && FeedbackMoves(shift(e), shift(d));
    }

    lemma {:induction false} FeedSplits(e: T, d: T, m: T, n: nat)
      requires Linear()
      ensures Feed(xor(e, d), m, n) == xor(Shifted(e, n), Feed(d, xor(e, m), n))
      decreases n
    {
      if n > 0 {
        ClockSplits(e, d, m);
        assert ShiftSpreads(e, m);
        FeedSplits(shift(e), Clock(d, xor(e, m)), shift(m), n - 1);
      }
    }

    lemma ByteStep(zero: T, crc: T, m: T, low: T, n: nat)
      requires Linear() && xor(crc, zero) == crc && Alike(xor(crc, m), low, n)
      ensures Feed(crc, m, n) == xor(Shifted(crc, n), Feed(zero, low, n))
    {
      FeedSplits(crc, zero, m, n);
      FeedAlike(zero, xor(crc, m), low, n);
    }
  }

  const CRC: Register<bv32> := Register(Taps, Xor, Shift, Feedback)

  function FeedAll(c: Register<bv32>, n: nat, crc: bv32, stream: seq<bv8>): (crc': bv32)
    decreases |stream|
  {
    if stream == [] then crc
    else c.Feed(FeedAll(c, n, crc, stream[..|stream| - 1]), stream[|stream| - 1] as bv32, n)
  }

  function BitSerialCrc(stream: seq<bv8>): (crc: bv32) {
    FeedAll(CRC, 8, 0xffff_ffff, stream) ^ 0xffff_ffff
  }

  // ----- Shifting out and feeding back

  lemma LowBit(e: bv32, d: bv32, m: bv32)
    ensures ((e ^ d) ^ m) & 1 == (d ^ (e ^ m)) & 1
  {
  }

  lemma CrcTapsMove(e: bv32, d: bv32, m: bv32)
    ensures CRC.TapsMove(e, d, m)
  {
    LowBit(e, d, m);
  }

  lemma CrcShiftSpreads(e: bv32, d: bv32)
    ensures CRC.ShiftSpreads(e, d)
  {
  }

  lemma CrcFeedbackMoves(e: bv32, d: bv32)
    ensures CRC.FeedbackMoves(e, d)
  {
  }

  lemma CrcIsLinear()
    ensures CRC.Linear()
  {
    forall e, d, m ensures CRC.TapsMove(e, d, m) {
      CrcTapsMove(e, d, m);
    }
    forall e, d ensures CRC.ShiftSpreads(e, d) {
      CrcShiftSpreads(e, d);
    }
    forall e, d ensures CRC.FeedbackMoves(e, d) {
      CrcFeedbackMoves(e, d);
    }
  }

  predicate Ones(mask: bv32, n: nat)
    decreases n
  {
    n == 0 || (mask & 1 == 1 && Ones(mask >> 1, n - 1))
  }

  lemma ShiftMasked(m: bv32, mask: bv32)
    ensures CRC.shift(m) == m >> 1 && CRC.shift(m & mask) == (m >> 1) & (mask >> 1)
  {
  }

  lemma LowBitMasked(crc: bv32, m: bv32, mask: bv32)
    requires mask & 1 == 1
    ensures Taps(crc, m) == Taps(crc, m & mask)
  {
  }

  lemma TapsMasked(m: bv32, mask: bv32)
    requires mask & 1 == 1
    ensures forall crc :: CRC.taps(crc, m) == CRC.taps(crc, m & mask)
  {
    forall crc ensures CRC.taps(crc, m) == CRC.taps(crc, m & mask) {
      LowBitMasked(crc, m, mask);
    }
  }

  lemma {:induction false} MaskedAlike(m: bv32, mask: bv32, n: nat)
    requires Ones(mask, n)
    ensures CRC.Alike(m, m & mask, n)
    decreases n
  {
    if n > 0 {
      MaskedAlike(m >> 1, mask >> 1, n - 1);
      ShiftMasked(m, mask);
      TapsMasked(m, mask);
      CRC.AlikeStep(m, m & mask, n);
    }
  }

  lemma EightOnes()
    ensures Ones(0xff, 8)
  {
  }

  lemma EightDown(e: bv32)
    ensures CRC.Shifted(e, 8) == e >> 8
  {
  }
  /** Feeding `n` bits shifts the register down by a byte and feeds back the byte that left it. */
  ghost predicate SplitsAt(c: Register<bv32>, n: nat, crc: bv32, m: bv32) {
    c.Feed(crc, m, n) == (crc >> 8) ^ c.Feed(0, (crc ^ m) & 0xff, n)
  }

  ghost predicate Splits(c: Register<bv32>, n: nat) {
    forall crc, m :: SplitsAt(c, n, crc, m)
  }

  /** What makes `n` clocks of `c` a step by one byte. */
  ghost predicate ByteWide(c: Register<bv32>, n: nat, e: bv32) {
    c.xor(e, 0) == e && c.Shifted(e, n) == e >> 8 && c.Alike(e, e & 0xff, n)
  }

  lemma ByteSplits(c: Register<bv32>, n: nat, crc: bv32, m: bv32)
    requires c.Linear() && c.xor == Xor && ByteWide(c, n, crc) && ByteWide(c, n, crc ^ m)
    ensures SplitsAt(c, n, crc, m)
  {
    c.ByteStep(0, crc, m, (crc ^ m) & 0xff, n);
  }

  lemma XorZero(e: bv32)
    ensures Xor(e, 0) == e
  {
  }

  lemma CrcIsByteWide(e: bv32)
    ensures ByteWide(CRC, 8, e)
  {
    XorZero(e);
    EightDown(e);
    EightOnes();
    MaskedAlike(e, 0xff, 8);
  }

  lemma RegisterSplits(c: Register<bv32>, n: nat)
    requires c.Linear() && c.xor == Xor && forall e :: ByteWide(c, n, e)
    ensures Splits(c, n)
  {
    forall crc, m ensures SplitsAt(c, n, crc, m) {
      ByteSplits(c, n, crc, m);
    }
  }

  lemma FeedOneMore(c: Register<bv32>, n: nat, crc: bv32, stream: seq<bv8>, i: nat)
    requires i < |stream|
    ensures FeedAll(c, n, crc, stream[..i + 1]) == c.Feed(FeedAll(c, n, crc, stream[..i]), stream[i] as bv32, n)
  {
    assert stream[..i + 1][..i] == stream[..i];
  }

  // ----- The table, sixteen entries a row

  function Row0(k: bv32): (entry: bv32) {
    match k
    case 0 => 0x0000_0000 case 1 => 0x7707_3096 case 2 => 0xee0e_612c case 3 => 0x9909_51ba
    case 4 => 0x076d_c419 case 5 => 0x706a_f48f case 6 => 0xe963_a535 case 7 => 0x9e64_95a3
    case 8 => 0x0edb_8832 case 9 => 0x79dc_b8a4 case 10 => 0xe0d5_e91e case 11 => 0x97d2_d988
    case 12 => 0x09b6_4c2b case 13 => 0x7eb1_7cbd case 14 => 0xe7b8_2d07 case _ => 0x90bf_1d91
  }

  lemma Row0IsFeed(k: bv32)
    requires k < 16
    ensures Row0(k) == CRC.Feed(0, 0 + k, 8)
  {
    match k
    case 0 => case 1 => case 2 => case 3 => case 4 => case 5 => case 6 => case 7 =>
    case 8 => case 9 => case 10 => case 11 => case 12 => case 13 => case 14 => case _ =>
  }

  function Row1(k: bv32): (entry: bv32) {
    match k
    case 0 => 0x1db7_1064 case 1 => 0x6ab0_20f2 case 2 => 0xf3b9_7148 case 3 => 0x84be_41de
    case 4 => 0x1ada_d47d case 5 => 0x6ddd_e4eb case 6 => 0xf4d4_b551 case 7 => 0x83d3_85c7
    case 8 => 0x136c_9856 case 9 => 0x646b_a8c0 case 10 => 0xfd62_f97a case 11 => 0x8a65_c9ec
    case 12 => 0x1401_5c4f case 13 => 0x6306_6cd9 case 14 => 0xfa0f_3d63 case _ => 0x8d08_0df5
  }

  lemma Row1IsFeed(k: bv32)
    requires k < 16
    ensures Row1(k) == CRC.Feed(0, 16 + k, 8)
  {
    match k
    case 0 => case 1 => case 2 => case 3 => case 4 => case 5 => case 6 => case 7 =>
    case 8 => case 9 => case 10 => case 11 => case 12 => case 13 => case 14 => case _ =>
  }

  function Row2(k: bv32): (entry: bv32) {
    match k
    case 0 => 0x3b6e_20c8 case 1 => 0x4c69_105e case 2 => 0xd560_41e4 case 3 => 0xa267_7172
    case 4 => 0x3c03_e4d1 case 5 => 0x4b04_d447 case 6 => 0xd20d_85fd case 7 => 0xa50a_b56b
    case 8 => 0x35b5_a8fa case 9 => 0x42b2_986c case 10 => 0xdbbb_c9d6 case 11 => 0xacbc_f940
    case 12 => 0x32d8_6ce3 case 13 => 0x45df_5c75 case 14 => 0xdcd6_0dcf case _ => 0xabd1_3d59
  }

  lemma Row2IsFeed(k: bv32)
    requires k < 16
    ensures Row2(k) == CRC.Feed(0, 32 + k, 8)
  {
    match k
    case 0 => case 1 => case 2 => case 3 => case 4 => case 5 => case 6 => case 7 =>
    case 8 => case 9 => case 10 => case 11 => case 12 => case 13 => case 14 => case _ =>
  }

  function Row3(k: bv32): (entry: bv32) {
    match k
    case 0 => 0x26d9_30ac case 1 => 0x51de_003a case 2 => 0xc8d7_5180 case 3 => 0xbfd0_6116
    case 4 => 0x21b4_f4b5 case 5 => 0x56b3_c423 case 6 => 0xcfba_9599 case 7 => 0xb8bd_a50f
    case 8 => 0x2802_b89e case 9 => 0x5f05_8808 case 10 => 0xc60c_d9b2 case 11 => 0xb10b_e924
    case 12 => 0x2f6f_7c87 case 13 => 0x5868_4c11 case 14 => 0xc161_1dab case _ => 0xb666_2d3d
  }

  lemma Row3IsFeed(k: bv32)
    requires k < 16
    ensures Row3(k) == CRC.Feed(0, 48 + k, 8)
  {
    match k
    case 0 => case 1 => case 2 => case 3 => case 4 => case 5 => case 6 => case 7 =>
    case 8 => case 9 => case 10 => case 11 => case 12 => case 13 => case 14 => case _ =>
  }

  function Row4(k: bv32): (entry: bv32) {
    match k
    case 0 => 0x76dc_4190 case 1 => 0x01db_7106 case 2 => 0x98d2_20bc case 3 => 0xefd5_102a
    case 4 => 0x71b1_8589 case 5 => 0x06b6_b51f case 6 => 0x9fbf_e4a5 case 7 => 0xe8b8_d433
    case 8 => 0x7807_c9a2 case 9 => 0x0f00_f934 case 10 => 0x9609_a88e case 11 => 0xe10e_9818
    case 12 => 0x7f6a_0dbb case 13 => 0x086d_3d2d case 14 => 0x9164_6c97 case _ => 0xe663_5c01
  }

  lemma Row4IsFeed(k: bv32)
    requires k < 16
    ensures Row4(k) == CRC.Feed(0, 64 + k, 8)
  {
    match k
    case 0 => case 1 => case 2 => case 3 => case 4 => case 5 => case 6 => case 7 =>
    case 8 => case 9 => case 10 => case 11 => case 12 => case 13 => case 14 => case _ =>
  }

  function Row5(k: bv32): (entry: bv32) {
    match k
    case 0 => 0x6b6b_51f4 case 1 => 0x1c6c_6162 case 2 => 0x8565_30d8 case 3 => 0xf262_004e
    case 4 => 0x6c06_95ed case 5 => 0x1b01_a57b case 6 => 0x8208_f4c1 case 7 => 0xf50f_c457
    case 8 => 0x65b0_d9c6 case 9 => 0x12b7_e950 case 10 => 0x8bbe_b8ea case 11 => 0xfcb9_887c
    case 12 => 0x62dd_1ddf case 13 => 0x15da_2d49 case 14 => 0x8cd3_7cf3 case _ => 0xfbd4_4c65
  }

  lemma Row5IsFeed(k: bv32)
    requires k < 16
    ensures Row5(k) == CRC.Feed(0, 80 + k, 8)
  {
    match k
    case 0 => case 1 => case 2 => case 3 => case 4 => case 5 => case 6 => case 7 =>
    case 8 => case 9 => case 10 => case 11 => case 12 => case 13 => case 14 => case _ =>
  }

  function Row6(k: bv32): (entry: bv32) {
    match k
    case 0 => 0x4db2_6158 case 1 => 0x3ab5_51ce case 2 => 0xa3bc_0074 case 3 => 0xd4bb_30e2
    case 4 => 0x4adf_a541 case 5 => 0x3dd8_95d7 case 6 => 0xa4d1_c46d case 7 => 0xd3d6_f4fb
    case 8 => 0x4369_e96a case 9 => 0x346e_d9fc case 10 => 0xad67_8846 case 11 => 0xda60_b8d0
    case 12 => 0x4404_2d73 case 13 => 0x3303_1de5 case 14 => 0xaa0a_4c5f case _ => 0xdd0d_7cc9
  }

  lemma Row6IsFeed(k: bv32)
    requires k < 16
    ensures Row6(k) == CRC.Feed(0, 96 + k, 8)
  {
    match k
    case 0 => case 1 => case 2 => case 3 => case 4 => case 5 => case 6 => case 7 =>
    case 8 => case 9 => case 10 => case 11 => case 12 => case 13 => case 14 => case _ =>
  }

  function Row7(k: bv32): (entry: bv32) {
    match k
    case 0 => 0x5005_713c case 1 => 0x2702_41aa case 2 => 0xbe0b_1010 case 3 => 0xc90c_2086
    case 4 => 0x5768_b525 case 5 => 0x206f_85b3 case 6 => 0xb966_d409 case 7 => 0xce61_e49f
    case 8 => 0x5ede_f90e case 9 => 0x29d9_c998 case 10 => 0xb0d0_9822 case 11 => 0xc7d7_a8b4
    case 12 => 0x59b3_3d17 case 13 => 0x2eb4_0d81 case 14 => 0xb7bd_5c3b case _ => 0xc0ba_6cad
  }

  lemma Row7IsFeed(k: bv32)
    requires k < 16
    ensures Row7(k) == CRC.Feed(0, 112 + k, 8)
  {
    match k
    case 0 => case 1 => case 2 => case 3 => case 4 => case 5 => case 6 => case 7 =>
    case 8 => case 9 => case 10 => case 11 => case 12 => case 13 => case 14 => case _ =>
  }

  function Row8(k: bv32): (entry: bv32) {
    match k
    case 0 => 0xedb8_8320 case 1 => 0x9abf_b3b6 case 2 => 0x03b6_e20c case 3 => 0x74b1_d29a
    case 4 => 0xead5_4739 case 5 => 0x9dd2_77af case 6 => 0x04db_2615 case 7 => 0x73dc_1683
    case 8 => 0xe363_0b12 case 9 => 0x9464_3b84 case 10 => 0x0d6d_6a3e case 11 => 0x7a6a_5aa8
    case 12 => 0xe40e_cf0b case 13 => 0x9309_ff9d case 14 => 0x0a00_ae27 case _ => 0x7d07_9eb1
  }

  lemma Row8IsFeed(k: bv32)
    requires k < 16
    ensures Row8(k) == CRC.Feed(0, 128 + k, 8)
  {
    match k
    case 0 => case 1 => case 2 => case 3 => case 4 => case 5 => case 6 => case 7 =>
    case 8 => case 9 => case 10 => case 11 => case 12 => case 13 => case 14 => case _ =>
  }

  function Row9(k: bv32): (entry: bv32) {
    match k
    case 0 => 0xf00f_9344 case 1 => 0x8708_a3d2 case 2 => 0x1e01_f268 case 3 => 0x6906_c2fe
    case 4 => 0xf762_575d case 5 => 0x8065_67cb case 6 => 0x196c_3671 case 7 => 0x6e6b_06e7
    case 8 => 0xfed4_1b76 case 9 => 0x89d3_2be0 case 10 => 0x10da_7a5a case 11 => 0x67dd_4acc
    case 12 => 0xf9b9_df6f case 13 => 0x8ebe_eff9 case 14 => 0x17b7_be43 case _ => 0x60b0_8ed5
  }

  lemma Row9IsFeed(k: bv32)
    requires k < 16
    ensures Row9(k) == CRC.Feed(0, 144 + k, 8)
  {
    match k
    case 0 => case 1 => case 2 => case 3 => case 4 => case 5 => case 6 => case 7 =>
    case 8 => case 9 => case 10 => case 11 => case 12 => case 13 => case 14 => case _ =>
  }

  function RowA(k: bv32): (entry: bv32) {
    match k
    case 0 => 0xd6d6_a3e8 case 1 => 0xa1d1_937e case 2 => 0x38d8_c2c4 case 3 => 0x4fdf_f252
    case 4 => 0xd1bb_67f1 case 5 => 0xa6bc_5767 case 6 => 0x3fb5_06dd case 7 => 0x48b2_364b
    case 8 => 0xd80d_2bda case 9 => 0xaf0a_1b4c case 10 => 0x3603_4af6 case 11 => 0x4104_7a60
    case 12 => 0xdf60_efc3 case 13 => 0xa867_df55 case 14 => 0x316e_8eef case _ => 0x4669_be79
  }

  lemma RowAIsFeed(k: bv32)
    requires k < 16
    ensures RowA(k) == CRC.Feed(0, 160 + k, 8)
  {
    match k
    case 0 => case 1 => case 2 => case 3 => case 4 => case 5 => case 6 => case 7 =>
    case 8 => case 9 => case 10 => case 11 => case 12 => case 13 => case 14 => case _ =>
  }

  function RowB(k: bv32): (entry: bv32) {
    match k
    case 0 => 0xcb61_b38c case 1 => 0xbc66_831a case 2 => 0x256f_d2a0 case 3 => 0x5268_e236
    case 4 => 0xcc0c_7795 case 5 => 0xbb0b_4703 case 6 => 0x2202_16b9 case 7 => 0x5505_262f
    case 8 => 0xc5ba_3bbe case 9 => 0xb2bd_0b28 case 10 => 0x2bb4_5a92 case 11 => 0x5cb3_6a04
    case 12 => 0xc2d7_ffa7 case 13 => 0xb5d0_cf31 case 14 => 0x2cd9_9e8b case _ => 0x5bde_ae1d
  }

  lemma RowBIsFeed(k: bv32)
    requires k < 16
    ensures RowB(k) == CRC.Feed(0, 176 + k, 8)
  {
    match k
    case 0 => case 1 => case 2 => case 3 => case 4 => case 5 => case 6 => case 7 =>
    case 8 => case 9 => case 10 => case 11 => case 12 => case 13 => case 14 => case _ =>
  }

  function RowC(k: bv32): (entry: bv32) {
    match k
    case 0 => 0x9b64_c2b0 case 1 => 0xec63_f226 case 2 => 0x756a_a39c case 3 => 0x026d_930a
    case 4 => 0x9c09_06a9 case 5 => 0xeb0e_363f case 6 => 0x7207_6785 case 7 => 0x0500_5713
    case 8 => 0x95bf_4a82 case 9 => 0xe2b8_7a14 case 10 => 0x7bb1_2bae case 11 => 0x0cb6_1b38
    case 12 => 0x92d2_8e9b case 13 => 0xe5d5_be0d case 14 => 0x7cdc_efb7 case _ => 0x0bdb_df21
  }

  lemma RowCIsFeed(k: bv32)
    requires k < 16
    ensures RowC(k) == CRC.Feed(0, 192 + k, 8)
  {
    match k
    case 0 => case 1 => case 2 => case 3 => case 4 => case 5 => case 6 => case 7 =>
    case 8 => case 9 => case 10 => case 11 => case 12 => case 13 => case 14 => case _ =>
  }

  function RowD(k: bv32): (entry: bv32) {
    match k
    case 0 => 0x86d3_d2d4 case 1 => 0xf1d4_e242 case 2 => 0x68dd_b3f8 case 3 => 0x1fda_836e
    case 4 => 0x81be_16cd case 5 => 0xf6b9_265b case 6 => 0x6fb0_77e1 case 7 => 0x18b7_4777
    case 8 => 0x8808_5ae6 case 9 => 0xff0f_6a70 case 10 => 0x6606_3bca case 11 => 0x1101_0b5c
    case 12 => 0x8f65_9eff case 13 => 0xf862_ae69 case 14 => 0x616b_ffd3 case _ => 0x166c_cf45
  }

  lemma RowDIsFeed(k: bv32)
    requires k < 16
    ensures RowD(k) == CRC.Feed(0, 208 + k, 8)
  {
    match k
    case 0 => case 1 => case 2 => case 3 => case 4 => case 5 => case 6 => case 7 =>
    case 8 => case 9 => case 10 => case 11 => case 12 => case 13 => case 14 => case _ =>
  }

  function RowE(k: bv32): (entry: bv32) {
    match k
    case 0 => 0xa00a_e278 case 1 => 0xd70d_d2ee case 2 => 0x4e04_8354 case 3 => 0x3903_b3c2
    case 4 => 0xa767_2661 case 5 => 0xd060_16f7 case 6 => 0x4969_474d case 7 => 0x3e6e_77db
    case 8 => 0xaed1_6a4a case 9 => 0xd9d6_5adc case 10 => 0x40df_0b66 case 11 => 0x37d8_3bf0
    case 12 => 0xa9bc_ae53 case 13 => 0xdebb_9ec5 case 14 => 0x47b2_cf7f case _ => 0x30b5_ffe9
  }

  lemma RowEIsFeed(k: bv32)
    requires k < 16
    ensures RowE(k) == CRC.Feed(0, 224 + k, 8)
  {
    match k
    case 0 => case 1 => case 2 => case 3 => case 4 => case 5 => case 6 => case 7 =>
    case 8 => case 9 => case 10 => case 11 => case 12 => case 13 => case 14 => case _ =>
  }

  function RowF(k: bv32): (entry: bv32) {
    match k
    case 0 => 0xbdbd_f21c case 1 => 0xcaba_c28a case 2 => 0x53b3_9330 case 3 => 0x24b4_a3a6
    case 4 => 0xbad0_3605 case 5 => 0xcdd7_0693 case 6 => 0x54de_5729 case 7 => 0x23d9_67bf
    case 8 => 0xb366_7a2e case 9 => 0xc461_4ab8 case 10 => 0x5d68_1b02 case 11 => 0x2a6f_2b94
    case 12 => 0xb40b_be37 case 13 => 0xc30c_8ea1 case 14 => 0x5a05_df1b case _ => 0x2d02_ef8d
  }

  lemma RowFIsFeed(k: bv32)
    requires k < 16
    ensures RowF(k) == CRC.Feed(0, 240 + k, 8)
  {
    match k
    case 0 => case 1 => case 2 => case 3 => case 4 => case 5 => case 6 => case 7 =>
    case 8 => case 9 => case 10 => case 11 => case 12 => case 13 => case 14 => case _ =>
  }

  function Table(i: bv32): (entry: bv32)
    requires i <= 0xff
  {
    match i >> 4
    case 0 => Row0(i & 0xf)
    case 1 => Row1(i & 0xf)
    case 2 => Row2(i & 0xf)
    case 3 => Row3(i & 0xf)
    case 4 => Row4(i & 0xf)
    case 5 => Row5(i & 0xf)
    case 6 => Row6(i & 0xf)
    case 7 => Row7(i & 0xf)
    case 8 => Row8(i & 0xf)
    case 9 => Row9(i & 0xf)
    case 10 => RowA(i & 0xf)
    case 11 => RowB(i & 0xf)
    case 12 => RowC(i & 0xf)
    case 13 => RowD(i & 0xf)
    case 14 => RowE(i & 0xf)
    case _ => RowF(i & 0xf)
  }

  ghost predicate Tabulated(c: Register<bv32>, n: nat, i: bv32) {
    i <= 0xff ==> Table(i) == c.Feed(0, i, n)
  }

  /** Every table entry is eight clocks of its index. */
  lemma TableIsFeed(i: bv32)
    ensures Tabulated(CRC, 8, i)
  {
    if i <= 0xff {
      var k := i & 0xf;
      match i >> 4 {
        case 0 => Row0IsFeed(k); assert 0 + k == i;
        case 1 => Row1IsFeed(k); assert 16 + k == i;
        case 2 => Row2IsFeed(k); assert 32 + k == i;
        case 3 => Row3IsFeed(k); assert 48 + k == i;
        case 4 => Row4IsFeed(k); assert 64 + k == i;
        case 5 => Row5IsFeed(k); assert 80 + k == i;
        case 6 => Row6IsFeed(k); assert 96 + k == i;
        case 7 => Row7IsFeed(k); assert 112 + k == i;
        case 8 => Row8IsFeed(k); assert 128 + k == i;
        case 9 => Row9IsFeed(k); assert 144 + k == i;
        case 10 => RowAIsFeed(k); assert 160 + k == i;
        case 11 => RowBIsFeed(k); assert 176 + k == i;
        case 12 => RowCIsFeed(k); assert 192 + k == i;
        case 13 => RowDIsFeed(k); assert 208 + k == i;
        case 14 => RowEIsFeed(k); assert 224 + k == i;
        case _ => RowFIsFeed(k); assert 240 + k == i;
      }
    }
  }

  method Lookup(i: bv32, ghost c: Register<bv32>, ghost n: nat) returns (entry: bv32)
    requires Tabulated(c, n, i) && i <= 0xff
    ensures entry == c.Feed(0, i, n)
  {
    entry := Table(i);
  }

  method Step(ret: bv32, m: bv32, ghost c: Register<bv32>, ghost n: nat) returns (ret': bv32)
    requires Splits(c, n) && m <= 0xff && Tabulated(c, n, (ret ^ m) & 0xff)
    ensures ret' == c.Feed(ret, m, n)
  {
    assert SplitsAt(c, n, ret, m);
    var entry := Lookup((ret ^ m) & 0xff, c, n);
    ret' := (ret >> 8) ^ entry;
  }

  method Update(stream: seq<bv8>, ghost c: Register<bv32>, ghost n: nat) returns (ret: bv32)
    requires Splits(c, n) && forall i :: Tabulated(c, n, i)
    ensures ret == FeedAll(c, n, 0xffff_ffff, stream)
  {
    ret := 0xffff_ffff;
    var i := 0;
    while i < |stream|
      invariant 0 <= i <= |stream| && ret == FeedAll(c, n, 0xffff_ffff, stream[..i])
    {
      FeedOneMore(c, n, 0xffff_ffff, stream, i);
      ret := Step(ret, stream[i] as bv32, c, n);
      i := i + 1;
    }
    assert stream[..i] == stream;
  }

  /** `crc32` computes the bit-serial CRC of every byte string. */
  method Crc32(stream: seq<bv8>) returns (ret: bv32)
    ensures ret == BitSerialCrc(stream)
  {
    CrcIsLinear();
    forall e ensures ByteWide(CRC, 8, e) {
      CrcIsByteWide(e);
    }
    RegisterSplits(CRC, 8);
    forall i ensures Tabulated(CRC, 8, i) {
      TableIsFeed(i);
    }
    ret := Update(stream, CRC, 8);
    ret := ret ^ 0xffff_ffff;
  }

  // ----- The check value

  /** The register after each of the digits 1 to 9. */
  ghost predicate DigitSteps(c: Register<bv32>, n: nat) {
    && c.Feed(0xffff_ffff, 0x31, n) == 0x7c23_1048
    && c.Feed(0x7c23_1048, 0x32, n) == 0xb0ac_bb32
    && c.Feed(0xb0ac_bb32, 0x33, n) == 0x77b7_9c2d
    && c.Feed(0x77b7_9c2d, 0x34, n) == 0x641c_1f5c
    && c.Feed(0x641c_1f5c, 0x35, n) == 0x340a_c5e3
    && c.Feed(0x340a_c5e3, 0x36, n) == 0xf68d_2c9e
    && c.Feed(0xf68d_2c9e, 0x37, n) == 0xaffc_9660
    && c.Feed(0xaffc_9660, 0x38, n) == 0x651f_2550
    && c.Feed(0x651f_2550, 0x39, n) == 0x340b_c6d9
  }

  lemma CheckSteps()
    ensures DigitSteps(CRC, 8)
  {
  }

  lemma OneMore(c: Register<bv32>, n: nat, stream: seq<bv8>, i: nat, crc: bv32, crc': bv32)
    requires i < |stream| && FeedAll(c, n, 0xffff_ffff, stream[..i]) == crc && c.Feed(crc, stream[i] as bv32, n) == crc'
    ensures FeedAll(c, n, 0xffff_ffff, stream[..i + 1]) == crc'
  {
    FeedOneMore(c, n, 0xffff_ffff, stream, i);
  }

  lemma FirstDigits(c: Register<bv32>, n: nat, stream: seq<bv8>)
    requires DigitSteps(c, n) && stream == [0x31, 0x32, 0x33, 0x34, 0x35, 0x36, 0x37, 0x38, 0x39]
    ensures FeedAll(c, n, 0xffff_ffff, stream[..3]) == 0x77b7_9c2d
  {
    assert stream[..0] == [];
    OneMore(c, n, stream, 0, 0xffff_ffff, 0x7c23_1048);
    OneMore(c, n, stream, 1, 0x7c23_1048, 0xb0ac_bb32);
    OneMore(c, n, stream, 2, 0xb0ac_bb32, 0x77b7_9c2d);
  }

  lemma MiddleDigits(c: Register<bv32>, n: nat, stream: seq<bv8>)
    requires DigitSteps(c, n) && stream == [0x31, 0x32, 0x33, 0x34, 0x35, 0x36, 0x37, 0x38, 0x39] && FeedAll(c, n, 0xffff_ffff, stream[..3]) == 0x77b7_9c2d
    ensures FeedAll(c, n, 0xffff_ffff, stream[..6]) == 0xf68d_2c9e
  {
    OneMore(c, n, stream, 3, 0x77b7_9c2d, 0x641c_1f5c);
    OneMore(c, n, stream, 4, 0x641c_1f5c, 0x340a_c5e3);
    OneMore(c, n, stream, 5, 0x340a_c5e3, 0xf68d_2c9e);
  }

  lemma LastDigits(c: Register<bv32>, n: nat, stream: seq<bv8>)
    requires DigitSteps(c, n) && stream == [0x31, 0x32, 0x33, 0x34, 0x35, 0x36, 0x37, 0x38, 0x39] && FeedAll(c, n, 0xffff_ffff, stream[..6]) == 0xf68d_2c9e
    ensures FeedAll(c, n, 0xffff_ffff, stream[..9]) == 0x340b_c6d9
  {
    OneMore(c, n, stream, 6, 0xf68d_2c9e, 0xaffc_9660);
    OneMore(c, n, stream, 7, 0xaffc_9660, 0x651f_2550);
    OneMore(c, n, stream, 8, 0x651f_2550, 0x340b_c6d9);
  }

  lemma AllDigits(c: Register<bv32>, n: nat, stream: seq<bv8>)
    requires DigitSteps(c, n) && stream == [0x31, 0x32, 0x33, 0x34, 0x35, 0x36, 0x37, 0x38, 0x39]
    ensures FeedAll(c, n, 0xffff_ffff, stream) == 0x340b_c6d9
  {
    FirstDigits(c, n, stream);
    MiddleDigits(c, n, stream);
    LastDigits(c, n, stream);
    assert stream[..9] == stream;
  }

  /** The digits 1 to 9 have the check value by which CRC-32 is known. */
  lemma CheckValue(stream: seq<bv8>)
    requires stream == [0x31, 0x32, 0x33, 0x34, 0x35, 0x36, 0x37, 0x38, 0x39]
    ensures BitSerialCrc(stream) == 0xcbf4_3926
  {
    CheckSteps();
    AllDigits(CRC, 8, stream);
  }
}
