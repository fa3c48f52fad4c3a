/** The example of the hash of "abc" that NIST gives for FIPS 180-4, word by word. */
module Sha256Example {
  import opened Sha256
  import opened Sha256Constants

  /** The message, padded to one block. */
  function Block(): (b: seq<byte>)
    ensures |b| == 64
  {
    [0x61, 0x62, 0x63, 0x80] + Zeros(52) + [0, 0, 0, 0, 0, 0, 0, 24]
  }

  function Zeros(n: nat): (z: seq<byte>)
    ensures |z| == n
  {
    seq(n, _ => 0)
  }

  /** The message schedule, eight words to a row. */
  function WRow(r: nat): (w: seq<word>)
    requires r < 8
    ensures |w| == 8
  {
    if r == 0 then [0x61626380, 0x00000000, 0x00000000, 0x00000000, 0x00000000, 0x00000000, 0x00000000, 0x00000000]
    else if r == 1 then [0x00000000, 0x00000000, 0x00000000, 0x00000000, 0x00000000, 0x00000000, 0x00000000, 0x00000018]
    else if r == 2 then [0x61626380, 0x000F0000, 0x7DA86405, 0x600003C6, 0x3E9D7B78, 0x0183FC00, 0x12DCBFDB, 0xE2E2C38E]
    else if r == 3 then [0xC8215C1A, 0xB73679A2, 0xE5BC3909, 0x32663C5B, 0x9D209D67, 0xEC8726CB, 0x702138A4, 0xD3B7973B]
    else if r == 4 then [0x93F5997F, 0x3B68BA73, 0xAFF4FFC1, 0xF10A5C62, 0x0A8B3996, 0x72AF830A, 0x9409E33E, 0x24641522]
    else if r == 5 then [0x9F47BF94, 0xF0A64F5A, 0x3E246A79, 0x27333BA3, 0x0C4763F2, 0x840ABF27, 0x7A290D5D, 0x065C43DA]
    else if r == 6 then [0xFB3E89CB, 0xCC7617DB, 0xB9E66C34, 0xA9993667, 0x84BADEDD, 0xC21462BC, 0x1487472C, 0xB20F7A99]
    else [0xEF57B9CD, 0xEBE6B238, 0x9FE3095E, 0x78BC8D4B, 0xA43FCF15, 0x668B2FF8, 0xEEABA2CC, 0x12B1EDEB]
  }

  /** The working variables a to h after every eighth step. */
  function Working(r: nat): (v: seq<word>)
    requires r <= 8
    ensures |v| == 8
  {
    if r == 0 then [0x6A09E667, 0xBB67AE85, 0x3C6EF372, 0xA54FF53A, 0x510E527F, 0x9B05688C, 0x1F83D9AB, 0x5BE0CD19]
    else if r == 1 then [0x85A07B5F, 0xE5030380, 0x2B4209F5, 0x04409A6A, 0x0C657A79, 0x9B27A401, 0x714260AD, 0x43ADA245]
    else if r == 2 then [0xB0FA238E, 0xC0645FDE, 0xD932EB16, 0x87912990, 0x07590DCD, 0x0B92F20C, 0x745A48DE, 0x1E578218]
    else if r == 3 then [0xC5D53D8D, 0xA7A3623F, 0xC2606D6D, 0x9DC68B63, 0xAA47C347, 0x49F5114A, 0xE1257970, 0x8ADA8930]
    else if r == 4 then [0x73B33BF5, 0xEA992A22, 0xA0060B30, 0x363482C9, 0xBA591112, 0x0109AB3A, 0xADE79437, 0x6112A3B7]
    else if r == 5 then [0x79EA687A, 0x6DC57A8A, 0x34DF1604, 0x41A65CB1, 0x1EFBC0A0, 0xF0781BC8, 0xA507A53D, 0x0772A26B]
    else if r == 6 then [0x4172328D, 0xA14C14B0, 0x72AB4B91, 0x26628815, 0xFECF0BC6, 0xD57B94A9, 0xB7755DA1, 0xA80F11F0]
    else if r == 7 then [0x38CC9913, 0x3EC45CDB, 0xF5702FDB, 0x101FD28F, 0x54CB266B, 0xE50E1B4F, 0x9F4787C3, 0x529E7D00]
    else [0x506E3058, 0xD39A2165, 0x04D24D6C, 0xB85E2CE9, 0x5EF50F24, 0xFB121210, 0x948D25B6, 0x961F4894]
  }

  // ----- the message schedule

  /** The eight words after sixteen. */
  function NextRow(p: seq<word>, q: seq<word>): (w: seq<word>)
    requires |p| == 8 && |q| == 8
    ensures |w| == 8
  {
    var w0, w1 := NextWord(q[6], q[1], p[1], p[0]), NextWord(q[7], q[2], p[2], p[1]);
    var w2, w3 := NextWord(w0, q[3], p[3], p[2]), NextWord(w1, q[4], p[4], p[3]);
    var w4, w5 := NextWord(w2, q[5], p[5], p[4]), NextWord(w3, q[6], p[6], p[5]);
    var w6, w7 := NextWord(w4, q[7], p[7], p[6]), NextWord(w5, w0, q[0], p[7]);
    [w0, w1, w2, w3, w4, w5, w6, w7]
  }

  lemma WordsOfRow2()
    ensures NextRow(WRow(0), WRow(1)) == WRow(2)
  {
  }

  lemma WordsOfRow3()
    ensures NextRow(WRow(1), WRow(2)) == WRow(3)
  {
  }

  lemma WordsOfRow4()
    ensures NextRow(WRow(2), WRow(3)) == WRow(4)
  {
  }

  lemma WordsOfRow5()
    ensures NextRow(WRow(3), WRow(4)) == WRow(5)
  {
  }

  lemma WordsOfRow6()
    ensures NextRow(WRow(4), WRow(5)) == WRow(6)
  {
  }

  lemma WordsOfRow7()
    ensures NextRow(WRow(5), WRow(6)) == WRow(7)
  {
  }

  predicate RowIs(block: seq<byte>, r: nat, w: seq<word>)
    requires |block| == 64 && |w| == 8
  {
    forall c :: 0 <= c < 8 ==> Schedule(block, 8 * r + c) == w[c]
  }

  lemma FirstRows()
    ensures RowIs(Block(), 0, WRow(0)) && RowIs(Block(), 1, WRow(1))
  {
    hide WordOf;
    var b := Block();
    assert b[0] == 0x61 && b[1] == 0x62 && b[2] == 0x63 && b[3] == 0x80;
    assert forall i :: 4 <= i < 63 ==> b[i] == 0;
    assert b[63] == 24;
    WordsOfBlock();
  }

  lemma WordsOfBlock()
    ensures WordOf(0x61, 0x62, 0x63, 0x80) == 0x61626380 && WordOf(0, 0, 0, 0) == 0 && WordOf(0, 0, 0, 24) == 24
  {
  }

  lemma ScheduleStep(block: seq<byte>, t: nat)
    requires |block| == 64 && t >= 16
    ensures Schedule(block, t)
      == NextWord(Schedule(block, t - 2), Schedule(block, t - 7), Schedule(block, t - 15), Schedule(block, t - 16))
  {
  }

  lemma RowFollows(block: seq<byte>, r: nat, p: seq<word>, q: seq<word>)
    requires |block| == 64 && |p| == 8 && |q| == 8 && RowIs(block, r, p) && RowIs(block, r + 1, q)
    ensures RowIs(block, r + 2, NextRow(p, q))
  {
    hide NextWord, Schedule;
    var t := 8 * r + 16;
    ScheduleStep(block, t);
    ScheduleStep(block, t + 1);
    ScheduleStep(block, t + 2);
    ScheduleStep(block, t + 3);
    ScheduleStep(block, t + 4);
    ScheduleStep(block, t + 5);
    ScheduleStep(block, t + 6);
    ScheduleStep(block, t + 7);
  }

  lemma ScheduleRows(r: nat)
    requires r < 8
    ensures RowIs(Block(), r, WRow(r))
  {
    hide RowIs, WRow, Block, NextRow;
    FirstRows();
    var b := Block();
    RowFollows(b, 0, WRow(0), WRow(1));
    WordsOfRow2();
    RowFollows(b, 1, WRow(1), WRow(2));
    WordsOfRow3();
    RowFollows(b, 2, WRow(2), WRow(3));
    WordsOfRow4();
    RowFollows(b, 3, WRow(3), WRow(4));
    WordsOfRow5();
    RowFollows(b, 4, WRow(4), WRow(5));
    WordsOfRow6();
    RowFollows(b, 5, WRow(5), WRow(6));
    WordsOfRow7();
  }

  // ----- the working variables

  function EightSteps(v: seq<word>, k: seq<word>, w: seq<word>): (r: seq<word>)
    requires |v| == 8 && |k| == 8 && |w| == 8
    ensures |r| == 8
  {
    var v4 := Step(Step(Step(Step(v, k[0], w[0]), k[1], w[1]), k[2], w[2]), k[3], w[3]);
    Step(Step(Step(Step(v4, k[4], w[4]), k[5], w[5]), k[6], w[6]), k[7], w[7])
  }

  lemma StepsOfRow0()
    ensures EightSteps(Working(0), KRow(0), WRow(0)) == Working(1)
  {
  }

  lemma StepsOfRow1()
    ensures EightSteps(Working(1), KRow(1), WRow(1)) == Working(2)
  {
  }

  lemma StepsOfRow2()
    ensures EightSteps(Working(2), KRow(2), WRow(2)) == Working(3)
  {
  }

  lemma StepsOfRow3()
    ensures EightSteps(Working(3), KRow(3), WRow(3)) == Working(4)
  {
  }

  lemma StepsOfRow4()
    ensures EightSteps(Working(4), KRow(4), WRow(4)) == Working(5)
  {
  }

  lemma StepsOfRow5()
    ensures EightSteps(Working(5), KRow(5), WRow(5)) == Working(6)
  {
  }

  lemma StepsOfRow6()
    ensures EightSteps(Working(6), KRow(6), WRow(6)) == Working(7)
  {
  }

  lemma StepsOfRow7()
    ensures EightSteps(Working(7), KRow(7), WRow(7)) == Working(8)
  {
  }

  lemma OneStep(block: seq<byte>, t: nat)
    requires |block| == 64 && t < 64
    ensures Steps(IV(), block, t + 1) == Step(Steps(IV(), block, t), K()[t], Schedule(block, t))
  {
  }

  lemma RowOfSteps(block: seq<byte>, r: nat, w: seq<word>)
    requires |block| == 64 && r < 8 && |w| == 8 && RowIs(block, r, w)
    ensures Steps(IV(), block, 8 * r + 8) == EightSteps(Steps(IV(), block, 8 * r), KRow(r), w)
  {
    hide K, KRow, IV, Step, Steps, Schedule;
    var t := 8 * r;
    forall c: nat | c < 8
      ensures Steps(IV(), block, t + c + 1) == Step(Steps(IV(), block, t + c), KRow(r)[c], w[c])
    {
      OneStep(block, t + c);
      KAt(r, c);
    }
    assert t + 0 == t;
    assert Steps(IV(), block, t + 0 + 1) == Step(Steps(IV(), block, t + 0), KRow(r)[0], w[0]);
    assert Steps(IV(), block, t + 1 + 1) == Step(Steps(IV(), block, t + 1), KRow(r)[1], w[1]);
    assert Steps(IV(), block, t + 2 + 1) == Step(Steps(IV(), block, t + 2), KRow(r)[2], w[2]);
    assert Steps(IV(), block, t + 3 + 1) == Step(Steps(IV(), block, t + 3), KRow(r)[3], w[3]);
    assert Steps(IV(), block, t + 4 + 1) == Step(Steps(IV(), block, t + 4), KRow(r)[4], w[4]);
    assert Steps(IV(), block, t + 5 + 1) == Step(Steps(IV(), block, t + 5), KRow(r)[5], w[5]);
    assert Steps(IV(), block, t + 6 + 1) == Step(Steps(IV(), block, t + 6), KRow(r)[6], w[6]);
    assert Steps(IV(), block, t + 7 + 1) == Step(Steps(IV(), block, t + 7), KRow(r)[7], w[7]);
  }

  lemma AllSteps()
    ensures Steps(IV(), Block(), 64) == Working(8)
  {
    hide RowIs, WRow, KRow, Block, EightSteps, Working, Steps;
    assert Steps(IV(), Block(), 0) == Working(0) by {
      NoSteps();
    }
    ScheduleRows(0);
    RowOfSteps(Block(), 0, WRow(0));
    StepsOfRow0();
    ScheduleRows(1);
    RowOfSteps(Block(), 1, WRow(1));
    StepsOfRow1();
    ScheduleRows(2);
    RowOfSteps(Block(), 2, WRow(2));
    StepsOfRow2();
    ScheduleRows(3);
    RowOfSteps(Block(), 3, WRow(3));
    StepsOfRow3();
    ScheduleRows(4);
    RowOfSteps(Block(), 4, WRow(4));
    StepsOfRow4();
    ScheduleRows(5);
    RowOfSteps(Block(), 5, WRow(5));
    StepsOfRow5();
    ScheduleRows(6);
    RowOfSteps(Block(), 6, WRow(6));
    StepsOfRow6();
    ScheduleRows(7);
    RowOfSteps(Block(), 7, WRow(7));
    StepsOfRow7();
  }

  lemma NoSteps()
    ensures Steps(IV(), Block(), 0) == Working(0)
  {
  }

  lemma Compressed()
    ensures Compress(IV(), Block()) == [0xBA7816BF, 0x8F01CFEA, 0x414140DE, 0x5DAE2223, 0xB00361A3, 0x96177A9C, 0xB410FF61, 0xF20015AD]
  {
    hide Block, Steps;
    AllSteps();
  }

  lemma PaddedMessage()
    ensures Pad([0x61, 0x62, 0x63]) == Block()
  {
  }

  lemma OneBlock()
    ensures Blocks(IV(), Block()) == Compress(IV(), Block())
  {
    hide Block, Compress;
    var b := Block();
    assert b[..64] == b && b[64..] == [];
    NoBlock(Compress(IV(), b), []);
  }

  /** SHA-256 of "abc". */
  lemma HashOfAbc()
    ensures Hash([0x61, 0x62, 0x63]) == [
      0xBA, 0x78, 0x16, 0xBF, 0x8F, 0x01, 0xCF, 0xEA, 0x41, 0x41, 0x40, 0xDE, 0x5D, 0xAE, 0x22, 0x23,
      0xB0, 0x03, 0x61, 0xA3, 0x96, 0x17, 0x7A, 0x9C, 0xB4, 0x10, 0xFF, 0x61, 0xF2, 0x00, 0x15, 0xAD]
  {
    hide Pad, Block, Blocks, Compress, IV;
    PaddedMessage();
    OneBlock();
    Compressed();
    DigestOf();
  }

  lemma DigestOf()
    ensures Digest([0xBA7816BF, 0x8F01CFEA, 0x414140DE, 0x5DAE2223, 0xB00361A3, 0x96177A9C, 0xB410FF61, 0xF20015AD]) == [
      0xBA, 0x78, 0x16, 0xBF, 0x8F, 0x01, 0xCF, 0xEA, 0x41, 0x41, 0x40, 0xDE, 0x5D, 0xAE, 0x22, 0x23,
      0xB0, 0x03, 0x61, 0xA3, 0x96, 0x17, 0x7A, 0x9C, 0xB4, 0x10, 0xFF, 0x61, 0xF2, 0x00, 0x15, 0xAD]
  {
  }
}
