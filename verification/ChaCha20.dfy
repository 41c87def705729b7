// The ChaCha20 block function of RFC 8439 (sections 2.1 to 2.3) and the keystream
// it generates when the 32-bit block counter carries into the first nonce word.
module ChaCha20Spec {
  import opened Bits

  const DOUBLE_ROUNDS: nat := 10

  // key words 0-7, block counter 8, nonce words 9-11
  type Input = s: seq<u32> | |s| == 12 witness [0, 0, 0, 0, 0, 0, 0, 0, 0, 0, 0, 0]
  type Words = s: seq<u32> | |s| == 16 witness [0, 0, 0, 0, 0, 0, 0, 0, 0, 0, 0, 0, 0, 0, 0, 0]

  function Add32(a: u32, b: u32): u32 {
    (a + b) % 0x1_0000_0000
  }

  function Rotl(x: u32, k: nat): u32
    requires k == 16 || k == 12 || k == 8 || k == 7
  {
    match k
    case 16 => x % 0x1_0000 * 0x1_0000 + x / 0x1_0000
    case 12 => x % 0x10_0000 * 0x1000 + x / 0x10_0000
    case 8 => x % 0x100_0000 * 0x100 + x / 0x100_0000
    case _ => x % 0x200_0000 * 0x80 + x / 0x200_0000
  }

  function QuarterRound(a: u32, b: u32, c: u32, d: u32): (u32, u32, u32, u32) {
    var a1 := Add32(a, b);
    var d1 := Rotl(Xor32(d, a1), 16);
    var c1 := Add32(c, d1);
    var b1 := Rotl(Xor32(b, c1), 12);
    var a2 := Add32(a1, b1);
    var d2 := Rotl(Xor32(d1, a2), 8);
    var c2 := Add32(c1, d2);
    var b2 := Rotl(Xor32(b1, c2), 7);
    (a2, b2, c2, d2)
  }

  // QUARTERROUND(x, y, z, w) on a working state.
  function QRound(s: Words, x: nat, y: nat, z: nat, w: nat): Words
    requires x < 16 && y < 16 && z < 16 && w < 16
  {
    var (a, b, c, d) := QuarterRound(s[x], s[y], s[z], s[w]);
    s[x := a][y := b][z := c][w := d]
  }

  // A column round and a diagonal round.
  function InnerBlock(s: Words): Words {
    var s := QRound(s, 0, 4, 8, 12);
    var s := QRound(s, 1, 5, 9, 13);
    var s := QRound(s, 2, 6, 10, 14);
    var s := QRound(s, 3, 7, 11, 15);
    var s := QRound(s, 0, 5, 10, 15);
    var s := QRound(s, 1, 6, 11, 12);
    var s := QRound(s, 2, 7, 8, 13);
    QRound(s, 3, 4, 9, 14)
  }

  function Rounds(n: nat, s: Words): Words {
    if n == 0 then s else InnerBlock(Rounds(n - 1, s))
  }

  function InitialState(input: Input): Words {
    [0x6170_7865, 0x3320_646e, 0x7962_2d32, 0x6b20_6574] + input
  }

  function AddWords(a: Words, b: Words): Words {
    seq(16, i requires 0 <= i < 16 => Add32(a[i], b[i]))
  }

  function BlockWords(input: Input): Words {
    AddWords(Rounds(DOUBLE_ROUNDS, InitialState(input)), InitialState(input))
  }

  function Serialize(ws: seq<u32>): (s: seq<byte>)
    ensures |s| == 4 * |ws|
  {
    if ws == [] then [] else ToLE(ws[0], 4) + Serialize(ws[1..])
  }

  function Block(input: Input): (s: seq<byte>)
    ensures |s| == 64
  {
    Serialize(BlockWords(input))
  }

  // ---- the position in the stream ----

  // Counter and first nonce word, read together.
  function Counter(input: Input): nat {
    var low: nat, high: nat := input[8], input[9];
    low + 0x1_0000_0000 * high
  }

  // The state a Seek leaves: key words, block counter, 96-bit nonce.
  function SeekInput(key: seq<u32>, first: u32, second: u64, counter: u32): Input
    requires |key| == 8
  {
    key + [counter, first, second % 0x1_0000_0000, second / 0x1_0000_0000]
  }

  // The input n blocks further on.
  function Advance(input: Input, n: nat): (r: Input)
    ensures Counter(r) == (Counter(input) + n) % TWO64
    ensures r[..8] == input[..8] && r[10..] == input[10..]
  {
    var c := (Counter(input) + n) % TWO64;
    var low: u32, high: u32 := c % 0x1_0000_0000, c / 0x1_0000_0000;
    input[8 := low][9 := high]
  }

  // n keystream bytes from byte position p of the stream that starts at `input`.
  function KeyBytes(input: Input, p: nat, n: nat): (s: seq<byte>)
    ensures |s| == n
  {
    seq(n, i requires 0 <= i < n => Block(Advance(input, (p + i) / 64))[(p + i) % 64])
  }

  // ---- the definitions against the standard ----

  // Rotation: shifted up, with what leaves the word coming in below.
  lemma RotlIs(x: u32, k: nat)
    requires k == 16 || k == 12 || k == 8 || k == 7
    ensures Rotl(x, k) == Shl(x, k) % TWO32 + Shl(x, k) / TWO32
  {
    ShlIsMul(x, k);
    hide Shl;
    Pow2Of(k);
    hide Pow2;
    if k == 16 {
      RotlBy(x, 0x1_0000, 0x1_0000);
    } else if k == 12 {
      RotlBy(x, 0x1000, 0x10_0000);
    } else if k == 8 {
      RotlBy(x, 0x100, 0x100_0000);
    } else {
      RotlBy(x, 0x80, 0x200_0000);
    }
  }

  lemma Pow2Of(k: nat)
    requires k == 16 || k == 12 || k == 8 || k == 7
    ensures Pow2(k) == if k == 16 then 0x1_0000 else if k == 12 then 0x1000 else if k == 8 then 0x100 else 0x80
  {
    assert Pow2(7) == 0x80;
    assert Pow2(12) == 0x20 * Pow2(7);
    assert Pow2(16) == 0x10 * Pow2(12);
  }

  lemma RotlBy(x: nat, up: nat, down: nat)
    requires up * down == TWO32 && x < TWO32 && up > 0 && down > 0
    ensures up * x % TWO32 == x % down * up && up * x / TWO32 == x / down
  {
    assert up * x == TWO32 * (x / down) + x % down * up by {
      assert x == down * (x / down) + x % down;
      assert up * (down * (x / down)) == (up * down) * (x / down);
      assert up * (down * (x / down) + x % down) == up * (down * (x / down)) + up * (x % down);
    }
    assert x % down * up < TWO32 by { MulMono(up, x % down + 1, down); }
    DivModUnique(up * x, TWO32, x / down, x % down * up);
  }

  function XorBit(a: nat, b: nat): nat {
    if a % 2 != b % 2 then 1 else 0
  }

  // Four more bits at the bottom, for evaluating an exclusive or of constants.
  lemma XorNibble(p: nat, q: nat, a: nat, b: nat, x: nat)
    requires a < 16 && b < 16
    requires x == XorBit(a, b) + 2 * XorBit(a / 2, b / 2) + 4 * XorBit(a / 4, b / 4) + 8 * XorBit(a / 8, b / 8)
    ensures Xor(16 * p + a, 16 * q + b) == 16 * Xor(p, q) + x
  {
    hide Xor;
    assert Pow2(4) == 16;
    hide Pow2;
    ShlIsMul(p, 4);
    ShlIsMul(q, 4);
    ShlIsMul(Xor(p, q), 4);
    hide Shl;
    XorSplit(4, a, p, b, q);
    XorOfSmall(a, b);
  }

  lemma XorOfSmall(a: nat, b: nat)
    requires a < 16 && b < 16
    ensures Xor(a, b) == XorBit(a, b) + 2 * XorBit(a / 2, b / 2) + 4 * XorBit(a / 4, b / 4) + 8 * XorBit(a / 8, b / 8)
  {
    Halves(a);
    Halves(b);
    XorOfBits(a, a / 2, a / 4, a / 8, a % 2, a / 2 % 2, a / 4 % 2, b, b / 2, b / 4, b / 8, b % 2, b / 2 % 2, b / 4 % 2);
    hide Xor;
  }

  lemma Halves(a: nat)
    requires a < 16
    ensures a == 2 * (a / 2) + a % 2 && a / 2 == 2 * (a / 4) + a / 2 % 2 && a / 4 == 2 * (a / 8) + a / 4 % 2
    ensures a / 8 < 2 && a / 8 % 2 == a / 8
  {}

  // Four binary digits; a2 to a8 are what is left of a after one to three of them.
  lemma XorOfBits(a: nat, a2: nat, a4: nat, a8: nat, x0: nat, x1: nat, x2: nat,
                  b: nat, b2: nat, b4: nat, b8: nat, y0: nat, y1: nat, y2: nat)
    requires a == 2 * a2 + x0 && a2 == 2 * a4 + x1 && a4 == 2 * a8 + x2 && x0 < 2 && x1 < 2 && x2 < 2 && a8 < 2
    requires b == 2 * b2 + y0 && b2 == 2 * b4 + y1 && b4 == 2 * b8 + y2 && y0 < 2 && y1 < 2 && y2 < 2 && b8 < 2
    ensures Xor(a, b) == (if x0 != y0 then 1 else 0) + 2 * (if x1 != y1 then 1 else 0)
                         + 4 * (if x2 != y2 then 1 else 0) + 8 * (if a8 != b8 then 1 else 0)
  {
    XorNone();
    hide Xor;
    XorLowest(x0, y0, a2, b2);
    XorLowest(x1, y1, a4, b4);
    XorLowest(x2, y2, a8, b8);
    XorLowest(a8, b8, 0, 0);
  }

  lemma XorLowest(a: nat, b: nat, u: nat, v: nat)
    requires a < 2 && b < 2
    ensures Xor(2 * u + a, 2 * v + b) == 2 * Xor(u, v) + if a != b then 1 else 0
  {
    hide Xor;
    XorDigit(2 * u + a, 2 * v + b);
  }

  lemma XorNone()
    ensures Xor(0, 0) == 0
  {}

  lemma VectorXor1()
    ensures Xor(0x123_4567, 0x1213_1415) == 0x1330_5172
  {
    XorNone();
    hide Xor;
    XorNibble(0x0, 0x0, 0x0, 0x1, 0x1);
    XorNibble(0x0, 0x1, 0x1, 0x2, 0x3);
    XorNibble(0x1, 0x12, 0x2, 0x1, 0x3);
    XorNibble(0x12, 0x121, 0x3, 0x3, 0x0);
    XorNibble(0x123, 0x1213, 0x4, 0x1, 0x5);
    XorNibble(0x1234, 0x1_2131, 0x5, 0x4, 0x1);
    XorNibble(0x1_2345, 0x12_1314, 0x6, 0x1, 0x7);
    XorNibble(0x12_3456, 0x121_3141, 0x7, 0x5, 0x2);
  }

  lemma VectorXor2()
    ensures Xor(0x102_0304, 0xecff_8273) == 0xedfd_8177
  {
    XorNone();
    hide Xor;
    XorNibble(0x0, 0x0, 0x0, 0xe, 0xe);
    XorNibble(0x0, 0xe, 0x1, 0xc, 0xd);
    XorNibble(0x1, 0xec, 0x0, 0xf, 0xf);
    XorNibble(0x10, 0xecf, 0x2, 0xf, 0xd);
    XorNibble(0x102, 0xecff, 0x0, 0x8, 0x8);
    XorNibble(0x1020, 0xe_cff8, 0x3, 0x2, 0x1);
    XorNibble(0x1_0203, 0xec_ff82, 0x0, 0x7, 0x7);
    XorNibble(0x10_2030, 0xecf_f827, 0x4, 0x3, 0x7);
  }

  lemma VectorXor3()
    ensures Xor(0x5172_1330, 0xea2a_92f4) == 0xbb58_81c4
  {
    XorNone();
    hide Xor;
    XorNibble(0x0, 0x0, 0x5, 0xe, 0xb);
    XorNibble(0x5, 0xe, 0x1, 0xa, 0xb);
    XorNibble(0x51, 0xea, 0x7, 0x2, 0x5);
    XorNibble(0x517, 0xea2, 0x2, 0xa, 0x8);
    XorNibble(0x5172, 0xea2a, 0x1, 0x9, 0x8);
    XorNibble(0x5_1721, 0xe_a2a9, 0x3, 0x2, 0x1);
    XorNibble(0x51_7213, 0xea_2a92, 0x3, 0xf, 0xc);
    XorNibble(0x517_2133, 0xea2_a92f, 0x0, 0x4, 0x4);
  }

  lemma VectorXor4()
    ensures Xor(0xd817_7edf, 0x4581_472e) == 0x9d96_39f1
  {
    XorNone();
    hide Xor;
    XorNibble(0x0, 0x0, 0xd, 0x4, 0x9);
    XorNibble(0xd, 0x4, 0x8, 0x5, 0xd);
    XorNibble(0xd8, 0x45, 0x1, 0x8, 0x9);
    XorNibble(0xd81, 0x458, 0x7, 0x1, 0x6);
    XorNibble(0xd817, 0x4581, 0x7, 0x4, 0x3);
    XorNibble(0xd_8177, 0x4_5814, 0xe, 0x7, 0x9);
    XorNibble(0xd8_177e, 0x45_8147, 0xd, 0x2, 0xf);
    XorNibble(0xd81_77ed, 0x458_1472, 0xf, 0xe, 0x1);
  }

  lemma VectorRotations()
    ensures Rotl(0x1330_5172, 16) == 0x5172_1330 && Rotl(0xedfd_8177, 12) == 0xd817_7edf
    ensures Rotl(0xbb58_81c4, 8) == 0x5881_c4bb && Rotl(0x9d96_39f1, 7) == 0xcb1c_f8ce
  {}

  // The test vector of section 2.1.1 of RFC 8439.
  lemma QuarterRoundVector()
    ensures QuarterRound(0x1111_1111, 0x0102_0304, 0x9b8d_6f43, 0x0123_4567)
         == (0xea2a_92f4, 0xcb1c_f8ce, 0x4581_472e, 0x5881_c4bb)
  {
    VectorSums();
    VectorRotations();
    VectorXor1();
    VectorXor2();
    VectorXor3();
    VectorXor4();
    hide Xor;
    hide Rotl;
    hide Add32;
  }

  lemma VectorSums()
    ensures Add32(0x1111_1111, 0x0102_0304) == 0x1213_1415 && Add32(0x9b8d_6f43, 0x5172_1330) == 0xecff_8273
    ensures Add32(0x1213_1415, 0xd817_7edf) == 0xea2a_92f4 && Add32(0xecff_8273, 0x5881_c4bb) == 0x4581_472e
  {}

  // The state as a matrix of four rows: quarter rounds down all columns.
  function Columns(s: Words): Words {
    seq(16, i requires 0 <= i < 16 =>
      var q := QuarterRound(s[i % 4], s[4 + i % 4], s[8 + i % 4], s[12 + i % 4]);
      if i < 4 then q.0 else if i < 8 then q.1 else if i < 12 then q.2 else q.3)
  }

  // Row r turned by r places, so that diagonals become columns, and back.
  function Turned(s: Words): Words {
    [s[0], s[1], s[2], s[3],
     s[5], s[6], s[7], s[4],
     s[10], s[11], s[8], s[9],
     s[15], s[12], s[13], s[14]]
  }

  function TurnedBack(s: Words): Words {
    [s[0], s[1], s[2], s[3],
     s[7], s[4], s[5], s[6],
     s[10], s[11], s[8], s[9],
     s[13], s[14], s[15], s[12]]
  }

  lemma ColumnRound(s: Words)
    ensures QRound(QRound(QRound(QRound(s, 0, 4, 8, 12), 1, 5, 9, 13), 2, 6, 10, 14), 3, 7, 11, 15) == Columns(s)
  {
    hide QuarterRound;
  }

  lemma DiagonalRound(s: Words)
    ensures QRound(QRound(QRound(QRound(s, 0, 5, 10, 15), 1, 6, 11, 12), 2, 7, 8, 13), 3, 4, 9, 14)
         == TurnedBack(Columns(Turned(s)))
  {
    hide QuarterRound;
  }

  // A double round: columns, then diagonals.
  function DoubleRound(s: Words): Words {
    TurnedBack(Columns(Turned(Columns(s))))
  }

  // The eight quarter rounds of the code are one.
  lemma InnerBlockIs(s: Words)
    ensures InnerBlock(s) == DoubleRound(s)
  {
    hide QRound;
    hide Columns;
    hide Turned;
    hide TurnedBack;
    ColumnRound(s);
    DiagonalRound(Columns(s));
  }

  predicate IsSum(sum: Words, a: Words, b: Words) {
    forall i :: 0 <= i < 16 ==> sum[i] == (a[i] + b[i]) % TWO32
  }

  function FiveDoubleRounds(s: Words): Words {
    DoubleRound(DoubleRound(DoubleRound(DoubleRound(DoubleRound(s)))))
  }

  // Ten double rounds and the addition of the initial state, word by word.
  lemma BlockWordsIs(input: Input)
    ensures IsSum(BlockWords(input), FiveDoubleRounds(FiveDoubleRounds(InitialState(input))), InitialState(input))
  {
    hide InnerBlock;
    hide FiveDoubleRounds;
    hide Rounds;
    var s := InitialState(input);
    FiveRounds(s);
    FiveRounds(FiveDoubleRounds(s));
    RoundsTwice(5, 5, s);
  }

  lemma FiveRounds(s: Words)
    ensures Rounds(5, s) == FiveDoubleRounds(s)
  {
    hide InnerBlock;
    InnerBlockIs(s);
    InnerBlockIs(DoubleRound(s));
    InnerBlockIs(DoubleRound(DoubleRound(s)));
    InnerBlockIs(DoubleRound(DoubleRound(DoubleRound(s))));
    InnerBlockIs(DoubleRound(DoubleRound(DoubleRound(DoubleRound(s)))));
    hide DoubleRound;
    assert Rounds(1, s) == DoubleRound(s);
    assert Rounds(3, s) == DoubleRound(DoubleRound(DoubleRound(s)));
    assert Rounds(4, s) == DoubleRound(DoubleRound(DoubleRound(DoubleRound(s))));
  }

  lemma {:induction false} RoundsTwice(m: nat, n: nat, s: Words)
    ensures Rounds(m + n, s) == Rounds(n, Rounds(m, s))
  {
    hide InnerBlock;
    if n > 0 { RoundsTwice(m, n - 1, s); }
  }

  // "expand 32-byte k", then the input, as bytes.
  lemma InitialStateBytes(input: Input)
    ensures Serialize(InitialState(input))
         == [0x65, 0x78, 0x70, 0x61, 0x6e, 0x64, 0x20, 0x33, 0x32, 0x2d, 0x62, 0x79, 0x74, 0x65, 0x20, 0x6b]
            + Serialize(input)
  {
    var sigma := [0x6170_7865, 0x3320_646e, 0x7962_2d32, 0x6b20_6574];
    SerializeConcat(sigma, input);
    SigmaBytes();
  }

  lemma SigmaBytes()
    ensures Serialize([0x6170_7865, 0x3320_646e, 0x7962_2d32, 0x6b20_6574])
         == [0x65, 0x78, 0x70, 0x61, 0x6e, 0x64, 0x20, 0x33, 0x32, 0x2d, 0x62, 0x79, 0x74, 0x65, 0x20, 0x6b]
  {
    SigmaWords();
    hide *;
    var a, b, c, e := 0x6170_7865, 0x3320_646e, 0x7962_2d32, 0x6b20_6574;
    SerializeConcat([a, b, c], [e]);
    SerializeConcat([a, b], [c]);
    SerializeConcat([a], [b]);
    SerializeOne(a);
    SerializeOne(b);
    SerializeOne(c);
    SerializeOne(e);
    assert [a] + [b] == [a, b] && [a, b] + [c] == [a, b, c] && [a, b, c] + [e] == [a, b, c, e];
  }

  lemma SigmaWords()
    ensures ToLE(0x6170_7865, 4) == [0x65, 0x78, 0x70, 0x61] && ToLE(0x3320_646e, 4) == [0x6e, 0x64, 0x20, 0x33]
    ensures ToLE(0x7962_2d32, 4) == [0x32, 0x2d, 0x62, 0x79] && ToLE(0x6b20_6574, 4) == [0x74, 0x65, 0x20, 0x6b]
  {
    WordBytes(0x65, 0x78, 0x70, 0x61);
    WordBytes(0x6e, 0x64, 0x20, 0x33);
    WordBytes(0x32, 0x2d, 0x62, 0x79);
    WordBytes(0x74, 0x65, 0x20, 0x6b);
    hide *;
  }

  lemma WordBytes(a: byte, b: byte, c: byte, e: byte)
    ensures ToLE(a + 0x100 * b + 0x1_0000 * c + 0x100_0000 * e, 4) == [a, b, c, e]
  {
    hide ToLE;
    var s := [a, b, c, e];
    LEFirst(s);
    LEFirst(s[1..]);
    LEFirst(s[1..][1..]);
    LEFirst(s[1..][1..][1..]);
    assert LE([]) == 0;
    hide LE;
    assert s[1..][1..][1..][1..] == [];
    ToLERoundTrip(s);
  }

  lemma LEFirst(s: seq<byte>)
    requires s != []
    ensures LE(s) == s[0] + 0x100 * LE(s[1..])
  {}

  lemma {:induction false} SerializeConcat(a: seq<u32>, b: seq<u32>)
    ensures Serialize(a + b) == Serialize(a) + Serialize(b)
  {
    hide ToLE;
    if a == [] {
      assert a + b == b;
    } else {
      assert (a + b)[1..] == a[1..] + b;
      SerializeConcat(a[1..], b);
    }
  }

  lemma SerializeOne(w: u32)
    ensures Serialize([w]) == ToLE(w, 4)
  {
    hide ToLE;
    assert [w][1..] == [];
  }

  // What a Seek leaves, as bytes: the key, the block counter, the nonce in its two parts.
  lemma SeekInputBytes(key: seq<u32>, first: u32, second: u64, counter: u32)
    requires |key| == 8
    ensures Serialize(SeekInput(key, first, second, counter))
         == Serialize(key) + ToLE(counter, 4) + ToLE(first, 4) + ToLE(second, 8)
  {
    hide ToLE;
    var lo: u32, hi: u32 := second % TWO32, second / TWO32;
    var words := SeekInput(key, first, second, counter);
    assert words == key + [counter] + [first] + [lo] + [hi];
    SerializeConcat(key + [counter] + [first] + [lo], [hi]);
    SerializeConcat(key + [counter] + [first], [lo]);
    SerializeConcat(key + [counter], [first]);
    SerializeConcat(key, [counter]);
    SerializeOne(counter);
    SerializeOne(first);
    SerializeOne(lo);
    SerializeOne(hi);
    ToLESplit(lo, hi);
    ConcatAssoc(Serialize(key) + ToLE(counter, 4) + ToLE(first, 4), ToLE(lo, 4), ToLE(hi, 4));
  }

  lemma ToLESplit(lo: u32, hi: u32)
    ensures ToLE(lo + TWO32 * hi, 8) == ToLE(lo, 4) + ToLE(hi, 4)
  {
    var s := ToLE(lo, 4) + ToLE(hi, 4);
    Pow256Values();
    LERoundTrip(lo, 4);
    LERoundTrip(hi, 4);
    LEConcat(ToLE(lo, 4), ToLE(hi, 4));
    ToLERoundTrip(s);
    hide ToLE;
    hide LE;
  }

  // The position is read from bytes 32 to 40 of the input.
  lemma CounterBytes(input: Input)
    ensures |Serialize(input)| == 48 && Counter(input) == LE(Serialize(input)[32..40])
  {
    var head, lo, hi, tail := input[..8], input[8], input[9], input[10..];
    assert input == head + [lo] + [hi] + tail;
    SerializeConcat(head + [lo] + [hi], tail);
    SerializeConcat(head + [lo], [hi]);
    SerializeConcat(head, [lo]);
    SerializeOne(lo);
    SerializeOne(hi);
    Pow256Values();
    LERoundTrip(lo, 4);
    LERoundTrip(hi, 4);
    LEConcat(ToLE(lo, 4), ToLE(hi, 4));
    hide ToLE;
    hide LE;
    hide Serialize;
    assert Serialize(input)[32..40] == ToLE(lo, 4) + ToLE(hi, 4);
  }

  lemma SameCounter(a: Input, b: Input)
    requires Counter(a) == Counter(b) && a[..8] == b[..8] && a[10..] == b[10..]
    ensures a == b
  {
    assert forall i :: 0 <= i < 8 ==> a[..8][i] == b[..8][i];
    assert a[10] == a[10..][0] && a[11] == a[10..][1] && b[10] == b[10..][0] && b[11] == b[10..][1];
    assert a[8] == b[8] && a[9] == b[9];
  }

  lemma AdvanceAdvance(input: Input, m: nat, n: nat)
    ensures Advance(Advance(input, m), n) == Advance(input, m + n)
  {
    hide Advance;
    hide Counter;
    ModTwice(Counter(input) + m, n);
    SameCounter(Advance(Advance(input, m), n), Advance(input, m + n));
  }

  lemma ModTwice(x: nat, y: nat)
    ensures (x % TWO64 + y) % TWO64 == (x + y) % TWO64
  {
    Mod64(x % TWO64 + y, x / TWO64);
  }

  lemma AdvanceZero(input: Input)
    ensures Advance(input, 0) == input
  {
    SameCounter(Advance(input, 0), input);
  }

  // Seeking to the next block is the same as generating one block.
  lemma SeekNext(key: seq<u32>, first: u32, second: u64, counter: u32)
    requires |key| == 8 && counter < 0xffff_ffff
    ensures Advance(SeekInput(key, first, second, counter), 1) == SeekInput(key, first, second, counter + 1)
  {
    var a, b := SeekInput(key, first, second, counter), SeekInput(key, first, second, counter + 1);
    hide Advance;
    assert a[..8] == key == b[..8] && a[10..] == b[10..];
    SameCounter(Advance(a, 1), b);
  }

  lemma KeyBytesSplit(input: Input, p: nat, m: nat, n: nat)
    ensures KeyBytes(input, p, m + n) == KeyBytes(input, p, m) + KeyBytes(input, p + m, n)
  {
    hide Block;
    hide Advance;
  }

  // Moving the stream's start by whole blocks.
  lemma KeyBytesShift(input: Input, k: nat, p: nat, n: nat)
    ensures KeyBytes(Advance(input, k), p, n) == KeyBytes(input, 64 * k + p, n)
  {
    hide Block;
    hide Advance;
    forall i | 0 <= i < n
      ensures KeyBytes(Advance(input, k), p, n)[i] == KeyBytes(input, 64 * k + p, n)[i]
    {
      AdvanceAdvance(input, k, (p + i) / 64);
    }
  }

  lemma NoKeyBytes(input: Input, p: nat)
    ensures KeyBytes(input, p, 0) == []
  {}

  lemma WholeBlock(input: Input, k: nat)
    ensures KeyBytes(input, 64 * k, 64) == Block(Advance(input, k))
  {
    hide Block;
    hide Advance;
  }

  lemma FirstBlock(input: Input)
    ensures KeyBytes(input, 0, 64) == Block(input)
  {
    hide Block;
    hide Advance;
    WholeBlock(input, 0);
    AdvanceZero(input);
  }

  // A message combined with the keystream from position p.
  function Masked(input: Input, p: nat, m: seq<byte>): (s: seq<byte>)
    ensures |s| == |m|
  {
    XorBytes(m, KeyBytes(input, p, |m|))
  }

  lemma MaskedIs(input: Input, p: nat, m: seq<byte>, k: seq<byte>)
    requires k == KeyBytes(input, p, |m|)
    ensures Masked(input, p, m) == XorBytes(m, k)
  {}

  lemma MaskedNothing(input: Input, p: nat)
    ensures Masked(input, p, []) == []
  {}

  // One contiguous keystream, however the message is cut.
  lemma MaskedConcat(input: Input, p: nat, m: seq<byte>, n: seq<byte>)
    ensures Masked(input, p, m + n) == Masked(input, p, m) + Masked(input, p + |m|, n)
  {
    hide KeyBytes;
    hide XorBytes;
    KeyBytesSplit(input, p, |m|, |n|);
    XorBytesConcat(m, n, KeyBytes(input, p, |m|), KeyBytes(input, p + |m|, |n|));
  }

  // Encryption and decryption are the same operation.
  lemma MaskedTwice(input: Input, p: nat, m: seq<byte>)
    ensures Masked(input, p, Masked(input, p, m)) == m
  {
    hide KeyBytes;
    XorBytesInvolutive(m, KeyBytes(input, p, |m|));
  }
}

// src/crypto/chacha20.cpp: the block-aligned cipher and the unrestricted one above it.
module ChaCha20 {
  import opened Bits
  import opened ChaCha20Spec

  function KeyInput(key: seq<byte>): Input
    requires |key| == 32
  {
    [Load32(key, 0), Load32(key, 4), Load32(key, 8), Load32(key, 12),
     Load32(key, 16), Load32(key, 20), Load32(key, 24), Load32(key, 28), 0, 0, 0, 0]
  }

  // Nothing of the key is lost or moved: its words, written out, are its bytes.
  lemma KeyInputBytes(key: seq<byte>)
    requires |key| == 32
    ensures Serialize(KeyInput(key)) == key + Zeros(16)
    ensures Serialize(KeyInput(key)[..8]) == key
  {
    var words := KeyInput(key);
    LoadedBytes(words[..8], key);
    assert words == words[..8] + [0, 0, 0, 0];
    SerializeConcat(words[..8], [0, 0, 0, 0]);
    ZeroWords();
    hide Serialize;
    hide Load32;
  }

  lemma {:induction false} LoadedBytes(words: seq<u32>, key: seq<byte>)
    requires |key| == 4 * |words|
    requires forall i :: 0 <= i < |words| ==> words[i] == Load32(key, 4 * i)
    ensures Serialize(words) == key
  {
    hide LE;
    hide ToLE;
    if words != [] {
      ToLERoundTrip(key[..4]);
      assert key[0..4] == key[..4];
      assert forall i :: 0 <= i < |words| - 1 ==> key[4..][4 * i..4 * i + 4] == key[4 * (i + 1)..4 * (i + 1) + 4];
      LoadedBytes(words[1..], key[4..]);
      assert key == key[..4] + key[4..];
    }
  }

  lemma ZeroWords()
    ensures Serialize([0, 0, 0, 0]) == Zeros(16)
  {
    WordBytes(0, 0, 0, 0);
    var z: seq<u32> := [0, 0];
    SerializeOne(0);
    SerializeConcat([0], [0]);
    SerializeConcat(z, z);
    hide Serialize;
    hide ToLE;
    assert z == [0] + [0] && z + z == [0, 0, 0, 0];
  }

  // One QUARTERROUND on four of the sixteen working words.
  method Quarter(x: array<u32>, a: nat, b: nat, c: nat, d: nat)
    requires x.Length == 16 && a < 16 && b < 16 && c < 16 && d < 16
    requires a != b && a != c && a != d && b != c && b != d && c != d
    modifies x
    ensures x[..] == QRound(old(x[..]), a, b, c, d)
  {
    hide Rotl;
    hide Xor32;
    ghost var s := x[..];
    x[a] := Add32(x[a], x[b]);
    x[d] := Rotl(Xor32(x[d], x[a]), 16);
    x[c] := Add32(x[c], x[d]);
    x[b] := Rotl(Xor32(x[b], x[c]), 12);
    x[a] := Add32(x[a], x[b]);
    x[d] := Rotl(Xor32(x[d], x[a]), 8);
    x[c] := Add32(x[c], x[d]);
    x[b] := Rotl(Xor32(x[b], x[c]), 7);
    hide Add32;
    assert (x[a], x[b], x[c], x[d]) == QuarterRound(s[a], s[b], s[c], s[d]);
  }

  // The body of the block loop: 10 double rounds, then the feed-forward.
  method MixBlock(j: Input) returns (x: array<u32>)
    ensures fresh(x) && x.Length == 16 && x[..] == BlockWords(j) && Serialize(x[..]) == Block(j)
  {
    hide QRound;
    ghost var init := InitialState(j);
    x := new u32[16](i requires 0 <= i < 16 => InitialState(j)[i]);
    assert x[..] == init;
    for i := 0 to DOUBLE_ROUNDS
      invariant x[..] == Rounds(i, init)
    {
      Quarter(x, 0, 4, 8, 12);
      Quarter(x, 1, 5, 9, 13);
      Quarter(x, 2, 6, 10, 14);
      Quarter(x, 3, 7, 11, 15);
      Quarter(x, 0, 5, 10, 15);
      Quarter(x, 1, 6, 11, 12);
      Quarter(x, 2, 7, 8, 13);
      Quarter(x, 3, 4, 9, 14);
    }
    ghost var mixed := x[..];
    for i := 0 to 16
      invariant forall k :: 0 <= k < i ==> x[k] == Add32(mixed[k], init[k])
      invariant forall k :: i <= k < 16 ==> x[k] == mixed[k]
    {
      x[i] := Add32(x[i], InitialState(j)[i]);
    }
    assert x[..] == AddWords(mixed, init);
  }

  // The counter word with its carry into the first nonce word.
  function Next(j: Input): Input {
    var j12 := Add32(j[8], 1);
    if j12 == 0 then j[8 := j12][9 := Add32(j[9], 1)] else j[8 := j12]
  }

  lemma NextAdvances(j: Input)
    ensures Next(j) == Advance(j, 1)
  {
    SameCounter(Next(j), Advance(j, 1));
  }

  lemma NextAfter(input: Input, n: nat)
    ensures Next(Advance(input, n)) == Advance(input, n + 1)
  {
    NextAdvances(Advance(input, n));
    AdvanceAdvance(input, n, 1);
  }

  lemma {:induction false} SerializeAppend(a: seq<u32>, w: u32)
    ensures Serialize(a + [w]) == Serialize(a) + ToLE(w, 4)
  {
    hide ToLE;
    if a == [] {
      assert (a + [w])[1..] == [];
    } else {
      assert (a + [w])[1..] == a[1..] + [w];
      SerializeAppend(a[1..], w);
    }
  }

  // The sixteen WriteLE calls.
  method WriteBlock(out: array<byte>, c: nat, x: array<u32>)
    requires x.Length == 16 && c + 64 <= out.Length
    modifies out
    ensures Wrote(old(out[..]), c, Serialize(x[..]), out[..])
  {
    hide ToLE;
    hide Wrote;
    WroteNothing(out[..], c);
    assert x[..0] == [];
    for i := 0 to 16
      invariant x[..] == old(x[..])
      invariant Wrote(old(out[..]), c, Serialize(x[..i]), out[..])
    {
      ghost var before := out[..];
      WriteLE(out, c + 4 * i, x[i], 4);
      SerializeAppend(x[..i], x[i]);
      assert x[..i + 1] == x[..i] + [x[i]];
      WroteTwice(old(out[..]), c, Serialize(x[..i]), before, ToLE(x[i], 4), out[..]);
    }
    assert x[..16] == x[..];
  }

  function XorWords(ws: seq<u32>, m: seq<byte>): (r: seq<u32>)
    requires |m| == 4 * |ws|
    ensures |r| == |ws|
  {
    seq(|ws|, i requires 0 <= i < |ws| => Xor32(ws[i], Load32(m, 4 * i)))
  }

  lemma {:induction false} SerializeXor(ws: seq<u32>, m: seq<byte>)
    requires |m| == 4 * |ws|
    ensures Serialize(XorWords(ws, m)) == XorBytes(Serialize(ws), m)
  {
    hide Xor32;
    hide ToLE;
    if ws != [] {
      XorWordsTail(ws, m);
      SerializeXor(ws[1..], m[4..]);
      WordXor(ws[0], m[..4]);
      assert m == m[..4] + m[4..] && m[..4][0..4] == m[0..4];
      XorBytesConcat(ToLE(ws[0], 4), Serialize(ws[1..]), m[..4], m[4..]);
    }
  }

  lemma XorWordsTail(ws: seq<u32>, m: seq<byte>)
    requires |m| == 4 * |ws| && ws != []
    ensures XorWords(ws, m)[1..] == XorWords(ws[1..], m[4..])
  {
    hide LE;
    hide Xor32;
    forall i | 0 <= i < |ws| - 1
      ensures XorWords(ws, m)[1..][i] == XorWords(ws[1..], m[4..])[i]
    {
      assert m[4..][4 * i..4 * i + 4] == m[4 * (i + 1)..4 * (i + 1) + 4];
    }
  }

  lemma WordXor(w: u32, m: seq<byte>)
    requires |m| == 4
    ensures ToLE(Xor32(w, Load32(m, 0)), 4) == XorBytes(ToLE(w, 4), m)
  {
    hide Xor;
    hide ToLE;
    hide LE;
    assert m[0..4] == m;
    XorOfWords(w, LE(m), 4);
    ToLERoundTrip(m);
  }

  // Sixteen message words into the sixteen block words.
  method XorBlock(x: array<u32>, m: seq<byte>)
    requires x.Length == 16 && |m| == 64
    modifies x
    ensures x[..] == XorWords(old(x[..]), m)
  {
    hide Xor32;
    ghost var before := x[..];
    for i := 0 to 16
      invariant forall k :: 0 <= k < i ==> x[k] == Xor32(before[k], Load32(m, 4 * k))
      invariant forall k :: i <= k < 16 ==> x[k] == before[k]
    {
      x[i] := Xor32(x[i], Load32(m, 4 * i));
    }
  }

  class ChaCha20Aligned {
    var input: Input

    constructor (key: seq<byte>)
      requires |key| == 32
      ensures input == KeyInput(key)
    {
      input := KeyInput(key);
    }

    method SetKey(key: seq<byte>)
      requires |key| == 32
      modifies this
      ensures input == KeyInput(key)
    {
      input := KeyInput(key);
    }

    // Moves to the start of any block under any nonce; the key words stay.
    method Seek(first: u32, second: u64, counter: u32)
      modifies this
      ensures input == SeekInput(old(input)[..8], first, second, counter)
    {
      input := input[8 := counter][9 := first];
      input := input[10 := second % 0x1_0000_0000][11 := second / 0x1_0000_0000];
    }

    method Keystream(out: array<byte>, at: nat, n: nat)
      requires n % 64 == 0 && at + n <= out.Length
      modifies this, out
      ensures input == Advance(old(input), n / 64)
      ensures Wrote(old(out[..]), at, KeyBytes(old(input), 0, n), out[..])
    {
      hide *;
      var blocks := n / 64;
      AdvanceZero(input);
      NoKeyBytes(input, 0);
      WroteNothing(out[..], at);
      if blocks == 0 { return; }
      var j, c := input, at;
      ghost var done := 0;
      while true
        invariant blocks >= 1 && done + blocks == n / 64 && c == at + 64 * done
        invariant input == old(input) && j == Advance(input, done)
        invariant Wrote(old(out[..]), at, KeyBytes(input, 0, 64 * done), out[..])
        decreases blocks
      {
        ghost var before := out[..];
        var x := MixBlock(j);
        WriteBlock(out, c, x);
        WholeBlock(input, done);
        KeyBytesSplit(input, 0, 64 * done, 64);
        WroteTwice(old(out[..]), at, KeyBytes(input, 0, 64 * done), before, Block(j), out[..]);
        j := Next(j);
        NextAfter(input, done);
        if blocks == 1 {
          input := j;
          return;
        }
        blocks := blocks - 1;
        c := c + 64;
        done := done + 1;
      }
    }

    method Crypt(m: seq<byte>, out: array<byte>, at: nat)
      requires |m| % 64 == 0 && at + |m| <= out.Length
      modifies this, out
      ensures input == Advance(old(input), |m| / 64)
      ensures Wrote(old(out[..]), at, XorBytes(m, KeyBytes(old(input), 0, |m|)), out[..])
    {
      hide *;
      var blocks := |m| / 64;
      AdvanceZero(input);
      assert XorBytes(m[..0], KeyBytes(input, 0, 0)) == [];
      WroteNothing(out[..], at);
      if blocks == 0 { return; }
      var j, c, i := input, at, 0;
      ghost var done := 0;
      while true
        invariant blocks >= 1 && done + blocks == |m| / 64 && c == at + 64 * done && i == 64 * done
        invariant input == old(input) && j == Advance(input, done)
        invariant Wrote(old(out[..]), at, XorBytes(m[..i], KeyBytes(input, 0, i)), out[..])
        decreases blocks
      {
        ghost var before := out[..];
        var x := MixBlock(j);
        ghost var ws := x[..];
        XorBlock(x, m[i..i + 64]);
        WriteBlock(out, c, x);
        SerializeXor(ws, m[i..i + 64]);
        XorBytesCommutes(Block(j), m[i..i + 64]);
        CryptStep(input, m, done);
        WroteTwice(old(out[..]), at, XorBytes(m[..i], KeyBytes(input, 0, i)), before,
                   XorBytes(m[i..i + 64], Block(j)), out[..]);
        j := Next(j);
        NextAfter(input, done);
        if blocks == 1 {
          assert m[..i + 64] == m;
          input := j;
          return;
        }
        blocks := blocks - 1;
        c := c + 64;
        i := i + 64;
        done := done + 1;
      }
    }

    static lemma CryptStep(input: Input, m: seq<byte>, done: nat)
      requires 64 * done + 64 <= |m|
      ensures XorBytes(m[..64 * done + 64], KeyBytes(input, 0, 64 * done + 64))
           == XorBytes(m[..64 * done], KeyBytes(input, 0, 64 * done))
              + XorBytes(m[64 * done..64 * done + 64], Block(Advance(input, done)))
    {
      hide Block;
      hide Advance;
      WholeBlock(input, done);
      KeyBytesSplit(input, 0, 64 * done, 64);
      assert m[..64 * done + 64] == m[..64 * done] + m[64 * done..64 * done + 64];
      XorBytesConcat(m[..64 * done], m[64 * done..64 * done + 64], KeyBytes(input, 0, 64 * done),
                     Block(Advance(input, done)));
    }
  }

  // Keystream bytes within block b.
  lemma InsideBlock(start: Input, b: nat, off: nat, k: nat)
    requires off + k <= 64
    ensures KeyBytes(start, 64 * b + off, k) == Block(Advance(start, b))[off..off + k]
  {
    hide Block;
    hide Advance;
    var s, t := KeyBytes(start, 64 * b + off, k), Block(Advance(start, b))[off..off + k];
    forall i | 0 <= i < k
      ensures s[i] == t[i]
    {
      var p := 64 * b + off + i;
      assert p / 64 == b && p % 64 == off + i;
    }
  }

  class ChaCha20 {
    const aligned: ChaCha20Aligned
    const buffer: array<byte>
    var bufleft: nat

    ghost var start: Input // the aligned state left by the last SetKey or Seek
    ghost var blocks: nat // blocks generated since then

    ghost function Footprint(): (s: set<object>)
      ensures s == {this, aligned, buffer}
    {
      {this, aligned, buffer}
    }

    // Bytes handed out since the last SetKey or Seek.
    ghost function Pos(): nat
      reads this`bufleft, this`blocks
      requires bufleft <= 64 * blocks
    {
      64 * blocks - bufleft
    }

    ghost predicate Valid()
      reads this, aligned, buffer
      ensures Valid() ==> buffer.Length == 64 && bufleft < 64 && bufleft <= 64 * blocks
    {
      && buffer.Length == 64
      && bufleft < 64 && bufleft <= 64 * blocks
      && aligned.input == Advance(start, blocks)
      && (bufleft > 0 ==> buffer[..] == Block(Advance(start, blocks - 1)))
    }

    constructor (key: seq<byte>)
      requires |key| == 32
      ensures Valid() && fresh(aligned) && fresh(buffer)
      ensures start == KeyInput(key) && Pos() == 0
    {
      hide Block;
      hide Advance;
      hide KeyInput;
      var a := new ChaCha20Aligned(key);
      aligned := a;
      buffer := new byte[64];
      bufleft := 0;
      start, blocks := KeyInput(key), 0;
      AdvanceZero(KeyInput(key));
    }

    method SetKey(key: seq<byte>)
      requires |key| == 32 && Valid()
      modifies this, aligned, buffer
      ensures Valid() && start == KeyInput(key) && Pos() == 0
    {
      hide Block;
      hide Advance;
      hide KeyInput;
      aligned.SetKey(key);
      bufleft := 0;
      forall i | 0 <= i < 64 { buffer[i] := 0; }
      start, blocks := KeyInput(key), 0;
      AdvanceZero(KeyInput(key));
    }

    method Seek(first: u32, second: u64, counter: u32)
      requires Valid()
      modifies this, aligned
      ensures Valid() && Pos() == 0
      ensures start == SeekInput(old(start)[..8], first, second, counter)
    {
      hide Block;
      assert aligned.input[..8] == start[..8];
      aligned.Seek(first, second, counter);
      bufleft := 0;
      start, blocks := aligned.input, 0;
      AdvanceZero(start);
    }

    // ---- the three stages shared by Keystream and Crypt ----

    // Bytes left in the buffer.
    method Buffered(k: nat) returns (s: seq<byte>)
      requires Valid() && k <= bufleft
      modifies this`bufleft
      ensures Valid() && Pos() == old(Pos()) + k && bufleft == old(bufleft) - k
      ensures s == KeyBytes(start, old(Pos()), k)
    {
      hide Block;
      hide Advance;
      hide KeyBytes;
      if k == 0 {
        NoKeyBytes(start, Pos());
        return [];
      }
      InsideBlock(start, blocks - 1, 64 - bufleft, k);
      s := buffer[64 - bufleft..64 - bufleft + k];
      bufleft := bufleft - k;
    }

    // A new block into the buffer, k bytes of it used at once.
    method Refill(k: nat) returns (s: seq<byte>)
      requires Valid() && bufleft == 0 && 0 < k < 64
      modifies this`bufleft, this`blocks, aligned, buffer
      ensures Valid() && Pos() == old(Pos()) + k
      ensures s == KeyBytes(start, old(Pos()), k)
    {
      hide Block;
      hide Advance;
      hide KeyBytes;
      KeyBytesShift(start, blocks, 0, 64);
      InsideBlock(start, blocks, 0, 64);
      InsideBlock(start, blocks, 0, k);
      aligned.Keystream(buffer, 0, 64);
      AdvanceAdvance(start, blocks, 1);
      s := buffer[..k];
      bufleft := 64 - k;
      blocks := blocks + 1;
    }

    // Whole blocks straight from the aligned cipher.
    method Whole(out: array<byte>, at: nat, k: nat)
      requires Valid() && bufleft == 0 && at + 64 * k <= out.Length && out != buffer
      modifies this`blocks, aligned, out
      ensures Valid() && Pos() == old(Pos()) + 64 * k
      ensures Wrote(old(out[..]), at, KeyBytes(start, old(Pos()), 64 * k), out[..])
    {
      hide Block;
      hide Advance;
      hide KeyBytes;
      hide Wrote;
      KeyBytesShift(start, blocks, 0, 64 * k);
      aligned.Keystream(out, at, 64 * k);
      AdvanceAdvance(start, blocks, k);
      blocks := blocks + k;
    }

    method CryptWhole(m: seq<byte>, out: array<byte>, at: nat)
      requires Valid() && bufleft == 0 && |m| % 64 == 0 && at + |m| <= out.Length && out != buffer
      modifies this`blocks, aligned, out
      ensures Valid() && Pos() == old(Pos()) + |m|
      ensures Wrote(old(out[..]), at, Masked(start, old(Pos()), m), out[..])
    {
      hide Block;
      hide Advance;
      hide KeyBytes;
      hide Wrote;
      hide XorBytes;
      KeyBytesShift(start, blocks, 0, |m|);
      aligned.Crypt(m, out, at);
      AdvanceAdvance(start, blocks, |m| / 64);
      blocks := blocks + |m| / 64;
    }

    // The part of Keystream after the buffer is used up.
    method KeystreamAligned(out: array<byte>, at: nat, n: nat)
      requires Valid() && bufleft == 0 && at + n <= out.Length && out != buffer
      modifies this, aligned, buffer, out
      ensures Valid() && start == old(start) && Pos() == old(Pos()) + n
      ensures Wrote(old(out[..]), at, KeyBytes(start, old(Pos()), n), out[..])
    {
      hide *;
      ghost var before, p := out[..], Pos();
      NoKeyBytes(start, p);
      WroteNothing(before, at);
      var whole, left := n / 64, n % 64;
      if n >= 64 {
        Whole(out, at, whole);
      }
      if left != 0 {
        ghost var mid := out[..];
        var s := Refill(left);
        CopyBytes(out, at + 64 * whole, s);
        WroteMore(before, at, start, p, 64 * whole, mid, left, out[..]);
      }
    }

    method Keystream(out: array<byte>, at: nat, n: nat)
      requires Valid() && at + n <= out.Length && out != buffer
      modifies this, aligned, buffer, out
      ensures Valid() && start == old(start) && Pos() == old(Pos()) + n
      ensures Wrote(old(out[..]), at, KeyBytes(start, old(Pos()), n), out[..])
    {
      hide *;
      ghost var before, p := out[..], Pos();
      if n == 0 {
        NoKeyBytes(start, p);
        WroteNothing(before, at);
        return;
      }
      if bufleft != 0 {
        var reuse := if bufleft < n then bufleft else n;
        var s := Buffered(reuse);
        CopyBytes(out, at, s);
        if reuse < n {
          ghost var mid := out[..];
          KeystreamAligned(out, at + reuse, n - reuse);
          WroteMore(before, at, start, p, reuse, mid, n - reuse, out[..]);
        }
      } else {
        KeystreamAligned(out, at, n);
      }
    }

    static lemma WroteMore(a: seq<byte>, at: nat, start: Input, p: nat, m: nat, b: seq<byte>, n: nat, c: seq<byte>)
      requires Wrote(a, at, KeyBytes(start, p, m), b) && Wrote(b, at + m, KeyBytes(start, p + m, n), c)
      ensures Wrote(a, at, KeyBytes(start, p, m + n), c)
    {
      hide KeyBytes;
      hide Wrote;
      WroteTwice(a, at, KeyBytes(start, p, m), b, KeyBytes(start, p + m, n), c);
      KeyBytesSplit(start, p, m, n);
    }

    // The part of Crypt after the buffer is used up.
    method CryptAligned(m: seq<byte>, out: array<byte>, at: nat)
      requires Valid() && bufleft == 0 && at + |m| <= out.Length && out != buffer
      modifies this, aligned, buffer, out
      ensures Valid() && start == old(start) && Pos() == old(Pos()) + |m|
      ensures Wrote(old(out[..]), at, Masked(start, old(Pos()), m), out[..])
    {
      hide *;
      ghost var before, p := out[..], Pos();
      MaskedNothing(start, p);
      WroteNothing(before, at);
      var whole := |m| / 64 * 64;
      var head, rest := m[..whole], m[whole..];
      if |m| >= 64 {
        CryptWhole(head, out, at);
      }
      assert m == head + rest;
      if |rest| != 0 {
        ghost var mid := out[..];
        var s := Refill(|rest|);
        CopyBytes(out, at + whole, XorBytes(rest, s));
        MaskedIs(start, p + whole, rest, s);
        CryptMore(before, at, start, p, head, mid, rest, out[..]);
      } else {
        assert m == head;
      }
    }

    method Crypt(m: seq<byte>, out: array<byte>, at: nat)
      requires Valid() && at + |m| <= out.Length && out != buffer
      modifies this, aligned, buffer, out
      ensures Valid() && start == old(start) && Pos() == old(Pos()) + |m|
      ensures Wrote(old(out[..]), at, Masked(start, old(Pos()), m), out[..])
    {
      hide *;
      ghost var before, p := out[..], Pos();
      if |m| == 0 {
        MaskedNothing(start, p);
        WroteNothing(before, at);
        return;
      }
      if bufleft != 0 {
        var reuse := if bufleft < |m| then bufleft else |m|;
        var head, rest := m[..reuse], m[reuse..];
        assert m == head + rest;
        var s := Buffered(reuse);
        CopyBytes(out, at, XorBytes(head, s));
        MaskedIs(start, p, head, s);
        if reuse < |m| {
          ghost var mid := out[..];
          CryptAligned(rest, out, at + reuse);
          CryptMore(before, at, start, p, head, mid, rest, out[..]);
        } else {
          assert m == head;
        }
      } else {
        CryptAligned(m, out, at);
      }
    }

    static lemma CryptMore(a: seq<byte>, at: nat, start: Input, p: nat, m: seq<byte>, b: seq<byte>, n: seq<byte>,
                           c: seq<byte>)
      requires Wrote(a, at, Masked(start, p, m), b) && Wrote(b, at + |m|, Masked(start, p + |m|, n), c)
      ensures Wrote(a, at, Masked(start, p, m + n), c)
    {
      hide Masked;
      hide Wrote;
      WroteTwice(a, at, Masked(start, p, m), b, Masked(start, p + |m|, n), c);
      MaskedConcat(start, p, m, n);
    }
  }

  // ---- whole runs ----

  datatype Call = CryptCall(input: seq<byte>) | KeystreamCall(n: nat)

  // What a call combines with the keystream; Keystream hands it out bare.
  function CallInput(c: Call): seq<byte> {
    match c
    case CryptCall(m) => m
    case KeystreamCall(n) => Zeros(n)
  }

  function CallInputs(calls: seq<Call>): seq<byte> {
    if calls == [] then [] else CallInputs(calls[..|calls| - 1]) + CallInput(calls[|calls| - 1])
  }

  lemma BareKeystream(start: Input, p: nat, n: nat)
    ensures Masked(start, p, Zeros(n)) == KeyBytes(start, p, n)
  {
    hide KeyBytes;
    XorBytesZeros(KeyBytes(start, p, n));
  }

  // One Crypt or Keystream call into a fresh span.
  method Perform(cipher: ChaCha20, c: Call) returns (output: seq<byte>)
    requires cipher.Valid()
    modifies cipher.Footprint()
    ensures cipher.Valid() && cipher.start == old(cipher.start)
    ensures cipher.Pos() == old(cipher.Pos()) + |CallInput(c)|
    ensures output == Masked(cipher.start, old(cipher.Pos()), CallInput(c))
  {
    hide Masked;
    hide KeyBytes;
    hide ChaCha20.Valid;
    hide Wrote;
    ghost var start, p := cipher.start, cipher.Pos();
    match c
    case CryptCall(m) =>
      var out := new byte[|m|];
      ghost var before := out[..];
      cipher.Crypt(m, out, 0);
      WroteAll(before, Masked(start, p, m), out[..]);
      output := out[..];
    case KeystreamCall(n) =>
      var out := new byte[n];
      ghost var before := out[..];
      cipher.Keystream(out, 0, n);
      BareKeystream(start, p, n);
      WroteAll(before, KeyBytes(start, p, n), out[..]);
      output := out[..];
  }

  // Any sequence of calls of any lengths is one pass over one contiguous keystream.
  method PerformAll(cipher: ChaCha20, calls: seq<Call>) returns (output: seq<byte>)
    requires cipher.Valid()
    modifies cipher.Footprint()
    ensures cipher.Valid() && cipher.start == old(cipher.start)
    ensures cipher.Pos() == old(cipher.Pos()) + |CallInputs(calls)|
    ensures output == Masked(cipher.start, old(cipher.Pos()), CallInputs(calls))
  {
    hide Masked;
    hide KeyBytes;
    hide ChaCha20.Valid;
    hide CallInput;
    output := [];
    ghost var start, p := cipher.start, cipher.Pos();
    MaskedNothing(start, p);
    for i := 0 to |calls|
      invariant cipher.Valid() && cipher.start == start
      invariant cipher.Pos() == p + |CallInputs(calls[..i])|
      invariant output == Masked(start, p, CallInputs(calls[..i]))
    {
      assert calls[..i + 1][..i] == calls[..i];
      MaskedConcat(start, p, CallInputs(calls[..i]), CallInput(calls[i]));
      var s := Perform(cipher, calls[i]);
      output := output + s;
    }
    assert calls[..|calls|] == calls;
  }
}
