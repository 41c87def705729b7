// Poly1305 (section 2.5 of RFC 8439): the one-time authenticator as a
// polynomial over the integers modulo 2^130 - 5.
module Poly1305Spec {
  import opened Bits

  const P: nat := 0x3_ffff_ffff_ffff_ffff_ffff_ffff_ffff_fffb // 2^130 - 5
  const CLAMP: nat := 0x0fff_fffc_0fff_fffc_0fff_fffc_0fff_ffff
  const TWO128: nat := 0x1_0000_0000_0000_0000_0000_0000_0000_0000

  function Step(acc: nat, r: nat, v: nat): nat {
    (acc + v) * r % P
  }

  // Evaluation over the whole 16-byte blocks of m, each block's value raised by
  // `hi`; fewer than 16 remaining bytes are left alone.
  function Horner(acc: nat, r: nat, hi: nat, m: seq<byte>): nat
    decreases |m|
  {
    if |m| < 16 then acc else Horner(Step(acc, r, LE(m[..16]) + hi), r, hi, m[16..])
  }

  // Evaluation over a whole message: every chunk of at most 16 bytes is read as
  // a little-endian number with one extra 1 bit beyond its last byte.
  function Absorb(acc: nat, r: nat, m: seq<byte>): nat
    decreases |m|
  {
    if m == [] then acc
    else
      var n := if |m| < 16 then |m| else 16;
      Absorb(Step(acc, r, LE(m[..n] + [1])), r, m[n..])
  }

  function Tag(key: seq<byte>, m: seq<byte>): (tag: seq<byte>)
    requires |key| == 32
    ensures |tag| == 16
  {
    var r := And(LE(key[..16]), CLAMP);
    ToLE((Absorb(0, r, m) + LE(key[16..])) % TWO128, 16)
  }

  // ---- the polynomial, written out ----

  function Power(r: nat, k: nat): nat {
    if k == 0 then 1 else r * Power(r, k - 1)
  }

  // The number of chunks, the last one possibly short.
  function Chunks(m: seq<byte>): nat {
    (|m| + 15) / 16
  }

  // c_i * r^(q - i) for the chunks from i on, counted from 0, where q is their number.
  function Terms(r: nat, m: seq<byte>, i: nat): nat
    requires i <= Chunks(m)
    decreases Chunks(m) - i
  {
    if i == Chunks(m) then 0
    else
      var end := if 16 * i + 16 < |m| then 16 * i + 16 else |m|;
      LE(m[16 * i..end] + [1]) * Power(r, Chunks(m) - i) + Terms(r, m, i + 1)
  }

  lemma ModFactor(x: nat, y: nat)
    ensures (x % P) * y % P == x * y % P
  {
    var q, a := x / P, x % P;
    assert x * y == P * (q * y) + a * y by {
      assert x == P * q + a;
      assert (P * q + a) * y == (P * q) * y + a * y;
      assert (P * q) * y == P * (q * y);
    }
    ModSum(q * y, a * y);
  }

  lemma ModSum(k: nat, y: nat)
    ensures (P * k + y) % P == y % P
  {}

  lemma ModPlus(x: nat, y: nat, z: nat)
    requires x % P == y % P
    ensures (x + z) % P == (y + z) % P
  {
    assert x == P * (x / P) + x % P && y == P * (y / P) + y % P;
    ModSum(x / P, x % P + z);
    ModSum(y / P, y % P + z);
  }

  // One Horner step among the terms.
  lemma StepTerms(acc: nat, c: nat, r: nat, k: nat, rest: nat)
    ensures (Step(acc, r, c) * Power(r, k) + rest) % P
         == (acc * Power(r, k + 1) + (c * Power(r, k + 1) + rest)) % P
  {
    var p, p' := Power(r, k), Power(r, k + 1);
    assert p' == r * p;
    hide *;
    Distribute(acc, c, r, p);
    ModFactor((acc + c) * r, p);
    StepIs(acc, r, c);
    ModPlus(Step(acc, r, c) * p, acc * p' + c * p', rest);
  }

  lemma StepIs(acc: nat, r: nat, v: nat)
    ensures Step(acc, r, v) == (acc + v) * r % P
  {}

  lemma Distribute(a: nat, c: nat, r: nat, p: nat)
    ensures (a + c) * r * p == a * (r * p) + c * (r * p)
  {
    assert (a + c) * r * p == (a + c) * (r * p);
  }

  lemma {:induction false} AbsorbTerms(acc: nat, r: nat, m: seq<byte>, i: nat)
    requires i <= Chunks(m) && 16 * i <= |m| + 15
    ensures var rest := if 16 * i < |m| then m[16 * i..] else [];
      Absorb(acc, r, rest) % P == (acc * Power(r, Chunks(m) - i) + Terms(r, m, i)) % P
    decreases Chunks(m) - i
  {
    hide Step;
    hide LE;
    if i < Chunks(m) {
      var rest := m[16 * i..];
      var n := if |rest| < 16 then |rest| else 16;
      var c := LE(rest[..n] + [1]);
      assert rest[..n] == m[16 * i..16 * i + n];
      assert rest[n..] == if 16 * (i + 1) < |m| then m[16 * (i + 1)..] else [];
      AbsorbTerms(Step(acc, r, c), r, m, i + 1);
      StepTerms(acc, c, r, Chunks(m) - (i + 1), Terms(r, m, i + 1));
    }
  }

  lemma {:induction false} AbsorbBelow(acc: nat, r: nat, m: seq<byte>)
    requires acc < P
    ensures Absorb(acc, r, m) < P
    decreases |m|
  {
    if m != [] {
      var n := if |m| < 16 then |m| else 16;
      AbsorbBelow(Step(acc, r, LE(m[..n] + [1])), r, m[n..]);
    }
  }

  // The accumulator over q chunks is c_1 r^q + ... + c_q r modulo 2^130 - 5, each c the
  // little-endian value of its chunk with a 1 byte behind it; nothing at all for q = 0.
  lemma AbsorbIsPolynomial(r: nat, m: seq<byte>)
    ensures Absorb(0, r, m) == Terms(r, m, 0) % P
  {
    hide Absorb;
    hide Terms;
    AbsorbTerms(0, r, m, 0);
    AbsorbBelow(0, r, m);
    assert 0 * Power(r, Chunks(m)) == 0;
    assert m != [] ==> m[0..] == m;
  }

  // Section 2.5 of RFC 8439 from the bytes of the key on.
  lemma TagIsPolynomial(key: seq<byte>, m: seq<byte>)
    requires |key| == 32
    ensures var r := And(LE(key[..16]), 0x0fff_fffc_0fff_fffc_0fff_fffc_0fff_ffff);
      Tag(key, m) == ToLE(Terms(r, m, 0) % 0x3_ffff_ffff_ffff_ffff_ffff_ffff_ffff_fffb + LE(key[16..]), 16)
  {
    var r := And(LE(key[..16]), CLAMP);
    AbsorbIsPolynomial(r, m);
    hide *;
    LowBytes(Terms(r, m, 0) % P + LE(key[16..]));
  }

  // The authenticator of the empty message is the second half of the key.
  lemma TagOfNothing(key: seq<byte>)
    requires |key| == 32
    ensures Tag(key, []) == key[16..]
  {
    NoTerms(And(LE(key[..16]), CLAMP));
    TagIsPolynomial(key, []);
    ToLERoundTrip(key[16..]);
    hide *;
  }

  lemma NoTerms(r: nat)
    ensures Terms(r, [], 0) % P == 0
  {}

  // Only the low bytes are written.
  lemma LowBytes(n: nat)
    ensures ToLE(n % TWO128, 16) == ToLE(n, 16)
  {
    Pow256Values();
    ToLEModulo(n, 16);
  }

  lemma {:induction false} HornerConcat(acc: nat, r: nat, hi: nat, a: seq<byte>, b: seq<byte>)
    requires |a| % 16 == 0
    ensures Horner(acc, r, hi, a + b) == Horner(Horner(acc, r, hi, a), r, hi, b)
    decreases |a|
  {
    if a == [] {
      assert a + b == b;
    } else {
      assert (a + b)[..16] == a[..16] && (a + b)[16..] == a[16..] + b;
      HornerConcat(Step(acc, r, LE(a[..16]) + hi), r, hi, a[16..], b);
    }
  }

  lemma ExtraBit(m: seq<byte>)
    requires |m| == 16
    ensures LE(m + [1]) == LE(m) + TWO128
  {
    LEConcat(m, [1]);
    Pow256Values();
    assert LE([1]) == 1;
  }

  // Whole blocks absorb as Horner steps with the extra bit at 2^128.
  lemma {:induction false} AbsorbBlocks(acc: nat, r: nat, a: seq<byte>, b: seq<byte>)
    requires |a| % 16 == 0
    ensures Absorb(acc, r, a + b) == Absorb(Horner(acc, r, TWO128, a), r, b)
    decreases |a|
  {
    hide Step;
    if a == [] {
      assert a + b == b;
    } else {
      assert (a + b)[..16] == a[..16] && (a + b)[16..] == a[16..] + b;
      ExtraBit(a[..16]);
      AbsorbBlocks(Step(acc, r, LE(a[..16]) + TWO128), r, a[16..], b);
    }
  }

  // A short last chunk equals one block padded by 1 and zeros, without the bit at 2^128.
  lemma AbsorbTail(acc: nat, r: nat, t: seq<byte>, block: seq<byte>)
    requires 0 < |t| < 16 && |block| == 16
    requires block[..|t|] == t && block[|t|] == 1
    requires forall i :: |t| < i < 16 ==> block[i] == 0
    ensures Absorb(acc, r, t) == Horner(acc, r, 0, block)
  {
    var zeros := block[|t| + 1..];
    assert block == (t + [1]) + zeros && t[..|t|] == t && t[|t|..] == [] && block[..16] == block;
    LEConcat(t + [1], zeros);
    LEZeros(zeros);
  }
}

// src/crypto/poly1305.cpp, the arithmetic: 26-bit limbs on 32/64-bit words.
module Poly1305Limbs {
  import opened Bits
  import opened Poly1305Spec

  datatype Limbs = Limbs(l0: u32, l1: u32, l2: u32, l3: u32, l4: u32)

  function Sum26(a: int, b: int, c: int, d: int, e: int): int {
    a + 0x400_0000 * b + 0x10_0000_0000_0000 * c + 0x4000_0000_0000_0000_0000 * d
    + 0x100_0000_0000_0000_0000_0000_0000 * e
  }

  function Sum32(a: nat, b: nat, c: nat, d: nat): nat {
    a + 0x1_0000_0000 * b + 0x1_0000_0000_0000_0000 * c + 0x1_0000_0000_0000_0000_0000_0000 * d
  }

  function Value(x: Limbs): nat {
    Sum26(x.l0, x.l1, x.l2, x.l3, x.l4)
  }

  predicate Reduced(x: Limbs) {
    x.l0 < 0x400_0000 && x.l1 < 0x400_0000 && x.l2 < 0x400_0000 && x.l3 < 0x400_0000 && x.l4 < 0x400_0000
  }

  // What the block loop keeps: only the second limb may exceed 26 bits, by less than 64.
  predicate NearlyReduced(x: Limbs) {
    x.l0 < 0x400_0000 && x.l1 < 0x400_0040 && x.l2 < 0x400_0000 && x.l3 < 0x400_0000 && x.l4 < 0x400_0000
  }

  // ---- words and limbs ----

  // The mask of one limb.
  function Mask26(x: nat): (m: nat)
    ensures m == x % 0x400_0000
  {
    Pow2Values();
    ShlIsMul(x / 0x400_0000, 26);
    AndMask(26, x % 0x400_0000, x / 0x400_0000);
    And(x, 0x3ff_ffff)
  }

  // Digit k of n in base 2^26; the fifth is all that is left.
  function Digit(n: nat, k: nat): nat
    requires k < 5
  {
    match k
    case 0 => n % 0x400_0000
    case 1 => n / 0x400_0000 % 0x400_0000
    case 2 => n / 0x10_0000_0000_0000 % 0x400_0000
    case 3 => n / 0x4000_0000_0000_0000_0000 % 0x400_0000
    case _ => n / 0x100_0000_0000_0000_0000_0000_0000
  }

  lemma Recompose(n: nat)
    ensures n == Sum26(Digit(n, 0), Digit(n, 1), Digit(n, 2), Digit(n, 3), Digit(n, 4))
  {
    assert n / 0x10_0000_0000_0000 == n / 0x400_0000 / 0x400_0000;
    assert n / 0x4000_0000_0000_0000_0000 == n / 0x10_0000_0000_0000 / 0x400_0000;
    assert n / 0x100_0000_0000_0000_0000_0000_0000 == n / 0x4000_0000_0000_0000_0000 / 0x400_0000;
  }

  // Bits above 2^32 do not reach a digit read at most 6 bits up.
  lemma CutHigh(q: nat, s: nat)
    requires s == 4 || s == 16 || s == 64
    ensures q % 0x1_0000_0000 / s % 0x400_0000 == q / s % 0x400_0000
  {
    var a, b := q / 0x1_0000_0000, q % 0x1_0000_0000;
    if s == 4 {
      ShiftBy2(a, b);
      AddMultiple(b / 4, 16 * a);
    } else if s == 16 {
      ShiftBy4(a, b);
      AddMultiple(b / 16, 4 * a);
    } else {
      ShiftBy6(a, b);
      AddMultiple(b / 64, a);
    }
  }

  lemma AddMultiple(y: nat, k: nat)
    ensures (0x400_0000 * k + y) % 0x400_0000 == y % 0x400_0000
  {}

  lemma ShiftBy2(a: nat, b: nat)
    ensures (0x1_0000_0000 * a + b) / 4 == 0x400_0000 * (16 * a) + b / 4
  {}

  lemma ShiftBy4(a: nat, b: nat)
    ensures (0x1_0000_0000 * a + b) / 16 == 0x400_0000 * (4 * a) + b / 16
  {}

  lemma ShiftBy6(a: nat, b: nat)
    ensures (0x1_0000_0000 * a + b) / 64 == 0x400_0000 * a + b / 64
  {}

  // The windows of n at bits 24, 48, 72 and 96 start 2, 4, 6 and 8 bits below a digit.
  lemma Slice0(n: nat)
    ensures n / 1 % 0x1_0000_0000 % 0x400_0000 == Digit(n, 0)
  {
    CutAt32(n / 0x1_0000_0000, n % 0x1_0000_0000);
  }

  lemma CutAt32(a: nat, b: nat)
    ensures (0x1_0000_0000 * a + b) % 0x400_0000 == b % 0x400_0000
  {
    AddMultiple(b, 64 * a);
  }

  lemma Slice1(n: nat)
    ensures n / 0x100_0000 % 0x1_0000_0000 / 4 % 0x400_0000 == Digit(n, 1)
  {
    assert n / 0x100_0000 / 4 == n / 0x400_0000;
    CutHigh(n / 0x100_0000, 4);
  }

  lemma Slice2(n: nat)
    ensures n / 0x1_0000_0000_0000 % 0x1_0000_0000 / 16 % 0x400_0000 == Digit(n, 2)
  {
    assert n / 0x1_0000_0000_0000 / 16 == n / 0x10_0000_0000_0000;
    CutHigh(n / 0x1_0000_0000_0000, 16);
  }

  lemma Slice3(n: nat)
    ensures n / 0x100_0000_0000_0000_0000 % 0x1_0000_0000 / 64 % 0x400_0000 == Digit(n, 3)
  {
    assert n / 0x100_0000_0000_0000_0000 / 64 == n / 0x4000_0000_0000_0000_0000;
    CutHigh(n / 0x100_0000_0000_0000_0000, 64);
  }

  lemma Slice4(n: nat)
    requires n < TWO128
    ensures n / 0x1_0000_0000_0000_0000_0000_0000 % 0x1_0000_0000 / 0x100 == Digit(n, 4)
  {
    assert n / 0x1_0000_0000_0000_0000_0000_0000 % 0x1_0000_0000 == n / 0x1_0000_0000_0000_0000_0000_0000;
  }

  lemma LoadedDigit0(m: seq<byte>)
    requires |m| == 16
    ensures Load32(m, 0) % 0x400_0000 == Digit(LE(m), 0)
  {
    LEWindow(m, 0, 4);
    Pow256Values();
    Slice0(LE(m));
  }

  lemma LoadedDigit1(m: seq<byte>)
    requires |m| == 16
    ensures Load32(m, 3) / 4 % 0x400_0000 == Digit(LE(m), 1)
  {
    LEWindow(m, 3, 4);
    Pow256Values();
    Slice1(LE(m));
  }

  lemma LoadedDigit2(m: seq<byte>)
    requires |m| == 16
    ensures Load32(m, 6) / 16 % 0x400_0000 == Digit(LE(m), 2)
  {
    LEWindow(m, 6, 4);
    Pow256Values();
    Slice2(LE(m));
  }

  lemma LoadedDigit3(m: seq<byte>)
    requires |m| == 16
    ensures Load32(m, 9) / 64 % 0x400_0000 == Digit(LE(m), 3)
  {
    LEWindow(m, 9, 4);
    Pow256Values();
    Slice3(LE(m));
  }

  lemma LoadedDigit4(m: seq<byte>)
    requires |m| == 16
    ensures Load32(m, 12) / 0x100 == Digit(LE(m), 4)
  {
    LEBound(m);
    Pow256Values();
    LEWindow(m, 12, 4);
    Slice4(LE(m));
  }

  // The five overlapping 32-bit loads at offsets 0, 3, 6, 9 and 12 of a 16-byte
  // string, shifted and cut to 26 bits, are the digits of its value.
  lemma LoadedDigits(m: seq<byte>)
    requires |m| == 16
    ensures LE(m) == Sum26(Load32(m, 0) % 0x400_0000, Load32(m, 3) / 4 % 0x400_0000, Load32(m, 6) / 16 % 0x400_0000,
                           Load32(m, 9) / 64 % 0x400_0000, Load32(m, 12) / 0x100)
  {
    hide Digit;
    hide LE;
    LoadedDigit0(m);
    LoadedDigit1(m);
    LoadedDigit2(m);
    LoadedDigit3(m);
    LoadedDigit4(m);
    Recompose(LE(m));
  }

  // The upper half of the key, read as four words.
  lemma PadWords(key: seq<byte>)
    requires |key| == 32
    ensures LE(key[16..]) == Sum32(Load32(key, 16), Load32(key, 20), Load32(key, 24), Load32(key, 28))
  {
    hide LE;
    Pow256Values();
    assert key[16..] == key[16..20] + (key[20..24] + (key[24..28] + key[28..32]));
    LEConcat(key[16..20], key[20..24] + (key[24..28] + key[28..32]));
    LEConcat(key[20..24], key[24..28] + key[28..32]);
    LEConcat(key[24..28], key[28..32]);
  }

  // ---- one multiplication modulo P ----

  lemma ScaleLeft(x: int, a: int, b: int, c: int, d: int, e: int)
    ensures x * Sum26(a, b, c, d, e) == Sum26(x * a, x * b, x * c, x * d, x * e)
  {}

  lemma ScaleRight(x: int, a: int, b: int, c: int, d: int, e: int)
    ensures Sum26(a, b, c, d, e) * x == Sum26(a * x, b * x, c * x, d * x, e * x)
  {}

  // Products at 2^130 and above come back at weight 5 * 2^(-130).
  lemma FoldRows(p00: int, p01: int, p02: int, p03: int, p04: int,
                 p10: int, p11: int, p12: int, p13: int, p14: int,
                 p20: int, p21: int, p22: int, p23: int, p24: int,
                 p30: int, p31: int, p32: int, p33: int, p34: int,
                 p40: int, p41: int, p42: int, p43: int, p44: int)
    ensures Sum26(Sum26(p00, p01, p02, p03, p04), Sum26(p10, p11, p12, p13, p14), Sum26(p20, p21, p22, p23, p24),
                  Sum26(p30, p31, p32, p33, p34), Sum26(p40, p41, p42, p43, p44))
         == P * Sum26(p14 + p23 + p32 + p41, p24 + p33 + p42, p34 + p43, p44, 0)
            + Sum26(p00 + 5 * (p14 + p23 + p32 + p41), p01 + p10 + 5 * (p24 + p33 + p42),
                    p02 + p11 + p20 + 5 * (p34 + p43), p03 + p12 + p21 + p30 + 5 * p44,
                    p04 + p13 + p22 + p31 + p40)
  {}

  function Overflow(h: Limbs, r: Limbs): int {
    Sum26(h.l1 * r.l4 + h.l2 * r.l3 + h.l3 * r.l2 + h.l4 * r.l1, h.l2 * r.l4 + h.l3 * r.l3 + h.l4 * r.l2,
          h.l3 * r.l4 + h.l4 * r.l3, h.l4 * r.l4, 0)
  }

  lemma Rows(h: Limbs, r: Limbs)
    ensures Value(h) * Value(r)
         == Sum26(Sum26(h.l0 * r.l0, h.l0 * r.l1, h.l0 * r.l2, h.l0 * r.l3, h.l0 * r.l4),
                  Sum26(h.l1 * r.l0, h.l1 * r.l1, h.l1 * r.l2, h.l1 * r.l3, h.l1 * r.l4),
                  Sum26(h.l2 * r.l0, h.l2 * r.l1, h.l2 * r.l2, h.l2 * r.l3, h.l2 * r.l4),
                  Sum26(h.l3 * r.l0, h.l3 * r.l1, h.l3 * r.l2, h.l3 * r.l3, h.l3 * r.l4),
                  Sum26(h.l4 * r.l0, h.l4 * r.l1, h.l4 * r.l2, h.l4 * r.l3, h.l4 * r.l4))
  {
    ScaleRight(Value(r), h.l0, h.l1, h.l2, h.l3, h.l4);
    ScaleLeft(h.l0, r.l0, r.l1, r.l2, r.l3, r.l4);
    ScaleLeft(h.l1, r.l0, r.l1, r.l2, r.l3, r.l4);
    ScaleLeft(h.l2, r.l0, r.l1, r.l2, r.l3, r.l4);
    ScaleLeft(h.l3, r.l0, r.l1, r.l2, r.l3, r.l4);
    ScaleLeft(h.l4, r.l0, r.l1, r.l2, r.l3, r.l4);
  }

  lemma TimesFive(h: int, r: int)
    ensures h * (r * 5) == 5 * (h * r)
  {}

  lemma Product(h: Limbs, r: Limbs)
    ensures Value(h) * Value(r) == P * Overflow(h, r) + Sum26(
      h.l0 * r.l0 + h.l1 * (r.l4 * 5) + h.l2 * (r.l3 * 5) + h.l3 * (r.l2 * 5) + h.l4 * (r.l1 * 5),
      h.l0 * r.l1 + h.l1 * r.l0 + h.l2 * (r.l4 * 5) + h.l3 * (r.l3 * 5) + h.l4 * (r.l2 * 5),
      h.l0 * r.l2 + h.l1 * r.l1 + h.l2 * r.l0 + h.l3 * (r.l4 * 5) + h.l4 * (r.l3 * 5),
      h.l0 * r.l3 + h.l1 * r.l2 + h.l2 * r.l1 + h.l3 * r.l0 + h.l4 * (r.l4 * 5),
      h.l0 * r.l4 + h.l1 * r.l3 + h.l2 * r.l2 + h.l3 * r.l1 + h.l4 * r.l0)
  {
    Rows(h, r);
    FoldRows(h.l0 * r.l0, h.l0 * r.l1, h.l0 * r.l2, h.l0 * r.l3, h.l0 * r.l4,
             h.l1 * r.l0, h.l1 * r.l1, h.l1 * r.l2, h.l1 * r.l3, h.l1 * r.l4,
             h.l2 * r.l0, h.l2 * r.l1, h.l2 * r.l2, h.l2 * r.l3, h.l2 * r.l4,
             h.l3 * r.l0, h.l3 * r.l1, h.l3 * r.l2, h.l3 * r.l3, h.l3 * r.l4,
             h.l4 * r.l0, h.l4 * r.l1, h.l4 * r.l2, h.l4 * r.l3, h.l4 * r.l4);
    TimesFive(h.l1, r.l4);
    TimesFive(h.l2, r.l3);
    TimesFive(h.l3, r.l2);
    TimesFive(h.l4, r.l1);
    TimesFive(h.l2, r.l4);
    TimesFive(h.l3, r.l3);
    TimesFive(h.l4, r.l2);
    TimesFive(h.l3, r.l4);
    TimesFive(h.l4, r.l3);
    TimesFive(h.l4, r.l4);
  }

  // The partial reduction: a carry chain through all limbs, the top carry
  // re-entering at the bottom times five.
  lemma CarryChain(d0: int, d1: int, d2: int, d3: int, d4: int,
                   e1: int, e2: int, e3: int, e4: int, c: int, x: int)
    requires e1 == d1 + d0 / 0x400_0000
    requires e2 == d2 + e1 / 0x400_0000
    requires e3 == d3 + e2 / 0x400_0000
    requires e4 == d4 + e3 / 0x400_0000
    requires c == e4 / 0x400_0000
    requires x == d0 % 0x400_0000 + c * 5
    ensures Sum26(d0, d1, d2, d3, d4) == P * c
            + Sum26(x % 0x400_0000, e1 % 0x400_0000 + x / 0x400_0000, e2 % 0x400_0000, e3 % 0x400_0000, e4 % 0x400_0000)
  {}

  lemma ProductBound(a: nat, b: nat, m: nat, n: nat)
    requires a <= m && b <= n
    ensures 0 <= a * b <= m * n
  {
    assert a * b <= a * n by { assert a * (n - b) >= 0; }
    assert a * n <= m * n by { assert (m - a) * n >= 0; }
  }

  // A five-term product sum of nearly reduced limbs plus a block, scaled by at most 5.
  lemma DotBound(x0: nat, y0: nat, x1: nat, y1: nat, x2: nat, y2: nat, x3: nat, y3: nat, x4: nat, y4: nat, n: nat)
    requires x0 <= 0x800_0040 && x1 <= 0x800_0040 && x2 <= 0x800_0040 && x3 <= 0x800_0040 && x4 <= 0x800_0040
    requires y0 <= n && y1 <= n && y2 <= n && y3 <= n && y4 <= n
    ensures 0 <= x0 * y0 + x1 * y1 + x2 * y2 + x3 * y3 + x4 * y4 <= 0x2800_0140 * n
  {
    ProductBound(x0, y0, 0x800_0040, n);
    ProductBound(x1, y1, 0x800_0040, n);
    ProductBound(x2, y2, 0x800_0040, n);
    ProductBound(x3, y3, 0x800_0040, n);
    ProductBound(x4, y4, 0x800_0040, n);
  }

  // A step only depends on the accumulator modulo P.
  lemma StepCongruent(h: nat, v: nat, r: nat)
    ensures (h + v) * r % P == Step(h % P, r, v)
  {
    var q, a := h / P, h % P;
    assert h + v == P * q + (a + v);
    assert (P * q + (a + v)) * r == P * (q * r) + (a + v) * r by {
      assert (P * q + (a + v)) * r == (P * q) * r + (a + v) * r;
      assert (P * q) * r == P * (q * r);
    }
    ModShift((h + v) * r, (a + v) * r, q * r);
  }

  lemma ModShift(x: int, y: int, k: int)
    requires x == y + P * k
    ensures x % P == y % P
  {}

  // ---- the clamped multiplier ----

  lemma AndDigitwise(d: nat, x: nat, m: nat, y: nat)
    requires d < 0x400_0000 && m < 0x400_0000
    ensures And(d + 0x400_0000 * x, m + 0x400_0000 * y) == And(d, m) + 0x400_0000 * And(x, y)
  {
    Pow2Values();
    ShlIsMul(x, 26);
    ShlIsMul(y, 26);
    ShlIsMul(And(x, y), 26);
    AndSplit(26, d, x, m, y);
  }

  // A mask of at most 26 bits only sees the low digit, and bounds the result.
  lemma AndLimb(x: nat, m: nat)
    requires m < 0x400_0000
    ensures And(x, m) == And(x % 0x400_0000, m) <= m
  {
    AndDigitwise(x % 0x400_0000, x / 0x400_0000, m, 0);
    AndZero(x / 0x400_0000);
    AndBound(x, m);
  }

  lemma AndDigits(a: nat, b: nat, c: nat, d: nat, e: nat)
    requires a < 0x400_0000 && b < 0x400_0000 && c < 0x400_0000 && d < 0x400_0000
    ensures And(Sum26(a, b, c, d, e), CLAMP)
         == Sum26(And(a, 0x3ff_ffff), And(b, 0x3ff_ff03), And(c, 0x3ff_c0ff), And(d, 0x3f0_3fff), And(e, 0xf_ffff))
  {
    hide And;
    AndDigitwise(d, e, 0x3f0_3fff, 0xf_ffff);
    AndDigitwise(c, d + 0x400_0000 * e, 0x3ff_c0ff, 0x3f0_3fff + 0x400_0000 * 0xf_ffff);
    AndDigitwise(b, c + 0x400_0000 * (d + 0x400_0000 * e), 0x3ff_ff03,
                 0x3ff_c0ff + 0x400_0000 * (0x3f0_3fff + 0x400_0000 * 0xf_ffff));
    AndDigitwise(a, b + 0x400_0000 * (c + 0x400_0000 * (d + 0x400_0000 * e)), 0x3ff_ffff,
                 0x3ff_ff03 + 0x400_0000 * (0x3ff_c0ff + 0x400_0000 * (0x3f0_3fff + 0x400_0000 * 0xf_ffff)));
  }

  function ClampedLimbs(k: seq<byte>): (r: Limbs)
    requires |k| >= 16
    ensures Reduced(r)
  {
    AndLimb(Load32(k, 0), 0x3ff_ffff);
    AndLimb(Load32(k, 3) / 4, 0x3ff_ff03);
    AndLimb(Load32(k, 6) / 16, 0x3ff_c0ff);
    AndLimb(Load32(k, 9) / 64, 0x3f0_3fff);
    AndLimb(Load32(k, 12) / 0x100, 0xf_ffff);
    Limbs(And(Load32(k, 0), 0x3ff_ffff), And(Load32(k, 3) / 4, 0x3ff_ff03), And(Load32(k, 6) / 16, 0x3ff_c0ff),
          And(Load32(k, 9) / 64, 0x3f0_3fff), And(Load32(k, 12) / 0x100, 0xf_ffff))
  }

  // poly1305_init masks each limb by its part of the 128-bit clamp of the RFC.
  lemma ClampIsRfc(k: seq<byte>)
    requires |k| == 16
    ensures Value(ClampedLimbs(k)) == And(LE(k), CLAMP)
  {
    hide And;
    hide LE;
    LoadedDigits(k);
    AndDigits(Load32(k, 0) % 0x400_0000, Load32(k, 3) / 4 % 0x400_0000, Load32(k, 6) / 16 % 0x400_0000,
              Load32(k, 9) / 64 % 0x400_0000, Load32(k, 12) / 0x100);
    AndLimb(Load32(k, 0), 0x3ff_ffff);
    AndLimb(Load32(k, 3) / 4, 0x3ff_ff03);
    AndLimb(Load32(k, 6) / 16, 0x3ff_c0ff);
    AndLimb(Load32(k, 9) / 64, 0x3f0_3fff);
  }

  // ---- one iteration of the block loop ----

  // The top 24 bits of a block, with the bit above them.
  function LoadTop(m: seq<byte>, hibit: u32): (x: u32)
    requires |m| == 16
    requires hibit == 0 || hibit == 0x100_0000
    ensures x == Load32(m, 12) / 0x100 + hibit <= 0x1ff_ffff
  {
    var w := Load32(m, 12) / 0x100;
    Pow2Values();
    hide Or;
    hide Shl;
    hide Pow2;
    ShlIsMul(hibit / 0x100_0000, 24);
    OrDisjoint(24, w, hibit / 0x100_0000);
    Or(w, hibit)
  }

  // The low limb of a 64-bit sum: cut to a word, then masked.
  function LowLimb(d: u64): (x: u32)
    ensures x == d % 0x400_0000
  {
    hide And;
    CutAt32(d / 0x1_0000_0000, d % 0x1_0000_0000);
    Mask26(d % 0x1_0000_0000)
  }

  // The carry chain on words; `top` is what leaves the top limb.
  method Carry(p0: u64, p1: u64, p2: u64, p3: u64, p4: u64) returns (h': Limbs, ghost top: nat)
    requires p0 <= 0x2800_0140 * 0x13ff_fffb && p1 <= 0x2800_0140 * 0x13ff_fffb && p2 <= 0x2800_0140 * 0x13ff_fffb
    requires p3 <= 0x2800_0140 * 0x13ff_fffb && p4 <= 0x2800_0140 * 0x3ff_ffff
    ensures NearlyReduced(h')
    ensures Sum26(p0, p1, p2, p3, p4) == P * top + Value(h')
  {
    hide Mask26;
    hide LowLimb;
    hide Sum26;
    var h0: u32, h1: u32, h2: u32, h3: u32, h4: u32;
    var d0, d1, d2, d3, d4 := p0, p1, p2, p3, p4;
    var c: u32 := d0 / 0x400_0000;
    h0 := LowLimb(d0);
    d1 := d1 + c;
    c := d1 / 0x400_0000;
    h1 := LowLimb(d1);
    d2 := d2 + c;
    c := d2 / 0x400_0000;
    h2 := LowLimb(d2);
    d3 := d3 + c;
    c := d3 / 0x400_0000;
    h3 := LowLimb(d3);
    d4 := d4 + c;
    c := d4 / 0x400_0000;
    h4 := LowLimb(d4);
    top := c;
    h0 := h0 + c * 5;
    CarryChain(p0, p1, p2, p3, p4, d1, d2, d3, d4, c, h0);
    c := h0 / 0x400_0000;
    h0 := Mask26(h0);
    h1 := h1 + c;
    h' := Limbs(h0, h1, h2, h3, h4);
  }

  // h * r with the partial reduction; `g` is the accumulator plus one block.
  method MulReduce(g: Limbs, r: Limbs) returns (h': Limbs)
    requires g.l0 <= 0x800_0040 && g.l1 <= 0x800_0040 && g.l2 <= 0x800_0040 && g.l3 <= 0x800_0040 && g.l4 <= 0x800_0040
    requires Reduced(r)
    ensures NearlyReduced(h')
    ensures Value(h') % P == Value(g) * Value(r) % P
  {
    var h0: u32, h1: u32, h2: u32, h3: u32, h4: u32 := g.l0, g.l1, g.l2, g.l3, g.l4;
    var r0: u32, r1: u32, r2: u32, r3: u32, r4: u32 := r.l0, r.l1, r.l2, r.l3, r.l4;
    var s1: u32, s2: u32, s3: u32, s4: u32 := r1 * 5, r2 * 5, r3 * 5, r4 * 5;

    DotBound(h0, r0, h1, s4, h2, s3, h3, s2, h4, s1, 0x13ff_fffb);
    DotBound(h0, r1, h1, r0, h2, s4, h3, s3, h4, s2, 0x13ff_fffb);
    DotBound(h0, r2, h1, r1, h2, r0, h3, s4, h4, s3, 0x13ff_fffb);
    DotBound(h0, r3, h1, r2, h2, r1, h3, r0, h4, s4, 0x13ff_fffb);
    DotBound(h0, r4, h1, r3, h2, r2, h3, r1, h4, r0, 0x3ff_ffff);
    var d0: u64 := h0 * r0 + h1 * s4 + h2 * s3 + h3 * s2 + h4 * s1;
    var d1: u64 := h0 * r1 + h1 * r0 + h2 * s4 + h3 * s3 + h4 * s2;
    var d2: u64 := h0 * r2 + h1 * r1 + h2 * r0 + h3 * s4 + h4 * s3;
    var d3: u64 := h0 * r3 + h1 * r2 + h2 * r1 + h3 * r0 + h4 * s4;
    var d4: u64 := h0 * r4 + h1 * r3 + h2 * r2 + h3 * r1 + h4 * r0;
    hide Overflow;
    hide Sum26;
    hide Value;
    Product(g, r);
    ghost var c;
    h', c := Carry(d0, d1, d2, d3, d4);
    ModShift(Value(g) * Value(r), Value(h'), Overflow(g, r) + c);
  }

  function AddBlock(h: Limbs, m: seq<byte>, hibit: u32): (g: Limbs)
    requires NearlyReduced(h) && |m| == 16
    requires hibit == 0 || hibit == 0x100_0000
    ensures g.l0 <= 0x800_0040 && g.l1 <= 0x800_0040 && g.l2 <= 0x800_0040 && g.l3 <= 0x800_0040 && g.l4 <= 0x800_0040
    ensures Value(g) == Value(h) + LE(m) + 0x100_0000_0000_0000_0000_0000_0000 * hibit
  {
    LoadedDigits(m);
    Limbs(h.l0 + Mask26(Load32(m, 0)), h.l1 + Mask26(Load32(m, 3) / 4), h.l2 + Mask26(Load32(m, 6) / 16),
          h.l3 + Mask26(Load32(m, 9) / 64), h.l4 + LoadTop(m, hibit))
  }

  method Round(h: Limbs, r: Limbs, m: seq<byte>, hibit: u32) returns (h': Limbs)
    requires NearlyReduced(h) && Reduced(r) && |m| == 16
    requires hibit == 0 || hibit == 0x100_0000
    ensures NearlyReduced(h')
    ensures Value(h') % P == Step(Value(h) % P, Value(r), LE(m) + 0x100_0000_0000_0000_0000_0000_0000 * hibit)
  {
    hide *;
    StepCongruent(Value(h), LE(m) + 0x100_0000_0000_0000_0000_0000_0000 * hibit, Value(r));
    var g := AddBlock(h, m, hibit);
    h' := MulReduce(g, r);
  }

  // ---- poly1305_finish ----

  // One carry pass from the second limb up, its end re-entering at the bottom; e2 to
  // e4 and x are the limbs with the carry that reaches them.
  predicate Carried(h: Limbs, h': Limbs, e2: nat, e3: nat, e4: nat, top: nat, x: nat) {
    && e2 == h.l2 + h.l1 / 0x400_0000 && e3 == h.l3 + e2 / 0x400_0000 && e4 == h.l4 + e3 / 0x400_0000
    && top == e4 / 0x400_0000 && x == h.l0 + top * 5
    && h'.l0 == x % 0x400_0000 && h'.l1 == h.l1 % 0x400_0000 + x / 0x400_0000
    && h'.l2 == e2 % 0x400_0000 && h'.l3 == e3 % 0x400_0000 && h'.l4 == e4 % 0x400_0000
  }

  // A single carry pass, entered at the second limb, reaches every limb: only a
  // carry out of the top can disturb the bottom, and then the second limb is tiny.
  method FullCarry(h: Limbs) returns (h': Limbs)
    requires NearlyReduced(h)
    ensures Reduced(h')
    ensures Value(h') % P == Value(h) % P
  {
    hide Mask26;
    hide Value;
    hide Reduced;
    hide NearlyReduced;
    var h0: u32, h1: u32, h2: u32, h3: u32, h4: u32 := h.l0, h.l1, h.l2, h.l3, h.l4;
    CarryBits(h);
    var c: u32 := h1 / 0x400_0000;
    h1 := Mask26(h1);
    h2 := h2 + c;
    ghost var e2 := h2;
    c := h2 / 0x400_0000;
    h2 := Mask26(h2);
    h3 := h3 + c;
    ghost var e3 := h3;
    c := h3 / 0x400_0000;
    h3 := Mask26(h3);
    h4 := h4 + c;
    ghost var e4 := h4;
    c := h4 / 0x400_0000;
    h4 := Mask26(h4);
    ghost var top := c;
    h0 := h0 + c * 5;
    ghost var x := h0;
    c := h0 / 0x400_0000;
    h0 := Mask26(h0);
    h1 := h1 + c;
    h' := Limbs(h0, h1, h2, h3, h4);
    CarriedIsReduced(h, h', e2, e3, e4, top, x);
    CarriedValue(h, h', e2, e3, e4, top, x);
  }

  // No u32 addition of the pass overflows.
  lemma CarryBits(h: Limbs)
    requires NearlyReduced(h)
    ensures h.l0 < 0x400_0000 && h.l1 < 0x400_0040 && h.l2 < 0x400_0000 && h.l3 < 0x400_0000 && h.l4 < 0x400_0000
  {}

  // The value after the pass: the carry out of the top is worth 2^130 = P + 5.
  lemma CarriedValue(h: Limbs, h': Limbs, e2: nat, e3: nat, e4: nat, top: nat, x: nat)
    requires Carried(h, h', e2, e3, e4, top, x)
    ensures Value(h') % P == Value(h) % P
  {
    ModShift(Value(h), Value(h'), top);
  }

  lemma CarryBit(v: nat, c: nat)
    requires v < 0x400_0000 && c <= 1
    ensures (v + c) / 0x400_0000 <= 1
    ensures (v + c) / 0x400_0000 == 1 ==> c == 1
  {}

  lemma SecondLimb(v: nat)
    requires v < 0x400_0040
    ensures v / 0x400_0000 <= 1 && v % 0x400_0000 < 0x400_0000
    ensures v / 0x400_0000 == 1 ==> v % 0x400_0000 < 0x40
  {}

  lemma BottomLimb(v: nat, top: nat)
    requires v < 0x400_0000 && top <= 1
    ensures (v + top * 5) / 0x400_0000 <= top
  {}

  // No second pass is needed: the top carries out only if every limb above the bottom
  // did, and then the second limb is below 64.
  lemma CarriedIsReduced(h: Limbs, h': Limbs, e2: nat, e3: nat, e4: nat, top: nat, x: nat)
    requires NearlyReduced(h) && Carried(h, h', e2, e3, e4, top, x)
    ensures Reduced(h')
  {
    SecondLimb(h.l1);
    CarryBit(h.l2, h.l1 / 0x400_0000);
    CarryBit(h.l3, e2 / 0x400_0000);
    CarryBit(h.l4, e3 / 0x400_0000);
    BottomLimb(h.l0, top);
  }

  // x & mask, and (h & ~mask) | (g & mask), for a mask of all zeros or all ones.
  lemma SelectWord(mask: u32, h: u32, g: u32)
    requires mask == 0 || mask == 0xffff_ffff
    ensures And(h, mask) == if mask == 0 then 0 else h
    ensures Or(And(h, 0xffff_ffff - mask), And(g, mask)) == if mask == 0 then h else g
  {
    Pow2Values();
    AndOnes(32, h);
    AndOnes(32, g);
    AndZero(h);
    AndZero(g);
    OrZero(h);
  }

  // h - p in limbs, with the borrow left as the sign bit of the top word.
  method MinusP(h: Limbs) returns (g: Limbs)
    requires Reduced(h)
    ensures g.l0 < 0x400_0000 && g.l1 < 0x400_0000 && g.l2 < 0x400_0000 && g.l3 < 0x400_0000
    ensures g.l4 < 0x400_0000 || g.l4 >= 0xfc00_0000
    ensures g.l4 < 0x400_0000 <==> Value(h) >= P
    ensures g.l4 < 0x400_0000 ==> Value(g) == Value(h) - P
  {
    hide Mask26;
    hide Sum26;
    var g0: u32, g1: u32, g2: u32, g3: u32, g4: u32;
    g0 := h.l0 + 5;
    ghost var e0 := g0;
    var c: u32 := g0 / 0x400_0000;
    g0 := Mask26(g0);
    g1 := h.l1 + c;
    ghost var e1 := g1;
    c := g1 / 0x400_0000;
    g1 := Mask26(g1);
    g2 := h.l2 + c;
    ghost var e2 := g2;
    c := g2 / 0x400_0000;
    g2 := Mask26(g2);
    g3 := h.l3 + c;
    BorrowChain(h, e0, e1, e2, g3);
    c := g3 / 0x400_0000;
    g3 := Mask26(g3);
    g4 := (h.l4 + c - 0x400_0000) % 0x1_0000_0000;
    g := Limbs(g0, g1, g2, g3, g4);
    Borrow(Value(h) - P, g0, g1, g2, g3, h.l4 + c - 0x400_0000);
    WrapBorrow(h.l4 + c - 0x400_0000);
  }

  lemma WrapBorrow(t: int)
    requires -0x400_0000 <= t <= 0
    ensures t % 0x1_0000_0000 == if t < 0 then 0x1_0000_0000 + t else t
  {}

  lemma Borrow(x: int, a: nat, b: nat, c: nat, d: nat, e: int)
    requires x == Sum26(a, b, c, d, e)
    requires a < 0x400_0000 && b < 0x400_0000 && c < 0x400_0000 && d < 0x400_0000
    ensures x >= 0 <==> e >= 0
  {}

  lemma BorrowChain(h: Limbs, e0: nat, e1: nat, e2: nat, e3: nat)
    requires e0 == h.l0 + 5
    requires e1 == h.l1 + e0 / 0x400_0000
    requires e2 == h.l2 + e1 / 0x400_0000
    requires e3 == h.l3 + e2 / 0x400_0000
    ensures Value(h) - P == Sum26(e0 % 0x400_0000, e1 % 0x400_0000, e2 % 0x400_0000, e3 % 0x400_0000,
                                  h.l4 + e3 / 0x400_0000 - 0x400_0000)
  {}

  // The borrow of MinusP, spread into a mask, decides between h and h - p.
  method Select(h: Limbs, g: Limbs) returns (s: Limbs)
    requires g.l4 < 0x400_0000 || g.l4 >= 0xfc00_0000
    ensures s == if g.l4 < 0x400_0000 then g else h
  {
    hide And;
    hide Or;
    var mask: u32 := (g.l4 / 0x8000_0000 - 1) % 0x1_0000_0000;
    var inverse: u32 := 0xffff_ffff - mask;
    SelectWord(mask, h.l0, g.l0);
    SelectWord(mask, h.l1, g.l1);
    SelectWord(mask, h.l2, g.l2);
    SelectWord(mask, h.l3, g.l3);
    SelectWord(mask, h.l4, g.l4);
    s := Limbs(Or(And(h.l0, inverse), And(g.l0, mask)), Or(And(h.l1, inverse), And(g.l1, mask)),
               Or(And(h.l2, inverse), And(g.l2, mask)), Or(And(h.l3, inverse), And(g.l3, mask)),
               Or(And(h.l4, inverse), And(g.l4, mask)));
  }

  // h = h % 2^128 in four words; each function abuts two neighbouring limbs,
  // `(low >> d) | (high << k)` cut to 32 bits.
  lemma CutAt32High(y: u32, q: nat)
    ensures (0x1_0000_0000 * q + y) % 0x1_0000_0000 == y
  {}

  lemma CutShift26(x: nat)
    ensures x * 0x400_0000 % 0x1_0000_0000 == 0x400_0000 * (x % 0x40)
  {
    var q, y := x / 0x40, x % 0x40;
    assert x == 0x40 * q + y;
    CutAt32High(0x400_0000 * y, q);
  }

  function Word0(h: Limbs): (w: u32)
    requires Reduced(h)
    ensures w == h.l0 + 0x400_0000 * (h.l1 % 0x40)
  {
    hide Or;
    hide Shl;
    hide Pow2;
    Pow2Values();
    CutShift26(h.l1);
    ShlIsMul(h.l1 % 0x40, 26);
    OrDisjoint(26, h.l0, h.l1 % 0x40);
    Or(h.l0, h.l1 * 0x400_0000 % 0x1_0000_0000)
  }

  lemma CutShift20(x: nat)
    ensures x * 0x10_0000 % 0x1_0000_0000 == 0x10_0000 * (x % 0x1000)
  {
    var q, y := x / 0x1000, x % 0x1000;
    assert x == 0x1000 * q + y;
    CutAt32High(0x10_0000 * y, q);
  }

  function Word1(h: Limbs): (w: u32)
    requires Reduced(h)
    ensures w == h.l1 / 0x40 + 0x10_0000 * (h.l2 % 0x1000)
  {
    hide Or;
    hide Shl;
    hide Pow2;
    Pow2Values();
    CutShift20(h.l2);
    ShlIsMul(h.l2 % 0x1000, 20);
    OrDisjoint(20, h.l1 / 0x40, h.l2 % 0x1000);
    Or(h.l1 / 0x40, h.l2 * 0x10_0000 % 0x1_0000_0000)
  }

  lemma CutShift14(x: nat)
    ensures x * 0x4000 % 0x1_0000_0000 == 0x4000 * (x % 0x4_0000)
  {
    var q, y := x / 0x4_0000, x % 0x4_0000;
    assert x == 0x4_0000 * q + y;
    CutAt32High(0x4000 * y, q);
  }

  function Word2(h: Limbs): (w: u32)
    requires Reduced(h)
    ensures w == h.l2 / 0x1000 + 0x4000 * (h.l3 % 0x4_0000)
  {
    hide Or;
    hide Shl;
    hide Pow2;
    Pow2Values();
    CutShift14(h.l3);
    ShlIsMul(h.l3 % 0x4_0000, 14);
    OrDisjoint(14, h.l2 / 0x1000, h.l3 % 0x4_0000);
    Or(h.l2 / 0x1000, h.l3 * 0x4000 % 0x1_0000_0000)
  }

  lemma CutShift8(x: nat)
    ensures x * 0x100 % 0x1_0000_0000 == 0x100 * (x % 0x100_0000)
  {
    var q, y := x / 0x100_0000, x % 0x100_0000;
    assert x == 0x100_0000 * q + y;
    CutAt32High(0x100 * y, q);
  }

  function Word3(h: Limbs): (w: u32)
    requires Reduced(h)
    ensures w == h.l3 / 0x4_0000 + 0x100 * (h.l4 % 0x100_0000)
  {
    hide Or;
    hide Shl;
    hide Pow2;
    Pow2Values();
    CutShift8(h.l4);
    ShlIsMul(h.l4 % 0x100_0000, 8);
    OrDisjoint(8, h.l3 / 0x4_0000, h.l4 % 0x100_0000);
    Or(h.l3 / 0x4_0000, h.l4 * 0x100 % 0x1_0000_0000)
  }

  lemma TagBytes(m0: u32, m1: u32, m2: u32, m3: u32)
    ensures ToLE(m0, 4) + ToLE(m1, 4) + ToLE(m2, 4) + ToLE(m3, 4) == ToLE(Sum32(m0, m1, m2, m3), 16)
  {
    hide LE;
    hide ToLE;
    Pow256Values();
    var a, b, c, d := ToLE(m0, 4), ToLE(m1, 4), ToLE(m2, 4), ToLE(m3, 4);
    LERoundTrip(m0, 4);
    LERoundTrip(m1, 4);
    LERoundTrip(m2, 4);
    LERoundTrip(m3, 4);
    LEConcat(a + b + c, d);
    LEConcat(a + b, c);
    LEConcat(a, b);
    assert Pow256(|a + b + c|) == Pow256(12) && Pow256(|a + b|) == Pow256(8);
    ToLERoundTrip(a + b + c + d);
  }

  lemma PadChain(w0: nat, w1: nat, w2: nat, w3: nat, p0: nat, p1: nat, p2: nat, p3: nat,
                 f0: nat, f1: nat, f2: nat, f3: nat)
    requires f0 == w0 + p0
    requires f1 == w1 + p1 + f0 / 0x1_0000_0000
    requires f2 == w2 + p2 + f1 / 0x1_0000_0000
    requires f3 == w3 + p3 + f2 / 0x1_0000_0000
    ensures Sum32(w0, w1, w2, w3) + Sum32(p0, p1, p2, p3) == TWO128 * (f3 / 0x1_0000_0000)
            + Sum32(f0 % 0x1_0000_0000, f1 % 0x1_0000_0000, f2 % 0x1_0000_0000, f3 % 0x1_0000_0000)
  {}

  lemma Mod128(x: nat, q: nat, m0: u32, m1: u32, m2: u32, m3: u32)
    requires x == TWO128 * q + Sum32(m0, m1, m2, m3)
    ensures Sum32(m0, m1, m2, m3) == x % TWO128
  {}

  lemma RepackSum(h: Limbs)
    ensures Value(h) == TWO128 * (h.l4 / 0x100_0000)
            + Sum32(h.l0 + 0x400_0000 * (h.l1 % 0x40), h.l1 / 0x40 + 0x10_0000 * (h.l2 % 0x1000),
                    h.l2 / 0x1000 + 0x4000 * (h.l3 % 0x4_0000), h.l3 / 0x4_0000 + 0x100 * (h.l4 % 0x100_0000))
  {}

  // The repacking from 26 to 32 bits loses only the bits at 2^128 and above.
  lemma Repack(h: Limbs)
    requires Reduced(h)
    ensures Sum32(Word0(h), Word1(h), Word2(h), Word3(h)) == Value(h) % TWO128
  {
    hide *;
    RepackSum(h);
    Mod128(Value(h), h.l4 / 0x100_0000, Word0(h), Word1(h), Word2(h), Word3(h));
  }

  // Addition of the pad, word by word with carry.
  method AddPad(w0: u32, w1: u32, w2: u32, w3: u32, pad: seq<u32>) returns (m0: u32, m1: u32, m2: u32, m3: u32)
    requires |pad| == 4
    ensures Sum32(m0, m1, m2, m3) == (Sum32(w0, w1, w2, w3) + Sum32(pad[0], pad[1], pad[2], pad[3])) % TWO128
  {
    var f: u64 := w0 + pad[0];
    ghost var f0 := f;
    m0 := f % 0x1_0000_0000;
    f := w1 + pad[1] + f / 0x1_0000_0000;
    ghost var f1 := f;
    m1 := f % 0x1_0000_0000;
    f := w2 + pad[2] + f / 0x1_0000_0000;
    ghost var f2 := f;
    m2 := f % 0x1_0000_0000;
    f := w3 + pad[3] + f / 0x1_0000_0000;
    m3 := f % 0x1_0000_0000;
    hide Sum32;
    PadChain(w0, w1, w2, w3, pad[0], pad[1], pad[2], pad[3], f0, f1, f2, f);
    Mod128(Sum32(w0, w1, w2, w3) + Sum32(pad[0], pad[1], pad[2], pad[3]), f / 0x1_0000_0000, m0, m1, m2, m3);
  }

  // From the carried accumulator to the four words of the tag.
  method MacWords(h: Limbs, pad: seq<u32>) returns (m0: u32, m1: u32, m2: u32, m3: u32)
    requires NearlyReduced(h) && |pad| == 4
    ensures Sum32(m0, m1, m2, m3) == (Value(h) % P + Sum32(pad[0], pad[1], pad[2], pad[3])) % TWO128
  {
    hide *;
    var x := FullCarry(h);
    var g := MinusP(x);
    var y := Select(x, g);
    SelectedIsMod(x, g, y);
    Repack(y);
    m0, m1, m2, m3 := AddPad(Word0(y), Word1(y), Word2(y), Word3(y), pad);
    Mod128Twice(Value(y), Sum32(pad[0], pad[1], pad[2], pad[3]));
  }

  // One conditional subtraction is enough below 2^130.
  lemma SelectedIsMod(x: Limbs, g: Limbs, y: Limbs)
    requires Reduced(x)
    requires g.l0 < 0x400_0000 && g.l1 < 0x400_0000 && g.l2 < 0x400_0000 && g.l3 < 0x400_0000
    requires g.l4 < 0x400_0000 <==> Value(x) >= P
    requires g.l4 < 0x400_0000 ==> Value(g) == Value(x) - P
    requires y == if g.l4 < 0x400_0000 then g else x
    ensures Reduced(y) && Value(y) == Value(x) % P
  {
    hide Value;
    BelowTwoP(x);
    ModBelowTwoP(Value(x));
  }

  lemma ModBelowTwoP(v: nat)
    requires v < 2 * P
    ensures v % P == if v >= P then v - P else v
  {
    if v >= P {
      DivModUnique(v, P, 1, v - P);
    } else {
      DivModUnique(v, P, 0, v);
    }
  }

  lemma BelowTwoP(x: Limbs)
    requires Reduced(x)
    ensures Value(x) < 2 * P
  {}

  lemma Mod128Twice(x: nat, y: nat)
    ensures (x % TWO128 + y) % TWO128 == (x + y) % TWO128
  {
    assert x == TWO128 * (x / TWO128) + x % TWO128;
    Shift128(x % TWO128 + y, x / TWO128);
  }

  lemma Shift128(y: nat, q: nat)
    ensures (TWO128 * q + y) % TWO128 == y % TWO128
  {}

  method WriteWords(mac: array<byte>, at: nat, m0: u32, m1: u32, m2: u32, m3: u32)
    requires at + 16 <= mac.Length
    modifies mac
    ensures Wrote(old(mac[..]), at, ToLE(Sum32(m0, m1, m2, m3), 16), mac[..])
  {
    hide *;
    ghost var a := mac[..];
    WriteLE(mac, at, m0, 4);
    ghost var b := mac[..];
    WriteLE(mac, at + 4, m1, 4);
    ghost var c := mac[..];
    WroteTwice(a, at, ToLE(m0, 4), b, ToLE(m1, 4), c);
    WriteLE(mac, at + 8, m2, 4);
    ghost var d := mac[..];
    WroteTwice(a, at, ToLE(m0, 4) + ToLE(m1, 4), c, ToLE(m2, 4), d);
    WriteLE(mac, at + 12, m3, 4);
    WroteTwice(a, at, ToLE(m0, 4) + ToLE(m1, 4) + ToLE(m2, 4), d, ToLE(m3, 4), mac[..]);
    TagBytes(m0, m1, m2, m3);
  }
}

// src/crypto/poly1305.cpp, the streaming state: poly1305_context and its functions.
module Poly1305 {
  import opened Wrappers
  import opened Bits
  import opened Poly1305Spec
  import opened Poly1305Limbs

  class Context {
    var r: Limbs
    var h: Limbs
    var pad: seq<u32>
    var leftover: nat
    const buffer: array<byte>
    var final: bool

    ghost var key: seq<byte>
    ghost var absorbed: seq<byte> // the whole blocks already in h
    ghost var msg: seq<byte> // everything passed to Update

    // The limbs hold the polynomial over the absorbed blocks.
    ghost predicate Absorbing()
      reads this`r, this`h, this`pad, this`final, this`key, this`absorbed
    {
      && |key| == 32 && |pad| == 4 && !final
      && Reduced(r) && Value(r) == And(LE(key[..16]), CLAMP)
      && Sum32(pad[0], pad[1], pad[2], pad[3]) == LE(key[16..])
      && |absorbed| % 16 == 0
      && NearlyReduced(h) && Value(h) % P == Horner(0, Value(r), TWO128, absorbed)
    }

    // The buffer holds exactly the unprocessed tail.
    ghost predicate Valid()
      reads this, buffer
    {
      && Absorbing()
      && buffer.Length == 16 && leftover < 16
      && msg == absorbed + buffer[..leftover]
    }

    // poly1305_init
    constructor (key: seq<byte>)
      requires |key| == 32
      ensures Valid() && fresh(buffer)
      ensures this.key == key && msg == []
    {
      hide LE;
      hide And;
      hide Load32;
      hide ClampedLimbs;
      hide Sum32;
      hide Horner;
      hide Value;
      EmptyAccumulator(Value(ClampedLimbs(key[..16])));
      r := ClampedLimbs(key[..16]);
      h := Limbs(0, 0, 0, 0, 0);
      pad := [Load32(key, 16), Load32(key, 20), Load32(key, 24), Load32(key, 28)];
      leftover, final := 0, false;
      buffer := new byte[16];
      this.key, absorbed, msg := key, [], [];
      ClampIsRfc(key[..16]);
      PadWords(key);
    }

    static lemma EmptyAccumulator(r: nat)
      ensures Value(Limbs(0, 0, 0, 0, 0)) == 0
      ensures Horner(0, r, TWO128, []) == 0
    {}

    // poly1305_blocks; bytes beyond the last whole block are not read
    method Blocks(m: seq<byte>)
      requires Reduced(r) && NearlyReduced(h)
      modifies this`h
      ensures NearlyReduced(h)
      ensures Value(h) % P == Horner(old(Value(h)) % P, Value(r), if final then 0 else TWO128, m)
    {
      hide Step;
      hide Value;
      var hibit: u32 := if final then 0 else 0x100_0000;
      ghost var hi := if final then 0 else TWO128;
      var x, i := h, 0;
      while |m| - i >= 16
        invariant 0 <= i <= |m|
        invariant NearlyReduced(x)
        invariant Horner(Value(x) % P, Value(r), hi, m[i..]) == Horner(old(Value(h)) % P, Value(r), hi, m)
      {
        assert m[i..][..16] == m[i..i + 16] && m[i..][16..] == m[i + 16..];
        x := Round(x, r, m[i..i + 16], hibit);
        i := i + 16;
      }
      h := x;
    }

    method AbsorbWhole(m: seq<byte>)
      requires Absorbing() && |m| % 16 == 0
      modifies this`h, this`absorbed
      ensures Absorbing() && absorbed == old(absorbed) + m
    {
      hide Horner;
      hide LE;
      hide And;
      hide Value;
      hide Sum32;
      HornerConcat(0, Value(r), TWO128, absorbed, m);
      Blocks(m);
      absorbed := absorbed + m;
    }

    // the copy loops of poly1305_update
    method Append(m: seq<byte>)
      requires buffer.Length == 16 && leftover + |m| <= 16
      modifies this`leftover, buffer
      ensures leftover == old(leftover) + |m|
      ensures buffer[..leftover] == old(buffer[..leftover]) + m
    {
      for i := 0 to |m|
        invariant leftover == old(leftover)
        invariant buffer[..leftover + i] == old(buffer[..leftover]) + m[..i]
      {
        buffer[leftover + i] := m[i];
        assert buffer[..leftover + i + 1] == buffer[..leftover + i] + [m[i]];
      }
      assert m[..|m|] == m;
      leftover := leftover + |m|;
    }

    method TopUp(m: seq<byte>, want: nat) returns (rest: seq<byte>)
      requires buffer.Length == 16 && want <= |m| && leftover + want <= 16
      modifies this`leftover, buffer
      ensures leftover == old(leftover) + want && rest == m[want..]
      ensures buffer[..leftover] + rest == old(buffer[..leftover]) + m
      ensures leftover == 16 ==> buffer[..leftover] == buffer[..]
    {
      assert m == m[..want] + m[want..];
      Append(m[..want]);
      rest := m[want..];
    }

    // poly1305_update
    method Update(input: seq<byte>)
      requires Valid()
      modifies this, buffer
      ensures Valid()
      ensures key == old(key) && msg == old(msg) + input
    {
      hide Absorbing;
      var m := input;
      ConcatAssoc(absorbed, buffer[..leftover], input);
      msg := msg + input;
      // first complete what earlier calls left in the buffer
      if leftover != 0 {
        var want := 16 - leftover;
        if want > |m| { want := |m|; }
        m := TopUp(m, want);
        if leftover < 16 {
          assert buffer[..leftover] + m == buffer[..leftover];
          return;
        }
        ConcatAssoc(absorbed, buffer[..], m);
        AbsorbWhole(buffer[..]);
        leftover := 0;
      } else {
        assert buffer[..leftover] + m == m;
      }
      UpdateWhole(m);
    }

    // The rest of poly1305_update, with nothing left over.
    method UpdateWhole(input: seq<byte>)
      requires Absorbing() && buffer.Length == 16 && leftover == 0 && msg == absorbed + input
      modifies this`h, this`absorbed, this`leftover, buffer
      ensures Valid()
    {
      hide Absorbing;
      var m := input;
      // whole blocks go straight from the input
      if |m| >= 16 {
        var want := |m| - |m| % 16;
        assert m == m[..want] + m[want..];
        ConcatAssoc(absorbed, m[..want], m[want..]);
        AbsorbWhole(m[..want]);
        m := m[want..];
      }
      // keep the rest for the next call
      assert msg == absorbed + m && buffer[..leftover] + m == m;
      if |m| != 0 {
        Append(m);
      }
    }

    method PadBuffer()
      requires buffer.Length == 16 && 0 < leftover < 16
      modifies buffer
      ensures buffer[..leftover] == old(buffer[..leftover]) && buffer[leftover] == 1
      ensures forall i :: leftover < i < 16 ==> buffer[i] == 0
    {
      var i := leftover;
      buffer[i] := 1;
      i := i + 1;
      while i < 16
        invariant leftover < i <= 16
        invariant buffer[..leftover] == old(buffer[..leftover]) && buffer[leftover] == 1
        invariant forall j :: leftover < j < i ==> buffer[j] == 0
      {
        buffer[i] := 0;
        i := i + 1;
      }
    }

    // the remaining block of poly1305_finish
    method AbsorbLast()
      requires Valid()
      modifies this`h, this`final, buffer
      ensures NearlyReduced(h) && Value(h) % P == Absorb(0, Value(r), msg)
      ensures final == (leftover != 0)
    {
      hide Horner;
      hide LE;
      hide And;
      hide Value;
      hide Sum32;
      ghost var tail := buffer[..leftover];
      AbsorbBlocks(0, Value(r), absorbed, tail);
      if leftover != 0 {
        PadBuffer();
        final := true;
        AbsorbTail(Value(h) % P, Value(r), tail, buffer[..]);
        Blocks(buffer[..]);
      }
    }

    // poly1305_finish
    method Finish(mac: array<byte>, at: nat)
      requires Valid() && at + 16 <= mac.Length && mac != buffer
      modifies this, buffer, mac
      ensures Wrote(old(mac[..]), at, Tag(old(key), old(msg)), mac[..])
      ensures r == h == Limbs(0, 0, 0, 0, 0) && pad == [0, 0, 0, 0]
      ensures leftover == old(leftover) && final == (leftover != 0)
    {
      hide Absorb;
      hide LE;
      hide And;
      hide Value;
      hide Sum32;
      hide Horner;
      hide ToLE;
      hide Wrote;
      AbsorbLast();
      var m0, m1, m2, m3 := MacWords(h, pad);
      WriteWords(mac, at, m0, m1, m2, m3);
      h, r, pad := Limbs(0, 0, 0, 0, 0), Limbs(0, 0, 0, 0, 0), [0, 0, 0, 0];
    }
  }

  // Init, any number of updates, finish: the tag depends on the concatenation only.
  method TagOfChunks(key: seq<byte>, chunks: seq<seq<byte>>) returns (tag: seq<byte>)
    requires |key| == 32
    ensures tag == Tag(key, Flatten(chunks))
  {
    hide *;
    FlattenStep(chunks, 0);
    var st := new Context(key);
    for i := 0 to |chunks|
      invariant st.Valid() && fresh(st) && fresh(st.buffer)
      invariant st.key == key && st.msg == Flatten(chunks[..i])
    {
      FlattenStep(chunks, i);
      st.Update(chunks[i]);
    }
    assert chunks[..|chunks|] == chunks;
    var mac := new byte[16];
    ghost var before := mac[..];
    st.Finish(mac, 0);
    WroteAll(before, Tag(key, Flatten(chunks)), mac[..]);
    tag := mac[..];
  }
}
