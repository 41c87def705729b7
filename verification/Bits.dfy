// Machine words, bitwise operators and little-endian byte strings.
//
// Bytes and fixed-width words are ranges of the mathematical integers, so a
// subset-typed assignment such as `var d: u64 := ...` is a proof that the C++
// expression did not overflow; intended wrap-around is written out with `%`.
// The bitwise operators are recursions over the binary digits.
module Bits {

  type byte = x: int | 0 <= x < 0x100
  type u32 = x: int | 0 <= x < 0x1_0000_0000
  type u64 = x: int | 0 <= x < 0x1_0000_0000_0000_0000

  const TWO32: nat := 0x1_0000_0000
  const TWO64: nat := 0x1_0000_0000_0000_0000

  function Pow2(n: nat): (r: nat)
    ensures r > 0
  {
    if n == 0 then 1 else 2 * Pow2(n - 1)
  }

  function And(a: nat, b: nat): nat {
    if a == 0 then 0 else 2 * And(a / 2, b / 2) + (if a % 2 == 1 && b % 2 == 1 then 1 else 0)
  }

  function Or(a: nat, b: nat): nat {
    if a == 0 then b else 2 * Or(a / 2, b / 2) + (if a % 2 == 1 || b % 2 == 1 then 1 else 0)
  }

  function Xor(a: nat, b: nat): nat {
    if a == 0 then b else 2 * Xor(a / 2, b / 2) + (if a % 2 != b % 2 then 1 else 0)
  }

  lemma MulMono(m: nat, x: int, y: int)
    requires x <= y
    ensures m * x <= m * y
  {
    assert m * (y - x) >= 0;
  }

  // Quotient and remainder are determined by the division equation.
  lemma DivModUnique(a: nat, m: nat, q: nat, r: nat)
    requires r < m && a == m * q + r
    ensures a / m == q && a % m == r
  {
    var q' := a / m;
    assert a == m * q' + a % m;
    assert m * (q + 1) == m * q + m && m * (q' + 1) == m * q' + m;
    if q < q' {
      MulMono(m, q + 1, q');
    } else if q' < q {
      MulMono(m, q' + 1, q);
    }
  }

  lemma Mod32(y: int, q: int)
    ensures (TWO32 * q + y) % TWO32 == y % TWO32
  {}

  lemma Mod64(y: int, q: int)
    ensures (TWO64 * q + y) % TWO64 == y % TWO64
  {}

  lemma MulAssoc(a: nat, b: nat, c: nat)
    ensures (a * b) * c == a * (b * c)
  {}

  lemma MulHalf(p: nat, b: nat)
    ensures (2 * p) * b == 2 * (p * b)
  {}

  // b shifted left by k places.
  function Shl(b: nat, k: nat): nat {
    if k == 0 then b else 2 * Shl(b, k - 1)
  }

  lemma {:induction false} ShlIsMul(b: nat, k: nat)
    ensures Shl(b, k) == Pow2(k) * b
  {
    if k != 0 {
      ShlIsMul(b, k - 1);
      MulHalf(Pow2(k - 1), b);
    }
  }

  lemma AndDigit(x: nat, y: nat)
    ensures And(x, y) == 2 * And(x / 2, y / 2) + (if x % 2 == 1 && y % 2 == 1 then 1 else 0)
  {}

  // `And` acts on the low k bits and on the rest separately.
  lemma {:induction false} AndSplit(k: nat, a: nat, b: nat, c: nat, d: nat)
    requires a < Pow2(k) && c < Pow2(k)
    ensures And(a + Shl(b, k), c + Shl(d, k)) == And(a, c) + Shl(And(b, d), k)
  {
    hide And;
    if k == 0 {
      AndDigit(0, 0);
    } else {
      AndSplit(k - 1, a / 2, b, c / 2, d);
      AndDigit(a + Shl(b, k), c + Shl(d, k));
      AndDigit(a, c);
    }
  }

  lemma OrDigit(x: nat, y: nat)
    ensures Or(x, y) == 2 * Or(x / 2, y / 2) + (if x % 2 == 1 || y % 2 == 1 then 1 else 0)
  {}

  // `Or` acts on the low k bits and on the rest separately.
  lemma {:induction false} OrSplit(k: nat, a: nat, b: nat, c: nat, d: nat)
    requires a < Pow2(k) && c < Pow2(k)
    ensures Or(a + Shl(b, k), c + Shl(d, k)) == Or(a, c) + Shl(Or(b, d), k)
  {
    hide Or;
    if k == 0 {
      OrDigit(0, 0);
    } else {
      OrSplit(k - 1, a / 2, b, c / 2, d);
      OrDigit(a + Shl(b, k), c + Shl(d, k));
      OrDigit(a, c);
    }
  }

  lemma XorDigit(x: nat, y: nat)
    ensures Xor(x, y) == 2 * Xor(x / 2, y / 2) + (if x % 2 != y % 2 then 1 else 0)
  {}

  // `Xor` acts on the low k bits and on the rest separately.
  lemma {:induction false} XorSplit(k: nat, a: nat, b: nat, c: nat, d: nat)
    requires a < Pow2(k) && c < Pow2(k)
    ensures Xor(a + Shl(b, k), c + Shl(d, k)) == Xor(a, c) + Shl(Xor(b, d), k)
  {
    hide Xor;
    if k == 0 {
      XorDigit(0, 0);
    } else {
      XorSplit(k - 1, a / 2, b, c / 2, d);
      XorDigit(a + Shl(b, k), c + Shl(d, k));
      XorDigit(a, c);
    }
  }

  lemma {:induction false} AndOnes(k: nat, a: nat)
    requires a < Pow2(k)
    ensures And(a, Pow2(k) - 1) == a
  {
    if k != 0 {
      AndOnes(k - 1, a / 2);
      AndDigit(a, Pow2(k) - 1);
    }
  }

  // A mask of k ones keeps the low k bits.
  lemma AndMask(k: nat, lo: nat, hi: nat)
    requires lo < Pow2(k)
    ensures And(lo + Shl(hi, k), Pow2(k) - 1) == lo
  {
    ShlZero(k);
    AndSplit(k, lo, hi, Pow2(k) - 1, 0);
    AndOnes(k, lo);
    AndZero(hi);
  }

  lemma {:induction false} AndZero(a: nat)
    ensures And(a, 0) == 0
  {
    if a != 0 { AndZero(a / 2); }
  }

  lemma {:induction false} AndBound(a: nat, b: nat)
    ensures And(a, b) <= b
  {
    if a != 0 { AndBound(a / 2, b / 2); }
  }

  lemma {:induction false} OrZero(a: nat)
    ensures Or(a, 0) == a
  {
    if a != 0 { OrZero(a / 2); }
  }

  lemma {:induction false} ShlZero(k: nat)
    ensures Shl(0, k) == 0
  {
    if k != 0 { ShlZero(k - 1); }
  }

  // Words without common bits: `|` is `+`.
  lemma OrDisjoint(k: nat, a: nat, d: nat)
    requires a < Pow2(k)
    ensures Or(a, Shl(d, k)) == a + Shl(d, k)
  {
    ShlZero(k);
    assert Or(0, d) == d;
    hide Shl;
    hide Or;
    OrSplit(k, a, 0, 0, d);
    OrZero(a);
  }

  lemma {:induction false} XorBound(k: nat, a: nat, b: nat)
    requires a < Pow2(k) && b < Pow2(k)
    ensures Xor(a, b) < Pow2(k)
  {
    if k != 0 && a != 0 { XorBound(k - 1, a / 2, b / 2); }
  }

  lemma {:induction false} XorInvolutive(a: nat, b: nat)
    ensures Xor(Xor(a, b), b) == a
    decreases a + b
  {
    if a == 0 {
      XorSelf(b);
    } else {
      XorInvolutive(a / 2, b / 2);
    }
  }

  lemma {:induction false} XorCommutes(a: nat, b: nat)
    ensures Xor(a, b) == Xor(b, a)
    decreases a + b
  {
    if a != 0 && b != 0 {
      XorCommutes(a / 2, b / 2);
    } else if b != 0 {
      XorZero(b);
    } else {
      XorZero(a);
    }
  }

  lemma {:induction false} XorZero(a: nat)
    ensures Xor(a, 0) == a
  {
    if a != 0 { XorZero(a / 2); }
  }

  lemma {:induction false} XorSelf(b: nat)
    ensures Xor(b, b) == 0
  {
    if b != 0 { XorSelf(b / 2); }
  }

  lemma ConcatAssoc(a: seq<byte>, b: seq<byte>, c: seq<byte>)
    ensures a + b + c == a + (b + c)
  {}

  // ---- little-endian byte strings ----

  function LE(s: seq<byte>): nat {
    if s == [] then 0 else s[0] + 0x100 * LE(s[1..])
  }

  function ToLE(n: nat, w: nat): (s: seq<byte>)
    ensures |s| == w
  {
    if w == 0 then [] else [n % 0x100] + ToLE(n / 0x100, w - 1)
  }

  function Pow256(n: nat): (r: nat)
    ensures r > 0
  {
    if n == 0 then 1 else 0x100 * Pow256(n - 1)
  }

  lemma Pow2Values()
    ensures Pow2(8) == 0x100 && Pow2(14) == 0x4000 && Pow2(16) == 0x1_0000 && Pow2(20) == 0x10_0000
    ensures Pow2(24) == 0x100_0000 && Pow2(26) == 0x400_0000 && Pow2(32) == 0x1_0000_0000
  {
    assert Pow2(12) == 0x1000;
    assert Pow2(20) == 0x10_0000;
    assert Pow2(28) == 0x1000_0000;
  }

  lemma Pow256Values()
    ensures Pow256(0) == 1 && Pow256(1) == 0x100 && Pow256(3) == 0x100_0000 && Pow256(4) == 0x1_0000_0000
    ensures Pow256(6) == 0x1_0000_0000_0000 && Pow256(8) == 0x1_0000_0000_0000_0000
    ensures Pow256(9) == 0x100_0000_0000_0000_0000
    ensures Pow256(12) == 0x1_0000_0000_0000_0000_0000_0000
    ensures Pow256(16) == 0x1_0000_0000_0000_0000_0000_0000_0000_0000
  {}

  lemma {:induction false} LEBound(s: seq<byte>)
    ensures LE(s) < Pow256(|s|)
  {
    if s != [] { LEBound(s[1..]); }
  }

  lemma {:induction false} LEConcat(a: seq<byte>, b: seq<byte>)
    ensures LE(a + b) == LE(a) + Pow256(|a|) * LE(b)
  {
    if a == [] {
      assert a + b == b;
    } else {
      assert (a + b)[1..] == a[1..] + b;
      LEConcat(a[1..], b);
      MulAssoc(0x100, Pow256(|a| - 1), LE(b));
    }
  }

  // Reading back what was written.
  lemma {:induction false} LERoundTrip(n: nat, w: nat)
    requires n < Pow256(w)
    ensures LE(ToLE(n, w)) == n
  {
    if w != 0 {
      LERoundTrip(n / 0x100, w - 1);
      assert ToLE(n, w)[1..] == ToLE(n / 0x100, w - 1);
    }
  }

  lemma {:induction false} ToLERoundTrip(s: seq<byte>)
    ensures ToLE(LE(s), |s|) == s
  {
    if s != [] {
      ToLERoundTrip(s[1..]);
      DivModUnique(LE(s), 0x100, LE(s[1..]), s[0]);
      assert s == [s[0]] + s[1..];
    }
  }

  lemma {:induction false} ToLEModulo(n: nat, w: nat)
    ensures ToLE(n % Pow256(w), w) == ToLE(n, w)
  {
    if w != 0 {
      var p := Pow256(w - 1);
      DivModMod(n, p);
      ToLEModulo(n / 0x100, w - 1);
    }
  }

  lemma DivModMod(n: nat, p: nat)
    requires p > 0
    ensures n % (0x100 * p) % 0x100 == n % 0x100 && n % (0x100 * p) / 0x100 == n / 0x100 % p
  {
    var q, a, b := n / 0x100 / p, n / 0x100 % p, n % 0x100;
    assert n == 0x100 * (n / 0x100) + b && n / 0x100 == p * q + a;
    assert 0x100 * (p * q + a) + b == (0x100 * p) * q + (0x100 * a + b);
    DivModUnique(n, 0x100 * p, q, 0x100 * a + b);
  }

  lemma {:induction false} LEZeros(s: seq<byte>)
    requires forall i :: 0 <= i < |s| ==> s[i] == 0
    ensures LE(s) == 0
  {
    if s != [] { LEZeros(s[1..]); }
  }

  // utils::ReadLE<uint32_t>
  function Load32(m: seq<byte>, i: nat): (x: u32)
    requires i + 4 <= |m|
  {
    LEBound(m[i..i + 4]);
    Pow256Values();
    LE(m[i..i + 4])
  }

  // A window of a byte string is a window of its value.
  lemma LEWindow(s: seq<byte>, i: nat, w: nat)
    requires i + w <= |s|
    ensures LE(s[i..i + w]) == LE(s) / Pow256(i) % Pow256(w)
  {
    hide LE;
    hide Pow256;
    var lo, mid, hi := s[..i], s[i..i + w], s[i + w..];
    assert s == lo + (mid + hi);
    LEConcat(lo, mid + hi);
    LEConcat(mid, hi);
    LEBound(lo);
    LEBound(mid);
    DivModUnique(LE(s), Pow256(i), LE(mid + hi), LE(lo));
    DivModUnique(LE(mid + hi), Pow256(w), LE(hi), LE(mid));
  }

  // utils::WriteLE
  method WriteLE(a: array<byte>, at: nat, n: nat, w: nat)
    requires at + w <= a.Length
    modifies a
    ensures Wrote(old(a[..]), at, ToLE(n, w), a[..])
  {
    CopyBytes(a, at, ToLE(n, w));
  }

  // ---- exclusive or, bytewise and wordwise ----

  function Xor8(a: byte, b: byte): (c: byte) {
    XorBound(8, a, b);
    assert Pow2(8) == 0x100;
    Xor(a, b)
  }

  function Xor32(a: u32, b: u32): (c: u32) {
    Pow2Values();
    XorBound(32, a, b);
    Xor(a, b)
  }

  function XorBytes(a: seq<byte>, b: seq<byte>): (c: seq<byte>)
    requires |a| == |b|
    ensures |c| == |a|
    ensures forall i :: 0 <= i < |c| ==> c[i] == Xor8(a[i], b[i])
  {
    seq(|a|, i requires 0 <= i < |a| => Xor8(a[i], b[i]))
  }

  function Zeros(n: nat): (z: seq<byte>)
    ensures |z| == n
  {
    seq(n, _ => 0)
  }

  lemma XorBytesZeros(a: seq<byte>)
    ensures XorBytes(Zeros(|a|), a) == a
  {}

  lemma XorBytesConcat(a: seq<byte>, b: seq<byte>, c: seq<byte>, d: seq<byte>)
    requires |a| == |c| && |b| == |d|
    ensures XorBytes(a + b, c + d) == XorBytes(a, c) + XorBytes(b, d)
  {}

  lemma XorBytesInvolutive(a: seq<byte>, k: seq<byte>)
    requires |a| == |k|
    ensures XorBytes(XorBytes(a, k), k) == a
  {
    forall i | 0 <= i < |a| ensures XorBytes(XorBytes(a, k), k)[i] == a[i] {
      XorInvolutive(a[i], k[i]);
    }
  }

  lemma XorBytesCommutes(a: seq<byte>, b: seq<byte>)
    requires |a| == |b|
    ensures XorBytes(a, b) == XorBytes(b, a)
  {
    forall i | 0 <= i < |a| ensures XorBytes(a, b)[i] == XorBytes(b, a)[i] {
      XorCommutes(a[i], b[i]);
    }
  }

  lemma XorLowByte(a: nat, b: nat)
    ensures Xor(a, b) % 0x100 == Xor(a % 0x100, b % 0x100) < 0x100
    ensures Xor(a, b) / 0x100 == Xor(a / 0x100, b / 0x100)
  {
    hide Xor;
    hide Shl;
    hide Pow2;
    Pow2Values();
    ShlIsMul(a / 0x100, 8);
    ShlIsMul(b / 0x100, 8);
    ShlIsMul(Xor(a / 0x100, b / 0x100), 8);
    XorSplit(8, a % 0x100, a / 0x100, b % 0x100, b / 0x100);
    XorBound(8, a % 0x100, b % 0x100);
  }

  // Words may be combined before or after they are written out.
  lemma {:induction false} XorOfWords(a: nat, b: nat, w: nat)
    ensures ToLE(Xor(a, b), w) == XorBytes(ToLE(a, w), ToLE(b, w))
  {
    if w != 0 {
      XorLowByte(a, b);
      XorOfWords(a / 0x100, b / 0x100, w - 1);
      XorBytesConcat([a % 0x100], ToLE(a / 0x100, w - 1), [b % 0x100], ToLE(b / 0x100, w - 1));
    }
  }

  // ---- output spans ----

  // `after` is `before` with s written at `at`, and nothing else changed.
  ghost predicate Wrote(before: seq<byte>, at: nat, s: seq<byte>, after: seq<byte>) {
    at + |s| <= |before| && after == before[..at] + s + before[at + |s|..]
  }

  // Exactly the addressed positions hold s, all others what they held.
  lemma WroteIs(a: seq<byte>, at: nat, s: seq<byte>, b: seq<byte>)
    ensures Wrote(a, at, s, b)
       <==> at + |s| <= |a| == |b|
            && forall i :: 0 <= i < |b| ==> b[i] == if at <= i < at + |s| then s[i - at] else a[i]
  {
    if at + |s| <= |a| {
      var c := a[..at] + s + a[at + |s|..];
      assert |c| == |a|;
      assert forall i :: 0 <= i < |c| ==> c[i] == if at <= i < at + |s| then s[i - at] else a[i];
    }
  }

  lemma WroteNothing(a: seq<byte>, at: nat)
    requires at <= |a|
    ensures Wrote(a, at, [], a)
  {}

  lemma WroteAll(a: seq<byte>, s: seq<byte>, b: seq<byte>)
    requires Wrote(a, 0, s, b) && |s| == |a|
    ensures b == s
  {}

  lemma WrotePrefix(a: seq<byte>, s: seq<byte>, b: seq<byte>)
    requires Wrote(a, 0, s, b)
    ensures |b| == |a| >= |s| && b[..|s|] == s
  {}

  lemma WroteTwice(a: seq<byte>, at: nat, s: seq<byte>, b: seq<byte>, t: seq<byte>, c: seq<byte>)
    requires Wrote(a, at, s, b) && Wrote(b, at + |s|, t, c)
    ensures Wrote(a, at, s + t, c)
  {
    assert b[..at + |s|] == a[..at] + s;
    assert b[at + |s| + |t|..] == a[at + |s| + |t|..];
  }

  // std::copy and std::memcpy into an array
  method CopyBytes(a: array<byte>, at: nat, s: seq<byte>)
    requires at + |s| <= a.Length
    modifies a
    ensures Wrote(old(a[..]), at, s, a[..])
  {
    for i := 0 to |s|
      invariant a[..at] == old(a[..at]) && a[at..at + i] == s[..i] && a[at + |s|..] == old(a[at + |s|..])
    {
      a[at + i] := s[i];
      assert a[at..at + i + 1] == a[at..at + i] + [s[i]];
    }
    assert a[..] == a[..at] + a[at..at + |s|] + a[at + |s|..];
  }
}
