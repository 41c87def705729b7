// AEAD_CHACHA20_POLY1305, section 2.8 of RFC 8439, on byte strings.
module AeadSpec {
  import opened Bits
  import opened ChaCha20Spec
  import Poly1305Spec

  type Key = s: seq<u32> | |s| == 8 witness [0, 0, 0, 0, 0, 0, 0, 0]
  datatype Nonce = Nonce(first: u32, second: u64)
  datatype Opened = Plain(text: seq<byte>) | Forged

  // The cipher input for block `counter` under a key and a nonce.
  function InputAt(key: Key, nonce: Nonce, counter: u32): Input {
    SeekInput(key, nonce.first, nonce.second, counter)
  }

  lemma InputKey(key: Key, nonce: Nonce, counter: u32)
    ensures InputAt(key, nonce, counter)[..8] == key
  {}

  function PadLength(n: nat): (p: nat)
    ensures p < 16 && (n + p) % 16 == 0
  {
    (16 - n % 16) % 16
  }

  // What the authenticator sees.
  function MacData(aad: seq<byte>, ct: seq<byte>): seq<byte> {
    aad + Zeros(PadLength(|aad|)) + ct + Zeros(PadLength(|ct|)) + ToLE(|aad|, 8) + ToLE(|ct|, 8)
  }

  function Authenticate(key: Key, nonce: Nonce, aad: seq<byte>, ct: seq<byte>): (tag: seq<byte>)
    ensures |tag| == 16
  {
    Poly1305Spec.Tag(Block(InputAt(key, nonce, 0))[..32], MacData(aad, ct))
  }

  function Seal(key: Key, nonce: Nonce, aad: seq<byte>, plain: seq<byte>): (cipher: seq<byte>)
    ensures |cipher| == |plain| + 16
  {
    var ct := Masked(InputAt(key, nonce, 1), 0, plain);
    ct + Authenticate(key, nonce, aad, ct)
  }

  function Open(key: Key, nonce: Nonce, aad: seq<byte>, cipher: seq<byte>): (r: Opened)
    requires |cipher| >= 16
    ensures r.Plain? ==> |r.text| == |cipher| - 16
  {
    var ct, tag := cipher[..|cipher| - 16], cipher[|cipher| - 16..];
    if tag == Authenticate(key, nonce, aad, ct) then Plain(Masked(InputAt(key, nonce, 1), 0, ct)) else Forged
  }

  lemma SealIs(key: Key, nonce: Nonce, aad: seq<byte>, plain: seq<byte>)
    ensures var ct := Masked(InputAt(key, nonce, 1), 0, plain);
      Seal(key, nonce, aad, plain) == ct + Authenticate(key, nonce, aad, ct)
  {}

  // What was sealed opens to itself.
  lemma OpenSeal(key: Key, nonce: Nonce, aad: seq<byte>, plain: seq<byte>)
    ensures Open(key, nonce, aad, Seal(key, nonce, aad, plain)) == Plain(plain)
  {
    hide Authenticate;
    hide InputAt;
    hide Masked;
    var ct := Masked(InputAt(key, nonce, 1), 0, plain);
    var cipher := Seal(key, nonce, aad, plain);
    assert cipher[..|cipher| - 16] == ct && cipher[|cipher| - 16..] == Authenticate(key, nonce, aad, ct);
    MaskedTwice(InputAt(key, nonce, 1), 0, plain);
  }

  // Whatever opens is the sealing of what it opened to.
  lemma SealOpen(key: Key, nonce: Nonce, aad: seq<byte>, cipher: seq<byte>)
    requires |cipher| >= 16 && Open(key, nonce, aad, cipher).Plain?
    ensures Seal(key, nonce, aad, Open(key, nonce, aad, cipher).text) == cipher
  {
    hide Authenticate;
    hide InputAt;
    hide Masked;
    MaskedTwice(InputAt(key, nonce, 1), 0, cipher[..|cipher| - 16]);
  }

  // The cipher input of a block, as bytes.
  lemma InputAtBytes(key: Key, nonce: Nonce, counter: u32)
    ensures Serialize(InputAt(key, nonce, counter))
         == Serialize(key) + ToLE(counter, 4) + ToLE(nonce.first, 4) + ToLE(nonce.second, 8)
  {
    hide Serialize;
    hide ToLE;
    hide SeekInput;
    SeekInputBytes(key, nonce.first, nonce.second, counter);
  }

  // Section 2.8 of RFC 8439 down to keystream and tag: the text meets the stream from block
  // 1, the tag is over associated data and ciphertext, its key is the start of block 0.
  lemma SealBytes(key: Key, nonce: Nonce, aad: seq<byte>, plain: seq<byte>)
    ensures var ct := XorBytes(plain, KeyBytes(InputAt(key, nonce, 1), 0, |plain|));
      Seal(key, nonce, aad, plain)
      == ct + Poly1305Spec.Tag(KeyBytes(InputAt(key, nonce, 0), 0, 64)[..32], MacData(aad, ct))
  {
    hide KeyBytes;
    hide InputAt;
    hide Block;
    hide MacData;
    hide Poly1305Spec.Tag;
    FirstBlock(InputAt(key, nonce, 0));
  }

  // Which ciphertexts open, and to what.
  lemma OpenBytes(key: Key, nonce: Nonce, aad: seq<byte>, ct: seq<byte>, tag: seq<byte>)
    requires |tag| == 16
    ensures Open(key, nonce, aad, ct + tag)
         == if tag == Poly1305Spec.Tag(KeyBytes(InputAt(key, nonce, 0), 0, 64)[..32], MacData(aad, ct))
            then Plain(XorBytes(ct, KeyBytes(InputAt(key, nonce, 1), 0, |ct|))) else Forged
  {
    hide KeyBytes;
    hide InputAt;
    hide Block;
    hide MacData;
    hide Poly1305Spec.Tag;
    FirstBlock(InputAt(key, nonce, 0));
    var cipher := ct + tag;
    assert cipher[..|cipher| - 16] == ct && cipher[|cipher| - 16..] == tag;
  }

  // A sealed packet with its ciphertext or associated data altered opens exactly if the two
  // authenticated strings, which are then different, have the same tag.
  lemma AlteredPacket(key: Key, nonce: Nonce, aad: seq<byte>, plain: seq<byte>, aad': seq<byte>, ct': seq<byte>)
    ensures var c := Seal(key, nonce, aad, plain);
      var ct, tag := c[..|plain|], c[|plain|..];
      var otk := KeyBytes(InputAt(key, nonce, 0), 0, 64)[..32];
      && (Open(key, nonce, aad', ct' + tag).Plain?
          <==> Poly1305Spec.Tag(otk, MacData(aad', ct')) == Poly1305Spec.Tag(otk, MacData(aad, ct)))
      && (|aad| < TWO64 && |plain| < TWO64 && |aad'| < TWO64 && |ct'| < TWO64 && (aad' != aad || ct' != ct)
          ==> MacData(aad', ct') != MacData(aad, ct))
  {
    hide Seal;
    hide Open;
    hide KeyBytes;
    hide InputAt;
    hide Block;
    hide MacData;
    hide Poly1305Spec.Tag;
    SealBytes(key, nonce, aad, plain);
    var c := Seal(key, nonce, aad, plain);
    var ct := XorBytes(plain, KeyBytes(InputAt(key, nonce, 1), 0, |plain|));
    hide XorBytes;
    assert c[..|plain|] == ct;
    OpenBytes(key, nonce, aad', ct', c[|plain|..]);
    if MacData(aad', ct') == MacData(aad, ct)
      && |aad| < TWO64 && |plain| < TWO64 && |aad'| < TWO64 && |ct'| < TWO64 {
      MacDataInjective(aad', ct', aad, ct);
    }
  }

  // The authenticated string is a whole number of blocks ...
  lemma MacDataBlocks(aad: seq<byte>, ct: seq<byte>)
    ensures |MacData(aad, ct)| % 16 == 0
  {
    hide ToLE;
    var a, b := |aad| + PadLength(|aad|), |ct| + PadLength(|ct|);
    assert |MacData(aad, ct)| == a + b + 16;
    hide *;
    SumOfBlocks(a, b);
  }

  lemma SumOfBlocks(a: nat, b: nat)
    requires a % 16 == 0 && b % 16 == 0
    ensures (a + b + 16) % 16 == 0
  {}

  // ... and determines both parts, for lengths that fit the 64-bit length fields.
  lemma MacDataInjective(a: seq<byte>, c: seq<byte>, a': seq<byte>, c': seq<byte>)
    requires |a| < TWO64 && |c| < TWO64 && |a'| < TWO64 && |c'| < TWO64
    requires MacData(a, c) == MacData(a', c')
    ensures a == a' && c == c'
  {
    hide ToLE;
    hide PadLength;
    var m := MacData(a, c);
    var la, lc, la', lc' := ToLE(|a|, 8), ToLE(|c|, 8), ToLE(|a'|, 8), ToLE(|c'|, 8);
    assert la == m[|m| - 16..|m| - 8] == la';
    assert lc == m[|m| - 8..] == lc';
    Pow256Values();
    LERoundTrip(|a|, 8);
    LERoundTrip(|c|, 8);
    LERoundTrip(|a'|, 8);
    LERoundTrip(|c'|, 8);
    var at := |a| + PadLength(|a|);
    assert a == m[..|a|] == a';
    assert c == m[at..at + |c|] == c';
  }
}

// src/crypto/cc20poly1305.cpp: the AEAD over the streaming cipher.
module Aead {
  import opened Bits
  import opened ChaCha20Spec
  import opened ChaCha20
  import opened AeadSpec
  import Poly1305
  import Poly1305Spec

  function KeyWords(key: seq<byte>): Key
    requires |key| == 32
  {
    KeyInput(key)[..8]
  }

  lemma {:induction false} OrIsZero(a: nat, b: nat)
    ensures Or(a, b) == 0 <==> a == 0 && b == 0
  {
    if a != 0 { OrIsZero(a / 2, b / 2); }
  }

  lemma {:induction false} XorIsZero(a: nat, b: nat)
    ensures Xor(a, b) == 0 <==> a == b
  {
    if a != 0 { XorIsZero(a / 2, b / 2); }
  }

  // Accumulates all differences; 0 exactly when there is none.
  method TimingsafeBcmp(b1: seq<byte>, b2: seq<byte>) returns (r: int)
    requires |b1| == |b2|
    ensures r == if b1 == b2 then 0 else 1
  {
    hide Or;
    hide Xor;
    var ret: nat := 0;
    for i := 0 to |b1|
      invariant ret == 0 <==> b1[..i] == b2[..i]
    {
      XorIsZero(b1[i], b2[i]);
      OrIsZero(ret, Xor(b1[i], b2[i]));
      ret := Or(ret, Xor(b1[i], b2[i]));
      assert b1[..i + 1] == b1[..i] + [b1[i]] && b2[..i + 1] == b2[..i] + [b2[i]];
    }
    assert b1[..|b1|] == b1 && b2[..|b2|] == b2;
    r := if ret != 0 then 1 else 0;
  }

  // Compute the tag with the cipher at block 0 of the nonce; it is at block 1 after.
  method ComputeTag(chacha: ChaCha20, aad: seq<byte>, ct: seq<byte>, tag: array<byte>, at: nat)
    requires chacha.Valid() && chacha.Pos() == 0 && at + 16 <= tag.Length && tag != chacha.buffer
    modifies chacha.Footprint(), tag
    ensures chacha.Valid() && chacha.start == old(chacha.start) && chacha.Pos() == 64
    ensures Wrote(old(tag[..]), at, Poly1305Spec.Tag(Block(chacha.start)[..32], MacData(aad, ct)), tag[..])
  {
    hide *;
    var firstBlock := new byte[64];
    ghost var before := firstBlock[..];
    chacha.Keystream(firstBlock, 0, 64);
    FirstBlock(chacha.start);
    WroteAll(before, Block(chacha.start), firstBlock[..]);
    var poly := new Poly1305.Context(firstBlock[..32]);
    poly.Update(aad);
    poly.Update(Zeros(PadLength(|aad|)));
    poly.Update(ct);
    poly.Update(Zeros(PadLength(|ct|)));
    poly.Update(ToLE(|aad|, 8) + ToLE(|ct|, 8));
    MacDataParts(aad, ct);
    poly.Finish(tag, at);
  }

  lemma MacDataParts(aad: seq<byte>, ct: seq<byte>)
    ensures [] + aad + Zeros(PadLength(|aad|)) + ct + Zeros(PadLength(|ct|)) + (ToLE(|aad|, 8) + ToLE(|ct|, 8))
         == MacData(aad, ct)
  {
    hide ToLE;
    hide PadLength;
    hide Zeros;
    var p, q, l := Zeros(PadLength(|aad|)), Zeros(PadLength(|ct|)), ToLE(|aad|, 8);
    assert [] + aad == aad;
    ConcatAssoc(aad + p + ct + q, l, ToLE(|ct|, 8));
  }

  // ComputeTag leaves the stream where encryption started.
  lemma MaskedAfterTag(key: Key, nonce: Nonce, m: seq<byte>)
    ensures Masked(InputAt(key, nonce, 0), 64, m) == Masked(InputAt(key, nonce, 1), 0, m)
  {
    hide KeyBytes;
    hide Advance;
    hide SeekInput;
    SeekNext(key, nonce.first, nonce.second, 0);
    KeyBytesShift(InputAt(key, nonce, 0), 1, 0, |m|);
  }

  // What the header promises of Keystream: the encryption of zeros without its tag.
  lemma KeystreamIsEncryptedZeros(key: Key, nonce: Nonce, aad: seq<byte>, n: nat)
    ensures KeyBytes(InputAt(key, nonce, 1), 0, n) == Seal(key, nonce, aad, Zeros(n))[..n]
  {
    hide Masked;
    hide Authenticate;
    hide KeyBytes;
    SealIs(key, nonce, aad, Zeros(n));
    BareKeystream(InputAt(key, nonce, 1), 0, n);
  }

  class AEADChaCha20Poly1305 {
    const chacha: ChaCha20

    ghost predicate Valid()
      reads chacha, chacha.aligned, chacha.buffer
    {
      chacha.Valid()
    }

    ghost function Key(): Key
      reads chacha
    {
      chacha.start[..8]
    }

    constructor (key: seq<byte>)
      requires |key| == 32
      ensures Valid() && fresh(chacha.Footprint())
      ensures Key() == KeyWords(key)
    {
      chacha := new ChaCha20(key);
    }

    method SetKey(key: seq<byte>)
      requires |key| == 32 && Valid()
      modifies chacha.Footprint()
      ensures Valid() && Key() == KeyWords(key)
    {
      chacha.SetKey(key);
    }

    method Encrypt(plain1: seq<byte>, plain2: seq<byte>, aad: seq<byte>, nonce: Nonce, cipher: array<byte>)
      requires Valid() && cipher.Length == |plain1| + |plain2| + 16 && cipher != chacha.buffer
      modifies chacha.Footprint(), cipher
      ensures Valid() && Key() == old(Key())
      ensures cipher[..] == Seal(Key(), nonce, aad, plain1 + plain2)
    {
      hide Seal;
      hide Masked;
      hide Wrote;
      hide MacData;
      hide Block;
      hide Poly1305Spec.Tag;
      ghost var key, before := Key(), cipher[..];
      var n := |plain1| + |plain2|;
      // starting at block 1
      chacha.Seek(nonce.first, nonce.second, 1);
      chacha.Crypt(plain1, cipher, 0);
      ghost var mid := cipher[..];
      chacha.Crypt(plain2, cipher, |plain1|);
      ghost var ct := Masked(InputAt(key, nonce, 1), 0, plain1 + plain2);
      ChaCha20.CryptMore(before, 0, InputAt(key, nonce, 1), 0, plain1, mid, plain2, cipher[..]);
      WrotePrefix(before, ct, cipher[..]);
      mid := cipher[..];
      // the tag key comes from block 0
      chacha.Seek(nonce.first, nonce.second, 0);
      ComputeTag(chacha, aad, cipher[..n], cipher, n);
      WroteTwice(before, 0, ct, mid, Authenticate(key, nonce, aad, ct), cipher[..]);
      WroteAll(before, ct + Authenticate(key, nonce, aad, ct), cipher[..]);
      SealIs(key, nonce, aad, plain1 + plain2);
    }

    // The first half of Decrypt; the cipher is at block 1 after it.
    method VerifyTag(ct: seq<byte>, tag: seq<byte>, aad: seq<byte>, nonce: Nonce) returns (ok: bool)
      requires Valid() && |tag| == 16
      modifies chacha.Footprint()
      ensures Valid() && Key() == old(Key())
      ensures chacha.start == InputAt(Key(), nonce, 0) && chacha.Pos() == 64
      ensures ok <==> tag == Authenticate(Key(), nonce, aad, ct)
    {
      hide MacData;
      hide Block;
      hide Wrote;
      hide Poly1305Spec.Tag;
      ghost var key := Key();
      chacha.Seek(nonce.first, nonce.second, 0);
      InputKey(key, nonce, 0);
      var expected := new byte[16];
      ghost var blank := expected[..];
      ComputeTag(chacha, aad, ct, expected, 0);
      WroteAll(blank, Authenticate(key, nonce, aad, ct), expected[..]);
      var differ := TimingsafeBcmp(expected[..], tag);
      ok := differ == 0;
    }

    // The second half: both parts from one stretch of keystream.
    method CryptParts(ct: seq<byte>, plain1: array<byte>, plain2: array<byte>)
      requires Valid() && |ct| == plain1.Length + plain2.Length
      requires plain1 != plain2 && plain1 != chacha.buffer && plain2 != chacha.buffer
      modifies chacha.Footprint(), plain1, plain2
      ensures Valid() && chacha.start == old(chacha.start)
      ensures plain1[..] + plain2[..] == Masked(chacha.start, old(chacha.Pos()), ct)
    {
      hide Masked;
      hide Wrote;
      ghost var start, p := chacha.start, chacha.Pos();
      ghost var before1, before2 := plain1[..], plain2[..];
      var head, rest := ct[..plain1.Length], ct[plain1.Length..];
      assert ct == head + rest;
      MaskedConcat(start, p, head, rest);
      chacha.Crypt(head, plain1, 0);
      chacha.Crypt(rest, plain2, 0);
      WroteAll(before1, Masked(start, p, head), plain1[..]);
      WroteAll(before2, Masked(start, p + |head|, rest), plain2[..]);
    }

    method Decrypt(cipher: seq<byte>, aad: seq<byte>, nonce: Nonce, plain1: array<byte>, plain2: array<byte>)
      returns (ok: bool)
      requires Valid() && |cipher| == plain1.Length + plain2.Length + 16
      requires plain1 != plain2 && plain1 != chacha.buffer && plain2 != chacha.buffer
      modifies chacha.Footprint(), plain1, plain2
      ensures Valid() && Key() == old(Key())
      ensures ok <==> Open(Key(), nonce, aad, cipher).Plain?
      ensures ok ==> plain1[..] + plain2[..] == Open(Key(), nonce, aad, cipher).text
      ensures !ok ==> plain1[..] == old(plain1[..]) && plain2[..] == old(plain2[..])
    {
      hide Masked;
      hide Authenticate;
      hide InputAt;
      hide ChaCha20.Valid;
      ghost var key := Key();
      var ct := cipher[..|cipher| - 16];
      ok := VerifyTag(ct, cipher[|cipher| - 16..], aad, nonce);
      if ok {
        MaskedAfterTag(key, nonce, ct);
        CryptParts(ct, plain1, plain2);
      }
    }

    // Keystream of a nonce, without the block that keys the authenticator.
    method Keystream(nonce: Nonce, out: array<byte>)
      requires Valid() && out != chacha.buffer
      modifies chacha.Footprint(), out
      ensures Valid() && Key() == old(Key())
      ensures out[..] == KeyBytes(InputAt(Key(), nonce, 1), 0, out.Length)
    {
      hide Block;
      hide Wrote;
      hide KeyBytes;
      ghost var key, before := Key(), out[..];
      chacha.Seek(nonce.first, nonce.second, 1);
      InputKey(key, nonce, 1);
      chacha.Keystream(out, 0, out.Length);
      WroteAll(before, KeyBytes(InputAt(key, nonce, 1), 0, out.Length), out[..]);
    }
  }
}
