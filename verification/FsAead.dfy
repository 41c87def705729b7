// The forward-secure wrapper of src/crypto/cc20poly1305.cpp: a packet counter, a
// rekey counter and a key that changes every `interval` packets.
module FsAeadSpec {
  import opened Bits
  import opened ChaCha20Spec
  import opened AeadSpec
  import Aead

  // How many packets share a key. `++counter != 0` holds for 2^32 - 1 increments
  // of a 32-bit counter, so interval 0 behaves like 2^32.
  function Epoch(interval: u32): (k: nat)
    ensures 0 < k <= 0x1_0000_0000
  {
    if interval == 0 then 0x1_0000_0000 else interval
  }

  // The first 32 bytes of the keystream of nonce {0xFFFFFFFF, rekeys}, from block 1.
  function NextKey(key: Key, rekeys: u64): Key {
    Aead.KeyWords(Block(InputAt(key, Nonce(0xffff_ffff, rekeys), 1))[..32])
  }

  // The key after n rekeys; the rekey counter is 64 bits wide.
  function KeyAfter(key: Key, n: nat): Key {
    if n == 0 then key else NextKey(KeyAfter(key, n - 1), (n - 1) % TWO64)
  }

  // The nonce of packet number n.
  function PacketNonce(interval: u32, n: nat): Nonce {
    Nonce(n % Epoch(interval), n / Epoch(interval) % TWO64)
  }

  function PacketKey(key: Key, interval: u32, n: nat): Key {
    KeyAfter(key, n / Epoch(interval))
  }

  // The counters, one packet on: the 32-bit increment meets the interval exactly
  // at the end of an epoch.
  lemma EpochStep(interval: u32, n: nat, k: nat, q: nat, c: nat)
    requires k == Epoch(interval) && q == n / k && c == n % k
    ensures (c + 1) % 0x1_0000_0000 == interval <==> c + 1 == k
    ensures c + 1 < k ==> (n + 1) % k == c + 1 && (n + 1) / k == q
    ensures c + 1 == k ==> (n + 1) % k == 0 && (n + 1) / k == q + 1
  {
    MeetsInterval(interval, c);
    hide Epoch;
    Successor(n, k, q, c);
  }

  lemma MeetsInterval(interval: u32, c: nat)
    requires c < Epoch(interval)
    ensures (c + 1) % 0x1_0000_0000 == interval <==> c + 1 == Epoch(interval)
  {}

  lemma Successor(n: nat, k: nat, q: nat, c: nat)
    requires 0 < k && n == k * q + c && c < k
    ensures c + 1 < k ==> (n + 1) % k == c + 1 && (n + 1) / k == q
    ensures c + 1 == k ==> (n + 1) % k == 0 && (n + 1) / k == q + 1
  {
    if c + 1 < k {
      DivModUnique(n + 1, k, q, c + 1);
    } else {
      assert k * (q + 1) == k * q + k;
      DivModUnique(n + 1, k, q + 1, 0);
    }
  }

  lemma FirstPacket(key: Key, interval: u32)
    ensures PacketNonce(interval, 0) == Nonce(0, 0) && PacketKey(key, interval, 0) == key
  {}

  lemma RekeyStep(key: Key, interval: u32, n: nat)
    requires (n + 1) / Epoch(interval) == n / Epoch(interval) + 1
    ensures PacketKey(key, interval, n + 1) == NextKey(PacketKey(key, interval, n), n / Epoch(interval) % TWO64)
    ensures PacketNonce(interval, n + 1).second == (PacketNonce(interval, n).second + 1) % TWO64
  {
    hide NextKey;
    hide Epoch;
    Mod64Step(n / Epoch(interval));
  }

  // One packet on, in the closed form.
  lemma Tick(key: Key, interval: u32, n: nat, counter: u32, rekeys: u64)
    requires PacketNonce(interval, n) == Nonce(counter, rekeys)
    ensures var next := (counter + 1) % 0x1_0000_0000;
      if next != interval then
        && PacketNonce(interval, n + 1) == Nonce(next, rekeys)
        && PacketKey(key, interval, n + 1) == PacketKey(key, interval, n)
      else
        && PacketNonce(interval, n + 1) == Nonce(0, (rekeys + 1) % TWO64)
        && PacketKey(key, interval, n + 1) == NextKey(PacketKey(key, interval, n), rekeys)
  {
    hide NextKey;
    hide Epoch;
    hide KeyAfter;
    EpochStep(interval, n, Epoch(interval), n / Epoch(interval), counter);
    if counter + 1 == Epoch(interval) {
      RekeyStep(key, interval, n);
    }
  }

  lemma Mod64Step(q: nat)
    ensures (q + 1) % TWO64 == (q % TWO64 + 1) % TWO64
  {}

  lemma NextKeyIs(key: Key, rekeys: u64, s: seq<byte>)
    requires s == KeyBytes(InputAt(key, Nonce(0xffff_ffff, rekeys), 1), 0, 64)
    ensures NextKey(key, rekeys) == Aead.KeyWords(s[..32])
  {
    hide KeyBytes;
    hide Block;
    hide Aead.KeyWords;
    FirstBlock(InputAt(key, Nonce(0xffff_ffff, rekeys), 1));
  }

  lemma FsOpenSeal(key: Key, interval: u32, n: nat, aad: seq<byte>, plain: seq<byte>)
    ensures var k, nonce := PacketKey(key, interval, n), PacketNonce(interval, n);
      Open(k, nonce, aad, Seal(k, nonce, aad, plain)) == Plain(plain)
  {
    OpenSeal(PacketKey(key, interval, n), PacketNonce(interval, n), aad, plain);
  }

  // Two different packets never share a key epoch and a nonce ...
  lemma NoncesDistinct(interval: u32, m: nat, n: nat)
    requires m / Epoch(interval) == n / Epoch(interval)
    requires PacketNonce(interval, m) == PacketNonce(interval, n)
    ensures m == n
  {
    var k := Epoch(interval);
    assert m == k * (m / k) + m % k && n == k * (n / k) + n % k;
  }

  // ... and no packet uses the nonce of the rekeying, exactly unless the interval is 0.
  lemma RekeyNonceReserved(interval: u32)
    ensures (forall n: nat :: PacketNonce(interval, n).first != 0xffff_ffff) <==> interval != 0
  {
    if interval == 0 {
      assert PacketNonce(interval, 0xffff_ffff).first == 0xffff_ffff;
    } else {
      forall n: nat ensures PacketNonce(interval, n).first != 0xffff_ffff {
        assert n % interval < interval;
      }
    }
  }

  // Interval 0 and packet 2^32 - 1: the very nonce of the rekeying that follows it.
  lemma RekeyNonceUsed()
    ensures PacketNonce(0, 0xffff_ffff) == Nonce(0xffff_ffff, 0) && EpochEnds(0, 0xffff_ffff)
  {}

  // A packet after which the key changes.
  predicate EpochEnds(interval: u32, n: nat) {
    (n + 1) / Epoch(interval) == n / Epoch(interval) + 1
  }

  // ---- the cipher inputs behind the nonces ----

  // Different nonces are not enough: the block counter carries into the first nonce word,
  // which is the packet counter. This is the cipher input of block j of packet n.
  function PacketInput(key: Key, interval: u32, n: nat, j: nat): Input {
    Advance(InputAt(PacketKey(key, interval, n), PacketNonce(interval, n), 0), j)
  }

  // The one block that makes the next key at the end of an epoch.
  function RekeyInput(key: Key, epoch: nat): Input {
    InputAt(KeyAfter(key, epoch), Nonce(0xffff_ffff, epoch % TWO64), 1)
  }

  // Block 0 keys the authenticator, the blocks from 1 on encrypt.
  lemma PacketBlocks(key: Key, interval: u32, n: nat, b: nat)
    ensures var k, nonce := PacketKey(key, interval, n), PacketNonce(interval, n);
      && PacketInput(key, interval, n, 0) == InputAt(k, nonce, 0)
      && KeyBytes(InputAt(k, nonce, 1), 64 * b, 64) == Block(PacketInput(key, interval, n, b + 1))
  {
    hide Block;
    hide Advance;
    hide KeyBytes;
    var k, nonce := PacketKey(key, interval, n), PacketNonce(interval, n);
    hide PacketKey;
    hide PacketNonce;
    AdvanceZero(InputAt(k, nonce, 0));
    SeekNext(k, nonce.first, nonce.second, 0);
    AdvanceAdvance(InputAt(k, nonce, 0), 1, b);
    WholeBlock(InputAt(k, nonce, 1), b);
  }

  // Within an epoch an input is determined by packet counter and block number, as one number.
  function Place(interval: u32, n: nat, j: nat): nat {
    (j + TWO32 * (n % Epoch(interval))) % TWO64
  }

  // The last two words: the rekey counter, the same for a whole epoch.
  function EpochWords(epoch: nat): seq<u32> {
    var second := epoch % TWO64;
    [second % TWO32, second / TWO32]
  }

  // The twelve words of an input, by key, combined counter and rekey counter.
  predicate Consists(input: Input, key: Key, place: nat, epoch: nat) {
    input[..8] == key && Counter(input) == place && input[10..] == EpochWords(epoch)
  }

  lemma SeekConsists(key: Key, nonce: Nonce, counter: u32, epoch: nat)
    requires nonce.second == epoch % TWO64
    ensures Consists(InputAt(key, nonce, counter), key, counter + TWO32 * nonce.first, epoch)
  {}

  lemma AdvanceConsists(input: Input, key: Key, place: nat, epoch: nat, j: nat)
    requires Consists(input, key, place, epoch)
    ensures Consists(Advance(input, j), key, (j + place) % TWO64, epoch)
  {
    hide Advance;
    hide Counter;
  }

  lemma ConsistsOnce(a: Input, b: Input, key: Key, place: nat, epoch: nat)
    requires Consists(a, key, place, epoch) && Consists(b, key, place, epoch)
    ensures a == b
  {
    hide Counter;
    SameCounter(a, b);
  }

  lemma InputPlace(key: Key, interval: u32, n: nat, j: nat, epoch: nat)
    requires epoch == n / Epoch(interval)
    ensures Consists(PacketInput(key, interval, n, j), KeyAfter(key, epoch), Place(interval, n, j), epoch)
  {
    hide Consists;
    hide Advance;
    hide KeyAfter;
    hide InputAt;
    hide Epoch;
    var nonce := PacketNonce(interval, n);
    SeekConsists(KeyAfter(key, epoch), nonce, 0, epoch);
    AdvanceConsists(InputAt(KeyAfter(key, epoch), nonce, 0), KeyAfter(key, epoch), TWO32 * nonce.first, epoch, j);
  }

  lemma SamePlace(key: Key, interval: u32, m: nat, i: nat, n: nat, j: nat)
    requires m / Epoch(interval) == n / Epoch(interval)
    ensures PacketInput(key, interval, m, i) == PacketInput(key, interval, n, j)
       <==> Place(interval, m, i) == Place(interval, n, j)
  {
    var epoch := m / Epoch(interval);
    InputPlace(key, interval, m, i, epoch);
    InputPlace(key, interval, n, j, epoch);
    var a, b := PacketInput(key, interval, m, i), PacketInput(key, interval, n, j);
    hide PacketInput;
    hide Place;
    hide KeyAfter;
    if Place(interval, m, i) == Place(interval, n, j) {
      ConsistsOnce(a, b, KeyAfter(key, epoch), Place(interval, m, i), epoch);
    } else {
      hide Counter;
    }
  }

  // No two blocks of one key epoch have the same cipher input, if packets are at most so
  // many blocks long, block 0 included.
  ghost predicate NoInputTwice(key: Key, interval: u32, blocks: nat) {
    forall m: nat, i: nat, n: nat, j: nat ::
      (m / Epoch(interval) == n / Epoch(interval) && i < blocks && j < blocks
       && PacketInput(key, interval, m, i) == PacketInput(key, interval, n, j)) ==> m == n && i == j
  }

  // The exact bound: 2^32 blocks, unless every packet has a key of its own.
  lemma InputsDistinct(key: Key, interval: u32, blocks: nat)
    ensures NoInputTwice(key, interval, blocks) <==> blocks <= if Epoch(interval) == 1 then TWO64 else TWO32
  {
    var bound := if Epoch(interval) == 1 then TWO64 else TWO32;
    if blocks <= bound {
      forall m: nat, i: nat, n: nat, j: nat |
        m / Epoch(interval) == n / Epoch(interval) && i < blocks && j < blocks
        && PacketInput(key, interval, m, i) == PacketInput(key, interval, n, j)
        ensures m == n && i == j
      {
        SamePlace(key, interval, m, i, n, j);
        PlacesDistinct(interval, m, i, n, j);
      }
    } else if Epoch(interval) == 1 {
      SamePlace(key, interval, 0, TWO64, 0, 0);
      assert PacketInput(key, interval, 0, TWO64) == PacketInput(key, interval, 0, 0);
    } else {
      InputRepeats(key, interval);
      assert PacketInput(key, interval, 0, TWO32) == PacketInput(key, interval, 1, 0);
    }
  }

  // The failing packets: block 2^32 of packet 0 meets block 0 of packet 1, the block that
  // keys its authenticator.
  lemma InputRepeats(key: Key, interval: u32)
    requires Epoch(interval) != 1
    ensures 0 / Epoch(interval) == 1 / Epoch(interval)
    ensures PacketInput(key, interval, 0, TWO32) == PacketInput(key, interval, 1, 0)
  {
    FirstTwoPlaces(interval);
    hide *;
    SamePlace(key, interval, 0, TWO32, 1, 0);
  }

  lemma FirstTwoPlaces(interval: u32)
    requires Epoch(interval) != 1
    ensures 0 / Epoch(interval) == 1 / Epoch(interval)
    ensures Place(interval, 0, TWO32) == Place(interval, 1, 0)
  {}

  lemma PlacesDistinct(interval: u32, m: nat, i: nat, n: nat, j: nat)
    requires m / Epoch(interval) == n / Epoch(interval) && Place(interval, m, i) == Place(interval, n, j)
    requires (i < TWO32 && j < TWO32) || (Epoch(interval) == 1 && i < TWO64 && j < TWO64)
    ensures m == n && i == j
  {
    var k := Epoch(interval);
    if k == 1 {
      assert m % k == 0 && n % k == 0;
    } else {
      PlaceParts(m % k, i, n % k, j);
    }
    SameQuotient(m, n, k);
  }

  lemma PlaceParts(c: nat, i: nat, c': nat, j: nat)
    requires c < TWO32 && c' < TWO32 && i < TWO32 && j < TWO32
    requires (i + TWO32 * c) % TWO64 == (j + TWO32 * c') % TWO64
    ensures c == c' && i == j
  {}

  lemma SameQuotient(m: nat, n: nat, k: nat)
    requires k > 0 && m / k == n / k && m % k == n % k
    ensures m == n
  {
    assert m == k * (m / k) + m % k && n == k * (n / k) + n % k;
  }

  // The rekey block is clear of all packets of its epoch, again with the exact bound. With
  // interval 0 it is a single block: then already the last packet's first block of text
  // has the input of the rekey block.
  lemma RekeyInputDistinct(key: Key, interval: u32, epoch: nat, blocks: nat)
    ensures (forall n: nat, j: nat :: n / Epoch(interval) == epoch && j < blocks ==>
               PacketInput(key, interval, n, j) != RekeyInput(key, epoch))
       <==> blocks <= TWO32 * (TWO32 - Epoch(interval)) + 1
  {
    var k := Epoch(interval);
    var bound := TWO32 * (TWO32 - k) + 1;
    if blocks <= bound {
      forall n: nat, j: nat | n / k == epoch && j < blocks
        ensures PacketInput(key, interval, n, j) != RekeyInput(key, epoch)
      {
        InputPlace(key, interval, n, j, epoch);
        SeekConsists(KeyAfter(key, epoch), Nonce(0xffff_ffff, epoch % TWO64), 1, epoch);
        BeforeRekey(interval, n, j);
      }
    } else {
      var n := k * epoch + (k - 1);
      DivModUnique(n, k, epoch, k - 1);
      MeetsRekey(key, interval, epoch, n);
      assert PacketInput(key, interval, n, bound) == RekeyInput(key, epoch);
    }
  }

  lemma BeforeRekey(interval: u32, n: nat, j: nat)
    requires j < TWO32 * (TWO32 - Epoch(interval)) + 1
    ensures Place(interval, n, j) < 1 + TWO32 * 0xffff_ffff
  {
    assert n % Epoch(interval) <= Epoch(interval) - 1;
  }

  lemma MeetsRekey(key: Key, interval: u32, epoch: nat, n: nat)
    requires n / Epoch(interval) == epoch && n % Epoch(interval) == Epoch(interval) - 1
    ensures PacketInput(key, interval, n, TWO32 * (TWO32 - Epoch(interval)) + 1) == RekeyInput(key, epoch)
  {
    var j := TWO32 * (TWO32 - Epoch(interval)) + 1;
    assert Place(interval, n, j) == 1 + TWO32 * 0xffff_ffff;
    InputPlace(key, interval, n, j, epoch);
    SeekConsists(KeyAfter(key, epoch), Nonce(0xffff_ffff, epoch % TWO64), 1, epoch);
    hide PacketInput;
    hide Consists;
    hide Place;
    hide KeyAfter;
    hide InputAt;
    ConsistsOnce(PacketInput(key, interval, n, j), RekeyInput(key, epoch), KeyAfter(key, epoch),
                 1 + TWO32 * 0xffff_ffff, epoch);
  }
}

module FsAead {
  import opened Bits
  import opened ChaCha20Spec
  import opened AeadSpec
  import opened FsAeadSpec
  import opened Aead

  class FSChaCha20Poly1305 {
    const aead: AEADChaCha20Poly1305
    const interval: u32
    var packetCounter: u32
    var rekeyCounter: u64

    ghost const initial: Key
    ghost var count: nat // operations so far

    // The closed form of the state after `count` operations.
    ghost predicate Valid()
      reads this, aead, aead.chacha, aead.chacha.aligned, aead.chacha.buffer
    {
      && aead.Valid()
      && PacketNonce(interval, count) == Nonce(packetCounter, rekeyCounter)
      && aead.Key() == PacketKey(initial, interval, count)
    }

    constructor (key: seq<byte>, interval: u32)
      requires |key| == 32
      ensures Valid() && fresh(aead) && fresh(aead.chacha.Footprint())
      ensures this.interval == interval && initial == KeyWords(key) && count == 0
    {
      hide KeyWords;
      hide PacketNonce;
      hide PacketKey;
      FirstPacket(KeyWords(key), interval);
      aead := new AEADChaCha20Poly1305(key);
      this.interval := interval;
      packetCounter, rekeyCounter := 0, 0;
      initial, count := KeyWords(key), 0;
    }

    method NextPacket()
      requires Valid()
      modifies this, aead.chacha.Footprint()
      ensures Valid() && count == old(count) + 1
    {
      hide KeyBytes;
      hide Block;
      hide InputAt;
      hide KeyWords;
      hide NextKey;
      hide PacketKey;
      hide PacketNonce;
      hide AEADChaCha20Poly1305.Valid;
      hide AEADChaCha20Poly1305.Key;
      Tick(initial, interval, count, packetCounter, rekeyCounter);
      ghost var n, rekeys := count, rekeyCounter;
      packetCounter := (packetCounter + 1) % 0x1_0000_0000;
      count := count + 1;
      if packetCounter != interval {
        return;
      }
      var oneBlock := new byte[64];
      aead.Keystream(Nonce(0xffff_ffff, rekeyCounter), oneBlock);
      NextKeyIs(PacketKey(initial, interval, n), rekeys, oneBlock[..]);
      assert oneBlock[..][..32] == oneBlock[..32];
      aead.SetKey(oneBlock[..32]);
      packetCounter, rekeyCounter := 0, (rekeyCounter + 1) % TWO64;
    }

    method Encrypt(plain1: seq<byte>, plain2: seq<byte>, aad: seq<byte>, cipher: array<byte>)
      requires Valid() && cipher.Length == |plain1| + |plain2| + 16 && cipher != aead.chacha.buffer
      modifies this, aead.chacha.Footprint(), cipher
      ensures Valid() && count == old(count) + 1
      ensures cipher[..] == Seal(PacketKey(initial, interval, old(count)), PacketNonce(interval, old(count)),
                                 aad, plain1 + plain2)
    {
      hide Seal;
      hide PacketKey;
      aead.Encrypt(plain1, plain2, aad, Nonce(packetCounter, rekeyCounter), cipher);
      NextPacket();
    }

    method Decrypt(cipher: seq<byte>, aad: seq<byte>, plain1: array<byte>, plain2: array<byte>) returns (ok: bool)
      requires Valid() && |cipher| == plain1.Length + plain2.Length + 16
      requires plain1 != plain2 && plain1 != aead.chacha.buffer && plain2 != aead.chacha.buffer
      modifies this, aead.chacha.Footprint(), plain1, plain2
      ensures Valid() && count == old(count) + 1
      ensures var k, nonce := PacketKey(initial, interval, old(count)), PacketNonce(interval, old(count));
        && (ok <==> Open(k, nonce, aad, cipher).Plain?)
        && (ok ==> plain1[..] + plain2[..] == Open(k, nonce, aad, cipher).text)
      ensures !ok ==> plain1[..] == old(plain1[..]) && plain2[..] == old(plain2[..])
    {
      hide Open;
      hide PacketKey;
      ok := aead.Decrypt(cipher, aad, Nonce(packetCounter, rekeyCounter), plain1, plain2);
      NextPacket();
    }
  }

  datatype Packet = Packet(plain: seq<byte>, aad: seq<byte>)
  // What the network makes of a ciphertext: nothing, or other bytes of a valid length.
  datatype Delivery = Intact | Altered(bytes: seq<byte>)

  // Two objects that start alike and share nothing.
  ghost predicate Peers(sender: FSChaCha20Poly1305, receiver: FSChaCha20Poly1305)
    reads sender, sender.aead, sender.aead.chacha, sender.aead.chacha.aligned, sender.aead.chacha.buffer
    reads receiver, receiver.aead, receiver.aead.chacha, receiver.aead.chacha.aligned, receiver.aead.chacha.buffer
  {
    && sender.Valid() && receiver.Valid()
    && {sender} + sender.aead.chacha.Footprint() !! {receiver} + receiver.aead.chacha.Footprint()
    && sender.initial == receiver.initial && sender.interval == receiver.interval
    && sender.count == receiver.count
  }

  predicate Deliverable(d: Delivery) {
    d.Altered? ==> |d.bytes| >= 16
  }

  // One packet from the sender to the receiver.
  method RelayOne(sender: FSChaCha20Poly1305, receiver: FSChaCha20Poly1305, p: Packet, d: Delivery)
    returns (r: Opened)
    requires Peers(sender, receiver) && Deliverable(d)
    modifies sender, sender.aead.chacha.Footprint(), receiver, receiver.aead.chacha.Footprint()
    ensures Peers(sender, receiver) && sender.count == old(sender.count) + 1
    ensures d.Intact? ==> r == Plain(p.plain)
    ensures d.Altered? ==> r == Open(PacketKey(receiver.initial, receiver.interval, old(receiver.count)),
                                     PacketNonce(receiver.interval, old(receiver.count)), p.aad, d.bytes)
  {
    hide Seal;
    hide Open;
    hide PacketKey;
    hide PacketNonce;
    hide FSChaCha20Poly1305.Valid;
    var cipher := new byte[|p.plain| + 16];
    FsOpenSeal(sender.initial, sender.interval, sender.count, p.aad, p.plain);
    assert p.plain + [] == p.plain;
    sender.Encrypt(p.plain, [], p.aad, cipher);
    var wire := if d.Intact? then cipher[..] else d.bytes;
    var plain, none := new byte[|wire| - 16], new byte[0];
    var ok := receiver.Decrypt(wire, p.aad, plain, none);
    assert plain[..] + none[..] == plain[..];
    r := if ok then Plain(plain[..]) else Forged;
  }

  // A sender and a receiver with the same key and interval, from the same packet
  // number on: every packet that arrives intact opens to what was sent, whatever
  // happened to the packets before it.
  method Relay(sender: FSChaCha20Poly1305, receiver: FSChaCha20Poly1305, packets: seq<Packet>,
               deliveries: seq<Delivery>) returns (received: seq<Opened>)
    requires Peers(sender, receiver)
    requires |packets| == |deliveries| && forall i :: 0 <= i < |deliveries| ==> Deliverable(deliveries[i])
    modifies sender, sender.aead.chacha.Footprint(), receiver, receiver.aead.chacha.Footprint()
    ensures Peers(sender, receiver) && sender.count == old(sender.count) + |packets|
    ensures |received| == |packets|
    ensures forall i :: 0 <= i < |packets| && deliveries[i].Intact? ==> received[i] == Plain(packets[i].plain)
  {
    hide *;
    received := [];
    for i := 0 to |packets|
      invariant |received| == i
      invariant Peers(sender, receiver) && sender.count == old(sender.count) + i
      invariant forall j :: 0 <= j < i && deliveries[j].Intact? ==> received[j] == Plain(packets[j].plain)
    {
      var r := RelayOne(sender, receiver, packets[i], deliveries[i]);
      received := received + [r];
    }
  }
}
