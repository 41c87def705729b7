# remc in Dafny

remc is a small encrypted client and server. This project models the part of it in
which a mistake would be silent: the ciphers, the byte queue and the packet format
above them, the order of events in a session, and the diff, patch and merge
algorithms of the JSON library it carries. The model follows the C++ code branch by
branch. Each imperative function is a method over fields and arrays, proved against a
specification function or property: the polynomial and the block function of RFC 8439,
a contiguous keystream, a queue, the MergePatch function of RFC 7396. Where the code is
itself the only definition, as for the operations of a JSON Patch, the function states
the outcome of every branch, and laws proved about that function say what it means for a
caller. The promises of the code are lemmas about these functions or theorems over whole
runs. The specification functions are themselves tied to the standards and to the bytes on
the wire by lemmas that do not follow their bodies: the tag as a written-out polynomial, the
rounds on the 4 by 4 state, a test vector, key and nonce as bytes, field offsets, and the
shape of a diff.

| file | contents |
|---|---|
| `Wrappers.dfy` | optional values and results |
| `Bits.dfy` | 8, 32 and 64 bit words, bitwise operators, little-endian byte strings, output spans |
| `Poly1305.dfy` | the polynomial of section 2.5 of RFC 8439, the 26-bit limb arithmetic, the streaming context |
| `ChaCha20.dfy` | the block function and keystream of RFC 8439, the aligned cipher, the buffered cipher |
| `Aead.dfy` | AEAD_CHACHA20_POLY1305, section 2.8 of RFC 8439 |
| `FsAead.dfy` | the rekeying wrapper in closed form, and its runs |
| `RingBuffer.dfy` | the byte ring as a queue of messages, and its runs |
| `Packet.dfy` | the bitsery encoding that is used, `CreatePacket`, `ReadPacket` |
| `Sessions.dfy` | the write pump and the nonce counters as state machines |
| `JsonPointer.dfy` | JSON values, pointers (RFC 6901), escaping |
| `JsonPatch.dfy` | JSON Patch (RFC 6902), `diff` |
| `JsonMerge.dfy` | JSON Merge Patch (RFC 7396) |
| `JsonDestroy.dfy` | the release of a value with an explicit stack |

Words are ranges of the integers. An assignment such as `var d: u64 := ...` is a proof
that the C++ expression does not overflow; where the source relies on wrap-around, a
remainder is written out. The bitwise operators are recursions over binary digits, so
the masks of the limb code and the exclusive or of the cipher are reasoned about, not
assumed.

Main results:

* **Poly1305.** For every key, every message and every way of cutting the message into
  updates, the tag is that of RFC 8439 (`Poly1305.TagOfChunks`). Below it: the five
  overlapping loads are the base 2^26 digits of a block, the four clamp masks are the
  128-bit clamp, one loop round is one Horner step modulo 2^130 - 5 without overflow
  and restores the limb bounds, a single carry pass is enough at the end, the mask
  selects the reduced value, and repacking into 32-bit words loses only bits at 2^128
  and above.
* **ChaCha20.** Any sequence of `Crypt` and `Keystream` calls of any lengths is one
  pass over one contiguous keystream (`ChaCha20.PerformAll`), with the counter carrying
  into the first nonce word.
* **AEAD.** `Decrypt` returns true exactly for the ciphertexts that `Encrypt` produces
  for that key, nonce and associated data, and gives the plaintext back for any split
  (`AeadSpec.OpenSeal`, `AeadSpec.SealOpen`, and the contracts of both methods). It
  relies on `ComputeTag` leaving the stream at block 1, which is part of its contract.
* **Rekeying.** After any number of operations the counters and the key have a closed
  form, so two ends that start alike stay in step, whatever happens to packets on the
  way (`FsAead.Relay`). The block counter carries into the packet counter, so distinct
  nonces alone do not keep keystreams apart: within an epoch no cipher input is used twice
  exactly if no packet needs more than 2^32 blocks (`FsAeadSpec.InputsDistinct`, with the
  failing packets in `FsAeadSpec.InputRepeats`), and none
  meets the rekey block within an exact bound as well (`FsAeadSpec.RekeyInputDistinct`).
* **Ring buffer.** In every run of Push, Pop, Clear, Swap and move on two rings, also onto
  themselves and with failing allocations, each call answers as two bounded queues of byte
  strings do (`RingBuffer.RunOps`, `RingBuffer.FirstInFirstOut`).
* **Packets.** A created packet followed by any bytes reads back as the original
  payload exactly when the clock difference is acceptable (`Packet.PacketRoundTrip`), and
  an encrypted packet reads as nothing but what was sealed in it
  (`Packet.ReadsWhatWasSealed`).
* **Sessions.** Every accepted packet is handed to the socket, in order
  (`WritePump.Run`). Each side derives the nonce of an incoming packet from its counter
  when a pool thread gets to parse it. In any interleaving that nonce is the one the packet
  was sealed with exactly when two delays cancel modulo 2^32: the packets outstanding at
  the write and those that overtook the parse (`NonceProtocol.RequestNonce`,
  `NonceProtocol.ReplyNonce`). Then the packet reads as what was sent
  (`NonceProtocol.RequestArrives`, `NonceProtocol.ReplyArrives`). In a stop-and-wait run
  both delays are always zero.
* **JSON.** `patch(diff(s, t))` applied to `s` succeeds and gives `t`, for all values
  (`JsonPatch.PatchOfDiff`), and a nested patch is not seen from any place apart from its
  own (`JsonPatch.DiffApart`). In-place `merge_patch` is the function of RFC 7396
  (`JsonMerge.MergeAt`). `destroy` ends and releases every descendant once
  (`JsonDestroy.Destroy`).

Where the code does something other than its comments or its names promise, the model
follows the code and says exactly when:

* A rekey interval of 0 is not "never": the 32-bit packet counter meets it on
  overflow, so it acts as 2^32. It is also the only interval with which a packet can
  use the nonce that rekeying uses (`FsAeadSpec.RekeyNonceReserved`; packet 2^32 - 1
  does, `FsAeadSpec.RekeyNonceUsed`).
* The write pump pops before the socket write has completed, so the queue is empty
  between any two handlers and does not keep socket writes apart: at most one is in
  flight exactly in the runs that post only while none is
  (`WritePump.OneWriteAtATime`; two posts in a row are a failing run,
  `WritePump.TwoInFlight`).
* Two requests before the first reply, or one parse overtaken by one receive, already make
  the two ends use different nonces for one packet (`NonceProtocol.TwoRequestsAtOnce`,
  `NonceProtocol.LateParse`).
* The 64-bit message counter is cut to 32 bits as the AEAD nonce
  (`Packet.NonceRepeats`).
* `Packet::GetTag` is empty, not the tag, for an encrypted packet without payload
  (`Packet.TagOfCreated`, `Packet.TagOfEmpty`).
* `ReadPacket` already removes the tag, so `GetPayloadAsString` on its result drops 16
  bytes of data or everything (`Packet.PayloadStringAfterRead`, `Packet.PayloadLost`).
* The authenticated header is the bitsery buffer without trimming: 34 bytes and 94
  zeros, always (`Packet.SerializeHeader`).
* The clock difference is unsigned, so a timestamp in the future is rejected like an old
  one (`Packet.PacketRoundTrip`, `Packet.FutureRejected`).
* A JSON Patch `move` whose second half fails has already removed the value; every other
  failing operation leaves the document alone (`JsonPatch.FailureKeepsDocument`,
  `JsonPatch.MoveCanLose`).
* A `remove` can report success and remove nothing: exactly if the parent of its path exists
  and is neither object nor array (`JsonPatch.SilentRemove`,
  `JsonPatch.RemoveFindsNothing`).

Definitions without a contract of their own carry the model of expressions and pure code;
the rows below state what holds of them. `JsonPatch.ApplyOp`, `Perform`, `Add`,
`Remove`, `Replace`, `AddTo`, `RemoveFrom` and `Moved` are the effect of one operation
(`libs/nlohmann/json.hpp:4844-5073`), which the methods of `JsonPatch.Document` have in place,
`JsonPatch.Child` and `At` are `get_checked`
(`libs/nlohmann/detail/json_pointer.hpp:459-508`), `JsonPointer.Split`, `Escape`,
`Unescape` and `ArrayIndex` are the pointer functions of the same names, `Packet.Reading`
is the result of `ReadPacket` as a function, and `ChaCha20Spec`, `Poly1305Spec`,
`AeadSpec` are the RFC.

## Model

| member | source | states |
|---|---|---|
| Bits.LERoundTrip | src/include/remc_utils.h:72-83 | reading a little-endian value back gives what was written, for every width |
| Bits.ToLERoundTrip | src/include/remc_utils.h:72-83 | writing the value of any byte string gives that string |
| Bits.WriteLE | src/include/remc_utils.h:79-83 | exactly the addressed bytes of the array change, to the little-endian form |
| Bits.WroteIs | src/include/remc_utils.h:79-83 | what a write leaves, position by position: the new bytes where they belong, the old ones everywhere else |
| Poly1305Limbs.LoadedDigits | src/crypto/poly1305.cpp:66-70 | the five overlapping 32-bit loads, shifted and cut, are the base 2^26 digits of the 16-byte number |
| Poly1305Limbs.ClampIsRfc | src/crypto/poly1305.cpp:13-18 | the five limb masks together are the 128-bit clamp of RFC 8439 |
| Poly1305Limbs.PadWords | src/crypto/poly1305.cpp:27-31 | the four pad words are the second half of the key |
| Poly1305Limbs.Product | src/crypto/poly1305.cpp:72-77 | the five sums with the factors 5r are the product h * r up to a multiple of 2^130 - 5 |
| Poly1305Limbs.AddBlock | src/crypto/poly1305.cpp:65-70 | adding a block and the high bit adds their values, and no 32-bit limb overflows |
| Poly1305Limbs.Carry | src/crypto/poly1305.cpp:79-86 | the partial reduction keeps the value modulo 2^130 - 5, re-establishes the limb bounds, and nothing overflows |
| Poly1305Limbs.MulReduce | src/crypto/poly1305.cpp:72-86 | multiplication by r modulo 2^130 - 5 in 32 and 64 bit words without overflow |
| Poly1305Limbs.Round | src/crypto/poly1305.cpp:64-90 | one loop round is one Horner step and keeps the limb bounds |
| Poly1305Limbs.FullCarry | src/crypto/poly1305.cpp:115-127 | a single carry pass leaves every limb below 2^26 and keeps the value modulo 2^130 - 5 |
| Poly1305Limbs.MinusP | src/crypto/poly1305.cpp:129-134 | the borrow bit is clear exactly if h >= 2^130 - 5, and then the limbs hold the difference |
| Poly1305Limbs.Select | src/crypto/poly1305.cpp:136-148 | the masks select all limbs of one operand by the borrow bit alone |
| Poly1305Limbs.Repack | src/crypto/poly1305.cpp:150-154 | the four 32-bit words hold the limbs' value modulo 2^128 |
| Poly1305Limbs.AddPad | src/crypto/poly1305.cpp:156-160 | the word additions with carry are addition modulo 2^128 |
| Poly1305Limbs.MacWords | src/crypto/poly1305.cpp:115-160 | the tag words hold ((h mod 2^130 - 5) + pad) mod 2^128 |
| Poly1305Limbs.WriteWords | src/crypto/poly1305.cpp:162-165 | the four words are written as one 16-byte little-endian number, nothing else changes |
| Poly1305Spec.HornerConcat | src/crypto/poly1305.cpp:64-90 | blocks processed in two calls or in one give the same accumulator |
| Poly1305Spec.AbsorbBlocks | src/crypto/poly1305.cpp:38-39 | whole blocks with the bit at 2^128 are the full chunks of RFC 8439 |
| Poly1305Spec.AbsorbTail | src/crypto/poly1305.cpp:105-113 | a last chunk padded with 1 and zeros, without the high bit, is the short chunk of RFC 8439 |
| Poly1305Spec.AbsorbIsPolynomial | src/crypto/poly1305.cpp:37-113 | over q chunks the accumulator is c_1 r^q + ... + c_q r modulo 2^130 - 5, each c its chunk with a 1 byte behind it, and 0 for no chunk |
| Poly1305Spec.TagIsPolynomial | src/crypto/poly1305.cpp:12-182 | the tag from the bytes of the key: clamped first half as r, the polynomial modulo 2^130 - 5, plus the second half, low 16 bytes |
| Poly1305Spec.TagOfNothing | src/crypto/poly1305.cpp:106 | without a message no block is processed and the tag is the second half of the key |
| Poly1305.Context.constructor | src/crypto/poly1305.cpp:12-35 | establishes the streaming invariant for the key and the empty message |
| Poly1305.Context.Blocks | src/crypto/poly1305.cpp:37-97 | from any state within the limb bounds, the new value is the Horner evaluation over all whole blocks, bounds kept |
| Poly1305.Context.AbsorbWhole | src/crypto/poly1305.cpp:200-208 | whole blocks extend the absorbed part of the message |
| Poly1305.Context.Append | src/crypto/poly1305.cpp:213-215 | the copy loop appends to the tail in the buffer |
| Poly1305.Context.TopUp | src/crypto/poly1305.cpp:187-198 | filling up the buffer splits the input without loss |
| Poly1305.Context.Update | src/crypto/poly1305.cpp:184-217 | the message so far grows by the input; fewer than 16 bytes stay in the buffer and they are exactly the unprocessed tail |
| Poly1305.Context.UpdateWhole | src/crypto/poly1305.cpp:204-216 | with nothing left over, whole blocks are absorbed and the tail is kept |
| Poly1305.Context.PadBuffer | src/crypto/poly1305.cpp:107-110 | a 1 byte and zeros follow the tail |
| Poly1305.Context.AbsorbLast | src/crypto/poly1305.cpp:105-113 | the accumulator is then the polynomial of the whole message |
| Poly1305.Context.Finish | src/crypto/poly1305.cpp:99-182 | writes the RFC 8439 tag of the key and of everything passed to update, nothing else; r, h and pad are zero afterwards, the leftover count and the final flag are not reset |
| Poly1305.TagOfChunks | src/crypto/poly1305.h:42-62 | init, any updates, finish: the tag is that of the concatenation, however it is cut |
| ChaCha20Spec.Advance | src/crypto/chacha20.h:18-21 | n blocks on, words 8 and 9 hold the old 64-bit count plus n modulo 2^64, all other words are unchanged |
| ChaCha20Spec.AdvanceAdvance | src/crypto/chacha20.cpp:110-136 | generating m and then n blocks leaves the state of m + n blocks |
| ChaCha20Spec.SeekNext | src/crypto/chacha20.cpp:38-43 | one generated block leads to the state that a Seek to the next counter sets |
| ChaCha20Spec.KeyBytesSplit | src/crypto/chacha20.cpp:262-280 | a stretch of keystream is its first part followed by the stretch from there |
| ChaCha20Spec.KeyBytesShift | src/crypto/chacha20.cpp:130-134 | the stream from a state k blocks on is the stream from byte 64k |
| ChaCha20Spec.MaskedConcat | src/crypto/chacha20.cpp:282-306 | a message in two parts is enciphered as in one |
| ChaCha20Spec.MaskedTwice | src/crypto/chacha20.h:101-103 | enciphering and deciphering are one operation, its own inverse |
| ChaCha20Spec.RotlIs | src/crypto/chacha20.cpp:14-18 | each of the four rotations is a shift up with what leaves the word coming in below |
| ChaCha20Spec.QuarterRoundVector | src/crypto/chacha20.cpp:14-18 | the quarter round gives the test vector of section 2.1.1 of RFC 8439 |
| ChaCha20Spec.InnerBlockIs | src/crypto/chacha20.cpp:82-91 | the eight quarter rounds are one on every column of the 4 by 4 state, then one on every diagonal |
| ChaCha20Spec.BlockWordsIs | src/crypto/chacha20.cpp:63-108 | a block is ten double rounds of the initial state, added to it word by word |
| ChaCha20Spec.InitialStateBytes | src/crypto/chacha20.cpp:64-79 | the initial state, as bytes, is "expand 32-byte k" and the input |
| ChaCha20Spec.SeekInputBytes | src/crypto/chacha20.cpp:38-43 | after a Seek the input, as bytes, is key, block counter, and both parts of the nonce, all little-endian |
| ChaCha20Spec.CounterBytes | src/crypto/chacha20.cpp:110-111 | the position is the little-endian number in bytes 32 to 40 of the input |
| ChaCha20.KeyInputBytes | src/crypto/chacha20.cpp:22-36 | the loaded words, as bytes, are the key followed by 16 zeros, for every key |
| ChaCha20.Quarter | src/crypto/chacha20.cpp:14-18 | four in-place updates are the quarter round of section 2.1 of RFC 8439 on these words only |
| ChaCha20.MixBlock | src/crypto/chacha20.cpp:63-108 | the unrolled rounds and the feed-forward give the block of section 2.3 of RFC 8439 |
| ChaCha20.NextAdvances | src/crypto/chacha20.cpp:110-111 | the two 32-bit increments are one step of a 64-bit counter with wrap-around |
| ChaCha20.WriteBlock | src/crypto/chacha20.cpp:113-128 | writes the 64 bytes of a block and nothing else |
| ChaCha20.XorBlock | src/crypto/chacha20.cpp:214-229 | every word is combined with its own four message bytes |
| ChaCha20.SerializeXor | src/crypto/chacha20.cpp:214-249 | combining words and then writing them equals combining bytes |
| ChaCha20.ChaCha20Aligned.constructor | src/crypto/chacha20.h:41-42 | key words loaded, position zero |
| ChaCha20.ChaCha20Aligned.SetKey | src/crypto/chacha20.cpp:22-36 | key words loaded, position zero |
| ChaCha20.ChaCha20Aligned.Seek | src/crypto/chacha20.cpp:38-43 | sets counter and nonce and keeps the key |
| ChaCha20.ChaCha20Aligned.Keystream | src/crypto/chacha20.cpp:45-138 | writes that many bytes of the stream and advances by the number of blocks, none included |
| ChaCha20.ChaCha20Aligned.Crypt | src/crypto/chacha20.cpp:140-260 | equals exclusive or with Keystream from the same state, with the same new state |
| ChaCha20.ChaCha20.constructor | src/crypto/chacha20.h:79 | at position 0 of the key's stream |
| ChaCha20.ChaCha20.SetKey | src/crypto/chacha20.cpp:308-312 | forgets buffered bytes; at position 0 of the new key's stream |
| ChaCha20.ChaCha20.Seek | src/crypto/chacha20.h:96-99 | forgets buffered bytes; at the start of the sought block, same key |
| ChaCha20.ChaCha20.Buffered | src/crypto/chacha20.cpp:264-269 | the reused bytes of the buffer are the next bytes of the stream |
| ChaCha20.ChaCha20.Refill | src/crypto/chacha20.cpp:275-279 | a fresh block in the buffer continues the stream |
| ChaCha20.ChaCha20.Whole | src/crypto/chacha20.cpp:270-274 | whole blocks from the aligned cipher continue the stream |
| ChaCha20.ChaCha20.CryptWhole | src/crypto/chacha20.cpp:294-299 | whole blocks of a message meet the next bytes of the stream |
| ChaCha20.ChaCha20.KeystreamAligned | src/crypto/chacha20.cpp:270-279 | with an empty buffer, the output is the next n bytes of the stream |
| ChaCha20.ChaCha20.Keystream | src/crypto/chacha20.cpp:262-280 | the output is the next n bytes of the stream and the position moves by n |
| ChaCha20.ChaCha20.CryptAligned | src/crypto/chacha20.cpp:294-305 | with an empty buffer, the message meets the next bytes of the stream |
| ChaCha20.ChaCha20.Crypt | src/crypto/chacha20.cpp:282-306 | the output is the message combined with the next bytes of the stream, the position moves by its length |
| ChaCha20.BareKeystream | src/crypto/chacha20.h:111-112 | Keystream output is the encryption of zeros |
| ChaCha20.Perform | src/crypto/chacha20.cpp:262-306 | a Crypt and a Keystream call have one common meaning |
| ChaCha20.PerformAll | src/crypto/chacha20.cpp:262-306 | the outputs of any calls of any lengths, joined, are the joined inputs combined with one contiguous stretch of keystream |
| AeadSpec.OpenSeal | src/crypto/cc20poly1305.h:60-85 | what was sealed opens to itself |
| AeadSpec.SealOpen | src/crypto/cc20poly1305.cpp:81-91 | whatever opens is the sealing of what it opened to, so nothing else is accepted |
| AeadSpec.InputAtBytes | src/crypto/chacha20.cpp:38-43 | the cipher input of a block, as bytes: key, block counter, first and second nonce part |
| AeadSpec.SealBytes | src/crypto/cc20poly1305.cpp:19-67 | a sealed packet is the text combined with the stream from block 1, and the tag of associated data and ciphertext under the start of block 0 |
| AeadSpec.OpenBytes | src/crypto/cc20poly1305.cpp:69-91 | ciphertext and tag open exactly if the tag is that one, to the ciphertext combined with the stream from block 1 |
| AeadSpec.AlteredPacket | src/crypto/cc20poly1305.cpp:34-49 | a packet with altered ciphertext or associated data opens exactly if two authenticated strings, which are different, have the same tag |
| AeadSpec.MacDataBlocks | src/crypto/cc20poly1305.cpp:34-45 | the authenticated string is a whole number of 16-byte blocks |
| AeadSpec.MacDataInjective | src/crypto/cc20poly1305.cpp:34-45 | the authenticated string determines associated data and ciphertext, for lengths below 2^64 |
| Aead.TimingsafeBcmp | src/crypto/cc20poly1305.cpp:11-17 | 0 exactly if all bytes agree, else 1 |
| Aead.ComputeTag | src/crypto/cc20poly1305.cpp:19-49 | writes the tag under the one-time key of block 0 and leaves the stream at byte 64 |
| Aead.MacDataParts | src/crypto/cc20poly1305.cpp:36-45 | the five updates pass exactly the string of section 2.8 of RFC 8439 |
| Aead.MaskedAfterTag | src/crypto/cc20poly1305.cpp:87-89 | continuing after the tag equals starting at block 1 |
| Aead.KeystreamIsEncryptedZeros | src/crypto/cc20poly1305.h:87-92 | the keystream of a nonce is the encryption of zeros without its tag |
| Aead.AEADChaCha20Poly1305.constructor | src/crypto/cc20poly1305.h:31-33 | holds the given key |
| Aead.AEADChaCha20Poly1305.SetKey | src/crypto/cc20poly1305.h:40-44 | switches to the given key |
| Aead.AEADChaCha20Poly1305.Encrypt | src/crypto/cc20poly1305.cpp:51-67 | the output is the RFC 8439 sealing of plain1 and plain2 joined, for any split |
| Aead.AEADChaCha20Poly1305.VerifyTag | src/crypto/cc20poly1305.cpp:77-85 | true exactly for the genuine tag; the stream is at byte 64 afterwards |
| Aead.AEADChaCha20Poly1305.CryptParts | src/crypto/cc20poly1305.cpp:87-89 | both parts joined are the whole ciphertext combined with one stretch of keystream |
| Aead.AEADChaCha20Poly1305.Decrypt | src/crypto/cc20poly1305.cpp:69-91 | true exactly if the ciphertext opens; then both parts joined are the plaintext, otherwise the outputs are untouched |
| Aead.AEADChaCha20Poly1305.Keystream | src/crypto/cc20poly1305.cpp:93-97 | the stream of the nonce from block 1 on |
| FsAeadSpec.EpochStep | src/crypto/cc20poly1305.cpp:100 | the 32-bit increment meets the interval exactly at the end of an epoch, also for interval 0 |
| FsAeadSpec.Tick | src/crypto/cc20poly1305.cpp:99-113 | one packet on in the closed form is the counter update and rekeying of the code |
| FsAeadSpec.NextKeyIs | src/crypto/cc20poly1305.cpp:104-107 | the next key is the first half of block 1 under the rekey nonce |
| FsAeadSpec.FsOpenSeal | src/crypto/cc20poly1305.cpp:115-133 | packet n opens under the key and nonce of packet n |
| FsAeadSpec.NoncesDistinct | src/crypto/cc20poly1305.cpp:120 | two packets of one key epoch never share a nonce |
| FsAeadSpec.RekeyNonceReserved | src/crypto/cc20poly1305.cpp:105 | no packet uses the first word of the rekey nonce, if and only if the interval is not 0 |
| FsAeadSpec.RekeyNonceUsed | src/crypto/cc20poly1305.cpp:100-105 | with interval 0, packet 2^32 - 1 has the nonce of the rekeying that follows it |
| FsAeadSpec.PacketBlocks | src/crypto/cc20poly1305.cpp:59-66 | the cipher inputs of a packet: block 0 keys the authenticator, block b + 1 enciphers bytes 64b on |
| FsAeadSpec.InputsDistinct | src/crypto/cc20poly1305.cpp:99-122 | within a key epoch no two blocks have the same cipher input, if and only if no packet exceeds 2^32 blocks, or 2^64 if every packet has its own key |
| FsAeadSpec.InputRepeats | src/crypto/chacha20.cpp:110-111 | block 2^32 of packet 0 has the cipher input of block 0 of packet 1 |
| FsAeadSpec.RekeyInputDistinct | src/crypto/cc20poly1305.cpp:104-107 | no packet of the epoch has the cipher input of the rekey block, if and only if its blocks stay within 2^32 (2^32 - k) + 1 for an epoch of k packets |
| FsAead.FSChaCha20Poly1305.constructor | src/crypto/cc20poly1305.h:125-126 | packet 0 of the given key |
| FsAead.FSChaCha20Poly1305.NextPacket | src/crypto/cc20poly1305.cpp:99-113 | keeps the closed form: counter n mod k, rekeys n div k, key rekeyed n div k times |
| FsAead.FSChaCha20Poly1305.Encrypt | src/crypto/cc20poly1305.cpp:115-122 | seals as packet n of the initial key and moves on by one |
| FsAead.FSChaCha20Poly1305.Decrypt | src/crypto/cc20poly1305.cpp:124-133 | opens as packet n of the initial key and moves on by one, also if it returns false |
| FsAead.RelayOne | src/crypto/cc20poly1305.cpp:115-133 | one packet keeps both ends in step; if it arrives intact it opens to what was sent |
| FsAead.Relay | src/crypto/cc20poly1305.cpp:115-133 | over any run, every packet that arrives intact opens to what was sent, whatever happened to earlier ones |
| RingBuffer.FirstRecord | src/include/ring_buffer.h:110-115 | prefix and message can be read back from the concatenated records, leaving the rest |
| RingBuffer.RingBuffer.Create | src/include/ring_buffer.h:22-26 | fails exactly for capacity 0, otherwise an empty queue of that capacity |
| RingBuffer.RingBuffer.constructor | src/include/ring_buffer.h:22-26 | an empty ring with one byte more than the capacity |
| RingBuffer.RingBuffer.SpaceConserved | src/include/ring_buffer.h:142-146 | free bytes and stored records with their prefixes add up to the capacity |
| RingBuffer.RingBuffer.EmptyQueue | src/include/ring_buffer.h:131 | head equals tail exactly if no message is stored |
| RingBuffer.RingBuffer.CopyIn | src/include/ring_buffer.h:56-72 | appends to the bytes between tail and head, across the end of the array or not |
| RingBuffer.RingBuffer.Push | src/include/ring_buffer.h:48-81 | succeeds exactly if the message is not empty, fits and has a representable length; it then is last in the queue; a failure changes nothing |
| RingBuffer.RingBuffer.CopyOut | src/include/ring_buffer.h:93-108 | reads the next bytes after a position, across the end of the array or not |
| RingBuffer.RingBuffer.Pop | src/include/ring_buffer.h:86-121 | gives the first message and removes it, or nothing from an empty queue; if the message cannot be allocated, an exception and an unchanged ring |
| RingBuffer.RingBuffer.Clear | src/include/ring_buffer.h:129 | the queue is empty, for every prefix type |
| RingBuffer.RingBuffer.Swap | src/include/ring_buffer.h:123-127 | the queues and their storage change places |
| RingBuffer.RingBuffer.MoveFrom | src/include/ring_buffer.h:33-40 | the queue moves; the source is left empty without storage; self-assignment changes nothing |
| RingBuffer.FirstInFirstOut | src/include/ring_buffer.h:28-129 | in every run on two rings, for each queue accepted messages are those gone followed by those stored, in order, within the capacity |
| RingBuffer.StepIs | src/include/ring_buffer.h:28-129 | what each call does to the queue it names and that it leaves the other alone; Swap exchanges both |
| RingBuffer.RunOn | src/include/ring_buffer.h:48-129 | a Push, Pop or Clear answers and changes a ring as the queue does |
| RingBuffer.RunOp | src/include/ring_buffer.h:28-129 | one call on a pair of rings, Swap and move included, answers and changes them as a pair of queues |
| RingBuffer.RunOps | src/include/ring_buffer.h:28-129 | every run of Push, Pop, Clear, Swap and move assignment on two rings gives the replies and the contents of two bounded queues |
| Bitsery.SizeRoundTrip | libs/bitsery/details/adapter_common.h:66-108 | the 1, 2 and 4 byte size forms read back, whatever follows |
| Bitsery.SizeBytesIs | libs/bitsery/details/adapter_common.h:91-108 | the three forms as numbers: which length a size takes, in which byte order, with which marker |
| Bitsery.ReadSizeIs | libs/bitsery/details/adapter_common.h:66-89 | what any bytes read as, if and only if, shortest form or not |
| Bitsery.OutputBuffer.Write | libs/bitsery/adapter/buffer.h:270-299 | appends at the offset and states how the vector grows |
| Bitsery.OutputBuffer.GrownSizeIs | libs/bitsery/traits/core/std_defaults.h:96-112 | the vector grows to the largest of what is needed, what is allocated, and half as much again and 128 bytes in whole cache lines |
| Packet.NoCryptoBit | src/net/packet.h:25-31 | encryption is off exactly if the lowest flag bit is set, as in test messages |
| Packet.HeaderRoundTrip | src/net/packet.cpp:32-40 | a header decodes to itself, whatever follows |
| Packet.HeaderLayout | src/net/packet.cpp:32-40 | offset, width and order of every header field |
| Packet.HeaderParseBack | src/net/packet.cpp:32-40 | any 34 bytes are the encoding of the header they parse to |
| Packet.DeserializeSerialize | src/net/packet.cpp:42-48 | decoding inverts encoding and ignores trailing bytes, for payloads within message_size |
| Packet.DeserializeIs | src/net/packet.cpp:42-48 | a buffer decodes to a packet if and only if it holds its header, its size in any form, and its payload, within message_size |
| Packet.DeserializeRefuses | src/net/packet.cpp:130-136 | a buffer is refused exactly if it is too short for header, size or payload, or the size exceeds message_size |
| Packet.WriteHeader | src/net/packet.cpp:32-40 | 34 header bytes in a vector of 128 |
| Packet.SerializeHeader | src/net/packet.cpp:85-87 | the associated data is the header and 94 zeros, independent of the allocator |
| Packet.SerializePacket | src/net/packet.cpp:100-103 | the result is the encoded packet followed only by zeros |
| Packet.NonceRepeats | src/net/packet.cpp:94 | two counters give one nonce if and only if they differ by a multiple of 2^32, for example 0 and 2^32 |
| Packet.NonceOfBytes | src/net/packet.cpp:94 | in the cipher input the counter is its low four bytes behind the block counter, then eight zeros |
| Packet.MadePacketIs | src/net/packet.cpp:74-98 | a created packet: fields in clear, message_size with the tag, payload sealed with the encoded header and 94 zeros as associated data |
| Packet.CreatePacket | src/net/packet.cpp:53-104 | an error exactly for an oversized payload or an empty key, a failed assertion exactly for encryption under a key of another length than 32; otherwise the encoding of the sealed packet, then zeros |
| Packet.OpenOnce | src/net/packet.cpp:146-150 | a fresh cipher object and one decryption are the opening function |
| Packet.Decipher | src/net/packet.cpp:141-159 | the decrypting branch, with the wrap-around of message_size - 16 and its failed assertions |
| Packet.ReadPacket | src/net/packet.cpp:109-181 | decides between all error codes and the packet as the function `Reading` does, for every buffer and every key |
| Packet.PacketRoundTrip | src/net/packet.cpp:53-181 | a created packet followed by any bytes reads back with its payload and header, exactly when the clock difference modulo 2^64 is at most 30 |
| Packet.FutureRejected | src/net/packet.cpp:165-171 | a packet from a clock one second ahead is rejected as too old |
| Packet.ReadsWhatWasSealed | src/net/packet.cpp:141-180 | an encrypted packet reads as p if and only if its payload is the sealing of p under this key, nonce and header, with matching sizes and clock |
| Packet.ReadsInClear | src/net/packet.cpp:160-180 | an unencrypted packet reads as itself if and only if sizes and clock agree |
| Packet.ReadErrors | src/net/packet.cpp:116-178 | for every error code exactly when it is reported |
| Packet.ReadBufferSuffices | src/net/packet.h:128-130 | every encoded packet fits the fixed read buffer, so cutting there loses only trailing bytes |
| Packet.TagOfCreated | src/net/packet.cpp:16-20 | GetTag of a created encrypted packet is its tag exactly if the payload is not empty |
| Packet.TagOfEmpty | src/net/packet.cpp:16-20 | GetTag of an encrypted packet without payload is empty although there are 16 tag bytes |
| Packet.PayloadStringAfterRead | src/net/packet.cpp:22-27 | on a packet that was read, GetPayloadAsString is the payload only if that is empty |
| Packet.PayloadLost | src/net/packet.cpp:22-27 | a one-byte payload reads back, but GetPayloadAsString of the result is empty |
| WritePump.Session.constructor | src/net/server.h:39-45 | an empty queue of ten packets, nothing in flight |
| WritePump.Session.WriteImpl | src/net/server.cpp:195-216 | takes the first queued packet to the socket, or does nothing |
| WritePump.Session.Post | src/net/server.cpp:168-190 | messages started and queued are the messages accepted, in order; a non-empty queue has a write in flight |
| WritePump.Session.Completed | src/net/client.cpp:70-82 | the same after a completed write; after an error nothing more is started |
| WritePump.Run | src/net/server.cpp:168-216 | over every run all packets that fit are started, in the order posted, and none is left queued |
| WritePump.OneWriteAtATime | src/net/server.cpp:186-204 | at most one socket write is in flight exactly in the runs that post only while none is |
| WritePump.TwoInFlight | src/net/server.cpp:186-204 | a run with two writes in flight: two posts |
| NonceProtocol.ClosedRun | src/net/client.cpp:95-103 | over every run both counters are the numbers of packets received |
| NonceProtocol.RequestNonce | src/net/client.cpp:34-41 | in any interleaving of writes, receives and parses, a request is opened with its own nonce if and only if the requests outstanding and the packets that overtook its parse add up to a multiple of 2^32 |
| NonceProtocol.ReplyNonce | src/net/server.cpp:172-179 | a reply is, if and only if the two delays differ by a multiple of 2^32 |
| NonceProtocol.TwoRequestsAtOnce | src/net/client.cpp:95-103 | a run in which a request and a reply are opened with other nonces than they were sealed with: two requests before the first reply |
| NonceProtocol.LateParse | src/net/server.h:94-104 | a run in which the first request is: its parse comes after the next receive |
| NonceProtocol.RequestArrives | src/net/server.cpp:13-20 | under the condition of `RequestNonce` the request packet itself, with any bytes after it, reads as the payload when it is parsed |
| NonceProtocol.ReplyArrives | src/net/client.cpp:100-104 | under the condition of `ReplyNonce`, the same for a reply |
| NonceProtocol.StopAndWaitAgrees | src/net/server.cpp:16 | in every stop-and-wait run both ends use the same counter value for every packet in both directions |
| NonceProtocol.CounterGap | src/net/server.h:94-95 | with nothing in transit, the server is ahead by the number of unanswered requests |
| Json.Ordered | libs/nlohmann/json.hpp:5159-5182 | a map is traversed in ascending key order, every key once |
| Json.LessEqIs | libs/nlohmann/json.hpp:5159-5182 | the key order is lexicographic: a prefix, or smaller at the first difference |
| JsonPointer.UnescapeEscape | libs/nlohmann/detail/string_escape.hpp:42-69 | unescaping inverts escaping for every string |
| JsonPointer.EscapeIsRfc | libs/nlohmann/detail/string_escape.hpp:42-55 | "~" becomes "~0" and "/" becomes "~1", character by character, as in section 3 of RFC 6901 |
| JsonPointer.EscapeClean | libs/nlohmann/detail/string_escape.hpp:42-55 | an escaped key has no slash and only well-formed escapes |
| JsonPointer.SplitRender | libs/nlohmann/detail/json_pointer.hpp:792-850 | parsing a path that was built from tokens gives the tokens, whatever characters they have |
| JsonPointer.SplitErrors | libs/nlohmann/detail/json_pointer.hpp:796-842 | the empty pointer has no tokens; a missing slash gives 107, a bad escape 108 |
| JsonPointer.IndexRoundTrip | libs/nlohmann/detail/json_pointer.hpp:251-287 | the decimal form of an index parses to the index |
| JsonPointer.IndexInjective | libs/nlohmann/detail/json_pointer.hpp:251-287 | two different tokens never name the same array element |
| JsonPatch.PutGet | libs/nlohmann/detail/json_pointer.hpp:459-508 | a value assigned through a pointer is found there |
| JsonPatch.PutPut | libs/nlohmann/detail/json_pointer.hpp:459-508 | a second assignment through a pointer wins |
| JsonPatch.PutSame | libs/nlohmann/detail/json_pointer.hpp:459-508 | assigning what is there changes nothing |
| JsonPatch.PutChildAt | libs/nlohmann/detail/json_pointer.hpp:459-508 | assigning below a place changes one child of what is at the place |
| JsonPatch.PutApart | libs/nlohmann/detail/json_pointer.hpp:459-508 | an assignment is not seen from any place of which neither lies within the other |
| JsonPatch.ApplyAllConcat | libs/nlohmann/json.hpp:4947-5074 | two patches in sequence are their concatenation, up to the first exception |
| JsonPatch.RemoveUndoesAdd | libs/nlohmann/json.hpp:4843-4939 | remove takes back an add exactly for a new object member or an array position other than "-" |
| JsonPatch.AddThenAt | libs/nlohmann/json.hpp:4843-4910 | an added value is found at its path, except behind "-" |
| JsonPatch.AddApart | libs/nlohmann/json.hpp:4843-4910 | add changes nothing apart from the parent of its place |
| JsonPatch.RemoveApart | libs/nlohmann/json.hpp:4912-4939 | remove changes nothing apart from the parent of its place |
| JsonPatch.MovedIsThere | libs/nlohmann/json.hpp:5011-5041 | after a successful move or copy the target path holds what was at the source path, except behind "-" |
| JsonPatch.CopyIsAdd | libs/nlohmann/json.hpp:5028-5041 | a copy patch is an add patch of the value at `from` if there is one, and fails with the exception of that pointer otherwise |
| JsonPatch.MoveIsRemoveAdd | libs/nlohmann/json.hpp:5011-5026 | a move patch is a remove patch at `from` and then an add patch of the value that was there, and fails with the exception of that pointer otherwise |
| JsonPatch.MoveToItself | libs/nlohmann/json.hpp:5011-5026 | moving a value to where it is changes nothing, and fails with 405 for the whole document |
| JsonPatch.TestPasses | libs/nlohmann/json.hpp:5043-5064 | test never changes the document and passes exactly if the value is there |
| JsonPatch.ChildIs | libs/nlohmann/detail/json_pointer.hpp:459-508 | one pointer step into every kind of value, with the id of every exception |
| JsonPatch.EditErrors | libs/nlohmann/json.hpp:4866-4938 | add and remove at every kind of parent, with the id of every exception |
| JsonPatch.PlaceErrors | libs/nlohmann/json.hpp:4843-4939 | add and remove fail with the exception of their parent, or of the edit there |
| JsonPatch.OperationErrors | libs/nlohmann/json.hpp:4979-4988 | 104 for an element that is no object, 105 for a missing or non-string "op" or "path" |
| JsonPatch.PerformErrors | libs/nlohmann/json.hpp:4990-5073 | 105 for unknown operations and missing members, 501 for failing tests, the pointer exception for a replace of nothing |
| JsonPatch.PatchErrors | libs/nlohmann/json.hpp:4941-4945 | 104 for a patch that is no array; patch on a copy is the in-place patch or its exception |
| JsonPatch.FailureKeepsDocument | libs/nlohmann/json.hpp:4947-5074 | a failing operation leaves the document unchanged if and only if it is not a well-formed move of an existing value other than the root |
| JsonPatch.MoveCanLose | libs/nlohmann/json.hpp:4807-5075 | patching {"a": 1} with a move from "/a" to "/b/c" fails with 403 and leaves {} |
| JsonPatch.SilentRemove | libs/nlohmann/json.hpp:4912-4939 | remove reports success without removing anything if and only if the parent exists and is neither object nor array |
| JsonPatch.RemoveFindsNothing | libs/nlohmann/json.hpp:4807-5075 | patching {"a": 1} with a remove of "/a/b" succeeds and changes nothing |
| JsonPatch.ReplaceAt | libs/nlohmann/json.hpp:5004-5009 | the replace operation that diff emits changes that place only |
| JsonPatch.RemoveAt | libs/nlohmann/json.hpp:4912-4939 | the remove operation that diff emits changes the parent of that place only |
| JsonPatch.AddAt | libs/nlohmann/json.hpp:4843-4910 | the add operation that diff emits changes the parent of that place only |
| JsonPatch.RemovalsApply | libs/nlohmann/json.hpp:5128-5140 | the removals, last index first, cut the array to its common length |
| JsonPatch.AdditionsApply | libs/nlohmann/json.hpp:5142-5152 | the "/-" additions append the missing elements in order |
| JsonPatch.CommonApplies | libs/nlohmann/json.hpp:5115-5123 | the nested diffs turn the common elements into the target's |
| JsonPatch.MembersApply | libs/nlohmann/json.hpp:5159-5179 | the first pass changes or removes every member of the source and touches no other |
| JsonPatch.MemberAdditionsApply | libs/nlohmann/json.hpp:5181-5194 | the second pass adds the members the source does not have |
| JsonPatch.DiffApplies | libs/nlohmann/json.hpp:5089-5219 | inside any document, the patch for the value at a place turns it into the target and changes nothing else |
| JsonPatch.DiffApart | libs/nlohmann/json.hpp:5089-5219 | after the patch for a place, that place holds the target and every place apart from it what it held |
| JsonPatch.PatchOfDiff | libs/nlohmann/json.hpp:5079-5219 | for all values s and t, applying diff(s, t) to s succeeds and gives t |
| JsonPatch.DiffOfArrays | libs/nlohmann/json.hpp:5113-5155 | a diff of arrays: the nested diffs of the common elements joined, removals from the last index down, additions in order |
| JsonPatch.DiffOfObjects | libs/nlohmann/json.hpp:5157-5197 | a diff of objects: for the keys of the source in order a nested diff or a removal, then for the new keys of the target an addition |
| JsonPatch.DiffOfOthers | libs/nlohmann/json.hpp:5095-5109 | no operation for equal values, one replacement for values of different or primitive types |
| JsonPatch.ComputeDiff | libs/nlohmann/json.hpp:5089-5219 | the recursive procedure with its loops computes the diff |
| JsonPatch.ComputeArrayDiff | libs/nlohmann/json.hpp:5113-5155 | three loops with insertions at a fixed index give common diffs, reversed removals, additions |
| JsonPatch.ComputeObjectDiff | libs/nlohmann/json.hpp:5157-5197 | two passes in map order |
| JsonPatch.ComputeMemberDiffs | libs/nlohmann/json.hpp:5159-5179 | the loop of the first pass |
| JsonPatch.ComputeMemberAdditions | libs/nlohmann/json.hpp:5181-5194 | the loop of the second pass |
| JsonPatch.Document.constructor | libs/nlohmann/json.hpp:4807-4809 | a document to be changed in place |
| JsonPatch.Document.OperationAdd | libs/nlohmann/json.hpp:4843-4910 | the in-place add has exactly the outcome `Add`, about which the add lemmas speak, in every branch and with every exception |
| JsonPatch.Document.OperationRemove | libs/nlohmann/json.hpp:4912-4939 | the in-place remove has exactly the outcome `Remove`; a primitive parent is left alone |
| JsonPatch.Document.Transfer | libs/nlohmann/json.hpp:5011-5041 | in place: on success the target path holds what was at the source path, a move onto itself changes nothing; a move whose add fails has lost the value |
| JsonPatch.Document.Execute | libs/nlohmann/json.hpp:4990-5073 | in place, the switch has the outcome `Perform`, whose every case the copy, move, test, add, remove, replace and exception lemmas fix |
| JsonPatch.Document.ApplyOne | libs/nlohmann/json.hpp:4979-5074 | one patch element: type check, mandatory members, pointer, operation, in this order of exceptions |
| JsonPatch.Document.ApplyPatch | libs/nlohmann/json.hpp:4807-5075 | after success all operations have been applied, after an exception those before it and what the failing one left |
| JsonPatch.Transform | libs/nlohmann/json.hpp:4807-5219 | diffing and patching in place ends with the target |
| JsonMerge.MergeAt | libs/nlohmann/json.hpp:5231-5255 | merging in place at any place of a document gives MergePatch of RFC 7396 there and leaves the rest alone |
| JsonMerge.MergeMembers | libs/nlohmann/json.hpp:5239-5249 | the loop over the patch members in map order merges all of them |
| JsonMerge.MergeMember | libs/nlohmann/json.hpp:5241-5248 | null erases the member, anything else is merged into it, a missing one counting as null |
| JsonMerge.MergeIdempotent | libs/nlohmann/json.hpp:5231-5255 | applying a merge patch twice is applying it once |
| JsonDestroy.Unfold | libs/nlohmann/json.hpp:621-639 | one round takes one value off the forest on the stack and adds nothing |
| JsonDestroy.DescendantsOfObject | libs/nlohmann/json.hpp:632-635 | the descendants of an object are any one member with its descendants and those of the object without it |
| JsonDestroy.DescendantsOfArray | libs/nlohmann/json.hpp:626-628 | the same for the last element of an array |
| JsonDestroy.DescendantsOfLeaf | libs/nlohmann/json.hpp:621-639 | anything else has none |
| JsonDestroy.ShellIsEmpty | libs/nlohmann/json.hpp:626-641 | what is left of a value when its destructor runs has no descendants, so destructors do not recurse |
| JsonDestroy.HollowHoldsNulls | libs/nlohmann/json.hpp:606-619 | the moved-from container still has its elements, all null |
| JsonDestroy.Destroy | libs/nlohmann/json.hpp:599-646 | the loop ends; the values released are the descendants, each as often as it occurs; each is an empty array, an empty object or a primitive when released; the container keeps only nulls |

## Left out

- Transport: asio sockets, timers, strands, threads, the worker and its heartbeat, `Close`, cancellation, and the lifetime of the buffers handed to the socket.
- Keys: the libsodium calls, the exchange of public keys and the switch of the shared key during the handshake, randomness, and wiping of memory.
- Presentation: the GUI, logging, error message texts and debug output.
- Aliasing of spans: message inputs are values, so an output that overlaps an input is not modelled. Outputs are arrays and their frames are stated.
- NonceProtocol.RequestNonce: the counter is read as a whole when a packet is parsed. That the source shares it between threads without synchronisation is not modelled.
- Poly1305.Context.Finish: gives the fields after it, but not what further calls would compute from them; the source offers no way to start again.
- Aead.AEADChaCha20Poly1305.Decrypt: a size mismatch is a failed assertion in the source and a precondition here. `Packet.ReadPacket` reports it as `Aborted`.
- WritePump.Session.WriteImpl: the message that it takes can always be allocated; an exception out of a handler ends the executor's thread, which is not modelled.
- Packet.SerializePacket: gives no upper bound on the length. The vector grows to its capacity, which is the allocator's choice.
- Bitsery.SizeRoundTrip: sizes from 2^30 on are an assertion in the library. Bit packing, streams, pointers and the other features of bitsery that remc does not use are absent.
- Host byte order: reads and writes are little-endian conversions, without the branch on the platform.
- JsonPointer.IndexRoundTrip: index tokens of 2^64 - 1 and more, for which the source has two further error ids, name elements of arrays that cannot exist. Here they are out of range.
- JsonPatch.FailureKeepsDocument: in a "test" operation that lacks its value and whose path does not resolve, either exception may come first in the source. Here the path is resolved first.
- JsonPatch.Document.OperationAdd: a reference that the source holds into the document is a path here; the document is one value that is replaced at that path.
- JsonPatch.PatchOfDiff: numbers are of one kind, so equality across integer and floating-point numbers, NaN, binary and discarded values are not modelled. Objects are maps sorted by key; insertion-ordered objects are not modelled. Keys are compared character by character.
- JsonDestroy.Destroy: the memory calls themselves and the early return for a value whose storage was never allocated are not modelled.
- JSON text: parsing, serialisation, iterators and all other functions of the library would add only easy members here.
