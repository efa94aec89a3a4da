# A verified model of the dotnet router's cryptography and protocols

This project models the hand-written logic of the router's core library, `libdotnet`, in Dafny and proves
what it is for: the arithmetic behind its ciphers, hashes and signatures, its two transport protocols, the
one-time tags of its garlic sessions, its lease sets and its codecs. `dafny verify dfyconfig.toml` checks
everything.

Code that works in place is modelled in place: the limb arithmetic, the stream cipher, CBC, the message
headers, the NTCP receive buffer and the Base64 and Base32 coders are methods over arrays; the
authenticator, the cipher state, the handshake establisher, the data session, the garlic session and
destination, the lease set, the GOST context and the pool's queue are classes with the source's fields.
Each such method is tied to a specification function, and the theorems are about that function, about
every state of a machine, or about a method that runs both ends of a protocol.

| file | models | main results |
|---|---|---|
| `Wrappers`, `Bytes` | options, bytes, machine words, endian codecs, bit operations | numbers and their byte strings are inverse to each other |
| `Poly1305` | `Poly1305.h` | limb code and buffering compute the polynomial of section 2.5 of RFC 8439 (`Finish`, `AccumulateIsPolynomial`) |
| `ChaCha20` | `ChaCha20.cpp` | in-place encryption with a carried offset is one stream, however it is cut |
| `Words`, `ChaCha20Words` | 32-bit machine words; the rounds of `ChaCha20.cpp` | the rounds on numbers are those of RFC 8439 on machine words, with its examples |
| `Hkdf` | HKDF, RFC 5869 | the reference that the NTCP2 and lease set key derivations are held against |
| `Aead` | AEAD in `Crypto.cpp` | multi-buffer and single-buffer forms agree; opening inverts sealing and accepts nothing else |
| `Cbc` | CBC and tunnel encryption in `Crypto.cpp` | in-place CBC, chaining across calls, tunnel round trip in both orders |
| `ElGamal` | the power table and ElGamal in `Crypto.cpp` | windowed Montgomery powers, decryption inverts encryption |
| `Field25519`, `Edwards`, `EdwardsGroup`, `PointCodec` | field and point formulas of `Ed25519.cpp` | `Sum` represents the affine addition, keeps the curve equation and is complete; decoding inverts encoding |
| `ScalarMultiples`, `Ed25519` | multiplication, signatures, blinding | `MulB` with signed digits is e B; every signature verifies; both blindings agree |
| `Montgomery` | X25519 in `Ed25519.cpp` | the ladder returns the u-coordinate of k P for every u; key agreement |
| `Ntcp2Handshake` | establisher in `NTCP2.cpp` | every honest run completes with the state of the Noise XK transcript on both sides |
| `DnnpMessage`, `Ntcp2Data` | `DNNPProtocol.h`, data phase of `NTCP2.cpp` | in-place header conversions; the whole queue arrives in order |
| `GarlicTags`, `Garlic` | `Garlic.cpp`, `Garlic.h` | no tag twice, tags found within 241 s over all interleavings; wrap and unwrap agree |
| `LeaseSets`, `EncryptedLeaseSet` | `LeaseSet.cpp` | a refresh equals a fresh parse; the reader recovers what the writer sealed |
| `NtcpFraming` | framing in `NTCPSession.cpp` | reassembly under every split of the stream |
| `Gost` | `Gost.cpp` | streaming hash is the reversal of the one-shot hash of the reversed message |
| `Base` | `Base.cpp` | decoding inverts encoding although the accumulators are never masked |
| `ThreadPool` | `CryptoWorker.h` | first in first out, exactly once, no lost wake-up, termination, in every interleaving |

## What is taken as given

SHA-256, SHA-512, HMAC, the AES block function, SipHash, Adler-32, the signature schemes other than
EdDSA and RedDSA on Ed25519, and the GOST substitution step are function parameters. Where a law about
them is needed it is a hypothesis of the theorem: AES decryption inverts AES encryption, key agreement
commutes, ElGamal decryption inverts encryption, the two blindings agree and a signature under a blinded
key verifies. The last four are themselves results here, about `Crypto.cpp` (`ElGamal.DecryptEncrypt`) and
`Ed25519.cpp` (`Montgomery.Agree`, `Ed25519.Ed25519.BlindingsAgree`, `Ed25519.Ed25519.VerifyAccepts`).

About the numbers themselves these facts are hypotheses: Fermat's theorem for q = 2^255 - 19
(`Field25519.PrimeField`) and for the ElGamal prime (`ElGamal.Sound`); d is not a square modulo q
(`EdwardsGroup.FieldFacts`); Edwards addition is associative and the base point has order l
(`ScalarMultiples.GroupFacts`); chord-and-tangent addition on the Montgomery curve and its twists is a
commutative group (`Montgomery.CurveGroups`). Closure, completeness, commutativity, identity and inverses
of the Edwards group are proved.

Clocks, random numbers, random padding and the outcome of calls into code outside these files are
parameters. Time in seconds is a natural number unless a wrap-around matters.

## Where the code and its documentation part

- X25519 reads all 256 bits of a point; section 5 of RFC 7748 asks for bit 255 to be cleared first
  (`Montgomery.TopBitKept`).
- The comment at `libdotnet/Ed25519.cpp:61` gives a table entry as `(256+j+1)^i*B`; the code computes
  (j+1) 256^i B (`Ed25519.BuildTable`).
- The NTCP2 send queue fills frames to 65519 bytes, but from 65517 bytes on the padding header no longer
  fits and the announced length is wrong (`Ntcp2Data.FrameFits`, `Ntcp2Data.OverrunExample`).
- The clock test of the handshake uses unsigned arithmetic: it fails for everyone in the first minute of the
  epoch and from 2^32 seconds on (`Ntcp2Handshake.SynchronizedClocks`).
- `map::insert` does not replace: with a message id repeated while its batch waits, the new session tags are
  lost and the old ones may be confirmed in their place (`GarlicTags.ReusedIdLosesTag`). No tag is sent twice
  even then (`GarlicTags.NoTagTwice`).
- The 720 s and 960 s tag timeouts leave room for 241 s of delivery, and no more (`GarlicTags.TagIsLost`).
- A lease set that became invalid stays invalid after a good refresh (`LeaseSets.LeaseSet.ReadFromBuffer`).
- The expiration field of an encrypted lease set has 16 bits, less than the day the writer allows
  (`EncryptedLeaseSet.ExpirationAgrees`, `EncryptedLeaseSet.ExpirationDiffers`).
- A GOST `Update` after an incomplete block compresses at once and counts 512 bits
  (`Gost.GOSTR3411_2012_CTX.Update`).
- `ElggPow` returns a null pointer for exponent zero (`ElGamal.ElggPow`).
- A Base64 text whose padding characters are a positive multiple of three in number makes the decoder write
  one byte behind the result (`Base.Base64ToByteStream`, `Base.ExtraByte`).
- A pool constructed without workers loses accepted jobs (`ThreadPool.NobodyWorks`).

## Model

| member | source | states |
|---|---|---|
| `Poly1305.BlockAdd` | libdotnet/Poly1305.h:51-62 | operator+= adds 17-limb little-endian numbers modulo 2^136 |
| `Poly1305.BlockReduce` | libdotnet/Poly1305.h:64-85 | operator%= turns any 17 columns of at most 2^29 into a congruent number modulo 2^130-5 whose limb 16 is at most 4, every intermediate below 2^32 |
| `Poly1305.BlockFreeze` | libdotnet/Poly1305.h:93-110 | the masked final subtraction returns the residue modulo 2^130-5 of every partially reduced number |
| `Poly1305.SelectMeaning` | libdotnet/Poly1305.h:105-107 | the xor/and mask picks the subtracted byte under mask 0 and the original byte under mask 255 |
| `Poly1305.ColumnsAreProduct` | libdotnet/Poly1305.h:205-217 | the 17 columns with wrap factor 320 represent the product of accumulator and multiplier modulo 2^130-5 |
| `Poly1305.ColumnBound` | libdotnet/Poly1305.h:205-217 | no column exceeds its number of terms times 20808000, so the 32-bit sums never wrap |
| `Poly1305.Poly1305.Multiply` | libdotnet/Poly1305.h:205-217 | the double loop fills the product columns, each within the bound the reduction needs |
| `Poly1305.Poly1305.OneBlock` | libdotnet/Poly1305.h:198-222 | one block maps the accumulator h to (h + block with its high limb) * r modulo 2^130-5 and keeps limb 16 at most 4 |
| `Poly1305.Poly1305.Blocks` | libdotnet/Poly1305.h:195-223 | any number of whole blocks is absorbed in order |
| `Poly1305.Poly1305.constructor` | libdotnet/Poly1305.h:155-162 | a new authenticator has been fed nothing; the multiplier is the clamped first key half |
| `Poly1305.Poly1305.Update` | libdotnet/Poly1305.h:164-193 | whatever the split into calls, the state stands for the concatenation of everything fed |
| `Poly1305.Poly1305.Finish` | libdotnet/Poly1305.h:225-244 | writes exactly the 16-byte RFC 8439 tag of everything fed, and nothing else |
| `Poly1305.AccumulateIsPolynomial` | libdotnet/Poly1305.h:195-223 | the accumulator is the polynomial sum of block_i * r^(n-i) modulo 2^130-5 of section 2.5 of RFC 8439 |
| `Poly1305.MacIs` | libdotnet/Poly1305.h:195-244 | the tag as a number: that polynomial at the clamped key half, modulo 2^130-5, plus the other half, modulo 2^128 |
| `Poly1305.ClampIs` | libdotnet/Poly1305.h:155-162 | clamping is the bitwise and of the key half with 0x0ffffffc0ffffffc0ffffffc0fffffff |
| `ChaCha20.Quarterround` | libdotnet/ChaCha20.cpp:46-52 | the in-place quarter round computes section 2.1 of RFC 8439 on four words |
| `ChaCha20Words.QuarterRoundIs` | libdotnet/ChaCha20.cpp:46-52 | for every state the quarter round is the one of section 2.1 of RFC 8439 in 32-bit machine words, and leaves the other twelve words alone |
| `ChaCha20Words.QuarterUndone` | libdotnet/ChaCha20.cpp:46-52 | right rotations, exclusive or and subtraction undo it |
| `ChaCha20Words.RotlBits` | libdotnet/ChaCha20.cpp:46-52 | bit i of a word rotated left by n is its bit i - n modulo 32 |
| `ChaCha20Words.RoundsAre` | libdotnet/ChaCha20.cpp:62-82 | any number of double rounds is that many rounds of columns and of diagonals on machine words |
| `ChaCha20Words.Section211` | libdotnet/ChaCha20.cpp:46-52 | the quarter round gives the values of section 2.1.1 of RFC 8439 |
| `ChaCha20Words.Section232` | libdotnet/ChaCha20.cpp:55-96 | the key block for the key, counter and nonce of section 2.3.2 of RFC 8439 is the serialization of the words given there |
| `ChaCha20.SerializedAt` | libdotnet/ChaCha20.cpp:55-60 | every word is the number of its four bytes in the key block, least significant first |
| `Words.WordPlus` | libdotnet/ChaCha20.cpp:46-52 | the low 32 bits of a sum are the machine sum |
| `Words.WordXor` | libdotnet/ChaCha20.cpp:46-52 | exclusive or of numbers is that of machine words |
| `Words.WordInjective` | libdotnet/ChaCha20.cpp:46-52 | below 2^32 a number is determined by its machine word |
| `ChaCha20.Block` | libdotnet/ChaCha20.cpp:62-82 | the block method leaves the 64-byte key block of the state (ten double rounds, feed-forward, serialization) |
| `ChaCha20.WriteWords` | libdotnet/ChaCha20.cpp:55-60 | sixteen words are serialized least significant byte first |
| `ChaCha20.LoadState` | libdotnet/ChaCha20.cpp:84-96 | Chacha20Init lays out constants, key, counter and nonce as section 2.3 of RFC 8439 |
| `ChaCha20.Chacha20State.constructor` | libdotnet/ChaCha20.cpp:84-96 | a new cipher stands at stream position 0 |
| `ChaCha20.Chacha20State.SetCounter` | libdotnet/ChaCha20.cpp:98-102 | setting the counter restarts the stream there with no carried offset |
| `ChaCha20.Chacha20State.FinishBlock` | libdotnet/ChaCha20.cpp:106-117 | the rest of the previous key block is used before a new one is made |
| `ChaCha20.Chacha20State.Encrypt` | libdotnet/ChaCha20.cpp:104-132 | a call encrypts exactly its bytes in place with the stream from where the last call stopped, even inside a block |
| `ChaCha20.CryptConcat` | libdotnet/ChaCha20.cpp:104-132 | encryption in pieces is encryption of the whole: chunk independence of the carried offset |
| `ChaCha20.StreamBlock` | libdotnet/ChaCha20.cpp:104-132 | the stream is the key blocks of consecutive 32-bit counters |
| `ChaCha20.CryptInvolutive` | libdotnet/ChaCha20.cpp:104-132 | a second pass from the same position restores the message |
| `Aead.AEADChaCha20Poly1305` | libdotnet/Crypto.cpp:1091-1182 | single-buffer form: refuses too small a buffer untouched; encryption writes the RFC 8439 seal in place or elsewhere; decryption returns true exactly when the tag matches and leaves the plaintext |
| `Aead.Encrypt` | libdotnet/Crypto.cpp:1120-1153 | the encrypting branch, for separate or identical message and output buffers |
| `Aead.Decrypt` | libdotnet/Crypto.cpp:1120-1179 | the decrypting branch: true if and only if the sealed text opens |
| `Aead.AEADChaCha20Poly1305Encrypt` | libdotnet/Crypto.cpp:1184-1232 | multi-buffer form: for every non-empty list of disjoint buffers, ciphertext and tag equal the single-buffer seal, without associated data, of the concatenation; nothing else in memory changes |
| `Aead.OpenSeal` | libdotnet/Crypto.cpp:1091-1182 | opening inverts sealing for every key, nonce, associated data and message |
| `Aead.CryptedByte` | libdotnet/Crypto.cpp:1120-1153 | byte i of the ciphertext is byte i of the message under the key block with counter 1 + i / 64 |
| `Aead.SealedParts` | libdotnet/Crypto.cpp:1120-1165 | ciphertext, then Poly1305 of associated data and ciphertext under the key block with counter 0 |
| `Aead.MacDataInjective` | libdotnet/Crypto.cpp:1141-1165 | what is authenticated determines both the associated data and the ciphertext |
| `Aead.SealOpen` | libdotnet/Crypto.cpp:1091-1182 | what opens is exactly the seal of the plaintext it opens to |
| `Cbc.CBCEncryption.Encrypt` | libdotnet/Crypto.cpp:867-910 | CBC over the whole blocks of a buffer, in place or to a disjoint place, with the chaining value carried to the next call |
| `Cbc.CBCDecryption.Decrypt` | libdotnet/Crypto.cpp:936-980 | the decrypting loop, with the chaining value taken from the ciphertext before it is overwritten |
| `Cbc.CBCEncryption.EncryptBlock` | libdotnet/Crypto.cpp:912-934 | one block |
| `Cbc.CBCDecryption.DecryptBlock` | libdotnet/Crypto.cpp:982-1004 | one block |
| `Cbc.DecryptedEncrypted` | libdotnet/Crypto.cpp:867-980 | CBC decryption inverts encryption |
| `Cbc.CipherBlocks` | libdotnet/Crypto.cpp:867-910 | each ciphertext block is the encryption of its plaintext block and the ciphertext block before it |
| `Cbc.PlainBlocks` | libdotnet/Crypto.cpp:936-980 | each plaintext block is the decryption of its ciphertext block with the one before it |
| `Cbc.EncryptedDecrypted` | libdotnet/Crypto.cpp:867-980 | and the other way round |
| `Cbc.EncryptedConcat` | libdotnet/Crypto.cpp:867-910 | encrypting piece by piece with the carried chaining value is encrypting at once |
| `Cbc.DecryptedConcat` | libdotnet/Crypto.cpp:936-980 | the same for decryption |
| `Cbc.TunnelEncryption.Encrypt` | libdotnet/Crypto.cpp:1006-1045 | double IV encryption of a 1024-byte tunnel message, in place or apart |
| `Cbc.TunnelDecryption.Decrypt` | libdotnet/Crypto.cpp:1047-1087 | the reverse |
| `Cbc.TunnelRoundTrip` | libdotnet/Crypto.cpp:1006-1087 | tunnel decryption and encryption undo each other in both orders |
| `ElGamal.PrecalculateElggTable` | libdotnet/Crypto.cpp:163-186 | entry (i, j) of the table is g^((j+1) 256^i) in Montgomery form |
| `ElGamal.ElggPow` | libdotnet/Crypto.cpp:199-220 | the windowed product over a big-endian exponent is g^exp mod p, and the null pointer if and only if the exponent is zero |
| `ElGamal.ElggPowNumber` | libdotnet/Crypto.cpp:222-230 | the same for a number below 256^len |
| `ElGamal.MontgomeryProduct` | libdotnet/Crypto.cpp:172-181 | Montgomery multiplication of Montgomery forms is the form of the product |
| `ElGamal.Agree` | libdotnet/Crypto.cpp:276-281 | both sides of a key agreement compute the same secret |
| `ElGamal.ElGamalEncrypt` | libdotnet/Crypto.cpp:362-413 | the ciphertext is the pair (g^k, y^k m), by table or directly, with or without zero padding |
| `ElGamal.EncryptedIs` | libdotnet/Crypto.cpp:362-413 | the two numbers of the ciphertext: g^k and y^k times the number of ff, hash and data, modulo p, big-endian, where the padding leaves them |
| `ElGamal.ElGamalDecrypt` | libdotnet/Crypto.cpp:415-439 | data comes out exactly when the embedded hash matches |
| `ElGamal.DecryptEncrypt` | libdotnet/Crypto.cpp:362-439 | decryption with the private key inverts encryption with the public key, for every odd or even random exponent and both paddings |
| `Edwards.CurveConstant` | libdotnet/Ed25519.cpp:28-34 | the constructor's d satisfies 121666 d = -121665 modulo q |
| `Edwards.DoubleIsSum` | libdotnet/Ed25519.cpp:247-283 | Double gives the same four residues as Sum of a point with itself, whether z and t are present or not |
| `Edwards.SumRepresents` | libdotnet/Ed25519.cpp:194-245 | Sum on extended coordinates (missing z meaning 1, missing t meaning x y) represents the affine twisted Edwards sum whenever its factors F and G are units |
| `Edwards.SumOnCurve` | libdotnet/Ed25519.cpp:194-245 | Sum keeps the projective curve equation and X Y = Z T for all inputs on the curve, with no condition on F and G |
| `Edwards.SumFactors` | libdotnet/Ed25519.cpp:227-240 | the four results are E F, G H, F G and E H of the bilinear factors |
| `EdwardsGroup.SquareRootOfMinusOne` | libdotnet/Ed25519.cpp:36-43 | I = 2^((q-1)/4) modulo q squares to -1 |
| `EdwardsGroup.Complete` | libdotnet/Ed25519.cpp:194-245 | the denominators 1 + k and 1 - k of the addition law never vanish on curve points, because d is not a square |
| `EdwardsGroup.AddMember` | libdotnet/Ed25519.cpp:194-245 | the affine sum of two curve points is a curve point |
| `EdwardsGroup.SumOfMembers` | libdotnet/Ed25519.cpp:194-245 | so on curve points Sum always represents the group operation, without conditions on F and G |
| `EdwardsGroup.ExtendedIsAffine` | libdotnet/Ed25519.cpp:350-366 | an extended point on the curve represents an affine point on the curve |
| `EdwardsGroup.NegRepresents` | libdotnet/Ed25519.h:54-63 | the unary minus represents the group inverse |
| `EdwardsGroup.AddNeg` | libdotnet/Ed25519.cpp:115-115 | a point plus its negative is the identity |
| `PointCodec.NormalizeRepresents` | libdotnet/Ed25519.cpp:336-348 | Normalize returns the affine point itself for every extended representation of it |
| `PointCodec.RecoverXIsRoot` | libdotnet/Ed25519.cpp:368-391 | RecoverX returns the even one of the two x-coordinates for every y of a curve point |
| `PointCodec.DecodeEncode` | libdotnet/Ed25519.cpp:393-423 | DecodePoint inverts EncodePoint on every curve point, x sign bit included, and precomputes t |
| `PointCodec.EncodingIs` | libdotnet/Ed25519.cpp:418-423 | the encoding as a number is y plus 2^255 times the parity of x |
| `Ed25519.BaseEncodes` | libdotnet/Ed25519.cpp:45-53 | the base point encodes as 58 66 .. 66 |
| `Ed25519.OrderIs` | libdotnet/Ed25519.cpp:20-26 | l is 2^252 + 27742317777372353535851937790883648493 |
| `ScalarMultiples.SmulAdd` | libdotnet/Ed25519.cpp:285-300 | multiples add: (m + n) P = m P + n P |
| `ScalarMultiples.SmulModOrder` | libdotnet/Ed25519.cpp:112-112 | multiples of B depend on the scalar modulo l only |
| `Ed25519.Double` | libdotnet/Ed25519.cpp:247-283 | the in-place Double leaves Sum of the point with itself |
| `Ed25519.Mul` | libdotnet/Ed25519.cpp:285-300 | double-and-add from the top bit returns e P for every e, zero included |
| `Ed25519.BuildTable` | libdotnet/Ed25519.cpp:55-65 | the constructor fills Bi256[i][j] with (j+1) 256^i B and Bi256Carry with 256^32 B |
| `Ed25519.Ed25519.constructor` | libdotnet/Ed25519.cpp:10-68 | a constructed object holds a correct table |
| `Ed25519.Ed25519.AddByte` | libdotnet/Ed25519.cpp:310-330 | one byte moves the sum by its signed digit and sets the carry |
| `Ed25519.Ed25519.MulB` | libdotnet/Ed25519.cpp:302-334 | signed radix-256 multiplication with carry returns e B for every 32-byte little-endian e, as Mul does |
| `Ed25519.MovedAccumulates` | libdotnet/Ed25519.cpp:308-331 | loop invariant: sum plus pending carry is the multiple of B that the bytes read so far spell |
| `Ed25519.Ed25519.Verify` | libdotnet/Ed25519.cpp:104-122 | accepts if and only if R is the encoding of S B - h A |
| `Ed25519.AcceptsMeans` | libdotnet/Ed25519.cpp:105-126 | a signature is accepted exactly when its first half encodes a point R with S B = R + (h mod l) A |
| `Ed25519.Ed25519.Sign` | libdotnet/Ed25519.cpp:128-158 | R encodes r B for r the first half of the hash of second key half and data, the second half is (H(R, public key, data) a + r) mod l, and the pair is accepted under a B for that same hash |
| `Ed25519.Ed25519.SignRedDSA` | libdotnet/Ed25519.cpp:160-194 | the same with r the hash of random bytes, public key and data |
| `Ed25519.Ed25519.VerifyAccepts` | libdotnet/Ed25519.cpp:105-194 | every pair of an encoded r B and the response to H(R, public key, data) is accepted under a B |
| `Ed25519.Ed25519.BlindPublicKey` | libdotnet/Ed25519.cpp:532-545 | encodes A + alpha B for every key and seed |
| `Ed25519.Ed25519.BlindPrivateKey` | libdotnet/Ed25519.cpp:547-563 | returns (alpha + a) mod l and the encoding of its public key |
| `Ed25519.Ed25519.BlindingsAgree` | libdotnet/Ed25519.cpp:532-563 | blinding the public key a B gives the public key of the blinded private key, for every seed |
| `Montgomery.LadderStep` | libdotnet/Ed25519.cpp:476-493 | one ladder step doubles the first pair and differentially adds the pairs, modulo q |
| `Montgomery.DoubleLaw` | libdotnet/Ed25519.cpp:476-493 | the doubling formulas are the curve's doubling on every projective u-coordinate, infinity and points of order two included |
| `Montgomery.DifferentialLaw` | libdotnet/Ed25519.cpp:476-493 | the addition formulas give s + (s + p) from s, s + p and the u-coordinate of p, in all degenerate cases, unless u = 0 |
| `Montgomery.StepTracks` | libdotnet/Ed25519.cpp:465-494 | after a 0 bit the pairs hold 2 n P and (2 n + 1) P |
| `Montgomery.SwappedStepTracks` | libdotnet/Ed25519.cpp:465-494 | after a 1 bit, up to the pending swap, they hold (2 n + 1) P and (2 n + 2) P |
| `Montgomery.ScalarMul` | libdotnet/Ed25519.cpp:453-505 | the lazily swapped ladder returns the u-coordinate of k P for every u, every k and every curve or twist that u is on, zero standing for infinity |
| `Montgomery.EveryU` | libdotnet/Ed25519.cpp:453-505 | every field element is the u-coordinate of a point of some curve in the family, so the previous row is never vacuous |
| `Montgomery.X25519` | libdotnet/Ed25519.cpp:507-517 | the 32-byte form: the ladder result for the private key as a number with bits 0, 1, 2 and 255 cleared and bit 254 set |
| `Montgomery.X25519Base` | libdotnet/Ed25519.cpp:519-529 | the same on the base point 9 |
| `Montgomery.ClampedScalar` | libdotnet/Ed25519.cpp:512-512 | clamping gives a multiple of 8 with the top bit in place |
| `Montgomery.ClampIs` | libdotnet/Ed25519.cpp:512-512 | clamping clears bits 0, 1, 2 and 255 of the number, sets bit 254 and keeps the others |
| `Montgomery.BasePointOnCurve` | libdotnet/Ed25519.cpp:520-524 | 9 is the u-coordinate of the base point of section 4.1 of RFC 7748 |
| `Montgomery.ProductByOne` | libdotnet/Ed25519.cpp:440-504 | one times u is u modulo q and nothing else |
| `Montgomery.DiffieHellman` | libdotnet/Ed25519.cpp:507-529 | two ladders in either order give the same value, even through infinity |
| `Montgomery.Agree` | libdotnet/Ed25519.cpp:507-529 | both parties of X25519 hold the same 32 bytes |
| `Montgomery.TopBitKept` | libdotnet/Ed25519.cpp:509-509 | the code agrees with section 5 of RFC 7748 on the point read if and only if bit 255 is clear: it is not masked |
| `Ntcp2Handshake.NTCP2Establisher.MixKey` | libdotnet/NTCP2.cpp:42-53 | MixKey of the Noise symmetric state: chaining key and cipher key are the two halves of 64 bytes of HKDF (RFC 5869) of the secret, salted with the old chaining key |
| `Ntcp2Handshake.NoiseKeyIs` | libdotnet/NTCP2.cpp:42-53 | the same of the reference state |
| `Ntcp2Handshake.NTCP2Establisher.MixHash` | libdotnet/NTCP2.cpp:55-62 | MixHash of the Noise symmetric state |
| `Ntcp2Handshake.NTCP2Establisher.KeyDerivationFunction1` | libdotnet/NTCP2.cpp:64-89 | brings the establisher into the state of the first Noise message pattern |
| `Ntcp2Handshake.NTCP2Establisher.KeyDerivationFunction2` | libdotnet/NTCP2.cpp:101-115 | the state after message 1 and its padding, for message 2 |
| `Ntcp2Handshake.NTCP2Establisher.KDF3Alice` | libdotnet/NTCP2.cpp:127-132 | mixes the static-ephemeral secret |
| `Ntcp2Handshake.NTCP2Establisher.KDF3Bob` | libdotnet/NTCP2.cpp:134-139 | mixes the same secret from the other side |
| `Ntcp2Handshake.NTCP2Establisher.CreateSessionRequestMessage` | libdotnet/NTCP2.cpp:146-184 | message 1: AES-obfuscated ephemeral key, sealed options, padding; the RouterInfo block waits in the message 3 buffer |
| `Ntcp2Handshake.NTCP2Establisher.ProcessSessionRequestMessage` | libdotnet/NTCP2.cpp:235-282 | accepts message 1 exactly when the options open, name version 2, announce a part 2 of at least 16 bytes and are within the clock skew |
| `Ntcp2Handshake.NTCP2Establisher.CreateSessionCreatedMessage` | libdotnet/NTCP2.cpp:186-208 | message 2, obfuscated with the chaining value of message 1 |
| `Ntcp2Handshake.NTCP2Establisher.ProcessSessionCreatedMessage` | libdotnet/NTCP2.cpp:284-317 | accepts message 2 exactly when the options open and are within the clock skew |
| `Ntcp2Handshake.NTCP2Establisher.CreateSessionConfirmedMessagePart1` | libdotnet/NTCP2.cpp:210-220 | seals the static key under the state of message 2 with its padding |
| `Ntcp2Handshake.NTCP2Establisher.CreateSessionConfirmedMessagePart2` | libdotnet/NTCP2.cpp:222-233 | seals the RouterInfo block where it stands and hashes the ciphertext |
| `Ntcp2Handshake.NTCP2Establisher.ProcessSessionConfirmedMessagePart1` | libdotnet/NTCP2.cpp:319-333 | learns the remote static key exactly when part 1 opens |
| `Ntcp2Handshake.NTCP2Establisher.ProcessSessionConfirmedMessagePart2` | libdotnet/NTCP2.cpp:335-353 | opens part 2 and hashes it through the overwritten end of part 1 |
| `Ntcp2Handshake.NTCP2Establisher.HandleSessionRequestReceived` | libdotnet/NTCP2.cpp:479-523 | reads message 1 with the padding it announces, if that is within bounds and arrives |
| `Ntcp2Handshake.NTCP2Establisher.HandleSessionCreatedReceived` | libdotnet/NTCP2.cpp:533-579 | the same for message 2 |
| `Ntcp2Handshake.OptionsFields` | libdotnet/NTCP2.cpp:161-178 | the option blocks carry padding length, part 2 length and seconds where the receiver reads them |
| `Ntcp2Handshake.SkewedMeans` | libdotnet/NTCP2.cpp:261-268 | the unsigned clock test passes if and only if the times differ by at most a minute and the receiver's clock is past its first minute |
| `Ntcp2Handshake.SynchronizedClocks` | libdotnet/NTCP2.cpp:261-268 | so with equal clocks the handshake passes if and only if the time is between second 60 and 2^32 - 1 |
| `Ntcp2Handshake.KeyDerivationFunctionDataPhase` | libdotnet/NTCP2.cpp:432-451 | both data keys are the halves of an HKDF output of ck, and both SipHash keys those of an HKDF output of a key that comes by HKDF from ck, "ask", h and "siphash" |
| `Ntcp2Handshake.TranscriptIs` | libdotnet/NTCP2.cpp:42-353 | the reference transcript written out: each of the three secrets enters the keys by HKDF, and both public keys, both sealed option blocks, both paddings, the sealed static key and the sealed payload enter the hash in order |
| `Ntcp2Handshake.CreateNonce` | libdotnet/NTCP2.cpp:425-429 | the transport nonce is the Noise nonce of the sequence number |
| `Ntcp2Handshake.ReadRouterInfo` | libdotnet/NTCP2.cpp:655-671 | takes the RouterInfo out of the payload if its block type and length fit |
| `Ntcp2Handshake.ExchangeRequest` | libdotnet/NTCP2.cpp:146-282 | message 1 from Alice to Bob: all checks pass and both hold the Noise state after -> e, es |
| `Ntcp2Handshake.ExchangeCreated` | libdotnet/NTCP2.cpp:186-317 | message 2 back: both hold the Noise state after <- e, ee |
| `Ntcp2Handshake.ExchangeConfirmed` | libdotnet/NTCP2.cpp:210-353 | message 3: both hold the final state and Bob knows Alice's static key and payload |
| `Ntcp2Handshake.HonestRun` | libdotnet/NTCP2.cpp:42-353 | in every honest run, for any padding, every check passes, both sides hold the state of the reference Noise XK transcript after each of the three messages, Bob learns Alice's static key and RouterInfo, and data keys, SipHash keys and IVs cross-match |
| `DnnpMessage.DNNPMessage.ToNTCP2` | libdotnet/DNNPProtocol.h:213-218 | the 9-byte NTCP2 header written over the expiration it is computed from spells the same message |
| `DnnpMessage.DNNPMessage.FromNTCP2` | libdotnet/DNNPProtocol.h:204-211 | the reverse, reading the expiration before overwriting it |
| `DnnpMessage.DNNPMessage.ToSSU` | libdotnet/DNNPProtocol.h:191-200 | the 5-byte SSU header over as much payload as the size field says, the new length and the returned message id |
| `DnnpMessage.DNNPMessage.FromSSU` | libdotnet/DNNPProtocol.h:182-190 | the reverse with the id supplied |
| `DnnpMessage.HeaderLayouts` | libdotnet/DNNPProtocol.h:182-218 | where type, id, expiration in seconds and payload stand in both short forms |
| `DnnpMessage.Ntcp2RoundTrip` | libdotnet/DNNPProtocol.h:204-218 | through NTCP2 everything survives except the expiration, which is cut to seconds modulo 2^32 |
| `DnnpMessage.SsuRoundTrip` | libdotnet/DNNPProtocol.h:182-200 | the same for SSU |
| `DnnpMessage.ExpirationKept` | libdotnet/DNNPProtocol.h:204-218 | the expiration survives exactly if and only if it is whole seconds below 2^32; otherwise it moves back, never forward |
| `DnnpMessage.Received` | libdotnet/NTCP2.cpp:875-879 | a received block becomes the message it spells, whatever the alignment of the new buffer |
| `DnnpMessage.NewDNNPMessage` | libdotnet/DNNPProtocol.cpp:20-40 | allocation and Align leave room for the full header and the block |
| `Ntcp2Data.LengthRecovered` | libdotnet/NTCP2.cpp:903-916 | the masked length reads back modulo 2^16, so exactly the lengths below 2^16 survive |
| `Ntcp2Data.LengthFieldIs` | libdotnet/NTCP2.cpp:903-916 | the first byte of the chain value masks the low byte of the length and the second the high byte |
| `Ntcp2Data.BlockLayout` | libdotnet/NTCP2.cpp:918-986 | type, two bytes of size, data |
| `Ntcp2Data.PaddingRange` | libdotnet/NTCP2.cpp:1059-1072 | exactly the padding sizes that some random number gives: zero, and whatever is below 6 percent of the message and fits buffer and frame |
| `Ntcp2Data.PaddingWithin` | libdotnet/NTCP2.cpp:1059-1072 | with at most 65516 bytes of blocks the padding keeps the frame within the limit |
| `Ntcp2Data.FrameFits` | libdotnet/NTCP2.cpp:1059-1072 | for every batch the queue may form, the frame length fits its field if and only if at most 65516 bytes are used or the last buffer has room for the MAC and not for a padding header |
| `Ntcp2Data.OverrunExample` | libdotnet/NTCP2.cpp:1031-1072 | two messages of legal size whose frame announces a wrong length |
| `Ntcp2Data.NTCP2Session.SetNextSentFrameLength` | libdotnet/NTCP2.cpp:903-916 | advances the send chain and masks the length with it |
| `Ntcp2Data.NTCP2Session.SendDNNPMsgs` | libdotnet/NTCP2.cpp:918-986 | one frame for all messages, padding behind the last or in its own buffer, sealed under the next nonce, preceded by its masked length |
| `Ntcp2Data.NTCP2Session.SendQueue` | libdotnet/NTCP2.cpp:1031-1057 | takes a maximal prefix of the queue, drops only messages too large for any frame, and always makes progress |
| `Ntcp2Data.NTCP2Session.ReceiveFrame` | libdotnet/NTCP2.cpp:757-836 | unmasks the length, checks it and opens the frame under the next nonce |
| `Ntcp2Data.NTCP2Session.ProcessNextFrame` | libdotnet/NTCP2.cpp:838-901 | walks the blocks: hands on exactly the message blocks, in order, and terminates exactly on a termination block of at least 9 bytes |
| `Ntcp2Data.WireOpens` | libdotnet/NTCP2.cpp:757-836 | the receiver finds the frame at the head of the stream if and only if it is shorter than 65520 bytes |
| `Ntcp2Data.DeliveredMessages` | libdotnet/NTCP2.cpp:867-882 | a frame of messages and padding delivers those messages with the expiration cut to seconds |
| `Ntcp2Data.ArrivingSendable` | libdotnet/NTCP2.cpp:1041-1051 | what the sender drops the receiver would not take either |
| `Ntcp2Data.Connect` | libdotnet/NTCP2.cpp:593-626 | the two sides of a finished handshake start in step in both directions |
| `Ntcp2Data.Deliver` | libdotnet/NTCP2.cpp:757-986 | one frame from sender to receiver keeps them in step |
| `Ntcp2Data.BatchOpens` | libdotnet/NTCP2.cpp:757-1072 | the receiver finds the frame that SendQueue makes of a batch if and only if the batch uses at most 65516 bytes or leaves its last buffer room for the MAC and not for a padding header |
| `Ntcp2Data.FrameCountIs` | libdotnet/NTCP2.cpp:1031-1057 | a batch that fits a frame and could not take the next message is the one the condition on the queue counts, so it speaks of exactly the frames SendQueue makes |
| `Ntcp2Data.Drain` | libdotnet/NTCP2.cpp:757-1057 | over an ordered channel the whole queue comes out in order, type, id and payload intact and expiration in seconds, whenever each frame SendQueue makes of it meets that condition |
| `GarlicTags.RunSeparate` | libdotnet/Garlic.cpp:94-207 | over every interleaving of send, loss, delivery, acknowledgement, cleanup and clock ticks, and whatever the message ids, the tags in the pool, in the batches that wait and in the history stay pairwise different |
| `GarlicTags.RunTracked` | libdotnet/Garlic.cpp:94-207 | over every interleaving in which a message id is used again only when no batch, message or acknowledgement goes by it, the receiver knows every tag in the pool, and the tags of a batch whose acknowledgement is on its way, unless they are past use |
| `GarlicTags.NoTagTwice` | libdotnet/Garlic.cpp:157-175 | no tag is ever sent twice, in any run with fresh tags, whatever the message ids |
| `GarlicTags.TagIsFound` | libdotnet/Garlic.h:42-44 | with message ids used again only when idle, every message wrapped with a tag and delivered within 241 s finds that tag at the receiver (960 s there against 720 s here) |
| `GarlicTags.TagIsLost` | libdotnet/Garlic.h:42-44 | the bound is sharp: a run in which at 242 s the tag is gone |
| `GarlicTags.DeliveryRegisters` | libdotnet/Garlic.cpp:471-486 | delivery within that time registers all new tags of the message |
| `GarlicTags.ReusedIdLosesTag` | libdotnet/Garlic.cpp:276-281 | when an id is used again while a batch waits under it, an acknowledgement can confirm tags of a lost message, and an unknown tag is used |
| `GarlicTags.PickSuffix` | libdotnet/Garlic.cpp:163-174 | picking skips exactly expired tags and leaves the suffix behind the one picked |
| `GarlicTags.RegisterAdds` | libdotnet/Garlic.cpp:481-486 | registering adds exactly the tags and keeps the time of those already there |
| `Garlic.CloveParses` | libdotnet/Garlic.cpp:316-344 | a printed clove reads back with its delivery instructions and message, whatever follows it |
| `Garlic.ClovesParse` | libdotnet/Garlic.cpp:513-629 | so do all cloves, in order; router delivery only for direct messages |
| `Garlic.PayloadParses` | libdotnet/Garlic.cpp:248-314 | a printed payload dispatches exactly its cloves |
| `Garlic.TagsRead` | libdotnet/Garlic.cpp:223-230 | the tags of a block read back |
| `Garlic.BlockParses` | libdotnet/Garlic.cpp:216-246 | a printed AES block reads back as its tags and its payload with matching hash |
| `Garlic.RegisteredTimes` | libdotnet/Garlic.cpp:481-486 | tag registration refines that of the tag protocol |
| `Garlic.TaggedUnwraps` | libdotnet/Garlic.cpp:436-453 | a message under a known tag uses it up, registers exactly the new tags and dispatches exactly the cloves |
| `Garlic.ElGamalUnwraps` | libdotnet/Garlic.cpp:454-466 | so does a message that opens a session |
| `Garlic.GarlicDestination.AddSessionKey` | libdotnet/Garlic.cpp:411-418 | one tag |
| `Garlic.GarlicDestination.HandleGarlicMessage` | libdotnet/Garlic.cpp:426-469 | both paths, and every error branch, of an incoming message |
| `Garlic.GarlicDestination.HandleAESBlock` | libdotnet/Garlic.cpp:471-511 | registers the tags even when the payload is then refused |
| `Garlic.GarlicDestination.HandleGarlicPayload` | libdotnet/Garlic.cpp:513-629 | dispatches the cloves of a payload |
| `Garlic.GarlicDestination.CleanupIncomingTags` | libdotnet/Garlic.cpp:658-675 | drops exactly the tags older than 960 s |
| `Garlic.GarlicRoutingSession.constructor` | libdotnet/Garlic.cpp:20-29 | a new session is the empty sender |
| `Garlic.GarlicRoutingSession.OneTime` | libdotnet/Garlic.cpp:31-38 | the one-message session |
| `Garlic.GarlicRoutingSession.GenerateSessionTags` | libdotnet/Garlic.cpp:69-79 | a batch stamped with the time of its making |
| `Garlic.GarlicRoutingSession.TagsConfirmed` | libdotnet/Garlic.cpp:94-108 | refines the protocol's confirmation |
| `Garlic.GarlicRoutingSession.CleanupUnconfirmedTags` | libdotnet/Garlic.cpp:130-148 | refines the protocol's expiry of unconfirmed batches |
| `Garlic.GarlicRoutingSession.CleanupExpiredTags` | libdotnet/Garlic.cpp:110-128 | refines the protocol's expiry, and forgets an overdue lease set update; without an owner no acknowledgement is given up |
| `Garlic.GarlicRoutingSession.TakeTag` | libdotnet/Garlic.cpp:157-175 | refines the protocol's choice of a tag |
| `Garlic.GarlicRoutingSession.Attach` | libdotnet/Garlic.cpp:258-299 | asks for an acknowledgement and attaches the lease set exactly when due, and repeats an unconfirmed one |
| `Garlic.GarlicRoutingSession.WrapSingleMessage` | libdotnet/Garlic.cpp:150-214 | the whole message by tag or by ElGamal, and the sender state of the protocol after it |
| `Garlic.ClovesAre` | libdotnet/Garlic.cpp:258-304 | the cloves one by one: delivery status, lease set, and last the message for its destination |
| `Garlic.TaggedLayout` | libdotnet/Garlic.cpp:190-213 | length, tag, and the block in CBC with the IV from the tag |
| `Garlic.ElGamalLayout` | libdotnet/Garlic.cpp:177-213 | length, ElGamal block, and the rest in CBC with the IV from the pre-IV |
| `Garlic.BlockLayout` | libdotnet/Garlic.cpp:216-246 | tag count, tags, payload size, its hash, a zero flag, the payload |
| `Garlic.PayloadLayout` | libdotnet/Garlic.cpp:248-314 | number of cloves, cloves, three zero bytes, message id, expiration |
| `Garlic.CloveLayout` | libdotnet/Garlic.cpp:316-344 | delivery instructions, message, clove id, expiration, three zero bytes |
| `Garlic.DeliveryLayout` | libdotnet/Garlic.cpp:316-390 | the delivery flags and what follows each |
| `Garlic.GarlicRoutingSession.HandleDeliveryStatus` | libdotnet/Garlic.cpp:81-92 | an acknowledgement refines the protocol's, with or without cleanup |
| `Garlic.Exchange` | libdotnet/Garlic.cpp:150-629 | whatever a session wraps the destination takes apart: it registers exactly the new tags and dispatches, in order, the delivery status for the inbound tunnel if an acknowledgement is asked for, the lease set if it is due, and the message itself, on both paths |
| `LeaseSets.RecordParses` | libdotnet/LeaseSet.cpp:89-95 | a lease record reads back |
| `LeaseSets.RecordLayout` | libdotnet/LeaseSet.cpp:89-95 | gateway, tunnel id and end date, big-endian |
| `LeaseSets.LiveMeans` | libdotnet/LeaseSet.cpp:146-146 | a lease counts until 51 seconds after its end |
| `LeaseSets.LeasesParse` | libdotnet/LeaseSet.cpp:86-97 | a list of records reads back whatever follows it |
| `LeaseSets.FreshParseIs` | libdotnet/LeaseSet.cpp:144-166 | the reference parse: one entry per (tunnel, gateway), from the last live record for it |
| `LeaseSets.LatestEndIs` | libdotnet/LeaseSet.cpp:148-149 | the reference expiration is the maximum live end date, or zero |
| `LeaseSets.LeaseSet.UpdateLeasesBegin` | libdotnet/LeaseSet.cpp:116-124 | clears all marks and nothing else |
| `LeaseSets.LeaseSet.UpdateLease` | libdotnet/LeaseSet.cpp:144-166 | enters or renews exactly the live record, keeping the lease object others may hold |
| `LeaseSets.LeaseSet.UpdateLeasesEnd` | libdotnet/LeaseSet.cpp:126-142 | drops exactly the unmarked leases and zeroes their end dates |
| `LeaseSets.LeaseSet.ReadFromBuffer` | libdotnet/LeaseSet.cpp:71-114 | after a successful refresh the set equals a fresh parse whatever it held before, kept leases are the same objects, swept ones are zeroed, the expiration is the maximum end date plus 51 s; in each failing case what is left; an invalid set never becomes valid again |
| `EncryptedLeaseSet.HKDF` | libdotnet/Crypto.cpp:1253-1275 | the in-place HKDF writes the 64 bytes of RFC 5869 |
| `EncryptedLeaseSet.ChaCha20` | libdotnet/Crypto.cpp:1234-1251 | one layer in place |
| `EncryptedLeaseSet.LayersOpen` | libdotnet/LeaseSet.cpp:622-648 | opening undoes sealing of both layers |
| `EncryptedLeaseSet.AlphaIs` | libdotnet/LeaseSet.cpp:336-343 | the blinding seed is HKDF of the date salted with a hash of the key data |
| `EncryptedLeaseSet.SubcredentialIs` | libdotnet/LeaseSet.cpp:317-334 | the subcredential is a hash of the credential and the blinded key |
| `EncryptedLeaseSet.KeyDataIs` | libdotnet/LeaseSet.cpp:317-326 | public key and both types, big-endian |
| `EncryptedLeaseSet.LayersAre` | libdotnet/LeaseSet.cpp:888-910 | both layers are ChaCha20 from block 1 with key and nonce from HKDF of their own salts |
| `EncryptedLeaseSet.ExpirationTimeIs` | libdotnet/LeaseSet.cpp:880-884 | the expiration is the inner one or the first midnight after publication, whichever is earlier |
| `EncryptedLeaseSet.WriteLayers` | libdotnet/LeaseSet.cpp:888-910 | the overlapping in-place writes produce both layers |
| `EncryptedLeaseSet.Write` | libdotnet/LeaseSet.cpp:861-915 | the whole buffer of an encrypted lease set |
| `EncryptedLeaseSet.OuterParses` | libdotnet/LeaseSet.cpp:566-604 | what was written reads back as an outer layer whose signature is good |
| `EncryptedLeaseSet.InnerRecovered` | libdotnet/LeaseSet.cpp:566-660 | a reader with the same identity recovers exactly the inner store type and bytes if the type is standard or meta, and nothing otherwise |
| `EncryptedLeaseSet.WrongKeyRefused` | libdotnet/LeaseSet.cpp:609-621 | a key whose blinding for that day differs gets nothing |
| `EncryptedLeaseSet.ExpirationAgrees` | libdotnet/LeaseSet.cpp:880-884 | writer and reader agree on the expiration if and only if it is less than 65536 s after publication and not before it |
| `EncryptedLeaseSet.LeaseSet2.ReadFromBufferEncrypted` | libdotnet/LeaseSet.cpp:566-660 | the reading object, up to parsing the inner set: timestamps, transient key, validity, store type and buffer in every branch, the timestamps also where the signature is then refused |
| `EncryptedLeaseSet.ExpirationDiffers` | libdotnet/LeaseSet.cpp:880-884 | a set valid for 70000 s reads back 65536 s short |
| `EncryptedLeaseSet.Publish` | libdotnet/LeaseSet.cpp:566-915 | from the writer's buffer to the reader's object |
| `NtcpFraming.CreateMsgBuffer` | libdotnet/NTCPSession.cpp:674-708 | size, message, padding and checksum are laid out and encrypted where they stand |
| `NtcpFraming.FrameLayout` | libdotnet/NTCPSession.cpp:674-708 | size, message, less than a block of padding, and the checksum of all that |
| `NtcpFraming.CreateTimeSync` | libdotnet/NTCPSession.cpp:688-708 | the 16-byte time sync |
| `NtcpFraming.NTCPReceiver.DecryptNextBlock` | libdotnet/NTCPSession.cpp:606-665 | one block, by all branches: header, time sync, over-long, continuation, completion with good or bad checksum, expired |
| `NtcpFraming.FeedFrame` | libdotnet/NTCPSession.cpp:606-665 | the blocks of one acceptable item deliver exactly that message, if not expired |
| `NtcpFraming.FeedFrames` | libdotnet/NTCPSession.cpp:606-665 | so do the blocks of any sequence of items, in order |
| `NtcpFraming.TooLong` | libdotnet/NTCPSession.cpp:617-621 | a message over the limit ends the session at its first block |
| `NtcpFraming.NTCPReceiver.HandleReceived` | libdotnet/NTCPSession.cpp:523-604 | a read, and the bytes available right after it, leave the state of the whole stream so far and less than a block buffered |
| `NtcpFraming.Receive` | libdotnet/NTCPSession.cpp:516-665 | for every sequence of acceptable messages and time syncs and every split of their ciphertext into reads, exactly those messages come out in order, with fewer than 16 bytes left |
| `Gost.Plus` | libdotnet/Gost.cpp:794-805 | operator+ adds 512-bit big-endian numbers modulo 2^512 |
| `Gost.Add` | libdotnet/Gost.cpp:807-816 | Add adds a counter modulo 2^512 though it stops at the first empty carry; a first sum beyond 32 bits loses 2^32 |
| `Gost.E` | libdotnet/Gost.cpp:837-849 | twelve rounds of key and text |
| `Gost.Gn` | libdotnet/Gost.cpp:852-860 | the compression function of section 8 of RFC 6986 |
| `Gost.RoundsUndone` | libdotnet/Gost.cpp:837-849 | the rounds can be undone with their round keys and the inverse of F, so E is a cipher |
| `Gost.CompressionIs` | libdotnet/Gost.cpp:852-860 | the compression function is that cipher under F of N and h, with h and the block added to its output |
| `Gost.HashIs` | libdotnet/Gost.cpp:862-898 | block after block, each compressed with the number of bits before it, then the bit length and the sum of all blocks |
| `Gost.PadIs` | libdotnet/Gost.cpp:880-887 | the padded last block is its bytes behind a one |
| `Gost.H` | libdotnet/Gost.cpp:862-898 | the one-shot hash takes blocks from the end of the buffer, pads, and closes with length and sum |
| `Gost.GOSTR3411_2012_256` | libdotnet/Gost.cpp:900-907 | 256-bit variant |
| `Gost.GOSTR3411_2012_512` | libdotnet/Gost.cpp:909-914 | 512-bit variant |
| `Gost.AbsorbedCounts` | libdotnet/Gost.cpp:862-898 | N is the bit length and s the sum of the blocks, modulo 2^512 |
| `Gost.StreamedIsAbsorbed` | libdotnet/Gost.cpp:945-1000 | streaming whole blocks and then hashing the tail is the one-shot hash of the reversed data |
| `Gost.GOSTR3411_2012_CTX.constructor` | libdotnet/Gost.cpp:934-943 | a new context has been fed nothing |
| `Gost.GOSTR3411_2012_CTX.Update` | libdotnet/Gost.cpp:945-975 | pieces that begin on a block boundary are appended to the message; a piece after an incomplete block is compressed at once and counted as a whole block |
| `Gost.GOSTR3411_2012_CTX.Finish` | libdotnet/Gost.cpp:977-1000 | the digest is the byte reversal of the one-shot hash of the reversed message, for every split into pieces of whole blocks and a last one |
| `Base.ByteStreamToBase32` | libdotnet/Base.cpp:274-302 | writes the digits that spell the first bits of the input, all of them if there is room, though the accumulator is never masked |
| `Base.Base32ToByteStream` | libdotnet/Base.cpp:246-272 | decodes up to the room; a wrong character gives 0 |
| `Base.Accumulate` | libdotnet/Base.cpp:283-285 | shifting and or-ing on 32 bits keeps the low bits of the unbounded accumulator |
| `Base.WrapKeeps` | libdotnet/Base.cpp:295-297 | the bits still to be written survive the wrap-around |
| `Base.RoundTrip32` | libdotnet/Base.cpp:246-302 | decoding inverts encoding for every non-empty byte string |
| `Base.ByteStreamToBase64` | libdotnet/Base.cpp:70-138 | writes the padded text exactly if it fits, otherwise nothing |
| `Base.Base64ToByteStream` | libdotnet/Base.cpp:150-204 | decodes through the padding and refuses what does not fit; nothing beyond the result is touched, except that exactly when the number of paddings is a positive multiple of three the first byte of the next group lands right behind it |
| `Base.ExtraByte` | libdotnet/Base.cpp:180-200 | a text with three paddings announces three bytes and writes four |
| `Base.GroupDecodes` | libdotnet/Base.cpp:97-112 | four digits in eight-bit arithmetic decode to their three bytes |
| `Base.Alphabet32` | libdotnet/Base.cpp:10-15 | the Base32 digits are a to z and 2 to 7 |
| `Base.Alphabet64` | libdotnet/Base.cpp:32-41 | the Base64 digits are A to Z, a to z, 0 to 9, minus and tilde |
| `Base.DigitsAre` | libdotnet/Base.cpp:97-134 | three bytes spell the four 6-bit digits of their 24-bit number; what is missing at the end is zero bits and padding |
| `Base.EncodedDecodes` | libdotnet/Base.cpp:70-204 | decoding inverts encoding for every byte string, padded or not |
| `Base.RoundTrip64` | libdotnet/Base.cpp:70-204 | the same through the two buffers |
| `ThreadPool.FirstInFirstOut` | libdotnet/CryptoWorker.h:36-51 | in every reachable state jobs have left the queue in the order they came in, and each accepted job is in exactly one place, so none runs twice |
| `ThreadPool.JoinsComplete` | libdotnet/CryptoWorker.h:53-61 | when the destructor's joins are complete the queue is empty and every accepted job has run exactly once, if and only if there were workers or nothing was accepted |
| `ThreadPool.NobodyWorks` | libdotnet/CryptoWorker.h:27-27 | without workers a run in which the destructor leaves a job behind |
| `ThreadPool.QuietMeansDone` | libdotnet/CryptoWorker.h:24-61 | no wake-up is lost: where no thread can go on, every offer has returned, the destructor is idle or through, and all accepted jobs have run unless there are no workers |
| `ThreadPool.RunsEnd` | libdotnet/CryptoWorker.h:24-61 | the program's own steps come to an end from every state under every scheduling |
| `ThreadPool.NextInv` | libdotnet/CryptoWorker.h:24-61 | every step of every thread keeps mutual exclusion, order, distinctness, conservation of jobs and the count of pending wake-ups |
| `ThreadPool.Queue.constructor` | libdotnet/CryptoWorker.h:24-27 | an empty running pool |
| `ThreadPool.Queue.Emplace` | libdotnet/CryptoWorker.h:45-51 | the critical section of Offer |
| `ThreadPool.Queue.Take` | libdotnet/CryptoWorker.h:32-39 | from the mutex to the next job, a wait or the end of the thread |
| `ThreadPool.Queue.Work` | libdotnet/CryptoWorker.h:30-43 | a worker nobody interferes with runs the whole queue in order and then waits or ends |
| `ThreadPool.Queue.Execute` | libdotnet/CryptoWorker.h:41-42 | runs the job and posts its result without the mutex |
| `ThreadPool.Queue.SetStop` | libdotnet/CryptoWorker.h:55-58 | the critical section of the destructor |

## Left out

- Montgomery.DifferentialLaw: is stated for u other than 0; at u = 0 the formulas degenerate and the ladder result is proved separately, inside Montgomery.ScalarMul.
- Ntcp2Handshake.HonestRun: supposes a RouterInfo of at most 65515 bytes; with a longer one the 16-bit length of part 2 wraps around in the source.
- Ntcp2Handshake.ReadRouterInfo: supposes a block size of at least one; for size zero the source passes a negative length on. Signature, age, address and static key checks on the RouterInfo that follow are not part of this model.
- Ntcp2Handshake.NTCP2Establisher.CreateSessionRequestMessage: message buffers are fields of sequence type, so the in-place AEAD of part 2 is modelled on values; module Aead proves the in-place form.
- Ntcp2Data.NTCP2Session.SendDNNPMsgs: messages and frames are values; the overlapping header rewrites are proved on arrays in DnnpMessage and the buffer list in Aead.AEADChaCha20Poly1305Encrypt.
- Ntcp2Data.NTCP2Session.ProcessNextFrame: is about frames made of whole blocks; a frame cut inside a block header, or a message block shorter than its header, makes the source read outside the frame.
- Ntcp2Data.Drain: is about queues whose frames all open, by the exact condition of Ntcp2Data.BatchOpens; nothing is claimed about what a receiver makes of a frame that does not, beyond that it is not the frame sent.
- Garlic.GarlicDestination.HandleGarlicMessage: a length beyond the payload is refused; the source compares it with the length of the whole message, so up to twenty bytes behind the payload may be read there. Lengths inside blocks and cloves that the source does not check are treated the same way.
- Garlic.GarlicRoutingSession.WrapSingleMessage: the wrapped delivery status and the lease set message are parameters; the shared routing path and the rest of the message header are not modelled.
- Garlic.Exchange: where ElGamal is used, supposes that the ciphertext does not begin with the 32 bytes of a known tag; messages are those whose size fields are right.
- GarlicTags.TagIsFound: seconds are naturals; the 32-bit creation times of the source wrap around in 2106.
- LeaseSets.LeaseSet.ReadFromBuffer: the identity, the encryption key and the signature check come in as an outcome; requests to the network database for unknown gateways are not modelled.
- EncryptedLeaseSet.InnerRecovered: supposes an inner set below 65470 bytes and a publication time before 2106, the widths of the header fields. Parsing and verifying the inner set, per-client authorization and the store hash are not part of this model.
- EncryptedLeaseSet.LeaseSet2.ReadFromBufferEncrypted: a ciphertext of 32 to 65 bytes is refused; the source reads behind it.
- NtcpFraming.Receive: covers messages of 1 to the largest accepted size; an empty message reads as a time sync. Allocation and alignment of the message under way are not modelled.
- Gost.GOSTR3411_2012_CTX.Update: nothing is claimed about the digest once a piece follows an incomplete block.
- Base.Base64ToByteStream: the backward count of padding stops at the beginning of the text; in the source it does not.
- ElGamal.ElGamalDecrypt: private keys at or above the prime, for which the exponent would be negative, are excluded.
- ThreadPool.QuietMeansDone: what a job does, and exceptions it may throw, are not modelled; running it and posting its result are one step each.
- The byte order is that of a little-endian host; inline assembly and OpenSSL branches of the same functions are not modelled.
- The garlic path that reads tags from and writes tags to files, routing paths, session tables and timers.
- NTCP phases 1 to 4, sockets, proxies, timers and statistics of both transports; an ordered byte stream or a bag of messages stands for the network.
- ECIES, DSA, RSA, ECDSA, GOST signatures and HMAC-MD5: library calls or small variations of what is here.
- The network database, tunnels, streaming, HTTP, persistence, configuration, profiles and user interfaces.
