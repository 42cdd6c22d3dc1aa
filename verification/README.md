# libcrypt core in Dafny

libcrypt is a small C++ library of textbook public-key schemes built on one
primitive: `pow_mod`, square-and-multiply modular exponentiation over
`int64_t` with C++'s truncating `%`. This project models the parts of it
that are built on that primitive, and proves what they promise:

- **`pow_mod` and `extended_gcd`** (`NumberTheory`). The loop is a method
  proved against the specification function `PowMod`. `extended_gcd` is
  modelled by the contract its tests pin down (Euclid on the ordered
  operands). Fermat's little theorem and the RSA exponent law (`Fermat`)
  make every "decrypt after encrypt" round trip below a theorem rather than
  an assumption.
- **SRA mental poker** (`Poker`, `PokerExample`). A `Player` class owns a
  commuting key pair and a hand. Each player encrypts and shuffles the
  shared deck in place, and decrypts a deck in place. `poker_call_example`
  builds the deck 2..53, deals hands and a board, and decrypts them. The end
  theorem: every revealed hand and the board come, as a multiset, from the
  standard deck.
- **Blind-RSA anonymous voting** (`BlindSign`, `BlindSignExample`). The
  `Server` registers each elector once and signs blinded records in place.
  The `Elector` packs its answer into a 64-bit vote, blinds the hex SHA-256
  of the vote, unblinds the signatures and posts a bulletin. The server then
  checks it. Channels are byte streams with `std::fstream`'s single
  position and fail state (`Streams`). The end theorem: an honest elector's
  bulletin is always accepted.
- **The Shamir byte-stream cipher** (`Ciphers`). Each plaintext byte
  becomes one 8-byte record, and decryption undoes it byte for byte.
  `char` is taken as signed, as with GCC on x86-64, so bytes from 128 up
  travel as negative values; they come back too.
- **The RSA file signature** (`Signatures`). Signing appends a 512-byte
  trailer of 64 signed hex characters. The check re-hashes the content
  before the trailer and stops at the first part that does not verify.
  Signing and then checking with an RSA pair from `rsa_gen_sys` returns true.
- **Parameter generation** (`GenParams`). These are the rejection loops of
  `shamir_gen_sys`, `elgamal_gen_sys`, `rsa_gen_sys` and `gost_gen_sys`.
  Each exit condition is a postcondition. Each generator succeeds exactly
  when its draws hold the candidates the source would stop at, and returns
  those candidates: `FirstPrimeIndex` and its siblings name the first
  accepted draw, `RsaPrimes` replays the outer loop of `rsa_gen_sys`, and
  `GostDraws` chains the three loops of `gost_gen_sys`.

Shared pieces:

- `Bytes`: little-endian encodings and C++ integer casts.
- `Records`: loops over fixed-width records.
- `Digests`: the decimal text of a number and the type of a hex SHA-256 digest.
- `Random`: the mapping of a raw draw onto a range.
- `ModArith` and `Sequences`: generic arithmetic and multiset facts.

## Model

| member | source | states |
|---|---|---|
| NumberTheory.ComputePowMod | src/libcrypt/utils.cpp:4-19 | the square-and-multiply loop, for every non-negative exponent, returns 1 for exponent 0 (unreduced, whatever base and modulus) and otherwise the truncating remainder of base^exp |
| NumberTheory.TruncRem | src/libcrypt/utils.cpp:8 | C++ `%` with a positive modulus: the remainder lies strictly between -mod and mod and has the sign of the dividend |
| NumberTheory.PowModCongruent | src/libcrypt/utils.cpp:8-17 | for exponent at least 1, the result is congruent to base^exp modulo mod, lies strictly between -mod and mod, and is non-negative for a non-negative base |
| NumberTheory.PowModNegBase | tests/utils.cpp:31-42 | negating the base negates the result for an odd exponent and leaves it unchanged for an even one |
| NumberTheory.StepProductBound | src/libcrypt/utils.cpp:13-15 | every product the loop forms is at most (mod-1)^2 in magnitude, so it fits in int64 whenever (mod-1)^2 does |
| NumberTheory.NegativeExpNeverReachesZero | src/libcrypt/utils.cpp:9-16 | halving a negative exponent any number of times never reaches 0, so the loop terminates only for non-negative exponents |
| NumberTheory.PowModCompose | src/libcrypt/utils.cpp:4-19 | for mod at least 2, exponentiating by a and then by b equals exponentiating by a*b |
| NumberTheory.PowModCommute | src/libcrypt/poker.cpp:41-51 | for mod at least 2, two exponentiation layers under one modulus commute, for every base |
| NumberTheory.PowModCommuteNeedsModulusTwo | src/libcrypt/utils.cpp:7-18 | with mod 1 the commutation law fails, because exponent 0 leaves 1 unreduced |
| NumberTheory.Mod | src/libcrypt/blind_sign.cpp:102 | libcrypt::mod is the canonical remainder: it lies in [0, mod) and is congruent to its argument |
| NumberTheory.Euclid | include/libcrypt/utils.hpp:7 | extended Euclid on a >= b returns g > 0 dividing both operands with a*x + b*y == g, and coefficients bounded so that one shift normalises them |
| NumberTheory.ExtendedGcd | include/libcrypt/utils.hpp:7 | the larger operand comes first: larger*x + smaller*y == g, g divides both, and the last element (the smaller operand's coefficient) is bounded by the larger operand |
| NumberTheory.ExtendedGcdSymmetric | tests/utils.cpp:72-100 | swapping the operands gives the same triple |
| NumberTheory.ExtendedGcdIsGreatest | include/libcrypt/utils.hpp:7 | every common divisor divides g, so g is the greatest common divisor |
| NumberTheory.BackCoefficientIsInverse | src/libcrypt/poker.cpp:22-27 | when gcd(k, n) == 1, `.back()` is an inverse of k modulo n, and adding n once when it is negative gives an inverse in (0, n) |
| NumberTheory.ExtendedGcdSmallExample | tests/utils.cpp:57-70 | extended_gcd(240, 46) == (2, -9, 47) in both argument orders |
| NumberTheory.ExtendedGcdLargeExample | tests/utils.cpp:72-100 | extended_gcd(1524345121234, 3124312425) == (13, -30561593, 14910933623) in both argument orders |
| Fermat.PrimeExponentsInvert | examples/params/gen_params.cpp:16-31 | exponents that are inverse modulo p-1 undo each other on every residue modulo a prime p |
| Fermat.RsaExponentsInvert | examples/params/gen_params.cpp:86-110 | exponents that are inverse modulo (P-1)(Q-1) undo each other on every residue modulo P*Q, for distinct primes P and Q |
| Random.UniformCovers | src/libcrypt/poker.cpp:14-18 | every value of a uniform range is produced by some raw draw |
| Digests.DecimalText | src/libcrypt/blind_sign.cpp:97 | std::to_string of the vote consists of decimal digits without a leading zero |
| Digests.DecimalRoundTrip | src/libcrypt/blind_sign.cpp:33 | the decimal text hashed by check_bulletin determines the vote it was made from |
| Bytes.Wrap | src/libcrypt/blind_sign.cpp:101-102 | a cast to a signed N-byte integer gives the value in the type's range congruent modulo 256^N |
| Bytes.SignedRoundTrip | src/libcrypt/blind_sign.cpp:104-114 | a signed value written as N little-endian bytes reads back as its N-byte cast |
| Bytes.UnsignedRoundTrip | src/libcrypt/blind_sign.cpp:110 | an unsigned value below 256^N written as N bytes reads back unchanged |
| Bytes.Int64RoundTrip | src/libcrypt/ciphers.cpp:21-34 | an int64 written as 8 bytes reads back unchanged |
| Streams.Stream.constructor | examples/blind_sign/blind_sign_example.cpp:34 | a file opened with truncation is empty at position 0, and it is in the failed state exactly when it could not be opened |
| Streams.Stream.Read | src/libcrypt/blind_sign.cpp:16 | a read of n bytes delivers what is left (at most n bytes) and advances the position; it succeeds only on a good stream with n bytes left, and otherwise sets the fail state |
| Streams.Stream.Write | src/libcrypt/blind_sign.cpp:104 | a write on a good stream overwrites or extends at the position and advances it; a failed stream ignores it |
| Streams.Stream.Seek | examples/blind_sign/blind_sign_example.cpp:27 | seekg moves the position of a good stream and is ignored by a failed one |
| Streams.Stream.Clear | examples/blind_sign/blind_sign_example.cpp:31 | clear() resets the fail state of an open stream and changes nothing else |
| Streams.Stream.ReadToEnd | src/libcrypt/signatures.cpp:43 | reading with stream iterators yields every byte from the position on and leaves the position at the end |
| Records.TransformRecords | src/libcrypt/ciphers.cpp:17-22 | the read-a-record-then-write loop writes exactly the image of every whole record of the input, in order, and ends with the input stream failed |
| Records.WriteRecords | src/libcrypt/signatures.cpp:34-38 | the loop over digest characters writes exactly one record per character, in order |
| Poker.Player.constructor | src/libcrypt/poker.cpp:9-28 | key_c is the first accepted draw in [2, mod-2] coprime to mod-1, and key_d is its inverse modulo mod-1, normalised into [0, mod-1] |
| Poker.Player.AssignCopy | include/libcrypt/poker.hpp:16-20 | copy assignment makes the hand exactly the given cards and leaves the keys alone |
| Poker.Player.AssignMove | include/libcrypt/poker.hpp:22-26 | move assignment makes the hand exactly the moved-from cards and leaves the keys alone |
| Poker.Player.GetCards | include/libcrypt/poker.hpp:28-31 | get_cards hands out the player's own hand object, so decrypting it changes the player's hand |
| Poker.Player.Shuffle | src/libcrypt/poker.cpp:30-35 | shuffling keeps the length and the multiset of cards |
| Poker.Player.DeckEncryption | src/libcrypt/poker.cpp:37-45 | afterwards the deck is a permutation of every old card raised to key_c; the player is not changed |
| Poker.Player.DeckDecryption | src/libcrypt/poker.cpp:47-53 | every card is replaced, at its own position, by itself raised to key_d; the player is not changed |
| Poker.LayersAsOnePower | src/libcrypt/poker.cpp:41-51 | a card put through several exponentiation layers equals the card raised to the product of the keys |
| Poker.DecryptionOrderIrrelevant | examples/poker/poker_example.cpp:47-58 | two orders of the same keys leave every card in the same state |
| Poker.InterleavedPairsCancel | src/libcrypt/poker.cpp:41-51 | applying each player's key_c followed by its key_d, player after player, restores the card |
| Poker.SraRoundTrip | examples/poker/poker_example.cpp:35-58 | a card encrypted by every player and then decrypted by all the players, in any order, is the original card |
| Poker.LayersAllPermutation | src/libcrypt/poker.cpp:44 | exponentiating two decks that are permutations of each other gives decks that are permutations of each other |
| PokerExample.StandardDeck | examples/poker/poker_example.cpp:28-31 | the initial deck has 52 cards, 2, 3, ..., 53 in order |
| PokerExample.NewDeck | examples/poker/poker_example.cpp:26-31 | the deck loop builds exactly the standard deck |
| PokerExample.CreatePlayers | examples/poker/poker_example.cpp:33-39 | each new player's keys are valid, and after all the players have encrypted and shuffled, the deck is a permutation of the starting deck with every player's key_c applied |
| PokerExample.Deal | examples/poker/poker_example.cpp:41-45 | player k's hand is cards 2k and 2k+1 of the deck, and the deck loses exactly its first 2N cards |
| PokerExample.RevealOrderUsesEveryKey | examples/poker/poker_example.cpp:47-58 | the decryption order of hand i (every other player in index order, then player i) uses every player's key_d exactly once |
| PokerExample.RevealHand | examples/poker/poker_example.cpp:49-57 | hand i ends as its dealt cards with the keys applied in that order |
| PokerExample.RevealHands | examples/poker/poker_example.cpp:47-58 | every hand ends decrypted by every player, its owner last |
| PokerExample.RevealBoard | examples/poker/poker_example.cpp:60-65 | the board is a copy of the next five cards, decrypted once by every player; the deck is not changed |
| PokerExample.DecryptedDeckIsStandard | examples/poker/poker_example.cpp:35-65 | with a prime modulus above 53, decrypting the encrypted and shuffled deck by every player gives back the standard deck, as a multiset |
| PokerExample.TableComesFromDeck | examples/poker/poker_example.cpp:41-65 | the revealed hands and board are disjoint pieces of a permutation of the standard deck |
| PokerExample.PlayTable | examples/poker/poker_example.cpp:24-65 | for 2..10 players: N two-card hands and a five-card board, every slice in bounds, and the table comes from the standard deck when the modulus is a prime above 53 |
| PokerExample.PokerCallExample | examples/poker/poker_example.cpp:11-66 | a player count outside [2, 10] fails with an invalid-argument error before any key or deck is made; otherwise the table has that shape and comes from the standard deck (2q+1 with q a Germain prime) |
| BlindSign.Elector.constructor | src/libcrypt/blind_sign.cpp:70-77 | the vote is excess*2^32 + answer with excess in [2^31, 2^32-1], so its low 32 bits are the answer; the blinding factors start at -1 and the id at UINT64_MAX |
| BlindSign.VoteCarriesAnswer | src/libcrypt/blind_sign.cpp:76 | the packed vote splits back into the excess and the answer and fits in 64 bits |
| BlindSign.Elector.GetElectorId | include/libcrypt/blind_sign.hpp:21-24 | returns the identity last set |
| BlindSign.Elector.SetElectorId | include/libcrypt/blind_sign.hpp:26-29 | overwrites the identity and nothing else |
| BlindSign.Elector.GenBlindFactor | src/libcrypt/blind_sign.cpp:49-68 | the blind factor is the first accepted draw in [2, mod-1] coprime to mod, and the inverse blind factor is its inverse modulo mod in (0, mod) |
| BlindSign.Elector.SendBlindedHash | src/libcrypt/blind_sign.cpp:93-106 | draws the blind factor, then writes one int32 record mod(h * r^e, n) per hex character h of the vote's digest, in order |
| BlindSign.Elector.SendBulletin | src/libcrypt/blind_sign.cpp:108-120 | writes the 8-byte vote, then one int32 record mod(s * inverse, n) per whole signed record left on the secure channel; the elector is not changed |
| BlindSign.Server.constructor | include/libcrypt/blind_sign.hpp:43 | a new server has registered nobody |
| BlindSign.Server.AcceptConnection | src/libcrypt/blind_sign.cpp:79-91 | a registered id is rejected and nothing changes; otherwise the elector gets id = the number registered so far, the set grows by exactly that id (staying {0..n-1}), and a fresh empty channel named after the id is returned |
| BlindSign.Server.SendBlindedSign | src/libcrypt/blind_sign.cpp:12-25 | every whole int32 record from the position on is replaced in place by its signature, and the length, the bytes before and a trailing partial record are kept |
| BlindSign.Server.RewriteRecords | src/libcrypt/blind_sign.cpp:16-24 | the read, seek back and write loop overwrites each whole record with its image and leaves the rest of the file intact |
| BlindSign.Server.OverwriteRecord | src/libcrypt/blind_sign.cpp:21-23 | seeking back one record and writing puts the new record exactly over the one just read |
| BlindSign.Server.CheckBulletin | src/libcrypt/blind_sign.cpp:27-47 | the verdict is true exactly when every record after the vote verifies to the matching character of SHA-256(to_string(vote)); the file is only read, and the reading stops after the first record that fails |
| BlindSign.Server.CheckRecords | src/libcrypt/blind_sign.cpp:35-46 | the loop returns true exactly when every one of the 64 records verifies, and it consumes records only up to the first failing one |
| BlindSign.RecordsReadStops | src/libcrypt/blind_sign.cpp:35-46 | all records before the last one read verify, the last one read fails unless all 64 were read, and all verify exactly when all are read and the last verifies |
| BlindSign.Server.ReadRecord | src/libcrypt/blind_sign.cpp:37-39 | one read yields the i-th int32 record of the bulletin body, or 0 once it has run out |
| BlindSign.SignedBlinded | src/libcrypt/blind_sign.cpp:101-102 | signing a blinded character h gives h^d * r modulo n |
| BlindSign.Unblinded | src/libcrypt/blind_sign.cpp:116 | multiplying by the inverse blind factor removes the blind factor |
| BlindSign.UnblindedIsSignature | src/libcrypt/blind_sign.cpp:101-116 | unblinding the signature of a blinded character gives the server's signature of the character itself |
| BlindSign.SignatureVerifies | src/libcrypt/blind_sign.cpp:41 | raising a signature to the shared key gives back the character |
| BlindSign.Int32RoundTrip | src/libcrypt/blind_sign.cpp:101-104 | an int32 record reads back as the value written |
| BlindSign.RecordRoundTrip | src/libcrypt/blind_sign.cpp:101-119 | a character blinded, signed and unblinded, each through its 4-byte record, decodes to its signature |
| BlindSign.BlindedRecordsShape | src/libcrypt/blind_sign.cpp:99-105 | the blinded digest is 64 whole records with no trailing piece |
| BlindSign.ProtocolSignature | src/libcrypt/blind_sign.cpp:93-120 | record i of the posted bulletin body is the server's signature of digest character i |
| BlindSign.HonestBulletinAccepted | src/libcrypt/blind_sign.cpp:27-47 | the bulletin of an honest elector (its vote followed by its unblinded signatures) is accepted by check_bulletin |
| BlindSignExample.AnonVotingCallExample | examples/blind_sign/blind_sign_example.cpp:9-46 | the result is the server's verdict, which is always acceptance; an unopenable channel aborts with an error; the run fails for exhausted draws exactly when rsa_gen_sys finds no primes (`RsaPrimes`), or, with the secure channel open, no blinding draw is accepted for P*Q; no other failure occurs |
| BlindSignExample.Vote | examples/blind_sign/blind_sign_example.cpp:15-23 | a fresh server always accepts the elector's connection, and an unopenable secure channel aborts before any later phase; with the channel open, the run fails for exhausted draws exactly when no blinding draw is accepted |
| BlindSignExample.Session | examples/blind_sign/blind_sign_example.cpp:25-45 | after the signing phase an unopenable anonymous channel aborts, and otherwise the verdict is acceptance |
| BlindSignExample.SignBlindedHash | examples/blind_sign/blind_sign_example.cpp:25-32 | after blinding, rewinding, signing, clearing and rewinding, the secure channel holds the signed blinded digest, readable from its start |
| BlindSignExample.BlindAndRewind | examples/blind_sign/blind_sign_example.cpp:25-27 | the secure channel holds exactly the blinded digest, rewound |
| BlindSignExample.SignAndRewind | examples/blind_sign/blind_sign_example.cpp:29-32 | the channel holds exactly the signed records, rewound and in the good state |
| BlindSignExample.PostAndCheck | examples/blind_sign/blind_sign_example.cpp:41-45 | the verdict is check_bulletin's verdict on the vote followed by the unblinded signatures |
| Ciphers.ShamirEncrypt | src/libcrypt/ciphers.cpp:8-23 | the encrypted file receives exactly the encrypted text of the bytes left in the message, one record per byte |
| Ciphers.EncryptedRecords | src/libcrypt/ciphers.cpp:17-22 | the encrypted text is 8 bytes per input byte, and record i is the 8-byte pow_mod(pow_mod(sign-extended byte i, send, mod), recv, mod) |
| Ciphers.ShamirDecrypt | src/libcrypt/ciphers.cpp:25-39 | the decrypted file receives exactly one byte per whole 8-byte record: the low byte of the two decryption layers |
| Ciphers.DecryptedLength | src/libcrypt/ciphers.cpp:34-38 | decryption yields the number of whole records |
| Ciphers.SignExtended | src/libcrypt/ciphers.cpp:19 | a byte read as a signed `char` becomes a value in [-128, 128) with the same low byte |
| Ciphers.ShamirKeysOdd | examples/params/gen_params.cpp:9-32 | both exponents of a Shamir key pair modulo a prime are odd |
| Ciphers.ResidueRoundTrip | src/libcrypt/ciphers.cpp:19-37 | the two encryption layers followed by the two decryption layers restore every residue |
| Ciphers.CharRoundTrip | src/libcrypt/ciphers.cpp:19-37 | with odd exponents the four layers restore negative characters too |
| Ciphers.PartRoundTrip | src/libcrypt/ciphers.cpp:19-37 | decrypting the record of one byte gives back that byte |
| Ciphers.ShamirRoundTrip | tests/ciphers.cpp:107-178 | with a prime modulus and key pairs from shamir_gen_user_params, decrypting the encryption of any message gives back the message |
| Signatures.SignatureSize | src/libcrypt/signatures.cpp:12 | the signature of a hex digest is exactly 64 * 8 = 512 bytes |
| Signatures.SignedPartOf | src/libcrypt/signatures.cpp:34-38 | signed part i is pow_mod(digest character i, private key, mod) |
| Signatures.HexDigitWidened | src/libcrypt/signatures.cpp:36 | widening a hex character to int64 keeps its code |
| Signatures.FailedStreamRejected | src/libcrypt/signatures.cpp:51-57 | a read that delivers nothing leaves 0, which never verifies to a hex character |
| Signatures.PartsReadStops | src/libcrypt/signatures.cpp:49-58 | all parts before the last one read verify, the last one read fails unless all 64 were read, and all 64 are read when all verify |
| Signatures.PartRoundTrip | src/libcrypt/signatures.cpp:36-54 | a hex character signed with the private key verifies with the shared key |
| Signatures.SignatureRoundTrip | tests/signatures.cpp:84-98 | a file with its signature appended passes the check from the position the signing started at |
| Signatures.RsaFileSigning | src/libcrypt/signatures.cpp:30-39 | a good file gets the signature of the hash of its bytes from the position on, appended at its end; a failed file is unchanged |
| Signatures.RsaCheckFileSign | src/libcrypt/signatures.cpp:41-60 | true exactly when the stream is good and every part of the 512-byte trailer verifies against the hash of the content before it; the file is only read, from 512 bytes before the end up to the first failing part |
| Signatures.CheckParts | src/libcrypt/signatures.cpp:49-58 | the loop returns true exactly when every part verifies, and reads parts up to the first failing one |
| Signatures.ReadPart | src/libcrypt/signatures.cpp:51-52 | one read yields the i-th 8-byte part of the trailer and advances 8 bytes |
| Signatures.SignAndCheck | tests/signatures.cpp:84-98 | the run succeeds exactly when rsa_gen_sys's draws yield primes (`RsaPrimes`); then signing with its private key, rewinding and checking with its shared key returns true |
| GenParams.DrawPrime | examples/params/gen_params.cpp:41-44 | the do-while loop finds a prime other than the excluded value exactly when `FirstPrimeIndex` is a draw; it returns that draw's candidate and the index after it |
| GenParams.FirstPrimeIndexIsFirst | examples/params/gen_params.cpp:41-44 | `FirstPrimeIndex` is the first accepted draw: the draw there is accepted, and every draw before it is rejected |
| GenParams.Int16MaxNotPrime | examples/params/gen_params.cpp:39 | INT16_MAX = 7 * 4681 is not prime, so the Shamir modulus lies strictly above it |
| GenParams.ShamirGenUserParams | examples/params/gen_params.cpp:9-32 | the private key is the first accepted draw in [INT16_MAX, mod-1] coprime to mod-1, and the shared key is its inverse modulo mod-1 in (0, mod-1); it fails only when no draw is accepted |
| GenParams.CoprimeBelow | examples/params/gen_params.cpp:16-22 | a key coprime to mod-1 is never mod-1 itself |
| GenParams.ShamirGenSys | examples/params/gen_params.cpp:34-50 | succeeds exactly when some draw gives a prime modulus and, for the first such modulus, both the sender's and the receiver's draws hold an accepted key; the modulus is that first prime in (INT16_MAX, INT32_MAX], and both user pairs are valid Shamir key pairs, each the first accepted draw of its own sequence |
| GenParams.ShamirKeysInvert | examples/params/gen_params.cpp:24-31 | the two keys of a Shamir pair undo each other on every residue of the prime modulus |
| GenParams.ElgamalGenSys | examples/params/gen_params.cpp:52-71 | the receiver's private key is in [2, mod-2] with shared key base^private; the session key is the first draw in [1, mod-2] coprime to mod-1 |
| GenParams.SessionKeyInvertible | examples/params/gen_params.cpp:65-68 | the accepted session key has an inverse modulo mod-1 |
| GenParams.CoprimeToThree | examples/params/gen_params.cpp:98-100 | extended_gcd(3, n) is 1 exactly when 3 does not divide n, so `RsaPrimes` may state the retry test as divisibility |
| GenParams.RsaGenSys | examples/params/gen_params.cpp:73-111 | succeeds exactly when `RsaPrimes` (first prime P, then the first prime Q other than P after it, and a new round after Q while 3 divides (P-1)(Q-1)) settles on primes, and P and Q are those primes; they are distinct primes in [255, 32767], mod = P*Q, 3 is coprime to (P-1)(Q-1), and the private key is the inverse of 3 in (0, (P-1)(Q-1)) |
| GenParams.RsaKeysInvert | examples/params/gen_params.cpp:98-110 | the RSA private and shared keys undo each other on every residue of P*Q, and the modulus lies in [256, 2^30) |
| GenParams.GostGenSys | examples/params/gen_params.cpp:113-154 | succeeds exactly when each of the three loops finds an accepted draw (`GostDraws`), and elliptic_exp, tmp_coef and tmp_base are the candidates of those first accepted draws; elliptic_exp is a prime in [32768, 65535], mod = tmp_coef*elliptic_exp + 1 is a prime no larger than INT32_MAX, elliptic_coef = tmp_base^tmp_coef > 1, and the sender's keys are private in [1, elliptic_exp-1] and shared = elliptic_coef^private |
| GenParams.CoefRange | examples/params/gen_params.cpp:126-134 | the coefficient range is non-empty and every candidate modulus fits in int32 |
| GenParams.DrawModulus | examples/params/gen_params.cpp:131-135 | the loop finds a prime modulus exactly when `FirstModulusIndex` is a draw; tmp_coef is that draw's candidate in [INT16_MAX, INT32_MAX/q - 1], and mod = tmp_coef*q + 1 is a prime no larger than INT32_MAX |
| GenParams.FirstModulusIndexIsFirst | examples/params/gen_params.cpp:131-135 | `FirstModulusIndex` is the first draw whose tmp_coef*q + 1 is prime, and every draw before it gives a composite |
| GenParams.DrawCoefficient | examples/params/gen_params.cpp:142-146 | the loop finds a base exactly when `FirstCoefficientIndex` is a draw; tmp_base is that draw's candidate in [1, mod-1], and elliptic_coef = tmp_base^tmp_coef mod p exceeds 1 |
| GenParams.FirstCoefficientIndexIsFirst | examples/params/gen_params.cpp:142-146 | `FirstCoefficientIndex` is the first draw whose base raised to tmp_coef exceeds 1, and every draw before it gives at most 1 |
| GenParams.GostCoefOrder | examples/params/gen_params.cpp:145 | elliptic_coef raised to elliptic_exp is 1 modulo mod |

## Left out

- SHA-256 (PicoSHA2) is not part of this model. It is a function parameter returning 64 lower-case hexadecimal characters.
- Randomness (`std::random_device`, `std::mt19937`, `std::uniform_int_distribution`) is replaced by raw draws that the caller supplies. A draw maps onto a range by `lo + raw % (hi - lo + 1)`.
- The rejection loops of the parameter generators fail with `KeyGenerationExhausted` when the supplied draws run out. The source loops for ever instead. With enough draws each generator returns what the source returns.
- `Ciphers.EncryptPart` takes `char` as signed, as GCC does on x86-64. Where `char` is unsigned, a byte from 128 up is encrypted as its own value rather than as a negative one; that variant is not modelled.
- `Ciphers.SignExtended` states the signed reading only. With an unsigned `char` the record value is the byte itself, and the round trip needs only the exponent inverses.
- `Poker.Player.constructor` and `BlindSign.Elector.GenBlindFactor` are void in the source. They require that some supplied draw is accepted.
- `Poker.Player.Shuffle` is a Fisher-Yates pass over supplied draws. `std::shuffle`'s own order is not modelled; only the permutation property it promises is stated.
- The bodies of `extended_gcd`, `is_prime`, `libcrypt::mod`, `gen_dh_system` and `gen_germain_prime` are not part of this model.
  - `extended_gcd` is Euclid's algorithm with the contract its tests pin down.
  - `is_prime` is trial division.
  - `mod` is the canonical remainder.
  - The Diffie-Hellman parameters and the Germain prime are inputs.
- `baby_step_giant_step` and its test vectors are not part of this model.
- `pow_mod` is modelled on unbounded integers. `NumberTheory.StepProductBound` states when int64 cannot overflow, but the model does not wrap.
- Exponents are non-negative (`nat`). The source loops for ever on a negative exponent (`NumberTheory.NegativeExpNeverReachesZero`).
- Loops in the other modules use the function `PowMod` where the source calls `pow_mod`. `NumberTheory.ComputePowMod` proves the loop equal to it.
- Files and streams are the `Stream` class:
  - a byte sequence, one position and a fail state;
  - no file names, no file system, no separate read and write positions, no eof bit;
  - `ofstream <<` of a `char` is a one-byte write.
- Exceptions become `Failure` results:
  - "Can't vote twice" is `ProtocolViolation`;
  - an unopenable channel is `ResourceError`;
  - a bad player count is `InvalidArgument`.
- `Signatures.RsaCheckFileSign` requires at least 512 bytes from the position on. With fewer, `erase` is given an iterator before the start of the string, which C++ leaves undefined.
- `BlindSignExample.AnonVotingCallExample` reads `params.user` as the `recv` field. The struct in `examples/params/gen_params.hpp` names it `recv`, while the example and the signature tests write `user`.
- `shamir_gen_sys` returns the sender's pair in the field named `recv` and the receiver's in `send`. The model keeps that order; it has no observable effect.
- The command-line drivers, the ElGamal, Vernam, RSA and GOST ciphers and signatures of the other example files, and all file and temporary-directory handling in the tests are not part of this model.
- Security properties (unlinkability of the vote, hiding of the cards) are not functional behaviour and are not stated.
