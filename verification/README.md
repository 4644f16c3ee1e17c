# Verified model of a browser cryptography library

This project models the parts of the library that the library computes itself, and proves properties of them. Calls
into WebCrypto, the @noble packages and paillier-bigint are parameters.

* **Voting keys.** Square-and-multiply, the extended Euclidean inverse, gcd and lcm, Miller–Rabin with the bases the
  code really tries, the HMAC generator of section 10.1.2 of NIST SP 800-90A, prime search, Paillier key generation
  (section 4 of Paillier's EUROCRYPT '99 paper), the instance-bound keys whose ciphertexts carry an HMAC, and the byte
  formats of the keys.
* **Checksums.** CRC-8 and CRC-16 by table and by bit, in one piece and as streams, and the errors they detect.
* **Streams.** Chunk framing, the encrypting and decrypting generators, pausing and resuming, and the two ECIES
  transforms. A generator is a class whose `Next` runs from one `yield` to the following one, so that what the code
  does after a `yield` happens only when the consumer asks again.
* **Multi-recipient chunks.** The printer, the record-scanning parser, and the bytes that both authenticate.
* **Small formats and tables.** Length-prefixed data, the written forms of GUIDs, merged configurations and their
  registry.

Loops that update variables or fill buffers are loops here, proved against functions or properties; classes whose
fields the source updates are classes. `NumberTheory`, `Fermat`, `ByteStrings`, `Sequences`, `BitOperations`, `Words`
and `DataViews` hold the mathematics and the platform calls that the rest uses.

## Main results

* Keys from two primes decrypt every encryption of every message (`Paillier.DecryptionCorrect`), and primes drawn from
  the seed lead to such keys exactly when they are far enough apart (`KeyGeneration.SeedGivesWorkingKeys`). The
  generator's state and output are written out as HMACs (`Drbg.InstantiatedState`, `Drbg.StateAfterRequest`).
  Miller–Rabin as coded rejects no prime (`MillerRabin.PrimeAccepted`) and accepts only strong probable primes to its
  shifted bases (`MillerRabin.AcceptedMeans`).
* Over every run of encryptions, additions, scalings and changes of the instance id all ciphertexts stay genuine
  (`IsolatedRuns.RunKeeps`); a private key made anywhere in the run answers at any later point as
  `IsolatedRuns.RunDecrypts` says, and a change of the id ends its use exactly when `IsolatedRuns.RefusedIff` says so.
* Both checksums, by table, by bit and as streams, are the remainders of polynomial division
  (`Crc.ChecksumsAreRemainders`), which gives the errors they detect (`Crc.BurstErrorsDetected`,
  `Crc.OddErrorsDetected`), the distances over which two wrong bits escape (`TwoBitErrors.TwoErrorsMissedIff`), and the
  residue (`Crc.AppendedChecksum`).
* The two stream generators return the text (`EncryptionStreams.Transfer`) and mark its end exactly when
  `EncryptionStreams.LastFlagIff` says so; on arbitrary frames the receiver yields only an in-order prefix
  (`EncryptionStreams.OnlyInOrder`). Any number of interrupted runs lose nothing (`ResumableEncryptions.Session`), and
  `ResumableEncryptions.ResumeElsewhere` says when a resumption under another configuration does. The ECIES transforms
  return the text however both streams are cut (`EciesTransforms.Pipeline`).
* Each listed recipient of a multi-recipient chunk gets the payload, everyone else the not-found error
  (`MultiRecipient.MultiRoundTrip`), and the parser decides on arbitrary bytes as its specification does
  (`MultiRecipient.DecryptChunk`).
* Every format is laid out byte by byte (`ChunkFormat.FrameLayout`, `MultiRecipient.PrintedBytes`,
  `KeyBuffers.PublicKeyLayout`, `LengthEncoding.EncodedBytes`, `Guids.HexForms`), and for every decoder it is said which
  check reports which error. A tag is the HMAC of its own ciphertext and nothing else passes for it
  (`IsolatedKeys.TagDecides`); the integrity text of a saved state determines all its fields
  (`ResumableEncryptions.StateTextInjective`).
* The forms of a GUID agree (`Guids.HexFormsAgree` and its neighbours), length-prefixed data is uniquely decodable
  (`LengthEncoding.UniquelyDecodable`), key buffers undo each other (`KeyBuffers.PublicKeyRoundTrip` and its
  neighbours), and the registry keeps its invariant (`Configurations.ConstantsRegistry.Register`).

## How the surroundings are modelled

* SHA-256 and HMAC are arbitrary functions with 32-byte results (64 bytes for HMAC-SHA-512). AES-GCM, ECIES and ECDSA
  are arbitrary functions; a theorem that needs a law names it: what is sealed opens under the matching key and
  associated data, signatures verify, AES-GCM keeps the length and adds its tag.
* paillier-bigint is taken to be the textbook scheme: `encrypt` is g^m·r^n mod n² with an invertible r, `addition` and
  `multiply` work modulo n², a negative power being the inverse of the positive one and an error where there is none,
  `decrypt` is L(c^lambda mod n²)·mu mod n.
* Random values, salts and times are parameters. Asynchronous code is sequential. Abort signals, progress callbacks and
  message texts do not appear.
* A step of the source that throws is an error value, with one constructor for each kind of error.
* JavaScript's `%` and `/` on BigInt truncate toward zero and are written out so. DataView setters keep the low bytes
  of their argument.

## Where the code differs from what is said about it

* `docs/README_STREAMING.md` tells callers to position the source at `bytesProcessed` before resuming. The code reads
  the source from its start and passes over the chunks already done. `SeekingSkipsTwice` proves that following the
  guide gives the right chunks exactly when nothing was done before or nothing is left, `SeekingExample` loses one.
* `generateDeterministicPrime` promises a prime of the requested bit length. It sets the top bit but never clears the
  bits above it: `ExactLengthIff` proves that the promise holds for every draw exactly when the length is a multiple of
  eight.
* `modInverse` never enters its loop for zero or a negative argument and then returns 1; `NonPositiveArgument` says
  when that is an inverse, `NegativeArgumentExample` is a case where it is not.
* The generator gives K and V 64 bytes for SHA-512 and 32 for every other hash name, while section 10.1.2.3 of NIST
  SP 800-90A asks for the output length of the hash. `PrescribedIff` proves that it starts as prescribed if and only if
  the hash is SHA-256 or SHA-512; `OtherLengthDiffers` is a difference with SHA-384 and SHA-1. Key generation uses
  SHA-512.
* When a stream's length is an exact multiple of the chunk size, the last chunk object is marked as last only after it
  was framed and yielded (`EncryptGenerator.Next`). `LastFlagIff` proves that the end of a stream is marked on the wire
  if and only if its length is no multiple of the chunk size; `ExactMultipleUnmarked` is an input where it is not. A
  stream that loses its end is accepted (`PrefixDecrypts`).
* The saved state records 1 MiB and `false` where options leave the chunk size and the checksums open, the stream uses
  its own configuration, and a resumption only compares states. `AcceptedSettingsIff` says when an accepted resumption
  goes on with the same settings, `AssembledIff` when the chunks of both runs make up the text, and `WrongResumption`
  is one that is accepted and repeats bytes.
* The encoder of isolated keys takes identifiers of any length and the decoder cuts out 32 bytes for each:
  `IsolatedKeyRoundTrip` proves that the key comes back exactly when both have 32; `ShortKeyId` is a key id that does
  not.
* The integrity value of a saved state notices every change of one byte (`ByteChangeChangesHash`), and of two bytes
  unless they agree as `TwoChangesIff` says; `AlteredStateValidates` is a changed state that passes.
* Merging overrides is idempotent (`MergeTwice`), creating a configuration with them is not: `CreatedTwiceIff` says when
  it is, `CreatedTwiceExample` is refused the second time.

## Model

| member | source | states |
|---|---|---|
| VotingArithmetic.RemUnique | src/services/voting.service.ts:139-151 | BigInt's remainder is the only value of its residue class that is smaller than the modulus and has the dividend's sign |
| VotingArithmetic.ModPow | src/services/voting.service.ts:139-151 | square-and-multiply returns b^e reduced with BigInt's sign rule for every base, exponent and modulus, 0 for modulus 1, 1 for a negative exponent, and fails exactly for modulus 0 |
| VotingArithmetic.GcdLoop | src/services/voting.service.ts:181-191 | the Euclidean loop returns the greatest common divisor of the absolute values, for all signs |
| VotingArithmetic.GcdCharacterised | src/services/voting.service.ts:181-191 | the result is the one non-negative common divisor that every common divisor divides |
| VotingArithmetic.LcmLeast | src/services/voting.service.ts:196-198 | the quotient is exact, a common multiple, and divides every common multiple |
| ModularInverse.ModInverse | src/services/voting.service.ts:156-176 | for a > 0 and m > 1 the loop ends and the result x has 0 < x < m and a·x ≡ 1, or it divides by zero exactly when gcd(a, m) ≠ 1; one addition of the modulus is always enough |
| ModularInverse.NonPositiveArgument | src/services/voting.service.ts:156-176 | for a ≤ 0 the result 1 is an inverse if and only if a ≡ 1 |
| ModularInverse.NegativeArgumentExample | src/services/voting.service.ts:156-176 | -1 is invertible modulo 3, and the result 1 is not its inverse |
| ModularInverse.InverseUnique | src/services/voting.service.ts:156-176 | there is only one inverse between 0 and m |
| MillerRabin.WitnessLoop | src/services/voting.service.ts:98-109 | a round passes exactly for strong probable primes to the base; returning early at a square equal to 1 loses nothing |
| MillerRabin.MillerRabinTest | src/services/voting.service.ts:69-138 | the test accepts exactly the numbers that pass every base (w mod (n-2))+2 of the twelve primes and every HMAC-derived base, for any number of rounds |
| MillerRabin.PrimeAccepted | src/services/voting.service.ts:69-138 | no prime is rejected, whatever the number of rounds and the hash |
| MillerRabin.PassingBaseIsUnit | src/services/voting.service.ts:98-109 | a base that passes shares no factor with the candidate |
| MillerRabin.PassingBaseIsFermat | src/services/voting.service.ts:98-109 | a base that passes an odd candidate also passes Fermat's test |
| MillerRabin.EvenRejected | src/services/voting.service.ts:111-138 | with at least one round every even number above 2 is rejected |
| MillerRabin.AcceptedMeans | src/services/voting.service.ts:69-138 | an accepted number above 3 is odd and, for every base tried, coprime to it and a strong and a Fermat probable prime |
| MillerRabin.BasesTried | src/services/voting.service.ts:111-134 | for candidates above 39 the first twelve bases are 4, 5, 7, 9, 13, 15, 19, 21, 25, 31, 33 and 39, and base i from the twelfth on is the HMAC of the text of i under the text of the candidate, modulo n-3, plus 2 |
| MillerRabin.SmallCandidates | src/services/voting.service.ts:69-97 | 2 and 3 are accepted, every number below 2 and 4 refused, and 9 by its first base |
| Drbg.SecureDeterministicDrbg.constructor | src/services/voting.service.ts:335-355 | the created generator is in the state of HMAC_DRBG_Instantiate with initial values of 64 bytes for SHA-512 and 32 otherwise, which for SHA-256 and SHA-512 is the state of the standard |
| Drbg.PrescribedIff | src/services/voting.service.ts:335-343 | the initial state is the one of the standard for every HMAC and seed if and only if the hash is SHA-256 or SHA-512 |
| Drbg.OtherLengthDiffers | src/services/voting.service.ts:335-343 | an HMAC of 48 or 20 bytes, as with SHA-384 and SHA-1, for which even the first byte drawn is not the one of the standard |
| Drbg.InstantiatedState | src/services/voting.service.ts:345-400 | the state after seeding, written out: the first HMAC is keyed with zeros and covers ones, a zero byte and the seed, the second covers the new V, a one byte and the seed, and V is the HMAC of V under the key that results |
| Drbg.StateAfterRequest | src/services/voting.service.ts:402-415 | what a request returns and the state it leaves, written out block by block; the update behind it is the HMAC of V and a zero byte |
| Drbg.SeparatorsShow | src/services/voting.service.ts:376-415 | an HMAC and the seed [7] for which the first byte drawn is the separator 1 and the key left behind begins with the separator 0 |
| Drbg.SecureDeterministicDrbg.Reseed | src/services/voting.service.ts:376-400 | the private update leaves K and V as HMAC_DRBG_Update prescribes, with and without data; what that is for a seed and after a request is written out in InstantiatedState and StateAfterRequest |
| Drbg.SecureDeterministicDrbg.Generate | src/services/voting.service.ts:402-415 | a request returns the leftmost bytes of the V chain and leaves K and V as HMAC_DRBG_Generate prescribes, from any state |
| Drbg.SecureDeterministicDrbg.GenerateAll | src/services/voting.service.ts:402-415 | a whole sequence of requests returns the standard's outputs in order |
| Drbg.GenerateOutputByte | src/services/voting.service.ts:402-415 | byte i of an output is byte i mod L of the chain value number i/L + 1 |
| Drbg.OutputPrefix | src/services/voting.service.ts:402-415 | under one state a shorter request is a prefix of a longer one |
| Drbg.EnoughBlocksIff | src/services/voting.service.ts:402-415 | the number of blocks drawn is the least that covers the request |
| PrimeGeneration.CandidateRange | src/services/voting.service.ts:443-461 | every candidate is odd, has at least the requested number of bits, and fits the drawn bytes |
| PrimeGeneration.ExactLengthIff | src/services/voting.service.ts:443-461 | every draw has exactly the requested length if and only if that length is a multiple of eight |
| PrimeGeneration.CandidateBits | src/services/voting.service.ts:443-461 | of the drawn number the top bit of the requested length and the lowest bit are set, and no other bit changes |
| PrimeGeneration.Sieve | src/services/voting.service.ts:463-475 | the loop over the small primes finds a proper one among the divisors exactly when there is one |
| PrimeGeneration.SieveIsComplete | src/services/voting.service.ts:421-426 | below 257 the listed numbers are exactly the primes |
| PrimeGeneration.SievePassesIff | src/services/voting.service.ts:463-475 | a candidate passes exactly when no prime below 257 divides it properly |
| PrimeGeneration.GenerateDeterministicPrime | src/services/voting.service.ts:437-484 | the search returns the first candidate of the generator's outputs that passes both tests, leaves the generator in the state after that draw, and fails exactly when no attempt passes |
| PrimeGeneration.FirstGoodIff | src/services/voting.service.ts:437-484 | the search finds the first candidate, among those that consecutive requests give, that passes both tests, if one of the allowed number does, and stops in the state after that request |
| PrimeGeneration.FoundPrime | src/services/voting.service.ts:437-484 | what is found passed sieve and Miller–Rabin, is odd and long enough, and of the exact length for whole bytes |
| PrimeGeneration.PrimeIsGood | src/services/voting.service.ts:463-480 | a prime that is drawn is always taken |
| Paillier.GeneratorPower | src/services/voting.service.ts:575-583 | (1+n)^m ≡ 1 + m·n modulo n² |
| Paillier.LogarithmOfGenerator | src/services/voting.service.ts:578-583 | L recovers the exponent of the generator modulo n |
| Paillier.RandomnessVanishes | src/services/voting.service.ts:560-592 | for distinct primes every unit's n·lambda-th power is 1 modulo n² |
| Paillier.DecryptionCorrect | src/services/voting.service.ts:560-592 | under the generated lambda and mu every encryption of every message with every invertible randomness decrypts to the message modulo n |
| Paillier.EncryptIsEncryption | src/isolated-public.ts:338-342 | the textbook encryption of every message, of either sign, is an encryption of it |
| Paillier.AddIsEncryption | src/isolated-public.ts:405-406 | the product of two encryptions is one of the sum |
| Paillier.MultiplyIsEncryption | src/isolated-public.ts:372-373 | a power of an encryption is one of the product |
| Paillier.InverseIsEncryption | src/isolated-public.ts:372-373 | the inverse of an encryption of m is one of -m |
| Paillier.EncryptionIsPositive | src/isolated-public.ts:279-284 | an encryption is never zero, so its text has digits in front of the tag |
| KeyGeneration.GeneratorLogarithm | src/services/voting.service.ts:578-583 | g^lambda mod n² is exactly 1 + lambda·n, so L of it is lambda |
| KeyGeneration.LambdaAndMu | src/services/voting.service.ts:578-583 | mu is the inverse of lambda modulo n, in range |
| KeyGeneration.KeysFromPrimes | src/services/voting.service.ts:539-600 | the checks on the pair fail in the code's order and otherwise lambda, mu and g are the ones the scheme prescribes, subject to the final test encryption |
| KeyGeneration.OutcomeIff | src/services/voting.service.ts:539-600 | for two primes above 42 each outcome is decided by the primes alone: identical when they are equal, too close when they are less than 2^(primeBits/2) apart, degenerate when one divides the other's predecessor, and otherwise the keys for them |
| KeyGeneration.KeysUnique | src/services/voting.service.ts:560-587 | the two primes determine the key pair |
| KeyGeneration.DegenerateIff | src/services/voting.service.ts:563-573 | the gcd check passes exactly when neither prime divides the other's predecessor |
| KeyGeneration.EqualLengthPrimesCoprime | src/services/voting.service.ts:563-573 | for distinct odd primes of one bit length the gcd check cannot fail |
| KeyGeneration.DegeneratePairExample | src/services/voting.service.ts:563-573 | 3 and 7 are refused: equal length matters |
| KeyGeneration.GenerateDeterministicKeyPair | src/services/voting.service.ts:489-601 | the input checks fail in order, and otherwise the keys come from the first two primes that the seeded generator leads to |
| KeyGeneration.InputChecks | src/services/voting.service.ts:494-509 | a seed below 32 bytes, then a size below 2048, then an odd one, then fewer than 64 rounds are refused, and nothing else gives these errors |
| KeyGeneration.DrawnIff | src/services/voting.service.ts:518-537 | the two numbers are the first and second good candidates of the seeded generator, the second search going on in the state the first one left, each within ten thousand attempts |
| KeyGeneration.PairProperties | src/services/voting.service.ts:524-537 | both drawn numbers passed the tests and are odd; for key sizes that are multiples of sixteen they have one exact length |
| KeyGeneration.KeysDecryptEverything | src/services/voting.service.ts:560-592 | keys from distinct primes decrypt every encryption of every message |
| KeyGeneration.WorkingKeysValidate | src/services/voting.service.ts:589-598 | working keys with n > 42 always pass the final test encryption |
| KeyGeneration.PrimesGiveWorkingKeys | src/services/voting.service.ts:539-600 | for two primes of at least 1024 bits the checks and the key arithmetic end with working keys or with the identical or too-close error; the test encryption never fails, and for whole-byte lengths neither does the gcd check |
| KeyGeneration.SeedGivesWorkingKeys | src/services/voting.service.ts:489-601 | for valid inputs, if the two numbers drawn from the seed are primes, generation returns keys that decrypt everything if and only if they are 2^(bits/4) apart and neither divides the other's predecessor, and otherwise names the condition that fails; for key sizes that are multiples of sixteen the second condition always holds and the modulus has bits or bits-1 bits |
| IsolatedKeys.HexToBytes | src/isolated-public.ts:106-115 | the loop returns the bytes of the digit pairs, after a zero in front of an odd number of digits |
| IsolatedKeys.BytesEqual | src/isolated-private.ts:65-71 | the comparison loop says yes exactly for equal byte strings |
| IsolatedKeys.TagValue | src/isolated-public.ts:279-284 | tagging c gives c·16^64 plus the HMAC |
| IsolatedKeys.TaggedNumber | src/isolated-public.ts:251-284 | the tag is the HMAC, under key id and instance id, of the text of the ciphertext itself |
| IsolatedKeys.TagDecides | src/isolated-public.ts:291-333 | for any ciphertext with any 32 bytes in the place of the HMAC, operations go on exactly when the bytes are the HMAC of that ciphertext, and decryption returns its plaintext exactly then |
| IsolatedKeys.ShortNumbersRefused | src/isolated-public.ts:291-333 | numbers of at most 64 digits and negative ones are refused by the operations and by decryption |
| IsolatedKeys.OperationErrors | src/isolated-public.ts:338-407 | a wrong key id is reported first, then a ciphertext of another instance |
| IsolatedKeys.ModulusBytes | src/isolated-public.ts:146-192 | for moduli of up to 3072 bits the hashed text is the 768 hexadecimal digits, and the instance id the hash of key id, the 384 bytes of the modulus, and the salt |
| IsolatedKeys.TagSplits | src/isolated-public.ts:291-298 | for c ≥ 1 the text of the tagged number splits back into c and the HMAC |
| IsolatedKeys.ZeroTagRefused | src/isolated-public.ts:291-333 | a tagged zero is never accepted |
| IsolatedKeys.AcceptedIff | src/isolated-public.ts:291-333 | a ciphertext tagged in one state of the key is accepted in another exactly when both give it the same HMAC, or the id itself is the failure marker |
| IsolatedKeys.DecryptionIff | src/isolated-private.ts:76-139 | a tagged ciphertext of any state decrypts exactly when the key still has the remembered instance id and that instance gives the ciphertext the same HMAC; otherwise the error is the one of the first failing check |
| IsolatedKeys.IsolatedPublicKey.Create | src/isolated-public.ts:146-192 | a fresh key's instance id is the hash of key id, modulus and salt |
| IsolatedKeys.IsolatedPublicKey.FromBuffer | src/isolated-public.ts:198-231 | a restored key has the given identifiers |
| IsolatedKeys.IsolatedPublicKey.UpdateInstanceId | src/isolated-public.ts:56-63 | only the instance id changes, to the hash for the new salt |
| IsolatedKeys.IsolatedPublicKey.EncryptAsync | src/isolated-public.ts:338-342 | the object answers as its present state does, which EncryptGenuine is about |
| IsolatedKeys.IsolatedPublicKey.MultiplyAsync | src/isolated-public.ts:354-374 | the same for scalings, with the comparison loop on the extracted id; see MultiplyGenuine and OperationErrors |
| IsolatedKeys.IsolatedPublicKey.AdditionAsync | src/isolated-public.ts:386-407 | the same for additions; see AddGenuine and OperationErrors |
| IsolatedKeys.IsolatedPrivateKey.constructor | src/isolated-private.ts:38-53 | the private key remembers the identifiers that the public key has at that moment |
| IsolatedKeys.IsolatedPrivateKey.DecryptAsync | src/isolated-private.ts:76-139 | the instance check comes first, then parsing, then the HMAC, then decryption, against the public key as it is now |
| IsolatedRuns.EncryptGenuine | src/isolated-public.ts:338-342 | an encryption under a sound key is a correctly tagged encryption of its message |
| IsolatedRuns.AddGenuine | src/isolated-public.ts:386-407 | adding accepted ciphertexts gives a correctly tagged encryption of the sum |
| IsolatedRuns.MultiplyGenuine | src/isolated-public.ts:354-374 | scaling an accepted ciphertext by any constant, negative ones included, gives a correctly tagged encryption of the product |
| IsolatedRuns.EvaluateGenuine | src/isolated-public.ts:338-407 | every expression of additions and scalings over encryptions evaluates without an error to a correctly tagged encryption of its value |
| IsolatedRuns.DecryptGenuine | src/isolated-private.ts:76-139 | a correctly tagged ciphertext of the remembered instance decrypts to its value modulo n |
| IsolatedRuns.ExpressionDecrypts | src/isolated-private.ts:76-139 | any such expression decrypts to its value modulo n |
| IsolatedRuns.StepKeeps | src/isolated-public.ts:251-407 | every operation, succeeding or not, and every change of the instance id keeps all ciphertexts produced so far genuine |
| IsolatedRuns.RunKeeps | src/isolated-public.ts:251-407 | so does every run, whatever is interleaved |
| IsolatedRuns.UsableIff | src/isolated-public.ts:291-333 | where no HMACs collide, a ciphertext of a run is usable exactly while its own instance lasts, or under the failure marker as the id |
| IsolatedRuns.AddSucceedsIff | src/isolated-public.ts:386-407 | so an addition succeeds exactly when both ciphertexts belong to the current instance |
| IsolatedRuns.CollisionsAvoidable | src/isolated-public.ts:279-284 | there is an HMAC function under which no run from hashed ids collides, whatever its steps and changes of the id |
| IsolatedRuns.FreshRun | src/isolated-public.ts:146-192 | every run of a fresh key with that HMAC is genuine and free of collisions, so the theorems on usability and refusal speak of real runs |
| IsolatedRuns.RunDecrypts | src/isolated-private.ts:76-139 | a private key made at any point of a run and asked at any later one: it refuses everything if the id has changed since, returns the plain value of every ciphertext of the instance, and finds all other tags wrong |
| IsolatedRuns.RunInstance | src/isolated-public.ts:56-63 | after any run the key is in the state that the last salt gives it, whatever happened before |
| IsolatedRuns.RefusedIff | src/isolated-private.ts:76-84 | a private key made under one salt is refused after a run exactly when the last salt is another one, unless SHA-256 collides on the two; coming back to the salt brings the instance back |
| KeyBuffers.PublicKeyToBuffer | src/services/voting.service.ts:871-912 | the filled buffer is magic, version, key id, length, padded text of n, and the hash of all that |
| KeyBuffers.PrivateKeyToBuffer | src/services/voting.service.ts:986-1026 | the filled buffer holds both numbers behind their lengths, and the hash |
| KeyBuffers.IsolatedKeyToBuffer | src/services/voting.service.ts:1093-1136 | the filled buffer also holds what the two identifiers leave in their places; only an identifier that reaches beyond the buffer fails |
| KeyBuffers.RestoreIsolatedKey | src/services/voting.service.ts:1142-1197 | the key object built from a buffer is in the restored state, or the first failing check is reported |
| KeyBuffers.PublicKeyLayout | src/services/voting.service.ts:871-912 | byte by byte: 42 43 56 4b and 2, the hash of the text of n at 5, the length of the text at 37 in four bytes and the text at 41, the hash of all that at the end |
| KeyBuffers.PrivateKeyLayout | src/services/voting.service.ts:986-1026 | the same head, the text of lambda behind its length at 5, that of mu behind its own length next, the hash at the end |
| KeyBuffers.IsolatedKeyLayout | src/services/voting.service.ts:1093-1136 | the same head, the key id at 5, the instance id at 37, the text of n behind its length at 69, the hash at the end |
| KeyBuffers.PublicKeyRoundTrip | src/services/voting.service.ts:871-975 | a public key of any size decodes to its n, whatever follows the buffer, and to its g exactly when g = n + 1 |
| KeyBuffers.PrivateKeyRoundTrip | src/services/voting.service.ts:986-1083 | a private key of any size decodes to its lambda and mu |
| KeyBuffers.IsolatedKeyRoundTrip | src/services/voting.service.ts:1093-1197 | an isolated key decodes to its n with g = n + 1, and to its own identifiers if and only if both have 32 bytes |
| KeyBuffers.ShortKeyId | src/services/voting.service.ts:1093-1197 | a key id of 16 bytes comes back with 16 zeros behind it |
| KeyBuffers.PublicKeyAcceptedIff | src/services/voting.service.ts:918-975 | arbitrary bytes decode to n exactly when they have the layout with the right hash and the key id of the text of n |
| KeyBuffers.PrivateKeyAcceptedIff | src/services/voting.service.ts:1032-1083 | arbitrary bytes decode to lambda and mu exactly when both numbers follow each other in front of the right hash |
| KeyBuffers.IsolatedKeyAcceptedIff | src/services/voting.service.ts:1142-1197 | arbitrary bytes decode to a key in a given state exactly when they have the layout of that state |
| KeyBuffers.StartErrors | src/services/voting.service.ts:918-1170 | a buffer below 73, 45 or 105 bytes is too short for the three kinds of key and nothing else is; then a wrong magic is reported, then a wrong version |
| KeyBuffers.NumberErrors | src/services/voting.service.ts:918-1197 | behind a good start a text that is no number is reported first, then a wrong hash, then, for a public key, a wrong key id |
| CrcDivision.RemainderIff | src/services/crc.ts:22-48 | bit-at-a-time division computes the remainder of polynomial division: the only r below the degree for which message = quotient times generator + r, for every generator |
| CrcDivision.LookupStep | src/services/crc.ts:131-141 | any number of division steps at once is one lookup of the bits that leave and one addition |
| CrcDivision.BurstDetected | src/services/crc.ts:38-48 | division by a generator with a constant term tells apart bit strings that differ within as many consecutive bits as the checksum has, from any start value |
| CrcDivision.DivideParity | src/services/crc.ts:38-48 | if the generator has an even number of terms, the parity of the remainder is that of start value and message together |
| CrcDivision.AppendedRemainder | src/services/crc.ts:131-141 | a remainder is cancelled exactly by its own bits |
| PowersOfX.TwoErrorsIff | src/services/crc.ts:22-48 | for every generator with a constant term two wrong bits escape exactly when x to the power of their distance is 1 |
| PowersOfX.OrderIff | src/services/crc.ts:22-48 | the powers of x that are 1 are those of the multiples of its order |
| PowersOfX.PowersMultiply | src/services/crc.ts:22-48 | multiplication modulo the generator adds the exponents of powers of x |
| TwoBitErrors.Order8 | src/services/crc.ts:22-32 | the order of x modulo the CRC-8 generator is 127 |
| TwoBitErrors.Order16 | src/services/crc.ts:38-48 | the order of x modulo the CRC-16 generator is 32767 |
| Crc.AdvanceIsShift | src/services/crc.ts:22-48 | one step of a table generator is one division step on the low bits: what is never masked off stays above them |
| Crc.GenerateCrc8Table | src/services/crc.ts:22-32 | every entry of the unmasked generator is the remainder of its index after eight division steps |
| Crc.GenerateCrc16Table | src/services/crc.ts:38-48 | the same for CRC-16, whose intermediate values outgrow sixteen bits |
| Crc.LookupStep8 | src/services/crc.ts:55-63 | one turn of the CRC-8 loop is eight division steps |
| Crc.LookupStep16 | src/services/crc.ts:131-141 | one turn of the CRC-16 loop, in 32-bit arithmetic, is eight division steps |
| Crc.CrcService.Crc8 | src/services/crc.ts:55-63 | the table-driven CRC-8 is the remainder of the message |
| Crc.CrcService.Crc16 | src/services/crc.ts:131-141 | the table-driven CRC-16 is the big-endian remainder of the message |
| Crc.CrcService.Crc8Stream | src/services/crc.ts:70-95 | the stream form gives the checksum of the concatenation, however the input is cut |
| Crc.CrcService.Crc16Stream | src/services/crc.ts:148-176 | the same for CRC-16 |
| Crc.CrcService.VerifyCrc8 | src/services/crc.ts:102-110 | accepted are exactly the bytes that begin with the checksum and the number that is its value |
| Crc.CrcService.VerifyCrc16 | src/services/crc.ts:183-195 | the same for CRC-16 |
| Crc.BitwiseCrc16 | src/utils.ts:180-200 | the independent bitwise CRC-16 is the same remainder, hence equal to the table-driven one on every input |
| Crc.ChecksumsAreRemainders | src/services/crc.ts:22-48 | both checksums are the remainders of polynomial division of the message, with the start value added, by their generators |
| Crc.CheckValues | src/services/crc.ts:55-141 | the check values of "123456789" are f4 and 29b1, those of the empty message 00 and ffff |
| Crc.BurstErrorsDetected | src/services/crc.ts:55-141 | messages whose bits differ only within a window of eight bits for CRC-8, sixteen for CRC-16, at any bit position, have the same checksum only if they are equal |
| Crc.ByteErrorsDetected | src/services/crc.ts:55-141 | a change confined to one byte changes the CRC-8, one confined to two adjacent bytes the CRC-16 |
| Crc.OddErrorsDetected | src/services/crc.ts:55-141 | errors in an odd number of bits change both checksums |
| TwoBitErrors.TwoErrorsMissedIff | src/services/crc.ts:55-141 | two wrong bits escape CRC-8 if and only if their distance is a multiple of 127, and CRC-16 if and only if it is one of 32767 |
| Crc.AppendedChecksum | src/services/crc.ts:55-141 | appended bytes give residue 0 if and only if they are the message's own checksum |
| ChunkFormat.BuildChunkHeader | src/services/chunk-processor.ts:31-44 | the filled buffer is the six fields in order, then zeros |
| ChunkFormat.FrameLayout | src/services/chunk-processor.ts:90-143 | every frame byte by byte: 45 43 49 45, version 1, index, both sizes, the flags 1 for the last chunk and 2 for a checksum, twelve zeros, the ciphertext, the checksum |
| ChunkFormat.FlagBits | src/services/chunk-processor.ts:49-84 | the two flags read back are the lowest bits of byte 19 |
| ChunkFormat.HeaderReadsBack | src/services/chunk-processor.ts:31-84 | a built header parses to its fields, sizes and index modulo 2^32 |
| ChunkFormat.HeaderParsesIff | src/services/chunk-processor.ts:49-84 | on arbitrary bytes a header parses exactly when its fields stand at their places, with magic and version right |
| ChunkFormat.DecryptChunk | src/services/chunk-processor.ts:147-212 | the checks, including the accumulating comparison of the checksum, decide as OpenChunk does |
| ChunkFormat.ChunkErrors | src/services/chunk-processor.ts:49-84 | too short, wrong magic and wrong version are reported in this order, each exactly when it applies first |
| ChunkFormat.ContentErrors | src/services/chunk-processor.ts:152-212 | then a declared size that does not match, a ciphertext that does not open, a flagged checksum that is not the hash, and a plaintext of another length, each exactly when it applies first |
| ChunkFormat.FrameReadsBack | src/services/chunk-processor.ts:152-172 | a frame is cut at its own boundaries if and only if its ciphertext is shorter than 2^32 |
| ChunkFormat.ChunkRoundTrip | src/services/chunk-processor.ts:90-212 | a frame opens to its data if and only if both sizes fit 32 bits; the index comes back modulo 2^32 |
| ChunkFormat.CutIff | src/services/chunk-processor.ts:152-172 | arbitrary bytes with a readable header are cut into ciphertext and checksum exactly when the declared size fits the bytes |
| BitOperations.Differs | src/services/chunk-processor.ts:183-200 | or-ing all byte differences together finds one exactly when the bytes differ |
| BitOperations.XorAndOrBits | src/services/chunk-processor.ts:183-200 | ^ and | on bytes, bit by bit |
| DataViews.ConcatBytes | src/utils.ts:250-259 | copying to advancing offsets fills one array with the concatenation |
| EncryptionStreams.EncryptChunk | src/services/chunk-processor.ts:90-143 | the chunk object carries the frame of its data under its index, or encryption failed |
| EncryptionStreams.CarriedChunk | src/services/chunk-processor.ts:90-143 | the object's sizes and checksum are those of its plaintext, and its frame opens to the plaintext under its index, as long as sizes and index fit 32 bits |
| EncryptionStreams.EncryptGenerator.Next | src/services/encryption-stream.ts:158-273 | each request yields the first plaintext of the remaining split under the next index; the wire flag is set exactly for a short final piece; asking after the last full block marks that object; an oversized source chunk, a wrong key length or a failing encryption ends the run and nothing else does |
| EncryptionStreams.Collect | src/services/encryption-stream.ts:179-272 | a consumer that asks to the end holds one chunk per piece of the split of the whole source, indices from 0, only the last object marked; it fails exactly when the plan fails or a piece cannot be encrypted |
| EncryptionStreams.WireAt | src/services/encryption-stream.ts:201-271 | the k-th frame is the one of the k-th piece under index k, flagged when it is short and final |
| EncryptionStreams.LastFlagIff | src/services/encryption-stream.ts:249-271 | of the frames sent for a source the last one is flagged if and only if the length of the source is no multiple of the chunk size, and no other frame ever is |
| EncryptionStreams.ExactMultipleUnmarked | src/services/encryption-stream.ts:269-271 | eight bytes in chunks of four: two frames, none flagged |
| EncryptionStreams.DeliveredIsSent | src/services/encryption-stream.ts:179-272 | the collected chunks are the frames of the split, in order |
| EncryptionStreams.DecryptGenerator.Next | src/services/encryption-stream.ts:486-550 | each request yields the next plaintext or ends the run, with the sequence error where the index is not the expected one |
| EncryptionStreams.OnlyInOrder | src/services/encryption-stream.ts:503-549 | on arbitrary frames only an initial run that opens under consecutive indices is yielded; a flagged frame ends the run without an error, and otherwise the next frame that does not follow ends it with its own error |
| EncryptionStreams.CollectPlain | src/services/encryption-stream.ts:486-550 | a consumer that asks to the end holds exactly the received plaintexts and the error |
| EncryptionStreams.ReceiveSent | src/services/encryption-stream.ts:503-549 | sent frames are received completely if and only if indices and sizes fit 32 bits |
| EncryptionStreams.StreamRoundTrip | src/services/encryption-stream.ts:503-549 | however the source is cut, receiving its frames returns its text without an error if and only if the private key has 32 bytes, there are at most 2^32 chunks and no size reaches 2^32 |
| EncryptionStreams.Transfer | src/services/encryption-stream.ts:158-550 | both generators in turn: sending fails exactly for a public key of other than 33 or 65 bytes, a source chunk above 100 MiB or a failing encryption, and what was sent comes back as the text of the source if and only if the private key has 32 bytes and the header fields are wide enough |
| EncryptionStreams.PrefixDecrypts | src/services/encryption-stream.ts:503-549 | every initial run of sent frames decrypts without an error to the same initial run of plaintexts |
| ResumableEncryptions.ResumableRun.Settle | src/services/resumable-encryption.ts:87-106 | coming back from a chunk advances the state by it, keeps bytesProcessed equal to the size of the chunks below the index, and saves at multiples of the interval |
| ResumableEncryptions.ResumableRun.Pull | src/services/resumable-encryption.ts:74-87 | chunks below the start index are passed over, the next one is yielded under its own index |
| ResumableEncryptions.ResumableRun.Next | src/services/resumable-encryption.ts:34-108 | the state changes only after the consumer has come back; mismatching parameters fail before anything is read; the state always accounts for the chunks below its index |
| ResumableEncryptions.RunInterrupted | src/services/resumable-encryption.ts:74-107 | an interrupted run yields consecutive chunks from the state's index on, and leaves at most the last one unrecorded |
| ResumableEncryptions.Session | src/services/resumable-encryption.ts:74-107 | over any number of interrupted runs that cut one text into the same pieces, on whatever services, every recorded chunk was delivered, each delivered chunk carries its piece, at most one chunk per run is repeated, and all pieces are done when the last run ends without an error |
| ResumableEncryptions.DeliveredPieceOpens | src/services/resumable-encryption.ts:74-107 | for every piece that counts as done after a session the recipient holds a chunk that opens to it under its index |
| ResumableEncryptions.FreshStart | src/services/resumable-encryption.ts:34-72 | an object without a state accounts for nothing done, so a session may start with it |
| ResumableEncryptions.StreamErrors | src/services/resumable-encryption.ts:74-107 | for a source with chunks of at most 100 MiB, a key of 33 or 65 bytes and pieces that can be encrypted the stream gives no error; another key length gives its own |
| ResumableEncryptions.AcceptedSettingsIff | src/services/resumable-encryption.ts:44-107 | a resumption that passes the checks goes on with the same chunk size exactly when both states named the size really used, or neither run was given one and the configurations agree; the same for checksums |
| ResumableEncryptions.AssembledIff | src/services/resumable-encryption.ts:74-87 | the recorded pieces of one size and the later ones of another make up the text exactly when nothing was recorded, the sizes are equal, or both had reached the end |
| ResumableEncryptions.ResumeElsewhere | src/services/resumable-encryption.ts:34-108 | two real runs, the second on another service with the state of the first: what they delivered together, and exactly when it is the text |
| ResumableEncryptions.HandoverChunks | src/services/resumable-encryption.ts:74-107 | in such a handover the second run delivers one chunk for each of its pieces from the recorded index on, and each chunk of both runs has the index and size of its piece |
| ResumableEncryptions.WrongResumption | src/services/resumable-encryption.ts:44-107 | an accepted resumption that sends two bytes twice |
| ResumableEncryptions.CutsDoNotMatter | src/services/encryption-stream.ts:179-272 | differently cut sources of one text give the same pieces |
| ResumableEncryptions.SeekingSkipsTwice | docs/README_STREAMING.md:148-157 | the pieces of a source positioned at bytesProcessed, passed over once more, are the missing ones exactly when none or all were done |
| ResumableEncryptions.SeekingExample | docs/README_STREAMING.md:148-157 | three full chunks, one of them done: only the third is delivered |
| ResumableEncryptions.ResumeAfterSeek | docs/README_STREAMING.md:148-157 | the run itself on a source positioned so: it delivers the missing chunks exactly when none or all were done |
| ResumableEncryptions.CalculateHash | src/services/resumable-encryption.ts:123-132 | the loop adds byte i into place i mod 32 |
| ResumableEncryptions.ShortFold | src/services/resumable-encryption.ts:123-132 | up to 32 bytes stand in the integrity value as they are, with zeros behind them |
| ResumableEncryptions.FoldBlocks | src/services/resumable-encryption.ts:123-132 | a block of 32 bytes in front is added place by place |
| ResumableEncryptions.StateTextInjective | src/services/resumable-encryption.ts:110-132 | for keys without a bar equal integrity texts mean equal version, chunk index, byte count, key, chunk size, checksum setting and time |
| ResumableEncryptions.ChangedIndexRefused | src/services/resumable-encryption.ts:134-182 | a saved state whose chunk index was changed from one digit to another is refused |
| ResumableEncryptions.ByteChangeChangesHash | src/services/resumable-encryption.ts:123-132 | a change of one byte of the covered text always changes the integrity value |
| ResumableEncryptions.TwoChangesIff | src/services/resumable-encryption.ts:123-132 | a change of two bytes leaves the integrity value as it was if and only if their places agree modulo 32 and both differences are equal |
| ResumableEncryptions.AlteredStateValidates | src/services/resumable-encryption.ts:134-182 | two digits of the public key changed alike, 32 places apart, give a state that validates exactly as the saved one |
| ResumableEncryptions.SaveState | src/services/resumable-encryption.ts:110-121 | the saved state is the current one with its integrity value, or there is none; which fields the value covers is StateTextInjective |
| ResumableEncryptions.Resume | src/services/resumable-encryption.ts:134-182 | a resumed object has the given state, or the first failing check is reported |
| ResumableEncryptions.ValidationChecks | src/services/resumable-encryption.ts:134-182 | version, index, age, key and integrity value are checked in this order, a missing or empty integrity value is not, and each error is reported exactly when its check is the first to fail |
| ResumableEncryptions.StartChecks | src/services/resumable-encryption.ts:34-72 | a run goes on from a recorded state exactly when the interval is positive, the public key is the same one, and both sets of options name the same chunk size and checksum setting, 1 MiB and false standing for open ones; otherwise the first difference is reported |
| ResumableEncryptions.OwnStateAccepted | src/services/resumable-encryption.ts:34-108 | what a run records is accepted by a run with its own key and options |
| ResumableEncryptions.SavedStateValidates | src/services/resumable-encryption.ts:110-182 | a freshly saved state validates for exactly one day and accounts for the same chunks |
| EciesTransforms.CreateEncryptTransform | src/transforms/eciesEncryptTransform.ts:24-45 | creation fails exactly for public keys of other than 33 or 65 bytes |
| EciesTransforms.EncryptTransform.Transform | src/transforms/eciesEncryptTransform.ts:51-72 | after every chunk exactly the complete blocks of all text so far have been encrypted, in order, and the rest is buffered |
| EciesTransforms.EncryptTransform.Flush | src/transforms/eciesEncryptTransform.ts:78-86 | after the flush the whole text's pieces have been encrypted |
| EciesTransforms.DecryptTransform.Transform | src/transforms/eciesDecryptTransform.ts:37-58 | after every chunk exactly the complete blocks of all ciphertext so far have been decrypted; an error means that one of them does not open |
| EciesTransforms.DecryptTransform.Flush | src/transforms/eciesDecryptTransform.ts:64-77 | the rest is decrypted as one last block |
| EciesTransforms.BlocksSurvive | src/transforms/eciesDecryptTransform.ts:37-58 | encrypted blocks are cut apart exactly where they were joined, because each full one has the block size |
| EciesTransforms.Pipeline | src/transforms/eciesEncryptTransform.ts:38-86 | however plaintext and ciphertext are cut, the pipeline returns the text in blocks of the block size less 64; only a key of other than 33 or 65 bytes or a failing encryption stops it |
| MultiRecipient.HasDuplicate | src/services/multi-recipient-processor.ts:134-147 | the set of hexadecimal ids finds a duplicate exactly when two ids are equal |
| MultiRecipient.WriteChunk | src/services/multi-recipient-processor.ts:193-270 | header, records and payload fill the buffer, authenticated with the bytes printed before; writing fails exactly when the configured vector size is below twelve, and only a larger one leaves trailing zeros |
| MultiRecipient.EncryptChunk | src/services/multi-recipient-processor.ts:82-278 | the printer returns the specified chunk or the first error in the code's order |
| MultiRecipient.PrintedBytes | src/services/multi-recipient-processor.ts:205-236 | the fixed part of every printed chunk: 4d 52 45 43, version 2, the number of recipients, the chunk index, the length of the payload and that plus 16, 1 exactly for the last chunk, the ephemeral key, ten zeros |
| MultiRecipient.RecordLayout | src/services/multi-recipient-processor.ts:238-252 | a record is the id, the size of the wrapped key in two bytes, and the wrapped key |
| MultiRecipient.PrintErrors | src/services/multi-recipient-processor.ts:82-147 | number of recipients, key length, index, size and duplicate ids are checked in this order and with these limits, each error exactly when it applies first |
| MultiRecipient.DecryptChunk | src/services/multi-recipient-processor.ts:283-505 | the parser, with its checks before every read, decides as OpenChunk does on arbitrary bytes |
| MultiRecipient.HeaderErrors | src/services/multi-recipient-processor.ts:283-345 | too small, wrong magic, wrong version, no recipients and no room for vector and payload are reported in this order, each exactly when it applies first |
| MultiRecipient.RecordErrors | src/services/multi-recipient-processor.ts:367-412 | a cut id, a cut size, a size of 0 or above 1000 and a cut key are reported in this order, each exactly when it applies first, and otherwise id, key and end come back |
| MultiRecipient.SenderErrors | src/services/multi-recipient-processor.ts:473-491 | with an expected sender fewer than 64 bytes are too short, otherwise the first 64 must be the signature of the rest, which is delivered; without one everything is |
| MultiRecipient.RecordReadsBack | src/services/multi-recipient-processor.ts:367-412 | a printed record is read back, and its end is where the next one starts |
| MultiRecipient.RecordIff | src/services/multi-recipient-processor.ts:367-412 | on arbitrary bytes a record is read exactly where a printed one with an accepted key size stands |
| MultiRecipient.ScanPrinted | src/services/multi-recipient-processor.ts:363-425 | scanning printed records with distinct ids unwraps the reader's own key and ends where they end |
| MultiRecipient.PrintedScans | src/services/multi-recipient-processor.ts:363-439 | the parser's scan ends where the printer's authenticated bytes end |
| MultiRecipient.HeaderReadsBack | src/services/multi-recipient-processor.ts:302-345 | a printed header parses to its fields |
| MultiRecipient.HeaderParsesIff | src/services/multi-recipient-processor.ts:302-361 | on arbitrary bytes a header parses exactly when its fields stand at their places, at least one recipient is declared and the payload can fit |
| MultiRecipient.OpensPrinted | src/services/multi-recipient-processor.ts:283-505 | an unlisted id gets the not-found error; a listed one that can unwrap its key opens the payload, under the printer's additional authenticated data |
| MultiRecipient.MultiRoundTrip | src/services/multi-recipient-processor.ts:82-505 | for every chunk the printer returns, each listed recipient with its private key gets the payload and the header, everyone else the not-found error |
| MultiRecipient.ReceivedChunk | src/services/multi-recipient-processor.ts:82-505 | what a listed recipient holds: the data, and a header with the number of recipients, the chunk index, the size of the data plus 64 if it was signed, that plus 16, and the flag 1 exactly for the last chunk |
| MultiRecipient.DeliveredData | src/services/multi-recipient-processor.ts:118-123 | the delivered data is the original when signing and checking agree, and the signature in front of it when only signing happened |
| MultiRecipient.OpenedChunkIsComplete | src/services/multi-recipient-processor.ts:349-462 | on arbitrary bytes a chunk that opens contains everything it declares |
| LengthEncoding.LengthEncodeData | src/utils.ts:13-39 | the filled buffer is the narrowest type, the length and the data, for all lengths below the largest safe integer |
| LengthEncoding.NarrowestType | src/utils.ts:268-298 | the chosen type holds the length and no narrower one does |
| LengthEncoding.EncodedBytes | src/utils.ts:13-39 | for each range of lengths the type byte and the width of the length in front of the data; from 2^53-1 on it is refused |
| LengthEncoding.DecodeEncoded | src/utils.ts:47-98 | encoded data decodes to itself with the exact number of bytes consumed, whatever follows |
| LengthEncoding.DecodesIff | src/utils.ts:47-98 | decoding accepts exactly the buffers that begin with data encoded in some type that holds its length |
| LengthEncoding.DecodeErrors | src/utils.ts:47-98 | an unknown type, a missing length, a length above the largest safe integer and missing data are reported in this order, and otherwise the data comes back |
| LengthEncoding.DecodeManyEncoded | src/utils.ts:47-98 | repeated decoding of a concatenation returns the list and its exact size |
| LengthEncoding.UniquelyDecodable | src/utils.ts:13-98 | equal concatenations come from equal lists and leave equal rests |
| Base64.Base64RoundTrip | src/lib/guid.ts:625-630 | atob after btoa gives back byte strings of every length |
| Base64.LettersInOrder | src/lib/guid.ts:625-630 | the letters are A to Z, a to z, 0 to 9, + and /, in this order |
| Base64.GroupValue | src/lib/guid.ts:625-630 | the letters of a group, read as one number, are its bytes, read as one number, with zero bits behind a short group |
| Base64.StandardExamples | src/lib/guid.ts:625-630 | "f", "fo" and "foo" are written as section 10 of RFC 4648 says |
| Guids.HexFormsAgree | src/lib/guid.ts:948-1070 | full and short hexadecimal text construct the same GUID as the raw bytes |
| Guids.BigIntFormAgrees | src/lib/guid.ts:1075-1096 | so does the integer, padded to 32 digits |
| Guids.Base64FormAgrees | src/lib/guid.ts:1102-1173 | so does base64, recognised by its 24 characters |
| Guids.UrlSafeFormAgrees | src/lib/guid.ts:1403-1418 | so does the URL-safe form, whose letters and padding are restored |
| Guids.HexForms | src/lib/guid.ts:574-598 | the short form shows the digits of the bytes in order, the full form the same digits around dashes at 8, 13, 18 and 23 |
| Guids.UrlSafeLetters | src/lib/guid.ts:1403-1418 | the URL-safe form has the 22 letters of the base64 form, with - for + and _ for / |
| Guids.CapitalsDenoteTheSame | src/lib/guid.ts:96-102 | texts that differ only in the case of their digits give the same GUID where both are accepted |
| Guids.AcceptedText | src/lib/guid.ts:180-202 | a text of 36 characters is accepted only with dashes at the four places and hexadecimal digits everywhere else |
| Guids.AcceptedBytes | src/lib/guid.ts:220-239 | sixteen bytes are taken exactly when their full text passes the validator or all of them are 0 or 255 |
| Guids.BoundaryGuids | src/lib/guid.ts:59-64 | the texts of all zeros and of all ones are accepted under every validator, for the bytes 0 and 255 |
| Guids.Refusals | src/lib/guid.ts:162-240 | other lengths of bytes and text, negative integers and those from 2^128 on are refused |
| Guids.ConstructDenotes | src/lib/guid.ts:162-260 | every accepted input of the raw, integer and hexadecimal kinds, in either case, denotes the bytes it gives, and their text is valid or a boundary value |
| Guids.CreateGuid | src/lib/guid.ts:131-260 | the checks and byte-filling loops give the object with the bytes that the forms theorems speak of, or nothing |
| Guids.Guid.AsFullHex | src/lib/guid.ts:574-582 | the first read fills the cache with the recomputed form, later reads return it |
| Guids.Guid.AsShortHex | src/lib/guid.ts:593-598 | the same, by way of the full form |
| Guids.Guid.AsBase64 | src/lib/guid.ts:625-630 | the same for base64 |
| Guids.CompareTo | src/lib/guid.ts:1335-1343 | the byte loop orders GUIDs as their integers and gives 0 only for equal ones |
| Guids.Equals | src/lib/guid.ts:1181-1206 | both comparison modes say yes exactly for equal bytes |
| Configurations.ApplyOverrides | src/constants.ts:375-400 | the loop over the entries computes the recursive merge |
| Configurations.MergeTwice | src/constants.ts:375-400 | applying the same overrides twice is applying them once |
| Configurations.CreatedTwiceIff | src/constants.ts:554-600 | creating again from the result with the same overrides gives the same configuration if and only if they do not replace the provider or set none of the lengths that follow it to anything but its own |
| Configurations.CreatedTwiceExample | src/constants.ts:554-600 | a provider of 16 bytes beside a member id length of 12: accepted at first, refused on its own result |
| Configurations.NewProviderIsConsistent | src/constants.ts:554-600 | replacing only the id provider of a valid configuration always gives consistent lengths |
| Configurations.OverridesAcceptedIff | src/constants.ts:443-506 | overrides of any of the checked numbers are accepted exactly when the numbers that come out agree: the hash buffer, the size of an encrypted key, the public key lengths, the widths 2 and 8, and the id lengths |
| Configurations.BuiltInAccepted | src/constants.ts:77-323 | the built-in configuration is accepted; with a vector of 16 bytes it is refused unless the size of an encrypted key is set to 64 |
| Configurations.ConstantsRegistry.constructor | src/constants.ts:511-526 | both maps hold exactly the built-in entry, with its default provenance |
| Configurations.ConstantsRegistry.Get | src/constants.ts:634-641 | every lookup gives a validated configuration, the default one for unknown keys |
| Configurations.ConstantsRegistry.Register | src/constants.ts:692-729 | a registration stores the created configuration and its provenance, or changes nothing; both maps keep the same keys and the default entry stays |
| Configurations.FullConfiguration | src/constants.ts:533-545 | an input with the five sections and a provider object is stored as it is or refused, whatever the base, and recorded as custom with no overrides |
| Configurations.PartialConfiguration | src/constants.ts:692-729 | an input without one of them is merged into the configuration under the base key, or the default one, and recorded as overrides |
| Configurations.ConstantsRegistry.Unregister | src/constants.ts:735-741 | a named entry leaves both maps, the default never does |
| Configurations.ConstantsRegistry.Clear | src/constants.ts:746-756 | only the default entry and its provenance remain |
| PrimeGeneration.SieveSound | src/services/voting.service.ts:463-475 | a number that passes has no sieve prime as a proper divisor |
| ChunkFormat.OpensIff | src/services/chunk-processor.ts:147-212 | arbitrary bytes open to given data exactly when header and sizes match, the ciphertext opens to it, a flagged checksum is its hash and its length is the declared one |
| MultiRecipient.OpenedIsAuthentic | src/services/multi-recipient-processor.ts:283-505 | whatever is returned was decrypted with the scanned key under all the bytes in front of the payload and, if a sender is expected, carries that sender's signature |

## Left out

- EncryptionStreams.EncryptGenerator.Next: requires a positive chunk size; with chunk size 0 the source's loop never ends.
- EciesTransforms.EncryptTransform.Transform: requires a block size above the 64 bytes of overhead; below it the source's loop never ends.
- EciesTransforms.DecryptTransform.Transform: requires a positive block size, for the same reason.
- IsolatedKeys.AcceptedIff: is about ciphertexts c ≥ 1; a tagged zero is covered by ZeroTagRefused.
- KeyBuffers.PublicKeyRoundTrip: is stated for texts of fewer than 2^32 digits, beyond which the length field wraps around.
- KeyBuffers.PrivateKeyRoundTrip: the same bound for both numbers.
- KeyBuffers.IsolatedKeyRoundTrip: the same bound, as in the three layouts.
- KeyGeneration.GenerateDeterministicKeyPair: says nothing about the probability that accepted numbers are prime; what follows when they are is SeedGivesWorkingKeys.
- ResumableEncryptions.SavedStateValidates: the integrity value is an exclusive-or of the text, not a MAC; what it notices is said for changes of one and two bytes, not for more.
- ResumableEncryptions.ChangedIndexRefused: is about an index of one digit; changes of several bytes of the text can cancel, as TwoChangesIff says.
- Configurations.BuiltInAccepted: the built-in configuration holds the entries that are checked, not the many others.
- Guids.HexFormsAgree: is about the lower-case forms that the conversions write; upper-case input is accepted as uuid.validate decides, which is an arbitrary predicate here. What it means where it is accepted is CapitalsDenoteTheSame.
- IsolatedRuns.UsableIff: speaks of runs in which no HMAC collides, IsolatedRuns.RefusedIff of two salts on which SHA-256 does not; with arbitrary functions nothing more can hold.
- Configurations.NewProviderIsConsistent: identity of objects is an id, and numbers are integers.
- CRC-32, which is delegated to a package, and the generation of UUIDs.
- The ECIES single-recipient message format and its cipher, key derivation from ECDH keys, password login and members.
- The stream header of 128 bytes, which no generator writes or reads, the multi-recipient stream generators and the parts of the checksum and XOR transforms, which would repeat what is proved for their neighbours.
- GUID versions, variants, timestamps and hash codes.
- Recipient id sizes outside 1 to 255 are refused by the source before a processor exists; the model does not need the bound.
- Abort signals, progress reports, wall-clock time beyond the age of a saved state, error messages, and timing or hardness claims.
