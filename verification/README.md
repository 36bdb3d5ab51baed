# Verified model of Pezhwan's cryptographic and protocol core

This project models the parts of the Pezhwan identity platform whose correctness rests on arithmetic, bit-level
codecs, state machines and interleavings, and proves properties of them for all inputs, all runs or all reachable
states. `dafny verify dfyconfig.toml` checks everything. Each module models one component, in the form the
component has: loops that update variables are methods with invariants, objects that update their fields are
classes, and each such method is tied to a function about which the properties are then proved.

| file | component |
|---|---|
| `Srp.dfy` (on `ModArith.dfy`) | SRP-6a: square-and-multiply, both sides' shared secrets, when they coincide |
| `Shuffle.dfy` | the in-place Fisher-Yates shuffle and its bijection with permutations |
| `Base32.dfy` (on `BitGroups.dfy`), `Totp.dfy` (on `Decimals.dfy`) | base32 by regrouping bits; HOTP codes and the TOTP window |
| `DerSignature.dfy` (on `ByteValues.dfy`) | the DER/raw ECDSA codec and the second, independent DER encoder |
| `Cbor.dfy`, `AuthenticatorData.dfy` | the CBOR map codec, the authenticator-data layout, the attestation object |
| `Retry.dfy`, `CircuitBreaker.dfy`, `BreakerOverlap.dfy`, `DeliveryManager.dfy` | bounded retry, the circuit breaker with sequential and with overlapping calls, and the failover chain over both |
| `KeyStore.dfy`, `KeyStoreRuns.dfy` | the signing-key store, and what holds over every run of its operations |
| `Jws.dfy`, `PublishedKeys.dfy` | compact JWS builders and verifiers for EdDSA, ML-DSA and hybrid keys, and verification from the published list alone |
| `AuthorizationCode.dfy`, `OAuthExchange.dfy`, `OAuthClients.dfy` | one-time codes, PKCE, the token endpoint under any interleaving, and whose codes a client can redeem |
| `AuthEngine.dfy`, `LoginOverlap.dfy`, `VersionOverlap.dfy` | lockout after wrong passwords and token versions, with atomic calls and with overlapping ones |
| `MfaMigration.dfy` | migration 004, its two rollbacks, and the migration beside concurrent writers |

Hashes, MACs, AEAD, signatures, JSON and base64 are parameters: records of functions, with the laws assumed of them
spelled out as predicates (`LawfulCodec`, `MatchingKey`, `Lawful`, `Lenient`, `CollisionFree`, `KeepsAlphabet`). Clock readings
and random choices are arguments. Lemmas carry `{:induction false}`: every induction is written out in a body, none
is left to the verifier.

## Where the code departs from its documentation or its name

The model follows the code. These departures are stated as lemmas.

- SRP: line 193 of `srp.ts` sends `B = g * g^b` without the verifier, and the client subtracts `u * g^x`. Both sides
  agree when `B = g^b + u * g^x`; `Srp.AgreementIff` says exactly when they do, in every group. With the B really sent
  and the generator 2 they agree at neighbouring client exponents if and only if `u * 2^x` and `2^b` coincide modulo
  the odd part of N (`Srp.IssuedChallengeAgreesIff`). The literal modulus ends in the digits 5000, so it is 2^12 times
  an odd number and 2 is not invertible modulo it (`Srp.LiteralModulusIsEven`); small exponents disagree for every
  modulus above 20 (`Srp.IssuedChallengeCounterexample`).
- `modPow` returns 1, unreduced, for a non-positive exponent, so also for modulus 1 (`Srp.ModPow`).
- The circuit breaker's "consecutive failures" are all failures since it last closed: a success in between does not
  reset them (`CircuitBreaker.StaysClosedIff`, `CircuitBreaker.FailuresNeedNotBeConsecutive`).
- The key store's pruning can show in one way besides the errors of `retire` and `revoke`: adding a live key under a kid
  that is not held live puts it at the kid's old place in a map that still holds the expired key, and last once that
  was pruned. `KeyStoreRuns.StepAlikeIff` says exactly which steps put a key behind a different number of live keys, and
  `KeyStoreRuns.ReadditionIff` exactly when another key then signs and when the published list comes in another order,
  at that and any later instant before the next operation. As long as no further key is displaced, the answers stay the
  same for good exactly if none was (`KeyStoreRuns.OrderDecidesForever`). `KeyStoreRuns.ReaddedCurrentDiffers` is a run
  in which another key signs.
- CBOR strings of 24 bytes or more are written with two length bytes and read with one, so no proper attestation object
  decodes to its own entries (`Cbor.StringRoundTripIff`, `AuthenticatorData.ProperAttestationIsLost`). Negative integers
  are not written as such (`Cbor.IntHeadIff`), and the decoder never notices a cut-off end (`Cbor.CutOffStillDecodes`).
- The DER decoder looks at neither the length of the sequence nor at trailing or missing bytes
  (`DerSignature.AcceptedIff`).
- `hotp` with `digits` 0 prints one digit (`Totp.CodeShape`); a TOTP window that leaves the 64-bit counters before a
  match throws instead of refusing (`Totp.VerifyTotp`).
- Spelled-out token lifetimes lose their unit: whatever follows the digits is ignored, so "15m" is fifteen seconds
  (`Jws.UnitsAreIgnored`). One that is no number never ends (`Jws.UnreadableLifetimeNeverEnds`).
- The second entry of a hybrid key is published under its kid with "-pqc" behind it, which may be the kid of another key:
  only otherwise are published kids distinct (`PublishedKeys.DistinctKidsIff`).
- A failed redirect or PKCE check comes after the code was consumed and burns it (`OAuthExchange.FailedCheckBurnsCode`).
- The token endpoint never compares the client a code was issued to with the client that presents it. Codes stay with
  their clients if and only if no redirect URI is shared between clients (`OAuthClients.GrantsStayWithClientIff`).
- A login writes the failure count it read before comparing. The limit of five holds for overlapping logins if and only
  if no two overlap (`LoginOverlap.FiveHoldsIff`); `LoginOverlap.OverlapMaximum` says exactly how many passwords k
  overlapping logins compare. The login that writes last decides on the lock, which may lift one set meanwhile
  (`LoginOverlap.LastWriteDecides`).
- A change of password writes the token version it read, plus one. Three things hold if and only if no two changes
  overlap: that it outdates all earlier tokens (`VersionOverlap.EveryChangeOutdatesIff`), that no token is ever ahead of
  the stored version (`VersionOverlap.NoneAheadIff`), and that an outdated token stays refused
  (`VersionOverlap.NoneRevivedIff`): a late write can bring an older version back, and
  `packages/core/src/services/accountState.service.ts` (line 57) tests for equality. A login mints the version it read
  when it began, which a change may have outdated by then (`VersionOverlap.MintsCurrentIff`).
- The breaker is said to let one probe through after the cooldown; it lets through every call that checks before one of
  them fails (`BreakerOverlap.OverlapMaximum`). And an open breaker is sure to send nothing before its cooldown is over
  if and only if no call is in flight: one that succeeds late half-opens it at once (`BreakerOverlap.OpenHoldsIff`).
- Wrong current passwords in `changePassword` are not counted by the lockout (`AuthEngine.ChangePasswordIsNotCounted`);
  both password resets return tokens that carry the version from before the reset (`AuthEngine.ChangeOutdatesTokens`).
- Migration 004 writes `v2:` envelopes and does not know `v3:`, the format `packages/core/src/services/mfa.service.ts`
  writes today and `docs/operations/mfa-migration.md` (line 18) says is skipped. It takes a `v3:` value for a raw secret and
  overwrites it: of the secrets the application can read, exactly those not stored as `v3:` survive
  (`MfaMigration.SecretSurvivesIff`, `MfaMigration.CurrentEnvelopeIsLost`).
- The two rollbacks of migration 004 clear different backup rows exactly when a user already holds the backed-up value
  (`MfaMigration.RollbacksAgreeIff`). A rollback overwrites concurrent changes
  (`MfaMigration.RollbackOverwritesIff`). `--apply --dry-run` writes although it reports a dry run
  (`MfaMigration.DryRunWritesIff`).

## Model

| member | source | states |
|---|---|---|
| Srp.ModPow | packages/crypto/src/srp.ts:144-155 | square-and-multiply yields the mathematical power reduced modulo the modulus, for every integer base (also negative), every positive exponent and every modulus from 1; a non-positive exponent yields 1 |
| Srp.NormalizedRemainder | packages/crypto/src/srp.ts:146 | JavaScript's signed remainder, taken twice with the modulus added, is the non-negative mathematical remainder |
| Srp.SquareStep | packages/crypto/src/srp.ts:148-152 | one round keeps result * base^exp congruent to the wanted power |
| Srp.GenerateVerifier | packages/crypto/src/srp.ts:166-178 | the verifier is g^x modulo N for x derived from name, password and salt |
| Srp.GenerateServerChallenge | packages/crypto/src/srp.ts:185-203 | the public value sent is g^(b+1) modulo N and does not depend on the verifier |
| Srp.InitiateClient | packages/crypto/src/srp.ts:339-350 | the client's public value is g^a modulo N, in a session without a key yet |
| Srp.ProcessClientChallenge | packages/crypto/src/srp.ts:210-265 | refuses exactly A = 0 mod N, then exactly u = 0; otherwise proof and key come from (A * v^u)^b mod N |
| Srp.ClientSession.DeriveKey | packages/crypto/src/srp.ts:357-391 | refuses exactly B = 0 mod N and leaves the session alone; otherwise stores the key of (B - u * g^x)^(a + u * x) mod N in the session and returns it with M1 |
| Srp.ServerSecretValue | packages/crypto/src/srp.ts:239 | the server's secret equals g^(b * (a + u * x)) modulo N for all a, b, u, x |
| Srp.SecretsAgree | packages/crypto/src/srp.ts:239-380 | client and server derive the same secret whenever B is congruent to g^b + u * g^x (section 2.6 of RFC 5054) |
| Srp.HandshakeAgrees | packages/crypto/src/srp.ts:210-391 | through the whole exchange the server refuses if and only if A is 0 mod N or u is 0, the client if and only if B is 0 mod N; otherwise both answer, and with such a B hold the same session key, and the server's M2 is the one computed from the client's own values |
| Srp.AgreementNeedsFit | packages/crypto/src/srp.ts:193-380 | if two neighbouring client exponents agree with the server, B has that form modulo every divisor of N for which the generator is invertible |
| Srp.AgreementIff | packages/crypto/src/srp.ts:193-380 | in every group, with N split into coprime M and P such that the generator is invertible modulo M: two neighbouring client exponents agree with the server if and only if B has that form modulo M and the compared powers coincide modulo P |
| Srp.IssuedFitsIff | packages/crypto/src/srp.ts:193 | the value the server really sends has the form modulo a divisor M if and only if u * g^x is congruent to (g - 1) * g^b modulo M |
| Srp.IssuedChallengeAgreesIff | packages/crypto/src/srp.ts:193-380 | for the source's generator 2 and every modulus above 1, with the value really sent: two neighbouring client exponents agree if and only if u * 2^x and 2^b coincide modulo the odd part of N (for an even N with b and x at least 1 and an exponent sum that reaches the power of 2 in N) |
| Srp.LiteralModulusIsEven | packages/crypto/src/srp.ts:57-79 | every number that ends, like the literal modulus, in the hexadecimal digits 5000 is 2^12 times an odd number above 1, and 2 has no inverse modulo it |
| Srp.EvenPowersVanish | packages/crypto/src/srp.ts:193-380 | modulo the power of 2 in N the value really sent and the client's subtraction leave even numbers, so both secrets vanish there |
| Srp.IssuedChallengeCounterexample | packages/crypto/src/srp.ts:193 | a = 1, b = 2, x = 1, u = 1: for every modulus above 20 the two sides derive different secrets from the value sent |
| Shuffle.SecureShuffle | packages/crypto/src/random.ts:84-91 | works on a fresh copy, leaves the input alone, and ends in the arrangement its draws determine |
| Shuffle.ShuffledPermutes | packages/crypto/src/random.ts:84-91 | the result is a permutation of the input, also with repeated elements, and positions above the first round's never move |
| Shuffle.EveryPermutationReached | packages/crypto/src/random.ts:84-91 | for every rearrangement of the input, explicit draws lead to it |
| Shuffle.DrawsRecovered | packages/crypto/src/random.ts:84-91 | on distinct elements the draws can be read off the result |
| Shuffle.ShuffleIsBijection | packages/crypto/src/random.ts:84-91 | on distinct elements, bounded draw sequences and permutations correspond one to one: always a permutation, different draws give different results, every permutation is reached |
| Base32.EncodeBase32 | packages/crypto/src/totp.ts:40-54 | the loops write the characters of the zero-padded bit string's groups of five |
| Base32.DecodeBase32 | packages/crypto/src/totp.ts:16-32 | the loops read whole bytes off the characters' bits after upper-casing and dropping '='; any character outside the alphabet refuses the input |
| Base32.DecodeEncode | packages/crypto/src/totp.ts:16-54 | decoding an encoded secret gives the secret back, for every byte string |
| Base32.EncodedLength | packages/crypto/src/totp.ts:40-54 | n bytes take ceil(8n / 5) characters (section 6 of RFC 4648, unpadded) |
| Base32.EncodeDecodeIff | packages/crypto/src/totp.ts:16-54 | encoding a decoded string gives the string back if and only if it is canonical: upper-case alphabet only, no '=', fewer than five left-over bits and all of them zero |
| Base32.AlphabetIndex | packages/crypto/src/totp.ts:21-25 | the 32 characters are distinct, so a character's index recovers the group that chose it |
| Base32.EncodedValue | packages/crypto/src/totp.ts:40-54 | the characters are the base-32 digits, most significant first, of the secret's big-endian number followed by the padding bits |
| Base32.SpellingsDecode | packages/crypto/src/totp.ts:16-32 | every spelling of an encoded secret, with any letters in lower case and any '=' put in, decodes to the secret |
| Totp.TruncateValue | packages/crypto/src/totp.ts:61-66 | truncation yields the big-endian value of the four bytes that the low four bits of the MAC's last byte point to, without its top bit (section 5.3 of RFC 4226) |
| Totp.HotpOfMessage | packages/crypto/src/totp.ts:57-69 | the code of a counter is that of the MAC, keyed by the secret, of the one 8-byte message whose big-endian value is the counter: `digits` decimal digits that spell the truncated value modulo 10^digits |
| Totp.HotpThrowsIff | packages/crypto/src/totp.ts:58-59 | a counter throws if and only if no 8-byte message has its value |
| Totp.TotpOfStep | packages/crypto/src/totp.ts:95-104 | the code of a time is that of the step the time falls into; a zero step throws |
| Totp.CodeShape | packages/crypto/src/totp.ts:67-68 | a code has exactly `digits` decimal digits (one for digits 0) and spells the truncated value modulo 10^digits |
| Totp.CountersAreDistinctMessages | packages/crypto/src/totp.ts:58-60 | no two 64-bit counters are authenticated as the same eight bytes |
| Totp.VerifyTotp | packages/crypto/src/totp.ts:110-129 | accepts if and only if some counter in the window has the presented code and the window starts at a valid counter; refuses if and only if none has and the whole window is valid; otherwise it throws |
| Totp.SkewAccepted | packages/crypto/src/totp.ts:95-129 | a code generated at t is accepted at every t' at most `window` steps away whose window starts at a valid counter |
| Totp.StaleOnlyByCollision | packages/crypto/src/totp.ts:95-129 | from window + 1 steps away on, it is accepted only if another counter happens to have the same code |
| DerSignature.DerInteger | packages/crypto/src/jwt.ts:876-896 | the trimming loop writes the INTEGER whose contents JwtContentsMinimal is about |
| DerSignature.DecodeDer | packages/crypto/src/jwt.ts:813-856 | the offset loop reads at most two INTEGERs, including the truncated-tag case, and refuses everything that is not a sequence of two numbers of at most 32 bytes |
| DerSignature.TrimLeadingZero | packages/crypto/src/webauthn.ts:717-723 | the loop drops all leading zero bytes but the last byte |
| DerSignature.RawToDerSignature | packages/crypto/src/webauthn.ts:703-731 | the second encoder's bytes, for any input length |
| DerSignature.JwtContentsMinimal | packages/crypto/src/jwt.ts:876-888 | contents octets are minimal and non-negative and keep the number (section 8.3 of ITU-T X.690) |
| DerSignature.WrapContentsMinimal | packages/crypto/src/webauthn.ts:717-731 | so are the second encoder's, by its different trimming rule |
| ByteValues.MinimalUnique | packages/crypto/src/jwt.ts:876-888 | a number has only one minimal form |
| DerSignature.EncodersAgree | packages/crypto/src/jwt.ts:858-896 | the first encoder takes exactly 64-byte signatures, and both produce identical bytes for these |
| DerSignature.DecodeEncode | packages/crypto/src/jwt.ts:813-896 | decoding an encoded signature gives the 64 bytes back, for every 64-byte signature |
| DerSignature.EncodedIsCanonical | packages/crypto/src/jwt.ts:858-896 | the encoder always writes distinguished encoding |
| DerSignature.EncodeDecodeIff | packages/crypto/src/jwt.ts:813-896 | for every byte string: re-encoding a decoded signature gives it back if and only if it is the distinguished encoding of two numbers of at most 32 bytes |
| DerSignature.FitsIff | packages/crypto/src/jwt.ts:831-839 | the decoder's length limit means exactly a number below 2^256 |
| DerSignature.AcceptedIff | packages/crypto/src/jwt.ts:813-856 | every byte string is accepted, as 64 given bytes, if and only if it has at least eight bytes, begins as a SEQUENCE and holds two INTEGERs of these values of at most 32 bytes behind its length octets (sections 8.1.3 and 8.3 of ITU-T X.690); the sequence's length, trailing bytes and a cut-off end are not looked at |
| Cbor.EncodeMap | packages/crypto/src/webauthn.ts:188-200 | the loop writes the header and every key and value in order; the length byte wraps at 256 |
| Cbor.BodyIsConcat | packages/crypto/src/webauthn.ts:188-228 | the bytes the round trips speak of are the ones the map encoder writes for the encoded keys and values |
| Cbor.CborDecodeMap | packages/crypto/src/webauthn.ts:255-272 | the loop returns the last-wins map and the number of bytes read, with reads past the end yielding what `undefined` and `NaN` yield |
| Cbor.StringRoundTripIff | packages/crypto/src/webauthn.ts:202-253 | a string or byte string decodes to itself if and only if it is shorter than 24 bytes |
| Cbor.DecodeEncode | packages/crypto/src/webauthn.ts:177-272 | up to 255 entries with keys below 65536 and values under 24 bytes decode, at any place in a buffer, to their last-wins map, and exactly their bytes are read (section 3 of RFC 8949) |
| Cbor.MapRoundTripIff | packages/crypto/src/webauthn.ts:177-272 | for distinct keys below 65536 a map survives if and only if it has at most 255 entries, all of them under 24 bytes |
| Cbor.RepeatedKeyCoincidence | packages/crypto/src/webauthn.ts:177-272 | with a repeated key a map can come out right although a value is too long |
| Cbor.DecodeGrowth | packages/crypto/src/webauthn.ts:263-269 | n decoded entries add at most n keys, and overwrite nothing if they add that many, on any bytes |
| Cbor.MapHeadIff | packages/crypto/src/webauthn.ts:188-200 | by section 3.1 of RFC 8949 a map is written as a map (major type 5), with the right number of entries if and only if these are fewer than 256 |
| Cbor.IntHeadIff | packages/crypto/src/webauthn.ts:177-228 | integers below 65536 are accepted and no others; one from 0 on is written as such (major type 0) with its value, a negative one as its lowest byte, so never as what it is (major type 1) |
| Cbor.ReadsStandardHeads | packages/crypto/src/webauthn.ts:230-245 | the decoder reads complete heads as section 3 of RFC 8949 has them, whatever the major type, and fails if and only if the argument takes more than two bytes or the marker is reserved |
| Cbor.StringHeadIff | packages/crypto/src/webauthn.ts:202-221 | a string is written as a byte string (major type 2) or text string (major type 3) with its bytes behind, with the right length if and only if this is below 24 |
| Cbor.MissingEntries | packages/crypto/src/webauthn.ts:230-272 | entries past the end of a buffer are not missed: each reads as two bytes, key 0 with an empty string |
| Cbor.CutOffStillDecodes | packages/crypto/src/webauthn.ts:230-272 | wherever a map is decoded from a buffer, one is decoded from every cut-off part of it |
| AuthenticatorData.ParseBuild | packages/crypto/src/webauthn.ts:597-842 | parsing recovers relying-party hash, flags, counter, and (flag set) key-authority id, credential id and public key from the built layout (section 6.1 of W3C Web Authentication) |
| AuthenticatorData.Layout | packages/crypto/src/webauthn.ts:806-827 | building fails if and only if counter or id length do not fit; otherwise the bytes are hash, flags, big-endian counter, sixteen zeros, big-endian id length, id, key (section 6.1 of W3C Web Authentication) |
| AuthenticatorData.ParsedCounter | packages/crypto/src/webauthn.ts:597-620 | read back, the counter has its number, and there is a credential, with the id and key put in, if and only if bit 0x40 of the flags is set |
| AuthenticatorData.ShortDataParses | packages/crypto/src/webauthn.ts:597-602 | data of at most 32 bytes are not refused: a cut-off hash, undefined flags, no credential |
| AuthenticatorData.ParseBuildIff | packages/crypto/src/webauthn.ts:597-842 | every field is recovered if and only if the hash has 32 bytes, which the builder does not check |
| AuthenticatorData.AttestationRoundTripIff | packages/crypto/src/webauthn.ts:806-842 | an attestation object decodes to its own entries if and only if format name and authenticator data are both under 24 bytes |
| AuthenticatorData.ProperAttestationIsLost | packages/crypto/src/webauthn.ts:806-842 | so none built with a 32-byte hash does |
| Retry.RunRetry | packages/core/src/adapters/otp-provider.ts:118-165 | the loop's result, sends, clock and slept delays are those of the recursive run |
| Retry.RunIsFirstDecisive | packages/core/src/adapters/otp-provider.ts:118-165 | at most `attempts` sends; all but the last were indecisive failures; the result is the first decisive outcome, else the last; any other end is a wanted abort or a run without attempts |
| Retry.RunOkIff | packages/core/src/adapters/otp-provider.ts:118-165 | the run succeeds if and only if the transport answered one of its sends with success, and nothing is sent after that |
| Retry.ResultIsLastAnswer | packages/core/src/adapters/otp-provider.ts:118-165 | the result is the transport's own last answer with the measured time, or the message of what it threw last; otherwise the run was aborted when the caller wanted that, or had no attempt to make |
| Retry.DelaysBounded | packages/core/src/adapters/otp-provider.ts:153-192 | without jitter, the first delay is the base and each later one twice the one before, all capped; delays never shrink; there are at most attempts - 1, within (attempts - 1) * maxDelayMs together |
| Retry.RunTimes | packages/core/src/adapters/otp-provider.ts:118-165 | a run ends when its sends and delays are over, with one delay between any two sends and one more only before an abort; at the start of none of its sends did the caller want to abort |
| Retry.ClientErrorsAreFinal | packages/core/src/adapters/otp-provider.ts:95-165 | by the default rule nothing is sent after the transport answers with success or a 4xx other than 429 or throws an abort, and a run that ends early, unaborted, ended so |
| CircuitBreaker.BreakerCell.RecordFailure | packages/core/src/adapters/otp-provider.ts:238-249 | the four variables after a failure |
| CircuitBreaker.BreakerCell.RecordSuccess | packages/core/src/adapters/otp-provider.ts:251-261 | the four variables after a success |
| CircuitBreaker.BreakerCell.IsOpen | packages/core/src/adapters/otp-provider.ts:263-272 | the four variables after a check; open exactly if the state then is |
| CircuitBreaker.StepRefines | packages/core/src/adapters/otp-provider.ts:238-307 | one guarded call keeps the invariant that no stale counter can be read later, acts on the three-phase machine as specified, and reaches the transport exactly when that machine says |
| CircuitBreaker.RunRefines | packages/core/src/adapters/otp-provider.ts:226-307 | over every sequential run from a fresh breaker the four variables implement the three-phase machine; closed always holds fewer than `failureThreshold` failures |
| CircuitBreaker.StateIsFunctionOfLog | packages/core/src/adapters/otp-provider.ts:274-307 | rejected calls leave no trace: the timed log of the calls sent determines all four variables |
| CircuitBreaker.StaysClosedIff | packages/core/src/adapters/otp-provider.ts:238-261 | a closed breaker stays closed over a stretch if and only if the stretch's failures, consecutive or not, stay below the threshold |
| CircuitBreaker.TrippingCall | packages/core/src/adapters/otp-provider.ts:238-244 | otherwise the very call whose failure reaches the threshold opens it, at the time of its recording |
| CircuitBreaker.FailuresNeedNotBeConsecutive | packages/core/src/adapters/otp-provider.ts:238-261 | failure, success, failure opens a breaker with threshold 2 |
| CircuitBreaker.Recovery | packages/core/src/adapters/otp-provider.ts:251-272 | after the cooldown, successes are let through and the `successThreshold`-th in a row closes the breaker with a clean count |
| CircuitBreaker.DeadTransportBound | packages/core/src/adapters/otp-provider.ts:218-307 | against a transport that always fails, at most failureThreshold + T / cooldown guarded calls are sent in time T |
| BreakerOverlap.StepPaced | packages/core/src/adapters/otp-provider.ts:238-307 | every check and every failure of overlapping calls keeps: while closed each send is counted or in flight, while open the sends are within k per cooldown, while half-open every free slot may still send |
| BreakerOverlap.OverlapMaximum | packages/core/src/adapters/otp-provider.ts:210-307 | with at most k overlapping calls against a transport that always fails, at most failureThreshold - 1 + k + k * (T / cooldown) are sent in time T, and for every number of cooldowns a run sends as many |
| BreakerOverlap.OpenHoldsWithoutSuccess | packages/core/src/adapters/otp-provider.ts:238-307 | over every run of overlapping calls, an open breaker stays open and sends nothing before its cooldown is over while no call in flight succeeds |
| BreakerOverlap.OpenHoldsIff | packages/core/src/adapters/otp-provider.ts:251-272 | over every run, whatever the calls in flight report, an open breaker sends nothing before its cooldown is over if and only if none is in flight |
| DeliveryManager.GuardedProvider.Send | packages/core/src/adapters/otp-provider.ts:274-307 | breaker around retry: short-circuit without a send while open, otherwise one retry run whose verdict is recorded at its end |
| DeliveryManager.Wrap | packages/core/src/adapters/otp-delivery-manager.ts:68-74 | every provider gets its own fresh breaker and its own wrapper, none shared |
| DeliveryManager.DispatchSend | packages/core/src/adapters/otp-delivery-manager.ts:105-133 | the loop over stateful providers ends in the outcome, provider states and clock DispatchOutcome is about |
| DeliveryManager.DispatchOutcome | packages/core/src/adapters/otp-delivery-manager.ts:105-133 | failover succeeds if and only if some provider accepts at its turn; no provider after the first accepting one is touched; otherwise there is one error per provider, in order |
| DeliveryManager.UnsupportedIsPassedOver | packages/core/src/adapters/otp-delivery-manager.ts:114-124 | a provider without the channel never accepts, is sent nothing and costs no time |
| DeliveryManager.DeliveredIff | packages/core/src/adapters/otp-delivery-manager.ts:105-133 | fail-closed, through failover, breaker and retry: a dispatch succeeds if and only if the transport of a provider with the channel accepted a send that the dispatch made |
| DeliveryManager.ServeIsBreakerRun | packages/core/src/adapters/otp-delivery-manager.ts:68-74 | requests served by a wrapped provider are an ordered run of its breaker, with at most `attempts` transport sends per call let through |
| DeliveryManager.DeadTransportLoad | packages/core/src/adapters/otp-delivery-manager.ts:68-74 | a dead transport sees at most attempts * (failureThreshold + T / cooldown) sends in time T, however often it is asked |
| KeyStore.Store.AddKey | packages/crypto/src/jwt.ts:354-369 | adds or replaces the kid's key as active from now, then prunes; kids stay unique |
| KeyStore.Store.AddKeyWithMaterial | packages/crypto/src/jwt.ts:372-418 | refuses an empty kid or bad material and leaves the store alone, otherwise restores the key as given and prunes |
| KeyStore.Store.Prune | packages/crypto/src/jwt.ts:483-490 | the loop removes exactly the keys whose expiry lies before now, in order |
| KeyStore.Store.Retire | packages/crypto/src/jwt.ts:448-455 | fails if and only if the kid is unknown or revoked; otherwise verify-only |
| KeyStore.Store.Revoke | packages/crypto/src/jwt.ts:458-465 | fails if and only if the kid is unknown; otherwise revoked |
| KeyStore.Store.Current | packages/crypto/src/jwt.ts:328-336 | always an active unexpired key held by the store; a new one is made only if there is none |
| KeyStore.Store.PublishedKeys | packages/crypto/src/jwt.ts:421-445 | the loop publishes the entries PublishedIffAccepted is about, in order |
| KeyStore.CurrentIsNewest | packages/crypto/src/jwt.ts:328-333 | the current key is active, unexpired and of maximal creation time, and there is one if any key qualifies |
| KeyStore.CurrentInOnePass | packages/crypto/src/jwt.ts:329-330 | stable sorting and searching choose the earliest inserted among the newest keys |
| KeyStore.PublishedIffAccepted | packages/crypto/src/jwt.ts:339-445 | a held key is published if and only if it is accepted by its kid and active or verify-only; its primary entry stands under its own kid |
| KeyStore.CurrentIsPublished | packages/crypto/src/jwt.ts:328-445 | the current key is published and accepted by its kid at that instant |
| KeyStore.PrivatePartsAreNotPublished | packages/crypto/src/jwt.ts:420-445 | stores that differ in private key parts only publish the same list |
| KeyStore.AcceptedIff | packages/crypto/src/jwt.ts:339-342 | a kid is accepted with a key if and only if this is held under the kid, unexpired and not revoked |
| KeyStore.AddedIsAcceptedWhileItLasts | packages/crypto/src/jwt.ts:328-369 | a generated key is accepted, published and usable with its own material from its addition until its lifetime is over, by default for 30 days, and other kids are accepted as before |
| KeyStore.RestoredIsAccepted | packages/crypto/src/jwt.ts:372-418 | a restored key is accepted as it was saved, unless it is revoked or expired; at most its activation time is filled in; other kids are accepted as before |
| KeyStore.RetiredOnlyVerifies | packages/crypto/src/jwt.ts:448-455 | a retired key is accepted and published wherever it was accepted before, with the same material, and never current; other kids are accepted as before |
| PublishedKeys.DistinctKidsIff | packages/crypto/src/jwt.ts:421-445 | the published kids are distinct if and only if no published key is named like a hybrid key's second entry |
| PublishedKeys.ListVerifiesTheSame | packages/crypto/src/jwt.ts:421-789 | from a published list with distinct kids alone, a key can be rebuilt that gives every string at all the answer of the store's own key |
| PublishedKeys.SignedVerifiesFromList | packages/crypto/src/jwt.ts:421-789 | so every token a published key signs verifies from the list, up to the claim checks, with the signed claims |
| KeyStoreRuns.PruningRemovesOnlyExpired | packages/crypto/src/jwt.ts:483-490 | over every run on a clock that does not run backwards, a pruning store differs from one that never prunes only by missing expired keys |
| KeyStoreRuns.PruningIsInvisible | packages/crypto/src/jwt.ts:328-490 | so both give the same lookup for every kid, publish the same entries, and have equally new current keys |
| KeyStoreRuns.PruningAddsErrorsOnlyForExpired | packages/crypto/src/jwt.ts:448-490 | `retire` and `revoke` see different keys only for a kid whose expired key was pruned |
| KeyStoreRuns.AddedAlikeIff | packages/crypto/src/jwt.ts:354-369 | of two stores with the same live keys in the same order, one pruning and one not: adding a key breaks the order if and only if the key is live, its kid is not held live, and different numbers of live keys come before the kid's places |
| KeyStoreRuns.StepAlikeIff | packages/crypto/src/jwt.ts:328-490 | of all operations exactly those that add a key in this way break it |
| KeyStoreRuns.PruningKeepsOrder | packages/crypto/src/jwt.ts:354-490 | over every run from the empty store that displaces no key in this way, the live keys are the same in the same order |
| KeyStoreRuns.PruningIsInvisibleInOrder | packages/crypto/src/jwt.ts:328-490 | then the current key and the published list are identical |
| KeyStoreRuns.AddedCurrentIff | packages/crypto/src/jwt.ts:328-369 | after any addition under a kid not held live, at that and every later instant before the next operation, two such stores sign with different keys if and only if the added key is usable then, the newest usable key between its two places is just as new, all before are older and none behind is newer |
| KeyStoreRuns.AddedJwksIff | packages/crypto/src/jwt.ts:354-445 | and publish different lists if and only if the added key and some key between its two places are published then |
| KeyStoreRuns.PrunedPlaces | packages/crypto/src/jwt.ts:354-490 | for a kid whose expired key was pruned, the keys between are all live ones behind the old place, and none is behind both |
| KeyStoreRuns.ReadditionIff | packages/crypto/src/jwt.ts:328-490 | the two conditions over runs: after any run on a clock that does not run backwards and that displaced no key, adding a pruned kid makes another key sign if and only if the added key is usable, the newest usable key behind the old place is just as new and every usable key before it is older; and another list be published if and only if the added key and some key behind the old place are |
| KeyStoreRuns.StepDecidesForever | packages/crypto/src/jwt.ts:328-490 | from any two stores with the same live keys in the same order: a step leaves them with the same answers at every later instant of every continuation that displaces no key, if and only if it displaces none itself; likewise the published lists alone |
| KeyStoreRuns.OrderDecidesForever | packages/crypto/src/jwt.ts:328-490 | so does the next step after any run from the empty store that displaced none |
| KeyStoreRuns.StaysAlike | packages/crypto/src/jwt.ts:328-490 | a pruning store and one that never prunes, with the same live keys in the same order, stay so over every run that displaces no key |
| KeyStoreRuns.ReaddedCurrentDiffers | packages/crypto/src/jwt.ts:328-369 | a run from the empty store (add a, which expires; add b; add a again) after which the pruning store signs with another key than one that never prunes |
| KeyStoreRuns.RevokedStaysRevoked | packages/crypto/src/jwt.ts:328-465 | from any store and over any run that does not add the kid again, a revoked kid is never accepted, current or published |
| Jws.SplitJoin | packages/crypto/src/jwt.ts:649-771 | splitting on '.' recovers exactly the joined segments |
| Jws.JoinSplit | packages/crypto/src/jwt.ts:658-771 | any string is the join of its dot-free segments |
| Jws.UnitsAreIgnored | packages/crypto/src/jwt.ts:898-900 | a spelled lifetime of white space, an optional sign, digits and any rest that does not go on with a digit counts as the signed decimal value of the digits, in seconds |
| Jws.SpelledIsNumberIff | packages/crypto/src/jwt.ts:898-900 | a spelled lifetime is a number at all if and only if it has that form |
| Jws.ClassicalRoundTrip | packages/crypto/src/jwt.ts:697-737 | the classical leg of a hybrid signature verifies, for ES256 through the DER round trip |
| Jws.SignedSegments | packages/crypto/src/jwt.ts:635-762 | signing never fails for a matching key, and the token splits into 3 segments (hybrid: 4): header, claims, signatures |
| Jws.VerifyOfSign | packages/crypto/src/jwt.ts:502-789 | verifying a signed token with its own key comes down to the claim checks and returns the signed claims, for every payload, option and clock reading |
| Jws.AcceptedExactlyWhileAlive | packages/crypto/src/jwt.ts:617-911 | signed at second s with lifetime n and no time claims of its own: accepted in exactly the seconds before s + n, expired from then on |
| Jws.AcceptedExactlyInWindow | packages/crypto/src/jwt.ts:617-917 | with any of lifetime, activation delay and maximal age, the token is accepted in exactly the seconds they leave |
| Jws.LifetimeInMilliseconds | packages/crypto/src/jwt.ts:617-911 | in milliseconds, a lifetime of n seconds lasts more than n - 1 and at most n seconds |
| Jws.UnreadableLifetimeNeverEnds | packages/crypto/src/jwt.ts:617-911 | a token with a spelled lifetime is accepted at all times if and only if the spelling is no number |
| Jws.SignedClaimsComeBack | packages/crypto/src/jwt.ts:617-634 | verification returns every claim of the payload unchanged, and besides these at most the time of issue, the end and the start of validity |
| Jws.AcceptedForIssuerAndAudience | packages/crypto/src/jwt.ts:918-931 | a signed token without time limits is accepted if and only if its issuer is an expected one and its audience, a text or a list, is or holds an expected one; the issuer is judged first |
| Jws.SignedHeader | packages/crypto/src/jwt.ts:635-762 | the header of a signed token names the algorithm, the kid and, for a hybrid key, the second kid |
| Jws.OtherAlgorithmRefuses | packages/crypto/src/jwt.ts:652-777 | a token of one of these algorithms is refused by every key of another |
| Jws.AcceptedIff | packages/crypto/src/jwt.ts:528-931 | any string at all is accepted if and only if it has the key's number of segments, names the key's algorithm, is validly signed over its own first two segments, and its claims pass now |
| Jws.FormErrorsIff | packages/crypto/src/jwt.ts:652-811 | why any string is refused before its claims are judged: number of segments, unreadable header or claims, other algorithm, invalid signature; the first of these is told |
| Jws.ClaimErrorsIff | packages/crypto/src/jwt.ts:652-931 | any string is told to be expired, not active yet or too old if and only if it is validly signed and its claims are, in this order |
| Jws.AcceptedIsIssuedOrForged | packages/crypto/src/jwt.ts:652-789 | whatever was issued: every accepted string carries issued claims under a header naming the key's algorithm, or its own signature is a forgery over segments never issued; against a hybrid key both of its signatures are |
| Jws.StoreVerifyOfSign | packages/crypto/src/jwt.ts:467-480 | a signed token presented to any later store: unknown if no key of its kid is accepted; verified up to the claim checks by one of the same algorithm and material; refused by one of another algorithm; and whatever key accepts it, with the signed claims |
| Jws.StoreAcceptsIff | packages/crypto/src/jwt.ts:467-480 | the store accepts any string if and only if one of its unexpired, unrevoked keys has the kid the string names and accepts it |
| AuthorizationCode.MemoryStore.Create | packages/oauth/src/authorization-code.ts:37-40 | afterwards the id yields the record, every other id yields what it did, and ids stay unique |
| AuthorizationCode.MemoryStore.FindRecord | packages/oauth/src/authorization-code.ts:42-49 | the loop finds the first record with the hash in insertion order |
| AuthorizationCode.MemoryStore.Consume | packages/oauth/src/authorization-code.ts:51-58 | compare-and-set: true if and only if the record exists unconsumed, and only then is it marked |
| AuthorizationCode.CodeManager.Issue | packages/oauth/src/authorization-code.ts:75-100 | stores an unconsumed record of the code's hash, by default for five minutes |
| AuthorizationCode.CodeManager.Redeem | packages/oauth/src/authorization-code.ts:106-113 | read, check, compare-and-set without anything in between |
| AuthorizationCode.RedeemsExactlyOnce | packages/oauth/src/authorization-code.ts:102-113 | one after the other: a code redeems if and only if it is known, unconsumed and unexpired, and never a second time |
| AuthorizationCode.IssuedIsRedeemable | packages/oauth/src/authorization-code.ts:75-113 | a code issued under a new id and hash redeems to its own record at every time before its expiry and at none from then on |
| AuthorizationCode.FindAfterMark | packages/oauth/src/authorization-code.ts:51-58 | consuming a record changes no lookup by hash but for the mark itself |
| AuthorizationCode.PkceAcceptsOnlyTheVerifier | packages/oauth/src/pkce.ts:17-40 | a challenge is met by the verifier it was derived from and no other; an empty plain verifier never passes |
| AuthorizationCode.PkceMetIff | packages/oauth/src/pkce.ts:17-40 | a challenge is met if and only if it is not empty and is one hash of the verifier (S256) or the verifier itself (plain) |
| OAuthExchange.StepKeeps | packages/oauth/src/oauth.service.ts:133-167 | every step of every exchange keeps: pending reads are sound, spent records are consumed, no two exchanges spent the same record |
| OAuthExchange.RunKeeps | packages/oauth/src/oauth.service.ts:133-167 | so every interleaving of issuing and any number of exchanges does |
| OAuthExchange.SingleUse | packages/oauth/src/authorization-code.ts:106-113 | in every interleaving at most one exchange redeems a given code, so tokens are issued at most once per code |
| OAuthExchange.IssuedIsEarned | packages/oauth/src/oauth.service.ts:133-157 | whatever is issued was read unexpired and unconsumed, for the presented code, with the presented redirect URI, and meets any stored challenge |
| OAuthExchange.BurnedStaysBurned | packages/oauth/src/authorization-code.ts:51-58 | a redeemed code stays unusable in every continuation and at every time |
| OAuthExchange.FailedCheckBurnsCode | packages/oauth/src/oauth.service.ts:143-155 | an exchange that redeemed a code and fails the redirect or PKCE check is refused, and no other exchange ever issues for that code |
| OAuthExchange.ConsumedHasSpender | packages/oauth/src/authorization-code.ts:51-58 | conversely, no code is consumed without some exchange having redeemed it |
| OAuthExchange.ClientErrorIff | packages/oauth/src/oauth.service.ts:83-140 | a client passes if and only if it is known, active, public or with a secret whose hash is stored, and the redirect URI is listed; each refusal names the first of these that fails |
| OAuthExchange.OnlyTheSecretPasses | packages/oauth/src/oauth.service.ts:94-104 | a confidential client whose stored hash is that of a secret passes with that secret and no other |
| OAuthExchange.AloneIsDecided | packages/oauth/src/oauth.service.ts:133-167 | after any run, an exchange that is not interrupted is issued if and only if its client passes and its code is known, unconsumed, unexpired, of the same redirect URI, and has no challenge or one the verifier meets; otherwise it is told the first of these that fails |
| OAuthClients.RunFits | packages/oauth/src/oauth.service.ts:83-167 | over every run against a client registry, stored codes stand for a URI of their own client, and every exchange past its checks was admitted by its own client's |
| OAuthClients.IssuedToAuthenticClient | packages/oauth/src/oauth.service.ts:83-140 | over every run against a client registry, whatever is issued comes from an exchange of a known, active client that lists the redirect URI and, if confidential, presented the very secret whose hash is stored |
| OAuthClients.ForeignStates | packages/oauth/src/oauth.service.ts:133-167 | where a client shares a redirect URI, a run in which another client redeems its code and gets the tokens |
| OAuthClients.GrantsStayWithClientIff | packages/oauth/src/oauth.service.ts:106-167 | over every run, whatever is issued was granted to the client that presents the code, if and only if no client may be issued codes for a URI with which another client's request is admitted |
| AuthEngine.Engine.RecordFailedLogin | packages/core/src/auth/auth.engine.ts:495-501 | counts from the account as read, and from five on locks for 15 minutes |
| AuthEngine.Engine.ClearFailedLogin | packages/core/src/auth/auth.engine.ts:519-524 | clears count and lock |
| AuthEngine.Engine.LoginPassword | packages/core/src/auth/auth.engine.ts:255-310 | order of checks (unknown, locked, no password, wrong password, disabled), what each does to the store, and the tokens or the MFA demand at the end |
| AuthEngine.Engine.RefreshSession | packages/core/src/auth/auth.engine.ts:555-560 | mints the version stored now, or 0 for a vanished account |
| AuthEngine.Engine.ChangePass | packages/core/src/auth/auth.engine.ts:567-595 | only with the right current password: new hash and next version, lock untouched |
| AuthEngine.Engine.ResetPass | packages/core/src/auth/auth.engine.ts:606-754 | by code or by token, only with a valid proof: new hash, next version, lock cleared; the tokens carry the version from before |
| AuthEngine.LockoutInvariant | packages/core/src/auth/auth.engine.ts:255-524 | over every run without a clearing call, the n-th wrong check has pushed the lock out accordingly |
| AuthEngine.LockoutBound | packages/core/src/auth/auth.engine.ts:255-524 | from any state, while nothing clears the account, logins compare at most 5 + T / 15 min wrong passwords in time T, so at most 5 in any window shorter than 15 minutes |
| AuthEngine.CountAndLockAreExact | packages/core/src/auth/auth.engine.ts:255-524 | over every run the stored failure count is the number of wrong passwords compared since the last correct one or reset, and the lock is the one of 15 minutes set by the last of them if it was the fifth or a later |
| AuthEngine.LetInIff | packages/core/src/auth/auth.engine.ts:255-743 | over every run, a call is answered with tokens if and only if its proof holds and no second factor is needed: a login with the password of the hash stored last, for a known, active, unlocked account; a verified code for an active account; a registration of a new account; a refresh; a reset with proof and acceptable password for a known account. The second factor is demanded in the same cases |
| AuthEngine.RefusedWith | packages/core/src/auth/auth.engine.ts:255-743 | what every refused call is told, by the condition that fails |
| AuthEngine.HashIsLastStored | packages/core/src/auth/auth.engine.ts:590-743 | over every run an account has the password hash stored last, by a registration, change or reset that went through |
| AuthEngine.NewPasswordCounts | packages/core/src/auth/auth.engine.ts:255-743 | so after one of these, until the next, a login passes the password check if and only if the password verifies against the new hash and the account is not locked |
| AuthEngine.AccountsStay | packages/core/src/auth/auth.engine.ts:255-754 | over every run the accounts are those at the start and the registered ones; none is disabled or enabled |
| LoginOverlap.AtomicLogin | packages/core/src/auth/auth.engine.ts:255-287 | a login that reads and records without anything in between is the atomic one |
| LoginOverlap.StepCosts | packages/core/src/auth/auth.engine.ts:266-283 | every step of every overlapping login pays for the password it compares out of a potential of the pending and the idle logins |
| LoginOverlap.OverlapBound | packages/core/src/auth/auth.engine.ts:255-501 | in any window shorter than 15 minutes in which nothing clears the account and at most k wrong logins overlap, from any account and with any logins pending when it opens, these and the ones that begin compare at most Most(k, 0) wrong passwords |
| LoginOverlap.MostIsBinomial | packages/core/src/auth/auth.engine.ts:255-501 | that number is C(k + 5, 5) - 1; from failure count v on it is C(k + 5 - v, 5 - v) - 1 |
| LoginOverlap.OverlapMaximum | packages/core/src/auth/auth.engine.ts:255-501 | it is the maximum: 5, 20, 55, 125 and 251 for one to five overlapping logins, reached from every unlocked account without failures |
| LoginOverlap.FiveHoldsIff | packages/core/src/auth/auth.engine.ts:255-501 | in all such windows at most five wrong passwords are compared if and only if no two logins overlap |
| LoginOverlap.LastWriteDecides | packages/core/src/auth/auth.engine.ts:495-501 | after any run the account is locked if and only if the login that wrote last had read at least four failures, for 15 minutes from that write; what was counted or locked since it read is forgotten |
| VersionOverlap.AtomicChange | packages/core/src/auth/auth.engine.ts:567-667 | a change or reset that reads and writes without anything in between is the atomic one |
| VersionOverlap.EveryChangeOutdatesIff | packages/core/src/auth/auth.engine.ts:567-743 | over every run of overlapping changes and logins from an account without tokens, every change leaves all tokens minted before it strictly below the version it stores, if and only if no two changes overlap |
| VersionOverlap.NoneAheadIff | packages/core/src/auth/auth.engine.ts:567-743 | over every such run no token is ever above the stored version, if and only if no two changes overlap |
| VersionOverlap.NoneRevivedIff | packages/core/src/services/accountState.service.ts:57 | over every such run and every continuation, a token whose version is not the stored one never has the stored version again, if and only if no two changes overlap |
| VersionOverlap.MintsCurrentIff | packages/core/src/auth/auth.engine.ts:164-180 | over every run of at most k overlapping changes and any logins, every token is of the stored version when it is minted if and only if k is 0 |
| AuthEngine.ChangePasswordIsNotCounted | packages/core/src/auth/auth.engine.ts:584-589 | in any run of changes with wrong current passwords, whatever the accounts, passwords and times, every password is compared and refused, and the store does not change |
| AuthEngine.RefusedChangesLeaveNoTrace | packages/core/src/auth/auth.engine.ts:573-589 | deleting all refused changes of password from any run changes neither the final store nor any other answer |
| AuthEngine.MintedAtMostStored | packages/core/src/auth/auth.engine.ts:164-180 | over every run, each minted token carries at most the version stored at the end |
| AuthEngine.ChangeOutdatesTokens | packages/core/src/auth/auth.engine.ts:590-743 | every password change or reset leaves all tokens minted for the account up to then, its own included, strictly below the stored version for good |
| AuthEngine.UndisturbedTokensStayCurrent | packages/core/src/auth/auth.engine.ts:164-180 | without such a call, tokens carry exactly the stored version |
| MfaMigration.Collections.UpdateSecret | migrations/004-mfa-secrets-encryption.ts:191-194 | a guarded update's matched and modified counts, and the users afterwards |
| MfaMigration.Collections.ProcessUser | migrations/004-mfa-secrets-encryption.ts:175-225 | one user of the batch, against any present state of the collections: backup first, guarded write, read-back, restore, and the counter that grows |
| MfaMigration.Collections.Migrate | migrations/004-mfa-secrets-encryption.ts:166-236 | over a stable snapshot the loop leaves every legacy secret enveloped and backed up, everything else alone, and counts each user once |
| MfaMigration.Collections.RunRollback | migrations/004-mfa-secrets-encryption.ts:264-288 | restores every backed-up secret; a row goes if and only if its user's secret changed |
| MfaMigration.Collections.RunRollbackScript | migrations/rollback/004-mfa-secrets-rollback.ts:20-51 | restores every backed-up secret; a row goes if and only if its user exists |
| MfaMigration.WrapUnwrap | migrations/004-mfa-secrets-encryption.ts:66-115 | a new envelope reads back as its secret and is classified as current |
| MfaMigration.KindIff | migrations/004-mfa-secrets-encryption.ts:89-133 | which values are current, legacy, corrupt and unrecognized, by prefix, decryption and decoded length, for every value |
| MfaMigration.CountersSum | migrations/004-mfa-secrets-encryption.ts:159-226 | the counters add up to the users processed, and none fails without a concurrent writer |
| MfaMigration.CountersCount | migrations/004-mfa-secrets-encryption.ts:159-226 | each counter is the number of visited users of its kind |
| MfaMigration.EachCountsOnce | migrations/004-mfa-secrets-encryption.ts:175-225 | whatever others have written meanwhile, handling a user raises exactly one counter, by one: failed if and only if a legacy secret was to be written and the user no longer had the value of the batch; and what it writes |
| MfaMigration.SecretSurvivesIff | migrations/004-mfa-secrets-encryption.ts:89-236 | for a user whose secret the application can read, the migration preserves what it reads if and only if the stored value does not start with `v3:` |
| MfaMigration.CurrentEnvelopeIsLost | migrations/004-mfa-secrets-encryption.ts:96-133 | every envelope the application writes today is readable before and lost after a run with `--apply` |
| MfaMigration.UnreadableBecomesReadableIff | migrations/004-mfa-secrets-encryption.ts:116-131 | what the application cannot read before it can read afterwards if and only if it was legacy, as the decoded bytes |
| MfaMigration.RawSecretMigratedIff | migrations/004-mfa-secrets-encryption.ts:121-131 | a value without the prefix that does not decrypt is migrated, as exactly the bytes it decodes to, if and only if these are 20 or more |
| MfaMigration.EnvelopeMigratedIff | migrations/004-mfa-secrets-encryption.ts:96-120 | a value without the prefix that decrypts is migrated as what it decrypts to; prefixed ones stay as they are |
| MfaMigration.NothingLegacyLeft | migrations/004-mfa-secrets-encryption.ts:166-236 | no value is left that the migration would still change |
| MfaMigration.DryRunWritesIff | migrations/004-mfa-secrets-encryption.ts:36-38 | a run that reports a dry run changes users if and only if `--apply` and `--dry-run` are both given and some value is legacy; one that does not report it, if and only if `--apply` alone is given and some value is legacy |
| MfaMigration.SecondRunChangesNothing | migrations/004-mfa-secrets-encryption.ts:166-236 | a second run, in any order and with any IVs, changes neither users nor backup |
| MfaMigration.RollbackInvertsMigration | migrations/004-mfa-secrets-encryption.ts:147-288 | from an empty backup, migrating and then rolling back either way restores the exact users and empties the backup |
| MfaMigration.RollbacksAgreeIff | migrations/rollback/004-mfa-secrets-rollback.ts:33-41 | from any state both rollbacks leave the same users, and the same backup if and only if no backed-up user already holds the backed-up value |
| MfaMigration.ConcurrentSecretSurvivesIff | migrations/004-mfa-secrets-encryption.ts:182-211 | in every interleaving with other writers, the secret the application reads is the one in the value written last, if and only if that value is not a `v3:` one the run has caught; a value the run has not caught is never touched |
| MfaMigration.RollbackOverwritesIff | migrations/004-mfa-secrets-encryption.ts:184-288 | over every interleaving from an empty backup, rolling back leaves a user with another value than the writes alone if and only if the migration had handled the user and the value written last is not the one of its batch |

## Left out

- Srp.HandshakeAgrees: numbers stand for their hexadecimal texts; `bigIntToHex`, `hexToBuffer` and the byte layouts fed to SHA-256 are not modelled, so M1's two computations are the same function of the same values.
- Srp.AgreementIff: says nothing about a single client exponent, for which B may agree by coincidence.
- Srp.IssuedChallengeAgreesIff: for an even modulus leaves b = 0, x = 0 and exponent sums below the power of 2 in N to AgreementIff; `randomBigInt` never draws b = 0.
- Cbor.MapRoundTripIff: is about distinct keys; RepeatedKeyCoincidence shows why.
- AuthEngine.LockoutBound: engine calls are atomic; LoginOverlap has the steps of overlapping wrong logins.
- LoginOverlap.OverlapBound: correct passwords and resets, which clear the account, and password hashes changing under a pending login are outside the window.
- VersionOverlap.EveryChangeOutdatesIff: policy, proof and current-password checks of overlapping changes and logins, which only decide whether one begins, are left to the atomic model.
- KeyStoreRuns.OrderDecidesForever: says nothing about continuations that displace another key, which may restore the common order or break it further.
- PublishedKeys.ListVerifiesTheSame: entries hold the public parts as they are; `publicKeyToJwk` and its inverse, which turn PEM and raw keys into JWK members, are not modelled.
- OAuthClients.GrantsStayWithClientIff: the client registry does not change during a run.
- CircuitBreaker.RunRefines: calls follow one another; BreakerOverlap has overlapping guarded calls.
- BreakerOverlap.OverlapMaximum: is about transports that always fail; OpenHoldsIff is about all.
- Retry.DelaysBounded: base and maximal delay are whole milliseconds and jitter is 0.
- MfaMigration.ConcurrentSecretSurvivesIff: concurrent writers set secrets of existing users; they do not create or delete users, and nothing happens between the guarded update and the read-back check.
- MfaMigration.Collections.Migrate: cursor batches are one pass that visits each user once; a decryption that throws during `--validate` counts as a mismatch, which the assumed AES-GCM law rules out.
- KeyStore.Store.AddKeyWithMaterial: the checks of PEM and post-quantum key material are one Boolean argument; a missing status or algorithm is filled in by the caller.
- Totp.VerifyTotp: times, steps and windows are whole numbers, `digits` is not negative.
- The SHA-2, HMAC, Argon2, AES-GCM, ECDSA, EdDSA and ML-DSA primitives, JSON, base64 and UTF-8: parameters with stated laws.
- Random numbers, timing-safe comparison and key generation: arguments and plain equality.
- RS256 and ES256 tokens, which the `jsonwebtoken` library builds and checks.
- Fractional times, headers that are not JSON objects.
- Aliasing of `SigningKey` objects handed out by the key store: keys are values here, and a later `retire` or `revoke` shows only in the store.
- `toUpperCase` beyond the base32 alphabet: any per-character function that leaves the alphabet alone.
- `nonce`, `authMethod` and `createdAt` of authorization codes, which are carried along unchanged; the `client_credentials` grant.
- The joined error text of `dispatch`, health checks and state-change callbacks of the delivery providers.
- Sessions, audit, rate limits, account-state caching, MFA enrolment and the lookup of accounts by e-mail or phone; OTP, MFA and magic-link logins are one operation that mints a token for a verified active account.
- COSE keys and WebAuthn signature verification, delegated to Node.
- Mongo and Redis stores, transactions and TTL indexes.
- Everything else in the repository (HTTP, UI, SDKs, other migrations): plumbing.
