# Verification of the sBTC signer core

A Dafny 4.11 model of the parts of the sBTC repository whose correctness is hardest to see
from the code, with machine-checked proofs. `dafny verify dfyconfig.toml` checks everything.

| files | what they model |
|---|---|
| `Basics`, `Sequences`, `ModArith`, `Interpolation` | shared types and sequence facts; residues modulo a prime; Lagrange interpolation over key ids (sections 4.2 and 4.4 of RFC 9591) |
| `Secp`, `Signing`, `Transcripts`, `Taproot` | the curve as a cyclic group, binding factors and group commitment (section 4.5 of RFC 9591), BIP-340 verification, BIP-341 key tweaks, and what each hash covers |
| `Ownership`, `Dkg`, `Wsts`, `WstsRound` | proofs of ownership, distributed key generation, the WSTS `v2` party and aggregator, whole rounds from key generation to an accepted taproot signature |
| `DkgLifecycle` | the stored DKG shares between signer, block observer and coordinator, over whole runs |
| `BlockObserver` | copying the bitcoin chain into the database with failures at any point, and the canonical flag |
| `ScriptNum`, `SuccessScan`, `Deposits`, `DepositLayout` | script numbers, lock times (BIP-68, BIP-112), the OP_SUCCESSx scan (BIP-342), deposit and reclaim scripts, request validation |
| `Leb128`, `SignedMessage` | LEB128 (section 7.6 of DWARF 5); decoding of signed protobuf messages |
| `Lru`, `SignRequests`, `SignerMachines` | what a signer remembers between messages: signed requests per tenure, WSTS machines |
| `Withdrawals`, `SignerNumbering` | eligibility of withdrawals; numbering of signers |

How the model is set up:

- Scalars are residues modulo a prime `q` above 2^32. A point is represented by its discrete
  logarithm, so "the group is cyclic of prime order" is built in; the y-parity is any
  function that differs on a point and its negative, the x-coordinate is shared by the two.
  Hashes are arbitrary functions.
- Remote calls, database queries, random choices and timers are parameters of the operation
  that makes them; every one of them may fail.
- What a theorem assumes of these parameters can be met: `Secp.SuiteExists`,
  `BlockObserver.ChainExists`, `Deposits.RulesExist` and `SignedMessage.NumberCodecEncodes` give
  instances, and `WstsRound.TaprootFromScratch` runs key generation and signing in a row.
- Where the source updates an object, the model is a class whose methods are proved equal to
  a step function; what holds over runs is proved about that function.

Where code and comments disagree, the model follows the code: the fixed part of a deposit
script is 35 bytes and the shortest script 66 (`sbtc/src/deposits.rs:36-46`, the comment says
34 and 65); a lock time keeps its low 16 bits when it is parsed, and only the comparison with
the reprinted script refuses the other bits.

Three properties that one might expect turned out not to hold, and are stated exactly instead:

- "A request is signed once per tenure while at most one other tip has signed requests": the
  look-up in the cache also refreshes it, so a tip that was only asked counts.
  `SignRequests.ForgottenExactly` gives the exact condition for any run in between,
  `SignRequests.AskingIsEnough` runs with one other tip signed, `SignRequests.SignedOnce` what
  holds. What is signed also has to be recorded: `SignRequests.SecondEmission` says exactly when
  a second signature goes out at once (a failed local signal, which also asks the signer to shut
  down, `signer/src/context/signer_context.rs:138-148`).
- "At most one share set is pending": with a tip that comes back there can be two
  (`DkgLifecycle.ReturningTipBreaksSoundness`); without one there cannot (`DkgLifecycle.RunSound`).
  `DkgLifecycle.OnlyLastPendingExactly` names the one step that can break it.
- "Storing shares and loading them back keeps the numbering": the keys are sorted when stored and
  become a set when loaded (`signer/src/storage/model.rs:552-554`), so signers out of order or
  twice the same are numbered anew (`SignerNumbering.UnorderedChanges`). The numbering is kept
  exactly for increasing keys (`SignerNumbering.StoredNumbering`), which is how the configured
  signing set, an ordered set, yields them.

## Model

| member | source | states |
|---|---|---|
| `Interpolation.ComputeLambda` | wsts/src/compute.rs:62-72 | the loop computes the product of j/(j-i) over the other ids |
| `Interpolation.Interpolate` | wsts/src/compute.rs:62-72 | for distinct ids and any polynomial with at most as many coefficients as ids, the coefficients times the values add up to the value at zero |
| `Interpolation.LambdasSumToOne` | wsts/src/compute.rs:62-72 | the coefficients of distinct ids add up to one |
| `Signing.LambdaPermuted` | wsts/src/compute.rs:62-72 | a coefficient does not depend on the order of the ids |
| `Signing.InterpolationOrder` | wsts/src/compute.rs:62-72 | neither does the interpolated sum |
| `Secp.LiftedPoint` | wsts/src/compute.rs:169-171 | lifting the x-coordinate of a point gives the even one of the point and its negative, and these two alone share it |
| `Secp.ComputePoly` | wsts/src/compute.rs:122-131 | fails exactly when the library's multi-multiplication of the powers does; otherwise the result commits to the value of the committed polynomial |
| `Secp.InterpolateCommitments` | wsts/src/compute.rs:122-131 | on commitments, the weighted evaluations at distinct ids add up to the constant term |
| `Secp.ComputeBinding` | wsts/src/compute.rs:16-29 | the binding value hashes the id, all nonces in order and the message |
| `Secp.ComputeBindingCompressed` | wsts/src/compute.rs:33-46 | over nonces compressed beforehand it is the same value |
| `Secp.Intermediate` | wsts/src/compute.rs:77-88 | the bound nonces pair ids and nonces up to the shorter list, and R is their sum |
| `Secp.AggregateNonce` | wsts/src/compute.rs:92-113 | one interleaved multi-multiplication for any two lists; with as many ids as nonces, unless the library fails, it equals the sum that `intermediate` folds |
| `Dkg.GroupEval` | wsts/src/v2.rs:284-305 | the coefficient-wise sum of polynomials takes at every x the sum of their values |
| `Dkg.GroupKeyIsConstantTerm` | wsts/src/v2.rs:112-118 | the group key is the constant term of the group polynomial |
| `Dkg.SecretOnGroupPolynomial` | wsts/src/v2.rs:139-179 | with shares that fit their commitments, the summed key lies on the group polynomial exactly when the shares of senders without commitment cancel |
| `Signing.KeyTerms` | wsts/src/v2.rs:214-231 | with or without tweak, for every parity of key and tweaked key, the signed key term and the tweak term together are the challenge times the even form of the signing key |
| `Signing.ResponseAccepted` | wsts/src/taproot.rs:29-42 | BIP-340 verification accepts a response if and only if it answers for the even forms of R and key |
| `Signing.SignatureLog` | wsts/src/common.rs:263-272 | a plain signature verifies if and only if z = r + c k |
| `Transcripts.ProofAcceptedExactly` | wsts/src/taproot.rs:29-42 | a proof is accepted if and only if its x-coordinates are those of points R and Q with even y and its response is r + e q, where e hashes, byte for byte, the doubled hashed tag, both x-coordinates and the message |
| `Transcripts.SignatureAcceptedExactly` | wsts/src/common.rs:263-272 | the same equation for a plain signature, for points of any parity |
| `Transcripts.ProofAcrossMessages` | wsts/src/compute.rs:50-59 | a proof for one message is accepted for another if and only if the two messages hash to the same scalar after the same prefix |
| `Transcripts.SignatureAcrossMessages` | wsts/src/compute.rs:50-59 | so is a plain signature under a key other than the identity |
| `Transcripts.MessagesMatter` | wsts/src/compute.rs:50-59 | there is a suite with a proof and a signature accepted for one message and refused for another |
| `Transcripts.BoundNonceExactly` | wsts/src/compute.rs:16-29 | a bound nonce is D + rho E, where rho hashes the prefix, the id, D and E of every nonce in list order, and the message |
| `Transcripts.BoundAcross` | wsts/src/compute.rs:16-29 | two messages or nonce lists bind a nonce alike if and only if they hash to the same scalar |
| `Transcripts.TweakedKeyExactly` | wsts/src/compute.rs:148-171 | the output key is the even form of the key plus the tagged hash of it and of the merkle root, if there is one; two roots give one key if and only if they hash to the same scalar |
| `Signing.HonestSharePasses` | wsts/src/v2.rs:194-253 | a share made from keys on the group polynomial passes the aggregator's test |
| `Signing.SharesAddUp` | wsts/src/v2.rs:366-445 | shares that pass add up to the signed nonces and the interpolated key |
| `Signing.PassingSharesVerify` | wsts/src/v2.rs:312-359 | from a quorum of distinct keys whose shares all pass, the aggregate verifies: plainly without tweak, as a BIP-340 proof under the signing key with one |
| `Taproot.TweakedSignatureVerifies` | wsts/src/taproot.rs:154-278 | for every secret, nonce and tweak with non-identity points, negating for odd P, odd Q and odd R gives the secret of the tweaked key and a proof accepted under its x-coordinate |
| `Taproot.SecretOfTweakedKey` | wsts/src/compute.rs:148-171 | the tweaked secret commits to the tweaked public key |
| `Taproot.EvenSignatureIsProof` | wsts/src/taproot.rs:23-25 | with even R and even key a signature verifies if and only if its conversion does |
| `Wsts.Party.GenNonce` | wsts/src/v2.rs:65-70 | the kept nonce is the one committed to |
| `Ownership.OwnsExactly` | wsts/src/schnorr.rs:39-55 | a proof of ownership is accepted if and only if its response is k + c a, where c hashes the tag, the id and both points |
| `Ownership.NewIdOwns` | wsts/src/schnorr.rs:27-36 | whoever knows the constant term makes an accepted proof |
| `Wsts.Party.GetPolyCommitment` | wsts/src/v2.rs:73-82 | the commitment to the secret polynomial, with a proof every receiver accepts; nothing without a polynomial |
| `Wsts.Party.GetShares` | wsts/src/v2.rs:84-94 | one value of the secret polynomial per key id 1..n, none when it is cleared |
| `Wsts.Party.CheckCommitments` | wsts/src/v2.rs:111-121 | exactly the commitments of wrong length or without an accepted proof are reported; the group key is the sum over the others |
| `Wsts.Party.FindMissing` | wsts/src/v2.rs:123-139 | exactly the pairs of own key and committed sender without a share are reported |
| `Wsts.Party.FindBad` | wsts/src/v2.rs:142-162 | exactly the senders of a share off their polynomial are reported; nothing if and only if some check cannot be made |
| `Wsts.Party.ComputeSecret` | wsts/src/v2.rs:101-179 | succeeds if and only if every check can be made and passes; then keys and group key are the sums, otherwise there are no keys and the error is that of the first check, with exactly its culprits |
| `Wsts.Party.ComputeSecrets` | wsts/src/v2.rs:583-608 | the same on shares regrouped by key, the error filed under the party's id |
| `Wsts.Party.SignWithTweak` | wsts/src/v2.rs:194-253 | the nonce is gone afterwards, so it signs once; the share is the one the aggregator's test is for |
| `Wsts.Aggregator.Init` | wsts/src/v2.rs:284-305 | the group polynomial is set if and only if all degrees fit and the threshold is positive, in any order of the map; otherwise the error is that of some wrong degree, or of the empty polynomial |
| `Wsts.Aggregator.SignWithTweak` | wsts/src/v2.rs:312-359 | R is the sum of the bound nonces and z the sum of the shares plus the tweak term |
| `Wsts.Aggregator.CheckSignatureShares` | wsts/src/v2.rs:366-445 | blames exactly the shares with a key that cannot be computed, else exactly the shares that fail, else the signature as a whole |
| `Wsts.Aggregator.Sign` | wsts/src/v2.rs:448-462 | what is returned verifies; for a quorum, passing shares always give a signature, and a failure names exactly the shares whose keys cannot be computed or that fail |
| `Wsts.Aggregator.SignProof` | wsts/src/v2.rs:465-504 | the same for the BIP-340 forms, under the signing key's x-coordinate |
| `WstsRound.HonestShareConsistent` | wsts/src/v2.rs:84-94 | a sent share lies on the committed polynomial |
| `WstsRound.SecretsReady` | wsts/src/v2.rs:101-179 | after a successful key generation a party's keys lie on the group polynomial |
| `WstsRound.DkgRound` | wsts/src/taproot.rs:84-116 | among honest parties the only possible error is a failing point operation; otherwise everyone's commitment is in, and every key lies on one group polynomial |
| `WstsRound.GroupKeyOfSecrets` | wsts/src/v2.rs:112-118 | the group key is the public key of the sum of all secret constant terms |
| `WstsRound.SignTaprootRound` | wsts/src/taproot.rs:296-342 | a signing round of at least threshold distinct keys yields a proof accepted under the tweaked key, and consumes every nonce |
| `WstsRound.TaprootFromScratch` | wsts/src/taproot.rs:296-342 | from fresh parties through key generation and aggregator set-up to the signature of any of them with threshold distinct keys: the group key belongs to the sum of the secrets, and the proof is accepted under the tweaked group key unless the library fails or one of three points is the identity |
| `DkgLifecycle.Signer.OnBlock` | signer/src/block_observer.rs:155-214 | one pass of the observer is the step of the shared state, however far it gets |
| `DkgLifecycle.Signer.CheckPendingDkgShares` | signer/src/block_observer.rs:594-636 | fails only without the tip's block; otherwise the table is that of the check, which `RowStepExactly` describes row by row |
| `DkgLifecycle.RowStepExactly` | signer/src/block_observer.rs:594-636 | what any event does to a row, on heights and keys: a stored block above the window of the pending latest shares revokes rows of their x-coordinate, a verification at a tip inside it settles them, nothing else changes a row |
| `DkgLifecycle.PendingSurvivesBlock` | signer/src/block_observer.rs:617-631 | a block within the window leaves pending shares alone |
| `DkgLifecycle.PendingUntil` | signer/src/block_observer.rs:617-631 | in a run without returning tips, pending shares stay as they are until a verification of their key ends or a block above their window is observed |
| `DkgLifecycle.PendingSettledExactly` | signer/src/block_observer.rs:594-636 | and then the first such event settles them, with the status it should |
| `DkgLifecycle.Signer.OnDkgBegin` | signer/src/transaction_signer.rs:664-714 | a machine is installed only for the coordinator and only when DKG should run |
| `DkgLifecycle.Signer.OnDkgEndSuccess` | signer/src/transaction_signer.rs:1546-1549 | shares are stored once, for the current tip, and the machine is gone |
| `DkgLifecycle.NewRowExactly` | signer/src/transaction_signer.rs:1546-1549 | a row is added if and only if a round of the current tip ends with a new key; it is pending, started at the tip and for the configured signers |
| `DkgLifecycle.Signer.OnVerificationEnds` | signer/src/transaction_signer.rs:1384-1472 | only the latest shares within their window are settled |
| `DkgLifecycle.Signer.OnRestart` | signer/src/transaction_signer.rs:251-277 | of the shared state only the share table survives a restart |
| `DkgLifecycle.RestOfStepExactly` | signer/src/block_observer.rs:155-214 | when the tip moves, the registry changes and a machine comes or goes, event by event |
| `DkgLifecycle.ShouldRunDkgExactly` | signer/src/transaction_coordinator.rs:2528-2587 | DKG should run if and only if all rows have failed, or the latest other row is verified and is for other signers as is the registry, or was started below a minimum height that the tip has reached |
| `DkgLifecycle.LatestNonFailed` | signer/src/storage/postgres/read.rs:1789-1817 | the last row that is not failed, none if and only if all are |
| `DkgLifecycle.StepSound` | signer/src/transaction_coordinator.rs:2528-2587 | every step, restarts included, keeps: only the last row is pending, a tip is within its window, and no round runs beside it |
| `DkgLifecycle.RunSound` | signer/src/transaction_signer.rs:664-693 | so does every run, also one that starts with a pending row, in which no tip returns before a restart |
| `DkgLifecycle.UnverifiedNeverBlocksPastWindow` | signer/src/transaction_coordinator.rs:2535-2547 | in such a run pending shares are the latest and can still be verified at the tip, so "skip DKG while unverified" never blocks beyond the window |
| `DkgLifecycle.VerificationAgreed` | signer/src/transaction_coordinator.rs:2591-2630 | the coordinator asks for a verification if and only if signers at its tip take part, that is, within the window, and for verified shares only while another key is in place; it rotates if and only if another key is in place and pending shares are verified too; failed shares are an error |
| `DkgLifecycle.OnlyLastPendingExactly` | signer/src/transaction_signer.rs:1546-1549 | in any state, shares other than the latest become pending by a step if and only if a round of the current tip ends with a new key while the latest shares are pending |
| `DkgLifecycle.ReturningTipBreaksSoundness` | signer/src/transaction_signer.rs:677-693 | with a returning tip two share sets can be pending |
| `DkgLifecycle.RunBudgeted` | signer/src/transaction_coordinator.rs:2549-2587 | shares stored in a run come from the configuration, and each that follows verified ones started at or above the minimum height after one below it |
| `DkgLifecycle.AtMostTwoVerifiedRounds` | signer/src/transaction_coordinator.rs:2528-2587 | at most two rounds of a run end in verified shares, the second only because the minimum height was reached |
| `DkgLifecycle.SettledForever` | signer/src/storage/postgres/write.rs:927-971 | verified and failed rows never change again |
| `BlockObserver.Observer.NextHeaders` | signer/src/block_observer.rs:320-354 | terminates on height; returns the unknown stretch below the hash or the first failure |
| `BlockObserver.WalkReplayable` | signer/src/block_observer.rs:331-353 | the stretch is linked, unknown, at or above the start height, ends at the hash and starts at the start height or above a known block |
| `BlockObserver.WalkSucceeds` | signer/src/block_observer.rs:331-353 | the walk succeeds if and only if every question it asks is answered |
| `BlockObserver.WalkFails` | signer/src/block_observer.rs:331-353 | otherwise it stops at the first question without an answer, with the error for it |
| `BlockObserver.Observer.ProcessBlock` | signer/src/block_observer.rs:414-452 | block and extracted transactions appear together or not at all |
| `BlockObserver.Observer.ProcessBlocksUntil` | signer/src/block_observer.rs:401-409 | the tables are those of the synchronisation step and success is its success |
| `BlockObserver.ReplayCloses` | signer/src/block_observer.rs:404-406 | whatever block fails, the stored set is closed under parents down to the start height and the rest can still be stored |
| `BlockObserver.ReplayStores` | signer/src/block_observer.rs:401-452 | exactly the blocks before the first failure are added, all extracted, nothing that was stored changes |
| `BlockObserver.ReplayExtracts` | signer/src/block_observer.rs:414-452 | and the transactions of exactly these blocks are extracted |
| `BlockObserver.Resumes` | signer/src/block_observer.rs:385-409 | a later call works on exactly the blocks that are still missing |
| `BlockObserver.SyncComplete` | signer/src/block_observer.rs:401-409 | success at or above the start height means the block and all ancestors from there are stored and extracted; only its ancestors are added |
| `BlockObserver.CanonicalChainWalk` | signer/src/storage/postgres/write.rs:1031-1053 | the recursive query goes up the ancestors without a gap to a canonical block or the start height |
| `BlockObserver.MarkCanonicalCorrect` | signer/src/storage/postgres/write.rs:1017-1071 | afterwards a stored block is canonical if and only if it is an ancestor of the new tip, although the query stops early and leaves lower rows alone |
| `BlockObserver.MarkedRows` | signer/src/storage/postgres/write.rs:1017-1071 | from the height of a formerly canonical ancestor or of the start on, every flag says whether the block is an ancestor of the tip; below it, and elsewhere, nothing changes |
| `BlockObserver.Run` | signer/src/block_observer.rs:155-214 | in every run with any failures: closed under parents, all extracted, canonical blocks are the ancestry of one stored tip, announced tips are stored |
| `BlockObserver.ObservedTipsComplete` | signer/src/block_observer.rs:543-591 | every announced tip has its ancestry from the start height stored and extracted |
| `BlockObserver.UndisturbedStep` | signer/src/block_observer.rs:367-383 | when nothing fails the tip is announced and its ancestry is canonical, whatever failed before |
| `BlockObserver.StepExactly` | signer/src/block_observer.rs:367-383 | the tip is marked if and only if all blocks came in and no step failed; it is announced if and only if its row is there and the rest succeeds |
| `BlockObserver.Observer.OnTip` | signer/src/block_observer.rs:180-206 | one pass of the loop is the step and keeps the invariant |
| `BlockObserver.Observer.OnDeposit` | signer/src/block_observer.rs:250-275 | so is the synchronisation for a deposit's block |
| `Leb128.Buffer.EncodeInto` | sbtc/src/leb128.rs:99-117 | the shortest spelling of the value is appended |
| `Leb128.EncodeDigits` | sbtc/src/leb128.rs:99-117 | byte by byte: the base-128 digits, least significant first, none too many, flagged but for the last |
| `Leb128.TryDecode` | sbtc/src/leb128.rs:130-180 | the loop returns what the number of flagged bytes decides; the unexpected-error exit is never taken |
| `Leb128.ShiftFits` | sbtc/src/leb128.rs:155-162 | no shift or sum exceeds 64 bits |
| `Leb128.CalculateSize` | sbtc/src/leb128.rs:193-201 | the length of the encoding |
| `Leb128.DecodedExactly` | sbtc/src/leb128.rs:130-180 | v is read from k bytes if and only if v is a u64, k is between its size and ten, and the bytes are its spelling padded to k |
| `Leb128.RoundTrip` | sbtc/src/leb128.rs:99-180 | decoding an encoded u64 gives it back with its length, whatever follows |
| `Leb128.ShortestAndUnique` | sbtc/src/leb128.rs:130-201 | the encoding is the shortest string that decodes to the value and the only one of its length |
| `Leb128.IncompleteExactly` | sbtc/src/leb128.rs:172-174 | incomplete if and only if 1 to 9 bytes all carry the flag |
| `Leb128.DecodedTotal` | sbtc/src/leb128.rs:131-161 | the other errors: empty input, or ten bytes whose tenth exceeds one |
| `Leb128.Cursor.Read` | sbtc/src/leb128.rs:222-246 | a failed read leaves the position, a good one advances it inside the buffer |
| `Leb128.ListRoundTrip` | sbtc/src/leb128.rs:222-246 | values written one after another are read back in order and the cursor ends at the end |
| `Leb128.EncodeAllInjective` | sbtc/src/leb128.rs:99-117 | different lists have different encodings |
| `ScriptNum.ParseIsSigned` | sbtc/src/deposits.rs:634-643 | the fold with its mask is the magnitude with its sign |
| `ScriptNum.ReadExactly` | sbtc/src/deposits.rs:595-623 | a string is read as n if and only if it is the minimal encoding of n and short enough |
| `ScriptNum.ReadErrors` | sbtc/src/deposits.rs:595-623 | overflow if and only if too long; non-minimal if and only if it encodes no number |
| `ScriptNum.SpellDigits` | sbtc/src/deposits.rs:595-643 | byte by byte: the base-256 digits of the magnitude, the last below 128 with the sign bit on it, none too many |
| `ScriptNum.ReadBound` | sbtc/src/deposits.rs:595-643 | what five bytes give lies strictly between -2^39 and 2^39, and the sum before the mask below 2^40 |
| `Deposits.BuildReclaimScript` | sbtc/src/deposits.rs:517-526 | the built script parses back to its inputs, belongs to no others, and has no OP_SUCCESSx |
| `Deposits.BuildDepositScript` | sbtc/src/deposits.rs:256-283 | the same for the deposit script |
| `Deposits.TryNewExactly` | sbtc/src/deposits.rs:416-494 | the result for every input: refused for bit 31, then bit 22, then more than 2048 bytes, then an OP_SUCCESSx that whole instructions lead to; otherwise the low 16 bits are kept |
| `SuccessScan.HasSuccessExactly` | sbtc/src/deposits.rs:474-497 | a script is flagged if and only if it is whole instructions, pushes in any form or opcodes, then an opcode of the BIP-342 list, then anything |
| `SuccessScan.PrintedFlagged` | sbtc/src/deposits.rs:485-490 | a list of instructions is flagged if and only if one of them is such an opcode |
| `DepositLayout.ReclaimLayout` | sbtc/src/deposits.rs:517-526 | the reclaim script byte by byte for every lock time |
| `DepositLayout.SplitReclaimExactly` | sbtc/src/deposits.rs:544-577 | a number and a rest are found if and only if the script is one of the four spellings of the number, OP_CSV and the rest |
| `DepositLayout.ParseReclaimExactly` | sbtc/src/deposits.rs:544-582 | a script parses if and only if it spells a lock time below 2^31 without bit 22, OP_CSV and an acceptable user script |
| `DepositLayout.ReclaimRefusals` | sbtc/src/deposits.rs:562-582 | which error the other scripts get |
| `Deposits.ReclaimRoundTrip` | sbtc/src/deposits.rs:517-582 | every reclaim input that can be made is recovered from its script, in every form of the number |
| `Deposits.ReclaimCanonicalExactly` | sbtc/src/deposits.rs:544-582 | a parsed script is its own reprint if and only if the number is below 2^16 and not one of 1..16 pushed as a byte |
| `Deposits.HighBitsDropped` | sbtc/src/deposits.rs:446-458 | every lock time with bits above the low 16 (22 and 31 clear) is parsed, and never equals its reprint |
| `Deposits.LongFormAccepted` | sbtc/src/deposits.rs:569-576 | the same for 1..16 pushed as a byte |
| `Deposits.ReclaimLeafScan` | sbtc/src/deposits.rs:474-497 | whole instructions lead to an OP_SUCCESSx in the leaf if and only if they do in the user's part |
| `Deposits.DepositLeafScan` | sbtc/src/deposits.rs:256-283 | no deposit leaf has one |
| `Deposits.PrincipalRoundTrip` | sbtc/src/deposits.rs:285-310 | the recipient bytes are a prefix code of 22 to 151 bytes |
| `Deposits.SplitPushExactly` | sbtc/src/deposits.rs:336-358 | the match accepts exactly the minimal pushes of fewer than 160 bytes |
| `Deposits.ParseDepositShape` | sbtc/src/deposits.rs:311-373 | what parses is the canonical script up to bytes after the recipient |
| `Deposits.DepositRoundTrip` | sbtc/src/deposits.rs:256-373 | every valid deposit input is recovered from its script |
| `DepositLayout.DepositScriptLayout` | sbtc/src/deposits.rs:256-283 | the deposit script byte by byte: push, big endian fee, principal, OP_DROP, key, OP_CHECKSIG |
| `DepositLayout.ParseDepositExactly` | sbtc/src/deposits.rs:311-373 | a script parses as given inputs if and only if it is these bytes, perhaps with more after the address, in a push below 160 bytes |
| `DepositLayout.ParseDepositRefusals` | sbtc/src/deposits.rs:315-358 | which scripts are refused for length, fixed part, non-minimal push and shape |
| `Deposits.TrailingBytesDropped` | sbtc/src/deposits.rs:361-372 | bytes after the recipient are parsed away and never survive the reprint |
| `Deposits.AcceptedIsCanonical` | sbtc/src/deposits.rs:134-188 | an accepted request carries byte for byte the canonical scripts of the returned fields, pays to them, is for the network, and neither leaf has an OP_SUCCESSx |
| `Deposits.CanonicalIsAccepted` | sbtc/src/deposits.rs:134-188 | every request that pays to canonical scripts of valid inputs is accepted on its network and refused on the other |
| `DepositLayout.RequestRefusals` | sbtc/src/deposits.rs:134-188 | which requests are refused for what, in the order of the checks |
| `SignedMessage.DecodeWithDigest` | signer/src/ecdsa.rs:140-186 | the loop computes the decoding function, error by error |
| `SignedMessage.DecodeExactly` | signer/src/ecdsa.rs:140-176 | the loop succeeds if and only if plain protobuf decoding does and field numbers never fall, with the same message; it complains about the order if and only if a number falls by the first unreadable field |
| `SignedMessage.AcceptedExactly` | signer/src/ecdsa.rs:140-186 | an input is accepted as a message if and only if plain decoding gives its three parts, numbers never fall and the parts convert; the digest is over what follows the leading signature fields |
| `SignedMessage.HashedSuffix` | signer/src/ecdsa.rs:140-186 | what is hashed is what follows the leading run of signature fields; plain decoding of that alone gives the same key and message and no signature |
| `SignedMessage.SuffixDecides` | signer/src/ecdsa.rs:140-186 | inputs that agree after their signatures agree in key, message and digest |
| `SignedMessage.SignedRoundTrip` | signer/src/ecdsa.rs:190-201 | decoding an encoded message gives it back with the digest its sender computed, whenever its three parts are read back from their own encodings |
| `SignedMessage.EncodedLayout` | signer/src/ecdsa.rs:190-201 | the encoding is the three fields with keys 0x0a, 0x12 and 0x1a |
| `SignedMessage.UnknownFieldsHashed` | signer/src/ecdsa.rs:150-176 | fields with numbers above 3, in order after an encoded message, change nothing in it and are hashed |
| `Lru.PutLookup` | signer/src/transaction_signer.rs:893-895 | a put sets its key; every other key keeps its value or is forgotten |
| `Lru.PutExactly` | signer/src/transaction_signer.rs:893-895 | only a put to a full cache without the key forgets something, namely the least recently used entry |
| `SignRequests.SignerLoop.OnSignRequest` | signer/src/transaction_signer.rs:496-535 | answers from the cache, records only what was signed and signalled, and says when a signature went out; the next four rows say what that means |
| `SignRequests.ConflictIsSameId` | signer/src/transaction_signer.rs:188-204 | two transactions have one request id if and only if they complete one deposit, answer one withdrawal, rotate to one key or deploy one contract, whatever else they contain |
| `SignRequests.RefusedForReason` | signer/src/transaction_signer.rs:546-558 | in any run, what is refused as signed conflicts with a request of its tip that was signed before |
| `SignRequests.SignedUnlessConflict` | signer/src/transaction_signer.rs:496-535 | so a valid request that reaches the network is signed unless a conflicting one of its tip was |
| `SignRequests.AnsweredExactly` | signer/src/transaction_signer.rs:496-535 | what is not refused as signed is answered by its own validity and sending, and emitted if and only if valid and broadcast |
| `SignRequests.SignedOnce` | signer/src/transaction_signer.rs:546-558 | in any run, with requests of at most one other tip in between, what was signed in a tenure excludes everything that conflicts with it |
| `SignRequests.AcceptOrReject` | signer/src/transaction_signer.rs:188-204 | so accept and reject of one withdrawal are not both signed |
| `SignRequests.ForgottenExactly` | signer/src/transaction_signer.rs:528-558 | whatever happens in between without signing it again, a signed request is signed a second time if and only if one other tip was used and then a third signed with nothing asked for its own tip between the two |
| `SignRequests.AskingIsEnough` | signer/src/transaction_signer.rs:548-552 | from the start, any three valid requests of different tips: the second is signed twice with one other tip signed and one merely asked in between |
| `SignRequests.SecondEmission` | signer/src/transaction_signer.rs:524-532 | after a signature has gone out, another goes out for the same request right after if and only if the first one's local signal failed and the second is valid and reaches the network |
| `SignerMachines.SignerLoop.OnNonceRequest` | signer/src/transaction_signer.rs:824-907 | a fresh machine is installed if and only if the coordinator asks, the stored decision is to sign and the shares load |
| `SignerMachines.SignerLoop.OnShareRequest` | signer/src/transaction_signer.rs:909-997 | the sweep machine that gets the request is gone afterwards; a verification machine stays without its nonce |
| `SignerMachines.SignerLoop.ValidateSignRequest` | signer/src/transaction_signer.rs:1201-1214 | only a stored decision to sign is accepted |
| `SignerMachines.StepInv` | signer/src/transaction_signer.rs:1491-1497 | no two ids share a machine, and no machine in the cache that is of a sweep or still has its nonce was used, through evictions and errors |
| `SignerMachines.OneSharePerMachine` | signer/src/transaction_signer.rs:927-997 | in any run no machine processes two requests for a share of a sweep |
| `SignerMachines.NoNonceTwice` | wsts/src/state_machine/signer/mod.rs:525-644 | in any run no nonce makes two shares, of sweeps and verifications alike |
| `SignerMachines.Origin` | signer/src/transaction_signer.rs:841-907 | a sweep machine in the cache comes from an accepted nonce request for its sighash and has not been asked since |
| `SignerMachines.FreshMachineBetween` | signer/src/transaction_signer.rs:841-997 | between two processed share requests for a sighash lies an accepted nonce request that installed the second machine, with a stored decision to sign at both times |
| `SignerMachines.UnheardIgnored` | signer/src/transaction_signer.rs:824-997 | requests not from the coordinator, for a DKG round, for a sweep without a stored decision to sign, or for a verification that is not due change nothing and make no share |
| `SignerMachines.StepExactly` | signer/src/transaction_signer.rs:824-997 | what any event does to the machine of any id: loaded fresh, dropped as the least recently used, taken away, stripped of its nonce, or left alone |
| `SignerMachines.NonceThenShare` | signer/src/transaction_signer.rs:841-997 | after a heard nonce request of a sweep or verification, as long as no machine is loaded, no share asked and the round not ended, a heard share request makes a share, with the nonce of that request |
| `Withdrawals.Tally` | signer/src/transaction_coordinator.rs:2133-2140 | stops if and only if more than 65535 signers voted one way; otherwise returns the numbers of signers who accepted, rejected and did not vote |
| `Withdrawals.AgeExactly` | signer/src/transaction_coordinator.rs:2024-2033 | with the buffer inside the window the saturating checks are the plain age range |
| `Withdrawals.EligibleAge` | signer/src/transaction_coordinator.rs:2061-2111 | every eligible request has an age between the confirmations and window minus buffer |
| `Withdrawals.NoRoom` | signer/src/transaction_coordinator.rs:2097-2111 | with no room between them nothing that needs a confirmation is eligible |
| `Withdrawals.ConsideredExactly` | signer/src/transaction_coordinator.rs:2061-2111 | the rules before the votes, without saturation: amount from 546 to the cap, enough confirmations, height above the soft expiry |
| `Withdrawals.GetEligible` | signer/src/transaction_coordinator.rs:2002-2164 | the result is the sublist, in order and with their votes, of exactly those pending requests with at least threshold accepting signers, an amount from 546 to the cap, enough confirmations and a height above the soft expiry; it fails if and only if some request's votes cannot be read or counted, for the reason of the first |
| `Withdrawals.StopsExactly` | signer/src/transaction_coordinator.rs:2061-2140 | only a request whose amount and height are in range can stop the call, by unreadable or uncountable votes |
| `SignerNumbering.SameNumbering` | signer/src/wsts_state_machine.rs:223-246 | coordinators and signer number alike, and the key ids of the signers partition 1..n |
| `SignerNumbering.OwnId` | signer/src/wsts_state_machine.rs:494-498 | without duplicate keys a signer's id does not depend on how the map is searched |
| `SignerNumbering.StoredNumbering` | signer/src/wsts_state_machine.rs:598-663 | storing the values of the map in any order, sorted, and numbering their set again gives the same numbering if and only if the signers came increasing |
| `SignerNumbering.UnorderedChanges` | signer/src/wsts_state_machine.rs:629-638 | two signers out of order, or one twice, are numbered differently after loading |

## Left out

- SHA-256, curve arithmetic, encryption and random generation are parameters; the group is modelled by discrete logarithms, so nothing is said about their secrecy.
- Wsts.Party.SignWithTweak: the identity as group key is excluded when there is a tweak, because lifting its x-coordinate panics in the source.
- Wsts.Aggregator.SignProof: the identity as group key is excluded for a tweak other than zero, for the same reason.
- The inside of `Point::multimult` is a library's: that it may fail, and what it returns for lists of different length, are parameters.
- `Nonce::new` and `TupleProof` are not modelled; the random numbers of nonces and of proofs of ownership are parameters.
- WSTS coordinator and signer state machines, the FROST verification machine and message transport appear only as steps that succeed or fail.
- DkgLifecycle handlers are atomic: interleavings inside one handler are not modelled.
- BlockObserver treats the extraction of sBTC transactions as one opaque step of the block's transaction; Stacks blocks, limits and registry updates are one flag.
- SignRequests keeps of a transaction what its request id is made from and one value for the rest.
- SignRequests and SignerMachines cover the life of one process; a restart empties both caches.
- The start height is one number for the life of the database; changing the configuration between restarts is not modelled.
- Deposits takes validity of principal versions, contract names and x-only keys, the taproot output script and the transaction id as parameters; the script interpreter is not modelled beyond the OP_SUCCESSx scan.
- SignedMessage takes the payload codecs of the three embedded messages, the skipping of groups and the hash as parameters; ECDSA itself is not modelled.
- Leb128.TryDecode: words are integers in range; that masking, shifting and or-ing are this arithmetic on 64-bit words is `WordOperations`.
- The pending-withdrawal query, sweep construction, fee estimation, the coordinator's wallet nonce and coordinator selection are not modelled.
- Emily, blocklist, clients, networking, configuration, logging and metrics are input and output only.
