# Verified model of the Golden threshold-encryption workspace

Golden generates keys for threshold encryption without a trusted dealer. Dealers share secrets with Feldman commitments
and prove, in zero knowledge and in one batched proof, that every encrypted share is right; the completed runs give the
keys of the EHTDH1 encryption scheme. The proofs are Bulletproofs over a curve cycle, with an R1CS circuit for the
hidden exponentiations. This project models the algorithms of these crates as Dafny programs and proves what they
promise.

## How the model is set up

- The scalar field is the residues modulo an arbitrary prime `q` (`Scalars.q`). A group element is written by its
  discrete logarithm to the generator, so the group is the same residues under addition, and every equation between
  points is one between logarithms. Nothing computes a logarithm; the representation only fixes which points are equal.
- In the circuit modules `q` is the base field of the inner curve. Its points are integers, standing for multiples of
  its generator, and `Curve.at` gives their affine coordinates; `Lawful` asks for periodicity and the chord rule.
- Hash functions, transcripts, mask streams, pads, proof backends and point encodings are function parameters, with the
  property each use needs as an explicit hypothesis. A transcript is the list of everything appended to it and a
  challenge is any function of that list. Random scalars are parameters.
- Loops, in-place folds and objects with fields are methods, arrays and classes, each tied to a specification function;
  the theorems are about those functions. Concurrent code is a state machine over its atomic steps.
- Some definitions are folded behind a countdown (`Times`, `Red`, `Dot`, `Tables`, `Starts` and others): the function
  equals the plain definition, by an `Unfold` lemma that needs no proof, but the verifier does not unfold it on its own. These
  wrappers only keep terms out of proofs that do not need them; no row below is about one.

| files | what they model |
|---|---|
| Modular, Scalars, Vectors, Polynomials, Bits, OrderedMap, Wrappers, Core | residues, multiscalar sums, polynomials, bits, ordered maps |
| Shamir, Feldman | secret sharing, commitments, the batched Feldman check |
| Registries, Dkg, DkgRun, DkgBinding, Transcripts | identity keys, the registry, one dealing, verification, completion, whole runs, and what the roots bind |
| PublicKeys, Ehtdh, Combiner, DkgBridge | public key sets, sealing, decryption shares, combination, and the path from key generation to plaintext |
| Folding, InnerProduct, InnerProductVerifier, EffectiveBases, InnerProductProver | the inner-product argument: plain protocol, verifier, optimised prover |
| LinearProof, LinearVerifier, LinearProver | the linear argument |
| LinearCombinations, ConstraintSystems, BitGadgets, Chords, ChordGadget, ReceiverSlot, BatchedCircuit, PadDerivation | the eVRF circuit, and the pad both sides derive |
| Pippenger, TiledMsm, GeneratorCache | multiscalar multiplication, its tiled scheduler, the generator cache |
| Wire, WireLists, WireMessages, WireEnvelope | the canonical wire codec |

Where code and documentation differ the model follows the code:

- `batch_invert` is documented to leave values partially overwritten when it returns None; the code tests for zero
  before it writes, so nothing changes (`Shamir.BatchInvert`).
- `LinearProof::create` is documented for lengths that are zero or a power of two; the code refuses zero
  (`LinearProver.CreateLinear`).
- The generator cache is documented to grow monotonically; `clear_generator_cache` empties it, and termination then
  depends on the schedule (`GeneratorCache.ClearingStarves`).
- The linear verifier weighs L_j by x_j and R_j by its inverse, the opposite of the equation printed in GHL'21; that is
  the weighting proved complete here.

## Model

| member | source | states |
|---|---|---|
| Shamir.EvaluateAtScalar | crates/golden-core/src/shamir.rs:91-97 | The Horner loop returns the polynomial's value. |
| Shamir.BatchInvert | crates/golden-core/src/shamir.rs:198-218 | In place, every entry becomes its inverse exactly when none is zero; otherwise the result is None and the array is as it was. |
| Shamir.LagrangeCoefficientsAtZero | crates/golden-core/src/shamir.rs:169-193 | The loop computes the Lagrange basis at zero through one batch inversion, and fails exactly when two points coincide. |
| Shamir.EnsureUniqueParticipants | crates/golden-core/src/shamir.rs:220-228 | Names the first participant that repeats; accepts exactly the lists without repetition. |
| Shamir.ReconstructSecret | crates/golden-core/src/shamir.rs:129-138 | The program is the specification `Reconstructed`, error by error. |
| Shamir.InterpolationPoints | crates/golden-core/src/shamir.rs:152-156 | Converts every index to its point, or gives the first conversion's error. |
| Shamir.LagrangeInterpolateAtZero | crates/golden-core/src/shamir.rs:141-165 | The program is the specification `InterpolatedAtZero`, error by error. |
| Shamir.ReconstructionOutcome | crates/golden-core/src/shamir.rs:129-165 | Succeeds exactly with a positive threshold, enough shares, distinct participants, convertible indexes and distinct points; each error is given exactly when the earlier conditions hold and its own fails, and names the first offender. |
| Shamir.ReconstructionRecoversSecret | crates/golden-core/src/shamir.rs:129-165 | Any list of at least threshold shares of a polynomial of lower degree, at distinct points, reconstructs its constant term, whatever the index conversion. |
| Shamir.LargeOrderSeparates | crates/golden-core/src/participant.rs:26-29 | Over a field of order at least 2^32 different participants have different points. |
| Polynomials.ValuesDetermine | crates/golden-core/src/shamir.rs:129-165 | Two polynomials of degree below n that agree at n distinct points agree everywhere. |
| Polynomials.InterpolantFits | crates/golden-core/src/shamir.rs:141-165 | The interpolating polynomial takes the given values. |
| Polynomials.LagrangeRecovers | crates/golden-core/src/shamir.rs:169-193 | The Lagrange basis at any z, weighed by a polynomial's values at enough distinct points, gives its value at z. |
| Feldman.MulBySmallScalar | crates/golden-core/src/feldman.rs:22-34 | Double-and-add from the highest set bit is scalar multiplication, zero included. |
| Feldman.PublicKeyShare | crates/golden-core/src/feldman.rs:63-77 | Horner over the commitment gives the committed polynomial's value at the participant. |
| Feldman.VerifyShare | crates/golden-core/src/feldman.rs:80-84 | True exactly when the share matches the commitment. |
| Feldman.OnlyTheTrueShareMatches | crates/golden-core/src/feldman.rs:80-84 | Against an honest commitment exactly one value per participant matches: the polynomial's. |
| Feldman.FeldmanBatchMatches | crates/golden-evrf/src/paper.rs:1980-2031 | The one multiscalar multiplication vanishes exactly when the weighted sum of the receivers' defects does, for all weights. |
| Feldman.ExactSharesPassBatch | crates/golden-evrf/src/paper.rs:1980-2031 | Receivers that pass one by one pass together, whatever the weights. |
| Feldman.SingleReceiverBatchIsExact | crates/golden-evrf/src/paper.rs:1980-2031 | With one receiver and a nonzero weight the batch check is the exact check. |
| Feldman.WrongShareNeedsOneWeight | crates/golden-evrf/src/paper.rs:1947-2031 | With a wrong share among them and the other weights fixed, at most one value of its weight passes. |
| Registries.ProvedIdentityVerifies | crates/golden-core/src/identity_key.rs:29-52 | An honest proof of an identity key verifies, except for the zero nonce. |
| Registries.TwoAnswersRevealSecret | crates/golden-core/src/identity_key.rs:41-52 | Two answers that satisfy the equation for different challenges and one nonce point give the key's secret. |
| Registries.AcceptedProofIsUnique | crates/golden-core/src/identity_key.rs:41-52 | A key and a nonce point have at most one proof that `VerifyIdentity` accepts. |
| Registries.AcceptedTwiceKnowsSecret | crates/golden-core/src/identity_key.rs:41-52 | Two proofs from one nonce point that `VerifyIdentity` accepts under hashes that disagree there give a secret of the key. |
| Registries.IdentityProofBinds | crates/golden-core/src/identity_key.rs:41-71 | With a hash that answers only an accepted proof's query, exactly that proof of that key is accepted. |
| Registries.NewRegistry | crates/golden-core/src/dkg.rs:63-102 | Accepts exactly the entries with distinct participants, proven nonidentity keys, and no two keys equal or opposite; otherwise gives the first refusal in order. |
| Registries.RefusesUnacceptable | crates/golden-core/src/dkg.rs:63-102 | The entry-by-entry scan refuses nothing exactly when the pairwise conditions hold. |
| Registries.ListedFromPairs | crates/golden-core/src/wire.rs:404-418 | Listing a map built from an ascending list gives the list back. |
| Dkg.DefaultPadSymmetric | crates/golden-core/src/dkg.rs:1037-1069 | The default pad is the same from the dealer's and from the receiver's side. |
| Dkg.EnsurePublicShareKeys | crates/golden-core/src/dkg.rs:906-921 | No error exactly when the shares are for all other participants of the registry. |
| Dkg.DealingStatements | crates/golden-core/src/dkg.rs:565-632 | Succeeds exactly on well-formed messages, with the receivers' statements in registry order. |
| Dkg.EncryptShares | crates/golden-core/src/dkg.rs:460-482 | Fills both maps for every receiver: pad commitment, pad plus share, and the pad itself; fails exactly when a pad cannot be derived. |
| Dkg.CreateDealingWithSecret | crates/golden-core/src/dkg.rs:434-563 | Succeeds exactly when the dealer is registered under its key, the threshold is positive and the pads exist; the dealing then commits to the polynomial and its proof verifies. |
| Dkg.StatementsAgree | crates/golden-core/src/dkg.rs:970-998 | The share commitment a verifier recovers from an encrypted share is the one the dealer proved. |
| Dkg.VerifyDealings | crates/golden-core/src/dkg.rs:663-702 | Accepts exactly the verified message lists; on a failing batch names the first dealer whose own proof fails, every batch before it verifying alone, or keeps the batch error when all of them do. |
| Dkg.FirstFailing | crates/golden-core/src/dkg.rs:691-700 | The batch it names fails, every batch before it verifies, and it names none only when all verify. |
| Dkg.DecryptShareForReceiver | crates/golden-core/src/dkg.rs:923-954 | The program is the specification of decryption, error by error. |
| Dkg.GatherDealings | crates/golden-core/src/dkg.rs:761-773 | The own message joins the peers' map exactly when every peer is under its own key and none is the own dealer. |
| Dkg.AggregateDealings | crates/golden-core/src/dkg.rs:787-809 | The loop succeeds exactly when every dealer's share is accepted; the summed share is then the summed commitment's value at the participant. |
| Dkg.Complete | crates/golden-core/src/dkg.rs:733-830 | Succeeds exactly when the run is acceptable; for arbitrary peers, a successful output holds the share, keys and root of the aggregated polynomial. |
| DkgRun.HonestShareDecrypts | crates/golden-core/src/dkg.rs:923-954 | Each receiver decrypts the dealer polynomial's value at its index. |
| DkgRun.HonestRunAccepts | crates/golden-core/src/dkg.rs:733-830 | In a run of honest dealers every participant's completion succeeds. |
| DkgRun.CompletedAgree | crates/golden-core/src/dkg.rs:733-830 | Participants that complete over one set of messages hold the same public key, key shares and transcript root. |
| DkgRun.CompletedShare | crates/golden-core/src/dkg.rs:733-830 | A completed share lies on one polynomial, whose constant term is the logarithm of the public key. |
| DkgRun.AnySharesOpenKey | crates/golden-core/src/dkg.rs:733-830 | Any threshold completed shares reconstruct the logarithm of the public key, even among dishonest dealers. |
| DkgRun.HonestOutput | crates/golden-core/src/dkg.rs:787-830 | The joint key and shares are the sums of the honest dealers' values. |
| DkgRun.ZeroRunHasIdentityKey | crates/golden-core/src/dkg.rs:434-451 | Dealing zero secrets gives the identity as public key. |
| DkgBinding.StatementsBind | crates/golden-core/src/dkg.rs:565-632 | Equal nonempty statement lists come from messages that differ in their proofs at most, of one session, threshold, coefficient and registry. |
| DkgBinding.CompletionRootBinds | crates/golden-core/src/dkg.rs:956-967 | For a collision-free completion root, outputs with one root completed over the same dealers with the same dealing roots. |
| DkgBinding.DealingRootBinds | crates/golden-core/src/dkg.rs:868-894 | For a collision-free dealing root, well-formed messages with one root differ in their proofs at most. |
| DkgBinding.EqualRootsEqualDealings | crates/golden-core/src/dkg.rs:733-830 | Two participants, in whatever sessions, that accept dealings of one completion root accepted one session, threshold and registry root, and the same commitments and encrypted shares from the same dealers. |
| DkgBinding.EqualRootsEqualKeys | crates/golden-core/src/dkg.rs:733-830 | Completed outputs with one transcript root carry one public key and one set of public shares. |
| DkgBinding.VerifiedShareDecrypts | crates/golden-core/src/dkg.rs:663-727 | With a sound backend and a symmetric pad, every receiver of a verified dealing, whoever dealt, opens a share that matches the commitment. |
| DkgBinding.OneCompletesAllComplete | crates/golden-core/src/dkg.rs:733-830 | Public verifiability: if one participant completes over a set of dealings, so does every registered participant over the same set, once the share it kept matches its own commitment. |
| Transcripts.FramesUnique | crates/golden-core/src/transcript.rs:49-54 | A byte string is the framing of at most one list of labelled fields. |
| Transcripts.AbsorbedUnique | crates/golden-core/src/transcript.rs:36-54 | The absorbed bytes determine the transcript's label and fields, so transcripts of different labels never meet. |
| Transcripts.TranscriptBuilder.AppendBytes | crates/golden-core/src/transcript.rs:49-54 | Appends one field, and the builder's bytes stay those of its label and fields. |
| Transcripts.CountedUnique | crates/golden-core/src/dkg.rs:882-893 | A counted list of fields ends where its count says, whatever follows. |
| Transcripts.DealingRoot | crates/golden-core/src/dkg.rs:868-894 | The loops hash the framed fields of the dealing, the shares in ascending order. |
| Transcripts.DealingTranscriptBinds | crates/golden-core/src/dkg.rs:868-894 | The absorbed bytes determine the dealing but for its proof and root: equal roots of different dealings are a hash collision. |
| Transcripts.CompletionRoot | crates/golden-core/src/dkg.rs:956-967 | The loop hashes the framed dealers and dealing roots. |
| Transcripts.CompletionTranscriptBinds | crates/golden-core/src/dkg.rs:956-967 | The absorbed bytes determine the list of dealers and dealing roots. |
| Transcripts.RegistryTranscriptBinds | crates/golden-core/src/dkg.rs:832-843 | The absorbed bytes determine the participants and their keys. |
| Transcripts.StatementRoot | crates/golden-core/src/dkg.rs:1010-1035 | Hashes the framed fields of one receiver's statement. |
| Transcripts.StatementTranscriptBinds | crates/golden-core/src/dkg.rs:1010-1035 | The absorbed bytes determine every field of a statement. |
| PublicKeys.LagrangeAt | crates/golden-ehtdh1/src/context.rs:282-303 | The numerator and denominator loops give the Lagrange coefficient, and an error exactly when the denominator vanishes. |
| PublicKeys.InterpolatePublicKeyShare | crates/golden-ehtdh1/src/context.rs:265-280 | The loop is the specification `Interpolated`. |
| PublicKeys.ValidatePublicShares | crates/golden-ehtdh1/src/context.rs:211-263 | Accepts exactly the valid share maps, and says BadThreshold exactly when the first threshold points collide. |
| PublicKeys.NewPublicKeySet | crates/golden-ehtdh1/src/context.rs:57-76 | When the constructor succeeds, with which value, and when it gives which error. |
| PublicKeys.AcceptanceMeansPolynomials | crates/golden-ehtdh1/src/context.rs:211-263 | Validity is the existence of two polynomials of degree below the threshold, through all decryption shares with the joint key at zero and through all context shares with the identity at zero. |
| PublicKeys.EverySubsetInterpolates | crates/golden-ehtdh1/src/context.rs:211-303 | Every threshold subset, not only the first, interpolates to the joint key and to the identity. |
| PublicKeys.CollidingPointsRejected | crates/golden-ehtdh1/src/context.rs:282-303 | Interpolation over colliding points always fails. |
| Ehtdh.MaskTwice | crates/golden-ehtdh1/src/encrypt.rs:219-233 | Masking twice with one stream restores the payload. |
| Ehtdh.MaskReaches | crates/golden-ehtdh1/src/encrypt.rs:219-233 | A masked payload fits every plaintext of its length, each under exactly one stream. |
| Ehtdh.ApplyPayloadMask | crates/golden-ehtdh1/src/encrypt.rs:219-233 | The in-place loop masks every byte, or changes nothing when no stream can be derived. |
| Ehtdh.SealedVerifies | crates/golden-ehtdh1/src/encrypt.rs:49-92 | What sealing produces passes ciphertext verification. |
| Ehtdh.CiphertextSoundness | crates/golden-ehtdh1/src/encrypt.rs:143-181 | Two ciphertexts that `VerifyCiphertext` accepts with the same points and commitments but different challenges give r with R = r G and V = r Y. |
| Ehtdh.CiphertextProofBinds | crates/golden-ehtdh1/src/encrypt.rs:143-216 | With hashes that answer only a verifying ciphertext's queries, exactly that ciphertext verifies: the proof binds payload, associated data and points. |
| Ehtdh.SealsAndShares | crates/golden-ehtdh1/src/decrypt.rs:66-125 | When the hashes answer, sealing succeeds, and a share is made exactly of a verifying ciphertext with the expected associated data. |
| Ehtdh.HonestShareVerifies | crates/golden-ehtdh1/src/decrypt.rs:66-125 | An honest decryption share has the right value and passes verification. |
| Ehtdh.SpecialSoundness | crates/golden-ehtdh1/src/decrypt.rs:384-429 | Two answers that recompute the same commitments for different challenges force the true share value. |
| Ehtdh.OnePassingAnswer | crates/golden-ehtdh1/src/decrypt.rs:384-429 | Under one hash, shares with the same recomputed commitments that both pass have the same challenge, value and responses. |
| Ehtdh.PassingTwiceIsTrue | crates/golden-ehtdh1/src/decrypt.rs:384-429 | A share that passes, while the same value and commitments pass another hash for another challenge, has the value x R + z S. |
| Ehtdh.ChangedChallenge | crates/golden-ehtdh1/src/decrypt.rs:384-429 | A passing share with another challenge recomputes other commitments, unless all its points are the identity, and passes exactly when those exist and hash to the new challenge. |
| Ehtdh.ChangedChallengeCanPass | crates/golden-ehtdh1/src/decrypt.rs:384-429 | So it is not refused under every hash: for a nonidentity key share there is a hash under which both pass. |
| Ehtdh.ShareProofBinds | crates/golden-ehtdh1/src/decrypt.rs:384-483 | With a hash that answers only a passing share's query, a share passes for a setup, group and public share exactly if all are the same, but for its participant. |
| Combiner.CombineVerified | crates/golden-ehtdh1/src/decrypt.rs:332-350 | The loop opens the payload with the Lagrange combination of the shares. |
| Combiner.VerifyShares | crates/golden-ehtdh1/src/decrypt.rs:293-328 | Splits the list into passing shares, first of each participant, and malformed ones, in order; what passing forces is stated by Ehtdh.OnePassingAnswer and Ehtdh.PassingTwiceIsTrue. |
| Combiner.CombineSelected | crates/golden-ehtdh1/src/decrypt.rs:245-286 | The program is the specification `Selected`, with its errors in order. |
| Combiner.CombineExact | crates/golden-ehtdh1/src/decrypt.rs:166-193 | Exactly threshold shares, all of which must verify. |
| Combiner.ExactSucceeds | crates/golden-ehtdh1/src/decrypt.rs:166-286 | Exact combination succeeds if and only if the ciphertext verifies and there are threshold shares of different known participants, all passing, whose points and stream exist. |
| Combiner.CombineQuorum | crates/golden-ehtdh1/src/decrypt.rs:200-239 | Sifts the list and combines the first threshold verified shares. |
| Combiner.ZeroSharingCancels | crates/golden-ehtdh1/src/decrypt.rs:332-350 | The context part of the shares vanishes in the combination, leaving x R. |
| Combiner.ExactOpens | crates/golden-ehtdh1/src/decrypt.rs:166-193 | Honest shares of any threshold distinct participants open a sealed payload. |
| Combiner.OnlySharedPointOpens | crates/golden-ehtdh1/src/decrypt.rs:332-350 | When the stream is known only at the sender's point, shares open the payload exactly if they combine to that point. |
| Combiner.ContextBinds | crates/golden-ehtdh1/src/decrypt.rs:432-452 | Shares are made and lists combined only for the setup, ciphertext and decryption context whose group hash is known. |
| Combiner.QuorumOpens | crates/golden-ehtdh1/src/decrypt.rs:200-239 | In any order, with duplicates and bad shares, a list opens the payload exactly when threshold different participants pass. |
| Combiner.QuorumNeedsThreshold | crates/golden-ehtdh1/src/decrypt.rs:200-239 | A list opens nothing unless threshold different known participants sent passing shares. |
| Combiner.RewindableQuorumOpens | crates/golden-ehtdh1/src/decrypt.rs:200-239 | The same without trusting shares: if every passing share could be answered again for another challenge, the list opens the payload exactly when threshold participants pass. |
| Combiner.SiftedCount | crates/golden-ehtdh1/src/decrypt.rs:293-328 | The sifted list has one share for each participant with a passing share. |
| DkgBridge.MaterialFromDkgOutputs | crates/golden-ehtdh1/src/dkg_bridge.rs:45-135 | Succeeds exactly for matching runs whose paired key shares are valid, pairs the two outputs' secrets, and its setup context names each run's session and root and the registry's participants in order. |
| DkgBridge.CompletedRunsBridge | crates/golden-ehtdh1/src/dkg_bridge.rs:45-135 | Two completed runs, one over zeros, always give valid key material. |
| DkgBridge.HoldersAgree | crates/golden-ehtdh1/src/dkg_bridge.rs:45-135 | All holders of two completed runs hold the same public key set. |
| DkgBridge.KeyGenerationOpens | crates/golden-ehtdh1/src/dkg_bridge.rs:45-135 | From key generation to plaintext: holders of two completed runs decrypt what was sealed to the run's public key. |
| InnerProduct.RoundKeepsClaim | crates/bulletproofs-cycle/src/inner_product_proof.rs:80-148 | One round changes <a,G> + <b,H> + <a,b>Q by u^2 L + u^-2 R. |
| InnerProduct.RunKeepsClaim | crates/bulletproofs-cycle/src/inner_product_proof.rs:33-250 | Over all rounds the initial claim plus the cross terms is the claim about the folded bases. |
| InnerProduct.BitProductsFold | crates/bulletproofs-cycle/src/inner_product_proof.rs:254-296 | The base left by all folds is the sum weighed by the products of challenges at the bits of the index. |
| InnerProductVerifier.FillScalars | crates/bulletproofs-cycle/src/inner_product_proof.rs:286-293 | The loop that grows s by index computes the recurrence. |
| InnerProductVerifier.ClosedFormIsBitProducts | crates/bulletproofs-cycle/src/inner_product_proof.rs:286-293 | The recurrence gives the products of u^{+-1} by index bits. |
| InnerProductVerifier.BitProductsReversed | crates/bulletproofs-cycle/src/inner_product_proof.rs:347-354 | Reading s backwards exchanges every challenge with its inverse. |
| InnerProductVerifier.VerificationScalars | crates/bulletproofs-cycle/src/inner_product_proof.rs:254-296 | Succeeds exactly below 32 rounds, with the length 2^k and no identity L or R, and returns the squares, inverse squares and s. |
| InnerProductVerifier.Verify | crates/bulletproofs-cycle/src/inner_product_proof.rs:308-391 | Whoever made the proof: with nonzero challenges, accepts exactly when P + sum of u_j^2 L_j + u_j^-2 R_j = a G' + b H' + a b Q for the weighted bases folded round by round; the transcript it leaves is the reading's. |
| InnerProductVerifier.ExpectedBalances | crates/bulletproofs-cycle/src/inner_product_proof.rs:308-391 | The recomputed point balances the equation over the round-by-round folds, for any proof with nonzero challenges. |
| InnerProductVerifier.BalancedPointIsUnique | crates/bulletproofs-cycle/src/inner_product_proof.rs:380-391 | The equation is balanced by at most one point. |
| InnerProductVerifier.AcceptedForOnePoint | crates/bulletproofs-cycle/src/inner_product_proof.rs:308-391 | One proof, transcript and set of bases is accepted for at most one P. |
| InnerProductVerifier.ReadingBinds | crates/bulletproofs-cycle/src/inner_product_proof.rs:254-280 | Readings that start and end in one transcript read the same length and the same L and R, whatever the oracles. |
| InnerProductVerifier.ReadsProof | crates/bulletproofs-cycle/src/inner_product_proof.rs:267-274 | On an honest proof the verifier draws the prover's challenges. |
| InnerProductVerifier.ExpectedIsClaim | crates/bulletproofs-cycle/src/inner_product_proof.rs:308-391 | The point recomputed from an honest proof is the prover's initial claim. |
| InnerProductVerifier.InnerProductComplete | crates/bulletproofs-cycle/src/inner_product_proof.rs:33-391 | For every length 2^k below 2^32, the commitment's honest proof is accepted if challenges are nonzero and no L or R is the identity. |
| InnerProductVerifier.IdentityCrossTermRejected | crates/bulletproofs-cycle/src/inner_product_proof.rs:270-274 | A proof with an identity L or R is always refused. |
| EffectiveBases.IndexBits | crates/bulletproofs-cycle/src/inner_product_proof.rs:81-111 | The bit test j / m % 2 and the remainder j % m are the half and offset of index j in its block. |
| EffectiveBases.EffectiveFolds | crates/bulletproofs-cycle/src/inner_product_proof.rs:133-144 | Rescaling one coefficient per generator folds the effective bases. |
| EffectiveBases.MixedDot | crates/bulletproofs-cycle/src/inner_product_proof.rs:96-120 | The cross term over all original generators is the one over the effective bases' halves. |
| EffectiveBases.CollapseIsEffective | crates/bulletproofs-cycle/src/inner_product_proof.rs:150-177 | Gathering a residue class of generators into one point gives the effective base. |
| InnerProductProver.FoldInPlace | crates/bulletproofs-cycle/src/inner_product_proof.rs:133-138 | The in-place loop folds the front half of the array. |
| InnerProductProver.RescaleInPlace | crates/bulletproofs-cycle/src/inner_product_proof.rs:139-144 | Every coefficient is multiplied by the factor of its index half. |
| InnerProductProver.Work.OriginalRound | crates/bulletproofs-cycle/src/inner_product_proof.rs:80-148 | A round over the original generators is a round of the plain protocol on the effective bases. |
| InnerProductProver.Work.OriginalRounds | crates/bulletproofs-cycle/src/inner_product_proof.rs:80-148 | So are any number of them: the outcome of the run is unchanged. |
| InnerProductProver.CreateFoldedTail | crates/bulletproofs-cycle/src/inner_product_proof.rs:189-250 | The geometric tail ends the plain protocol's run. |
| InnerProductProver.Create | crates/bulletproofs-cycle/src/inner_product_proof.rs:33-185 | The optimised prover returns the plain protocol's proof, for every transcript oracle and length, and the verifier accepts it. |
| LinearProof.LinearRoundKeepsClaim | crates/bulletproofs-cycle/src/linear_proof.rs:95-143 | One round changes <a,G> + rB + <a,b>F by x L + x^-1 R. |
| LinearProof.LinearRunKeepsClaim | crates/bulletproofs-cycle/src/linear_proof.rs:95-143 | Over all rounds the commitment plus the cross terms is the claim of length one. |
| LinearProof.RunFolds | crates/bulletproofs-cycle/src/linear_proof.rs:95-143 | The rounds leave the base and the public vector folded by (1, x_j). |
| LinearProof.RunningBlinding | crates/bulletproofs-cycle/src/linear_proof.rs:95-143 | The running blinding factor is r plus the sum of x_j s_j + x_j^-1 t_j. |
| LinearVerifier.SubsetProduct | crates/bulletproofs-cycle/src/linear_proof.rs:293-308 | The loop computes for each index the product of the challenges at its set bits. |
| LinearVerifier.SubsetFoldsBase | crates/bulletproofs-cycle/src/linear_proof.rs:229-230 | The multiplication by the subset products is the base folded round by round. |
| LinearVerifier.LinearScalars | crates/bulletproofs-cycle/src/linear_proof.rs:252-286 | When the verifier's reading succeeds, and that its in-place folds leave b_0. |
| LinearVerifier.VerifyLinear | crates/bulletproofs-cycle/src/linear_proof.rs:168-247 | Whoever made the proof: with nonzero challenges, accepts exactly when S + x*(C + sum of x_j L_j + x_j^-1 R_j) = r B + a b_0 F + a G_0 for the round-by-round folds; the length error exactly for a mismatched generator vector; the transcript it leaves is the reading's. |
| LinearVerifier.OnlyExpectedBalances | crates/bulletproofs-cycle/src/linear_proof.rs:229-247 | The computed point, and no other, balances that equation. |
| LinearVerifier.LinearReadingBinds | crates/bulletproofs-cycle/src/linear_proof.rs:186-286 | Readings that start and end in one transcript have the same C, B, F, G, b, L, R and S, whatever the oracles. |
| LinearProver.TermsRead | crates/bulletproofs-cycle/src/linear_proof.rs:252-286 | On an honest proof the verifier draws the prover's challenges. |
| LinearProver.ExpectedIsMasked | crates/bulletproofs-cycle/src/linear_proof.rs:218-241 | The point the verifier computes from an honest run is the masked last message. |
| LinearProver.LinearComplete | crates/bulletproofs-cycle/src/linear_proof.rs:44-247 | For every length 2^k below 2^32 the honest proof of C = <a,G> + rB + <a,b>F is accepted, for nonzero challenges and nonidentity L and R. |
| LinearProver.FoldRound | crates/bulletproofs-cycle/src/linear_proof.rs:95-143 | One in-place round over three arrays is one round of the plain protocol. |
| LinearProver.CreateLinear | crates/bulletproofs-cycle/src/linear_proof.rs:44-165 | The program returns the plain protocol's proof, and which length errors it gives. |
| LinearCombinations.EvalPlus | crates/bulletproofs-cycle/src/r1cs/linear_combination.rs:133-140 | Evaluation is additive. |
| LinearCombinations.EvalMinus | crates/bulletproofs-cycle/src/r1cs/linear_combination.rs:142-151 | Evaluation turns subtraction into subtraction; a difference vanishes exactly when the values agree. |
| LinearCombinations.EvalTerm | crates/bulletproofs-cycle/src/r1cs/linear_combination.rs:75-106 | Scaled variables and constants evaluate to what they say. |
| ConstraintSystems.ConstraintSystem.AllocateMultiplier | crates/bulletproofs-cycle/src/r1cs/prover.rs:116-138 | The new gate's three wires, with an error exactly when proving without an assignment; satisfaction is kept. |
| ConstraintSystems.ConstraintSystem.Allocate | crates/bulletproofs-cycle/src/r1cs/prover.rs:93-114 | Reuses the right wire of a half-assigned gate: every second allocation costs a gate. |
| ConstraintSystems.ConstraintSystem.Multiply | crates/bulletproofs-cycle/src/r1cs/prover.rs:65-91 | The constraints afterwards hold exactly when the earlier ones do and the new wires equal the two inputs. |
| ConstraintSystems.ConstraintSystem.Constrain | crates/bulletproofs-cycle/src/r1cs/prover.rs:149-157 | The constraints afterwards hold exactly when the earlier ones and the new one do. |
| BitGadgets.BitDecomposeBounded | crates/golden-evrf/src/paper.rs:708-777 | Sound: in any satisfying assignment the bits are boolean, spell a number below the modulus and give k. Complete: canonical bits satisfy it. 2 gates a bit. |
| BitGadgets.ScanBelow | crates/golden-evrf/src/paper.rs:739-777 | The prefix scan holds exactly for bit strings below the modulus. |
| BitGadgets.CanonicalBitsUnique | crates/golden-evrf/src/paper.rs:708-777 | At most one bit vector satisfies the decomposition of k: the binary expansion. |
| BitGadgets.CanonicalBitsExist | crates/golden-evrf/src/paper.rs:708-777 | Every value below the modulus has such a vector. |
| BitGadgets.AliasWithoutScan | crates/golden-evrf/src/paper.rs:740-777 | Without the scan it would not be unique: k and k + q have different bits and one residue. |
| BitGadgets.ConstrainBitsLtBoundWhen | crates/golden-evrf/src/paper.rs:779-840 | The bits are below the bound whenever the condition wire is one; complete, with its gate count. |
| Chords.CorrectionsCancel | crates/golden-evrf/src/paper.rs:527-536 | The correction scalars sum to zero modulo the order. |
| Chords.Chord.RunningIsMultiple | crates/golden-evrf/src/paper.rs:641-668 | The running sum of all bits, corrections included, is the multiple k X. |
| Chords.PrecomputeChord | crates/golden-evrf/src/paper.rs:568-627 | Succeeds exactly for a positive even width and finite table points, with the tables of all window candidates. |
| Chords.ChordEvaluatePoint | crates/golden-evrf/src/paper.rs:641-668 | The loop returns k X, and an error exactly for a wrong number of bits. |
| Chords.CheckpointCountIs | crates/golden-evrf/src/paper.rs:1061-1074 | The closed form counts the checkpoint windows. |
| Chords.RegularIsFinite | crates/golden-evrf/src/paper.rs:874-962 | Nonzero addition denominators keep every intermediate point off infinity. |
| Chords.ChordComputeWitnessPrecomputed | crates/golden-evrf/src/paper.rs:874-962 | Succeeds exactly when every point is finite and every denominator nonzero, with the slopes and checkpoint coordinates of the run. |
| ChordGadget.WindowSelects | crates/golden-evrf/src/paper.rs:966-1024 | The two-bit linear combination picks the candidate of the window's bits. |
| ChordGadget.ChordWindowProducts | crates/golden-evrf/src/paper.rs:1033-1047 | One product wire per window, equal to the product of its two bits. |
| ChordGadget.AddWindow | crates/golden-evrf/src/paper.rs:1114-1228 | One chord addition: sound, complete, 3 gates. |
| ChordGadget.ChordExponentiateR1csWithResult | crates/golden-evrf/src/paper.rs:1114-1228 | For every even width: satisfying assignments with nonzero denominators return the affine form of k X, bound to the given result; the computed witness satisfies everything; gate count; checkpoints change nothing. |
| ReceiverSlot.FieldCrossing | crates/golden-evrf/src/paper.rs:2214-2227 | For order < q < 2 order, the four conditions on pad and reduce have exactly one solution: r mod order, and whether r is at least the order. |
| ReceiverSlot.HiddenExponents | crates/golden-evrf/src/paper.rs:2170-2212 | The two secret points of the slot are the right multiples of the shared key point. |
| ReceiverSlot.HiddenPad | crates/golden-evrf/src/paper.rs:2214-2228 | The pad wires spell the reduction of beta x_1 + x_2. |
| ReceiverSlot.BuildHiddenReceiverSlot | crates/golden-evrf/src/paper.rs:2170-2244 | A satisfied slot binds the pad commitment to the pad derived from the dealer's secret bits; an honest witness satisfies it; gate count with the reused half gate. |
| BatchedCircuit.ComputeHiddenReceiverWitness | crates/golden-evrf/src/paper.rs:2246-2308 | Succeeds exactly when the honest computation is regular and matches the commitment; its witness then satisfies the slot. |
| BatchedCircuit.BuildBatched | crates/golden-evrf/src/paper.rs:2310-2402 | The whole circuit, from an empty system: when it can be built, its gate count, soundness for every receiver and completeness. |
| BatchedCircuit.BuildBatchedVerifier | crates/golden-evrf/src/paper.rs:2440-2495 | The verifier's copy has the same gate count and enforces the relation. |
| BatchedCircuit.ProveBatchedR1cs | crates/golden-evrf/src/paper.rs:2310-2402 | Succeeds exactly for provable statements, and the prover's own wires then satisfy all constraints. |
| PadDerivation.PadsAgree | crates/golden-evrf/src/paper/secp_secq/dkg_backend.rs:43-108 | The pad derived from one's own secret and the other's key is the same from both sides. |
| PadDerivation.SlotPadIsDerived | crates/golden-evrf/src/paper/secp_secq/dkg_backend.rs:43-108 | The pad of a circuit slot is the derived one, although the circuit does not reduce its exponent. |
| PadDerivation.ReceiverOpensCommitment | crates/golden-evrf/src/paper/secp_secq/dkg_backend.rs:98-109 | The receiver of a provable statement derives, from its secret and the dealer's key, the pad that the statement commits to. |
| PadDerivation.SatisfiedBindsDerivedPad | crates/golden-evrf/src/paper/secp_secq/dkg_backend.rs:43-108 | Whatever wires satisfy the circuit, a receiver that derives a pad from the secret they carry derives the one its commitment is to. |
| PadDerivation.ProvableMeansDerived | crates/golden-evrf/src/paper.rs:2310-2402 | Which statements can be proved: the secret's key, existing tables, no exceptional addition, and commitments to the derived pads. |
| BatchedCircuit.BatchedMultiplierCount | crates/golden-evrf/src/paper.rs:2088-2106 | Succeeds exactly for valid thresholds and counts that fit the machine word. |
| BatchedCircuit.GateCountClosedForm | crates/golden-evrf/src/paper.rs:2083-2106 | The gates allocated one by one are 1035 + 3052 n - floor((n+1)/2). |
| BatchedCircuit.SlotGatesAre | crates/golden-evrf/src/paper.rs:2083-2086 | The per-receiver and shared constants follow from the gadgets' costs. |
| BatchedCircuit.BoundBits | crates/golden-evrf/src/paper.rs:2083-2086 | The bound p - q starts its low bits at 129, with 67 zeros above. |
| Pippenger.WindowDigit | crates/golden-bls-jubjub/src/pippenger.rs:70-84 | The bit loop reads the digit of the window off the byte string. |
| Pippenger.TruncatedIs | crates/golden-bls-jubjub/src/pippenger.rs:26-66 | The digits of all windows spell the value modulo 2^{4n}. |
| Pippenger.StaircaseIsWeighted | crates/golden-bls-jubjub/src/pippenger.rs:53-60 | The running-sum trick weighs each bucket by its digit. |
| Pippenger.FillBuckets | crates/golden-bls-jubjub/src/pippenger.rs:45-51 | Each bucket holds the sum of the points with its digit. |
| Pippenger.SumBuckets | crates/golden-bls-jubjub/src/pippenger.rs:53-60 | The downward loop computes the staircase sum. |
| Pippenger.MultiScalarMul | crates/golden-bls-jubjub/src/pippenger.rs:26-66 | The result is the sum of (v_i mod 2^{4 ceil(L/4)}) P_i, for all byte strings and points. |
| Pippenger.FullMultiplication | crates/golden-bls-jubjub/src/pippenger.rs:26-66 | Which is the sum of v_i P_i when every v_i is below 2^L. |
| TiledMsm.PippengerBreakdown | crates/golden-bls-jubjub/src/msm_blst.rs:288-318 | For every processor count the search ends without underflow, the windows cover more than 255 bits, and there are at most 2^{window-1} columns. |
| TiledMsm.ColumnsHavePoints | crates/golden-bls-jubjub/src/msm_blst.rs:164-172 | From 32 points on every column gets a point. |
| TiledMsm.TilesPartition | crates/golden-bls-jubjub/src/msm_blst.rs:171-180 | A row's tiles start at zero, follow each other and end with the points. |
| TiledMsm.MakeTiles | crates/golden-bls-jubjub/src/msm_blst.rs:171-180 | The nested loops list the tiles row by row. |
| TiledMsm.StepValid | crates/golden-bls-jubjub/src/msm_blst.rs:182-225 | No worker's step hands a tile out twice or loses one. |
| TiledMsm.EveryInterleaving | crates/golden-bls-jubjub/src/msm_blst.rs:182-234 | Every interleaving ends after exactly two steps a tile and one a worker, with every tile computed exactly once and every output in place. |
| TiledMsm.RunWorkers | crates/golden-bls-jubjub/src/msm_blst.rs:182-234 | Under arbitrary scheduling the outputs are the tile sums. |
| TiledMsm.Combine | crates/golden-bls-jubjub/src/msm_blst.rs:236-260 | Double-and-add over the rows gives the sum weighed by the digits' number. |
| TiledMsm.SegmentedMult | crates/golden-bls-jubjub/src/msm_blst.rs:154-267 | The tiled multiplication is the plain sum, for every processor count. |
| TiledMsm.SignedDigitsRecompose | crates/golden-bls-jubjub/src/msm_blst.rs:203-220 | Signed windows meet the tile contract, thanks to the strict bound on the windows' width. |
| TiledMsm.PlainDigitsRecompose | crates/golden-bls-jubjub/src/msm_blst.rs:203-220 | Unsigned windows meet it too. |
| TiledMsm.DropIdentities | crates/golden-bls-jubjub/src/msm_blst.rs:80-87 | Dropping identity points keeps the sum. |
| TiledMsm.MsmMixed | crates/golden-bls-jubjub/src/msm_blst.rs:66-117 | The mixed multiplication is the sum over all batches and dynamic points, on every path. |
| GeneratorCache.GeneratorsChain.FastForward | crates/bulletproofs-cycle/src/generators.rs:87-93 | Skipping n seeds leaves the reader at seed n. |
| GeneratorCache.HashInChunks | crates/bulletproofs-cycle/src/generators.rs:203-206 | Splitting the seeds into chunks does not show in the points. |
| GeneratorCache.Extend | crates/bulletproofs-cycle/src/generators.rs:252-262 | Deriving what is missing extends a prefix of the chain to the requested prefix. |
| GeneratorCache.StepKeepsSound | crates/bulletproofs-cycle/src/generators.rs:223-275 | Every step of any thread, and clearing, keeps every vector in sight a prefix of its chain. |
| GeneratorCache.StepGrows | crates/bulletproofs-cycle/src/generators.rs:231-275 | Without clearing, a compare-and-store never loses cached generators, and every thread's next read sees more than its last. |
| GeneratorCache.EveryRun | crates/bulletproofs-cycle/src/generators.rs:223-275 | Over every run all cached and returned vectors are prefixes, the returned ones long enough; without clearing no thread passes its loop more than capacity + 1 times. |
| GeneratorCache.ClearingStarves | crates/bulletproofs-cycle/src/generators.rs:223-275 | With clearing there is no such bound: a thread can be kept in its loop for any number of passes. |
| GeneratorCache.Cache.Derive | crates/bulletproofs-cycle/src/generators.rs:231-275 | The retry loop terminates among threads that only grow the cache, and returns a long enough prefix. |
| GeneratorCache.LabelsDiffer | crates/bulletproofs-cycle/src/generators.rs:298-313 | Different parties, and G and H, never share a label. |
| GeneratorCache.SeedBinds | crates/bulletproofs-cycle/src/generators.rs:77-104 | A seed that is the same under every hash is of the same label and position. |
| GeneratorCache.PrefixBinds | crates/bulletproofs-cycle/src/generators.rs:77-104 | A nonempty prefix that is the same under every hash is of the same label and curve cycle. |
| GeneratorCache.GeneratorsSeparate | crates/bulletproofs-cycle/src/generators.rs:230-314 | There is a hash under which all generators of all parties below 2^32, for G and H, at all positions below 2^32, are different points, in a group of order at least 2^65. |
| GeneratorCache.SharesSeparate | crates/bulletproofs-cycle/src/generators.rs:323-341 | Under that hash the ShareG and ShareH vectors of one set have no point in common, whatever its capacity. |
| GeneratorCache.BulletproofGens.constructor | crates/bulletproofs-cycle/src/generators.rs:278-287 | A new set holds prefixes of its chains, of at least its capacity. |
| GeneratorCache.BulletproofGens.IncreaseCapacity | crates/bulletproofs-cycle/src/generators.rs:298-313 | Raises the capacity to the larger of the two and keeps the prefixes; a smaller request changes nothing. |
| GeneratorCache.BulletproofGens.ShareG | crates/bulletproofs-cycle/src/generators.rs:325-327 | The first n generators of a party do not depend on the capacity. |
| GeneratorCache.BulletproofGens.ShareH | crates/bulletproofs-cycle/src/generators.rs:330-332 | The same for H. |
| GeneratorCache.SharesAgree | crates/bulletproofs-cycle/src/generators.rs:325-332 | Two sets of any capacities agree on the generators both have. |
| Wire.ToFromBe | crates/golden-core/src/wire.rs:136-152 | Big-endian words of any width: decoding and encoding undo each other. |
| Wire.FromToBe | crates/golden-core/src/wire.rs:1034-1041 | And encoding and decoding, below the width's limit. |
| Wire.EncodingKeepsOrder | crates/golden-core/src/wire.rs:1034-1041 | The words are big-endian: encodings compare lexicographically as their numbers do. |
| Wire.WireReader.ReadExact | crates/golden-core/src/wire.rs:179-187 | Takes exactly the next bytes when there are enough, else fails without moving; the cursor never passes the end. |
| Wire.WireReader.EnsureRemainingItems | crates/golden-core/src/wire.rs:160-169 | Passes exactly when the items fit the unread bytes; an overflowing product does not. |
| Wire.WireReader.ExpectContextField | crates/golden-core/src/wire.rs:1050-1057 | Passes exactly on the expected length-prefixed field. |
| WireLists.ListUnique | crates/golden-core/src/wire.rs:305-327 | No input begins with two different length-prefixed lists. |
| WireLists.WriteList | crates/golden-core/src/wire.rs:305-312 | The writing loop appends the list's encoding. |
| WireMessages.Increases | crates/golden-core/src/wire.rs:1089-1095 | The order check passes exactly while the keys read so far stay ascending. |
| WireMessages.ReadShare | crates/golden-core/src/wire.rs:278-283 | Succeeds exactly on inputs that begin with an encrypted share's encoding, and returns that share. |
| WireMessages.ReadCommitment | crates/golden-core/src/wire.rs:319-327 | The same for nonempty commitments, with their error for empty ones. |
| WireMessages.ReadShares | crates/golden-core/src/wire.rs:521-529 | The same for ordered maps of encrypted shares. |
| WireMessages.ReadRegistry | crates/golden-core/src/wire.rs:404-418 | The same for registries, whose keys and proofs are checked again. |
| WireMessages.AcceptedRegistryIsValid | crates/golden-core/src/wire.rs:404-418 | Whatever the registry's constructor accepts, in any order, goes over the wire. |
| WireMessages.ReadConfig | crates/golden-core/src/wire.rs:454-460 | The same for configurations with a valid threshold. |
| WireMessages.ReadMessage | crates/golden-core/src/wire.rs:515-545 | The same for dealer messages, whose transcript root is recomputed. |
| WireMessages.SizeHintIsExact | crates/golden-core/src/wire.rs:498-507 | The size hint of a dealer message is its exact length. |
| WireEnvelope.BodiesUnique | crates/golden-core/src/wire.rs:208-545 | No input begins with the bodies of two values of one kind. |
| WireEnvelope.ToWireBytes | crates/golden-core/src/wire.rs:93-100 | Magic, tag, context and body in order. |
| WireEnvelope.FromWireBytes | crates/golden-core/src/wire.rs:103-114 | Decoding succeeds exactly on the encodings of valid values of the kind: it returns the value, and encoding that gives the input back. |
| WireEnvelope.DomainsSeparate | crates/golden-core/src/wire.rs:73-100 | No bytes encode values of two kinds, or of two backends. |
| WireEnvelope.TagByte | crates/golden-core/src/wire.rs:31-46 | The eight tags, at the byte after the magic. |
| WireEnvelope.MessageLayout | crates/golden-core/src/wire.rs:482-495 | Where session, registry root, dealer and nonce lie in a dealer message. |
| WireEnvelope.ConfigLayout | crates/golden-core/src/wire.rs:440-447 | Where threshold, session and coefficient lie in a configuration. |
| WireEnvelope.HonestMessageIsValid | crates/golden-core/src/wire.rs:482-508 | What an honest dealer publishes goes over the wire. |

## Left out

- Hash functions, SHAKE256, Merlin, HKDF, XChaCha20, blst and curve arithmetic: parameters with short contracts.
- Cryptographic hardness, zero knowledge, soundness of Fiat-Shamir, and the argument that denominators and challenges are nonzero outside negligible cases: nonzero values are hypotheses where they are needed.
- The R1CS proof over a finished constraint system, committed variables and second-phase randomized constraints: the model ends with satisfied or unsatisfied constraints.
- Equality of the prover's and the verifier's constraint lists: each is proved sound and complete by itself, through one shared building method.
- Protocol version and backend identifier as fields of an eVRF statement: constants, which enter its root.
- The single-receiver eVRF proof, Chaum-Pedersen, constant-term and logarithm proofs of paper.rs: straight-line Schnorr proofs like the one in Registries.
- Caches of precomputed tables and shared parameters in paper.rs, fixed-base generator tables, `sum_of_powers`, proof-size formulas, `batch_roots`: easier than what is proved.
- serde and Miden adapters, redacted Debug output, zeroization, constant-time behaviour, benches and examples.
- Byte encodings of the Bulletproofs proofs (`to_bytes`, `from_bytes`).
- InnerProductVerifier.Verify: takes proofs with as many L as R, which is what parsing produces; the code zips the two lists.
- LinearVerifier.VerifyLinear: the same assumption on L and R.
- InnerProductProver.Create: takes vectors of one length that is a power of two, which the code asserts.
- Dkg.Complete: outside `Shamir`, which takes any index conversion, `ParticipantIndex::to_scalar` reduces and cannot fail, as in every field of the workspace; the error path reserved for other fields is not modelled there.
- Dkg.CreateDealingWithSecret: assumes a backend whose proofs of true statements verify; the self-check after proving is then never the reason for an error.
- Combiner.QuorumOpens: that a share passes verification only with the true value is its hypothesis, which no deterministic statement about one hash can discharge; Combiner.RewindableQuorumOpens replaces it by a second answer.
- Ehtdh.ChangedChallenge: a passing share with its challenge replaced is not always refused, see Ehtdh.ChangedChallengeCanPass; the condition stated is exact.
- DkgBinding.EqualRootsEqualDealings: collision freedom of the two root functions is a hypothesis; Transcripts reduces it to the hash for messages of wire sizes.
- GeneratorCache.GeneratorsSeparate: needs a group of order at least 2^65, since fewer points cannot all be different.
- TiledMsm.SegmentedMult: the tile operation of blst is a contract, digits that recompose, which plain and signed windows are shown to meet; pointers and scratch space are not modelled.
- TiledMsm.MsmMixed: the direct multiplication below 32 points is blst's and taken as the plain sum.
- GeneratorCache.Cache.Derive: other threads act through a function that may only grow the cache; that they do is what StepGrows proves of the same code.
- WireMessages.ReadElement: the group's byte representations are parameters that must be canonical and of fixed size.
- WireEnvelope.FromWireBytes: collections are assumed shorter than 2^64, as machine words force; which of several errors a malformed input gets is stated only where the readers say so.
- Poisoned locks, thread spawning and memory ordering: lock acquisitions and the atomic counter are single steps.
