# bitwrap: verified model

bitwrap runs token standards and polls as coloured Petri nets, and proves single steps of them in zero knowledge. This
project models the parts of it that decide something, and proves what they are for.

- **Coloured nets.** The firing rule of the simulator (aggregated consumption, inhibitor arcs, capacities, colour
  vectors), the compiler that unfolds a coloured net into a plain one, and the net a poll is built from. Unfolding
  preserves every firing sequence; firing obeys the state equation; a poll never holds more votes than registrations.
- **The homomorphic tally.** Exponential ElGamal over the curve subgroup, the voter circuit, bin-wise aggregation and the
  decrypt circuit. Any tally vector the decrypt circuit accepts is the count of the ballots. The subgroup is an abstract
  abelian group with a base of known order, prime or not; `Groups.CyclicIsCurve` gives it a model.
- **The reveal tally and the ledger circuits**, as predicates over a prime field. A circuit's `Define` is a method that
  adds constraints to an `Api` object; its contract says which assignments pass.
- **Merkle trees.** The sparse incremental tree refines the dense one, also after updates. Its proofs are complete, and
  a proof of a wrong leaf yields a named hash collision on its path. The witness builders satisfy the circuits, with the
  exact condition where they do not always.
- **Number theory and point coding.** Square-and-multiply, Tonelli-Shanks on top of a proof of Euler's criterion, and
  compression of curve points.
- **Layout and solver.** Cycle breaking by depth-first search, longest-path levels, barycenter sweeps and coordinates;
  the adaptive Runge-Kutta loop over exact reals.
- **The token runtime.** Breadth-first reachability over marking keys, execution with bindings, and the conservation laws
  that the vault and the combined template declare.
- **The schema language and vault arithmetic.** Guard and type text that is read back as it was written; ERC-4626
  rounding; overflow checks on 64-bit words.

## How it is arranged

One module per file. `Wrappers`, `Sets`, `Text`, `ModArith` and `MerklePath` hold what several modules share. Code that
the repository runs step by step is a method with loops, or a class whose methods update its fields; what it computes
is stated by functions and predicates, and the theorems are lemmas about those.

A field is the integers modulo a prime `p`, a field element an integer in `[0, p)`. A hash is any function on pairs whose
value is a field element and that sees its inputs modulo `p`; `Mimc.MimcIsFieldHash` shows that MiMC is one. Points, keys
and ciphertexts are elements of the group parameter.

Where code and comment disagree the code is followed: the unfolder's comment says that the separator is doubled on a
collision, the code appends one dot (`public/petri-colors.js:151-162`); the tally circuit's comment promises that
inactive slots are zero, no constraint says so (`prover/tally_gen.go:26-30`); the ERC-20 circuit's 64-bit check of a
difference is described as `amount <= balance`, which it proves only for amounts that cannot wrap around
(`prover/erc020_gen.go:25-29`).

## Properties that fail, with their exact condition

- Expanded names of places and colours can clash. Every net with given colour names is unfolded without a clash if and
  only if the names are distinct and none is, after a prefix that is empty or no colour itself, dots and another one
  (`PetriColors.SafeNamesIff`). The places `a` and `a.b` with the colours `c` and `b.c` clash
  (`PetriColors.ClashingColors`); the colours `r`, `g` and `r.g` never do (`PetriColors.SafeDottedNames`).
- The unfolded net moves the same tokens if and only if no moving arc has an empty weight vector and no moving component
  ends in a transition named like an expanded place (`PetriUnfolding.IncidenceKeptIff`). Whatever the net, the second
  half holds if and only if no transition is called a non-transition, dots and a colour
  (`PetriUnfolding.SafeTransitionsIff`). `PetriUnfolding.EmptyWeightMoves` and `PetriUnfolding.ClashingTransition` are the
  inputs that fail.
- A coloured net and its unfolding enable the same transitions up to colours above capacity that the transition does not
  produce, and up to inhibitors with an empty weight vector, which the unfolder gives weight one; the differences are
  exactly `IdleColorsFit` and `EmptyInhibitorsAllow` (`PetriUnfolding.EnabledExactly`,
  `PetriUnfolding.EnabledWithEmptyInhibitors`). A place with capacities 9 and 1 that holds 0 and 2 tokens fails
  (`PetriUnfolding.IdleColorBlocks`).
- Cycle breaking remembers arcs by the text `source->target` and drops every arc with a remembered text. In every order
  of nodes and arcs only arcs that close a cycle are dropped, if and only if the arcs of one text all close a cycle or none
  does (`Layout.DroppedCloseIff`); ids without `->` suffice (`Layout.PlainNamesAgree`). With the arcs
  from `c` to `a->b` and back, the arc from `a` to `b->c` is dropped and closes no cycle (`Layout.InnocentArcDropped`).
- A search of `canReach` that ends with steps left is right for every target if and only if runs that agree on the
  declared places agree on all others (`Runtime.SearchIsRightIff`), as they do in every validated model
  (`Runtime.ValidModelDecides`). A transition that fills an undeclared place fails
  (`Runtime.UndeclaredTargetIsMissed`).
- `executeWithBindings` compares arcs by joined text. Between place ids without a bar and key names that are not empty and
  hold no comma, equal text means the same place and keys (`Runtime.PlainTextIff`); others are taken for one another
  (`Runtime.ConflatedTexts`), and the model follows the text.
- `getProof` of an index beyond the tree verifies if and only if the leaves below its ancestor at the root level are the
  tree's own or the hash collides at a level below (`MerkleTrees.ProofVerifiesIff`). In the tree of depth one that an
  update at index 2 leaves behind, the proof of index 2 fails (`MerkleTrees.ProofBeyondTheTree`).
- Expanding a state that `setState` made gives back the declared vectors if and only if every declared vector with a zero
  sum is zero throughout (`ColorStates.ExpandOfDeclaredState`), so always when no token is negative
  (`ColorStates.TokensComeBack`). The tokens 1 and -1 are lost (`ColorStates.OpposedTokensAreLost`).
- The 64-bit difference check bounds an amount by the balance exactly for amounts up to `balance + p - 2^64`
  (`LedgerCircuits.SpendCheck`); spending `p - 1` from 0 passes it (`LedgerCircuits.SpendCheckWraps`).
- A ballot's bin, or the creator's opening, satisfies its circuit if and only if the scalar survives its assignment to a
  wire modulo the group order (`PollWitness.BinSatisfiedIff`, `PollWitness.OpeningSatisfiedIff`). The field size does not
  (`PollWitness.FieldSizeRandomnessFails`, `PollWitness.FieldSizeKeyFails`).
- Guard text is read back if and only if none of its string literals holds a quote or a backslash that starts an escape
  (`Parsing.GuardRoundTrip`); the literal of a single escaped quote is not (`Parsing.EscapedQuoteIsLost`).
- Bytes that decode to a point are the encoding of that point except when its x is 0 and the sign flag is set
  (`PointCodec.CanonicalBytes`), as in the bytes of (0, 1) with the flag (`PointCodec.DecodeFlaggedOne`).

## Model

| member | source | states |
|---|---|---|
| FieldRoots.Mod | public/pedersen.js:60-63 | the result lies in [0, m) and is congruent to the argument, also for negative ones |
| FieldRoots.ModPow | public/pedersen.js:65-73 | square-and-multiply returns the residue of the true power for every base and every exponent from 0 on |
| FieldRoots.PowerStep | public/pedersen.js:68-71 | one pass of the loop keeps result times base to the remaining exponent |
| FieldRoots.SqrtFr | public/pedersen.js:78-102 | for every odd prime q 2^s + 1 and any non-residue z: a root in [0, p) exactly when the argument is a square, and nothing otherwise |
| FieldRoots.ReduceOrder | public/pedersen.js:88-101 | the order search finds 1 <= i < M, so its failure return is dead, and the next state has M = i with the loop state intact |
| FieldRoots.InitialState | public/pedersen.js:83-87 | z^q, n^q and n^((q+1)/2) start the loop with R^2 = n t, t of order dividing 2^(s-1) and c of order 2^s |
| FieldRoots.NextState | public/pedersen.js:96-100 | replacing M, c, t and R keeps the loop state |
| FieldRoots.SmallField | public/pedersen.js:45-51 | the assumptions on the parameters can be met |
| Euler.Wilson | public/pedersen.js:78-82 | the product of the units modulo an odd prime is -1 |
| Euler.EulersCriterion | public/pedersen.js:80-82 | the power (p-1)/2 of a unit is 1 if it is a square and -1 if not, which the early exit of the square root tests |
| PointCodec.IsOnCurve | public/pedersen.js:110-117 | the check computed on residues decides the curve equation, for any coordinates |
| PointCodec.NegationFlips | public/pedersen.js:106 | of a non-zero residue and its negative exactly one is largest |
| PointCodec.BigintToLEBytes | public/pedersen.js:164-173 | little-endian bytes whose value is the number, and an error exactly when it is negative or does not fit |
| PointCodec.LEBytesToBigint | public/pedersen.js:175-181 | the little-endian value of a buffer |
| PointCodec.LittleEndianInjective | public/pedersen.js:164-181 | buffers of one length with the same value are equal |
| PointCodec.EncodePoint | public/pedersen.js:183-187 | 32 bytes that carry y below the top bit and the sign of x in it; an error exactly when y does not fit |
| PointCodec.DenominatorNonzero | public/pedersen.js:196-200 | on a complete curve d y^2 + 1 never vanishes, so the division of the decoder is defined |
| PointCodec.HeightEquation | public/pedersen.js:196-201 | x is on the curve at height y exactly when x^2 is the value the decoder computes |
| PointCodec.ChosenRoot | public/pedersen.js:202-204 | the root with the requested sign is the only candidate for x |
| PointCodec.DecodePoint | public/pedersen.js:189-208 | the one point the bytes stand for, an error exactly when there is none; two of the error branches are dead |
| PointCodec.EncodeThenDecode | public/pedersen.js:183-208 | every reduced point of the curve is decoded from its encoding |
| PointCodec.CanonicalBytes | public/pedersen.js:183-208 | bytes that stand for a point are its encoding unless x is 0 and the flag is set |
| PointCodec.DecodeFlaggedOne | public/pedersen.js:183-208 | the bytes of (0, 1) with the flag set decode to (0, 1), whose encoding differs from them |
| PointCodec.SmallCurve | public/pedersen.js:45-51 | the assumptions on the curve can be met |
| PetriSim.CheckInhibitors | public/petri-sim.js:97-162 | true exactly when every inhibitor arc into or out of the transition allows it, colour by colour |
| PetriSim.TotalConsumed | public/petri-sim.js:114-124 | the totals per place and colour over all input arcs, for exactly the places consumed from |
| PetriSim.TotalProduced | public/petri-sim.js:141-168 | the totals per place and colour over all output arcs, for exactly the places produced into |
| PetriSim.CheckCapacities | public/petri-sim.js:170-181 | true exactly when every place produced into stays within capacity in every colour |
| PetriSim.CheckEnabled | public/petri-sim.js:94-184 | decides the enabling condition: inhibitors, aggregated consumption, capacities |
| PetriSim.FireTransition | public/petri-sim.js:194-226 | the drained and filled marking if the transition is enabled, nothing otherwise |
| PetriSim.DrainExact | public/petri-sim.js:204-211 | after any number of input arcs the exact weights are subtracted: the clamp at zero changes nothing |
| PetriSim.FireEquation | public/petri-sim.js:194-226 | every place and colour holds what it held minus the consumed plus the produced tokens |
| PetriSim.StateEquation | public/petri-sim.js:94-226 | a run moves the marking by the incidence matrix times its firing counts |
| PetriSim.OrderIsIrrelevant | public/petri-sim.js:94-226 | two runs with the same firing counts end with the same tokens |
| PetriSim.RunKeepsCapacity | public/petri-sim.js:94-226 | from a marking within capacity every run stays between 0 and the capacity |
| PetriSim.InvariantConserved | public/petri-sim.js:94-226 | every linear form annihilated by the incidence matrix is constant over every run |
| PetriColors.ColorCount | public/petri-colors.js:89-99 | the length of the longest vector of tokens, markings, capacities and weights |
| PetriColors.PickSeparator | public/petri-colors.js:151-162 | the search ends, with the shortest run of dots for which no expanded name is a place |
| PetriColors.SafeNamesInjective | public/petri-colors.js:145-162 | for safe colour names and the separator picked, an expanded name determines its place and colour |
| PetriColors.SafeNamesIff | public/petri-colors.js:145-162 | colour names never clash, in any valid net and with the separator picked there, exactly when they are safe |
| PetriColors.UnsafeNamesClash | public/petri-colors.js:145-162 | for any other colour names a valid net that declares them and clashes |
| PetriColors.ClashingColors | public/petri-colors.js:145-162 | a valid net with places a and a.b and colours c and b.c, for which the separator is one dot and two places share a name |
| PetriColors.SafeDottedNames | public/petri-colors.js:145-162 | r, g and r.g are safe although r.g ends with a dot and g |
| PetriColors.UnfoldAllPlaces | public/petri-colors.js:170-187 | the places are exactly the expanded names, each with its component of tokens and capacity, and the colour map inverts the naming |
| PetriColors.UnfoldAllArcs | public/petri-colors.js:193-210 | one arc for every non-zero weight component within the colours, in order |
| PetriColors.ExpandColors | public/petri-colors.js:141-213 | a net of at most one colour is returned as it is; any other is unfolded with the separator found |
| PetriUnfolding.IncidenceKeptIff | public/petri-colors.js:193-210 | the unfolded net moves the same tokens exactly when no moving arc has an empty weight vector and no moving component ends in a transition named like an expanded place |
| PetriUnfolding.EmptyWeightMoves | public/petri-colors.js:193-200 | an arc without weights consumes nothing in the coloured net and one token in every unfolded one |
| PetriUnfolding.SafeTransitionsIff | public/petri-colors.js:193-210 | no net with these transitions has a moving component that ends in a transition named like an expanded place, exactly when no transition is a non-transition, dots and a colour |
| PetriUnfolding.InitialMarkingsCorrespond | public/petri-colors.js:170-187 | the initial marking of the unfolded net is the projection of the coloured one |
| PetriUnfolding.InhibitorsAgree | public/petri-colors.js:193-210 | inhibitor conditions are preserved colour by colour |
| PetriUnfolding.EnabledExactly | public/petri-colors.js:141-213 | enabled in the coloured net exactly when enabled in the unfolded one and no colour the transition leaves alone is above capacity |
| PetriUnfolding.EnabledWithEmptyInhibitors | public/petri-colors.js:193-200 | inhibitors without weights allowed: the same equivalence up to those inhibitors read with weight one |
| PetriUnfolding.IdleColorBlocks | public/petri-sim.js:170-181 | a marking above capacity in a colour the transition leaves alone: disabled, and enabled in every unfolded net |
| PetriUnfolding.FiringCorresponds | public/petri-colors.js:141-213 | from a marking within capacity both nets enable the same transitions and fire to corresponding markings |
| PetriUnfolding.UnfoldingPreservesRuns | public/petri-colors.js:141-213 | both nets have the same firing sequences, each ending in corresponding markings |
| PetriUnfolding.UnfoldingReadsDefaults | public/petri-colors.js:193-200 | whatever the weights, the unfolded net has the runs of the coloured net with empty weight vectors read as one |
| PetriUnfolding.ExpandedNetIsUnfolding | public/petri-colors.js:141-213 | the output of the unfolder meets the hypotheses of the theorem for every net whose colour and transition names are safe |
| PetriUnfolding.ClashingTransition | public/petri-colors.js:193-210 | a transition named like an expanded place becomes a producer it was not |
| PollNet.MetamodelToPflow | public/bitwrap.js:340-390 | one place per state name with the tokens of its last declaration, one transition per action name in order, one arc of weight one per arc |
| PollNet.PflowIsValid | public/bitwrap.js:340-390 | such a net lists every place and every transition once |
| PollNet.VoteTemplateIsPflow | erc/vote.go:18-60 | the vote schema becomes the template with all places empty |
| PollNet.BuildPoll | public/bitwrap.js:340-525 | schema, net and injected choices together give a poll net |
| PollNet.InjectPollChoices | public/bitwrap.js:395-525 | the template without castVote and tallies, with one vote transition and tally place per choice and the lifecycle gates |
| PollNet.PollInvariants | public/bitwrap.js:395-525 | registry plus tallies, and nullifiers minus tallies, are place invariants for any number of distinct choices |
| PollNet.PollConservation | erc/vote.go:49-59 | in every reachable marking registry plus tallies equals the registrations, nullifiers equal the tallies, and votes never exceed registrations |
| Groups.CyclicIsCurve | prover/pedersen.go:55-64 | the group axioms have a model, whose base has an order above 2^16 |
| Groups.SmallLogs | prover/pedersen.go:192-216 | below the order the base has unique discrete logarithms |
| ElGamal.ScalarMul | public/pedersen.js:143-154 | double-and-add computes the multiple by the scalar reduced modulo the order |
| ElGamal.ScalarIsTrue | public/pedersen.js:143-154 | for points of the subgroup the reduction is invisible |
| ElGamal.Encrypt | prover/pedersen.go:161-172 | the ciphertext of the reduced value under the reduced randomness |
| ElGamal.Aggregate | prover/pedersen.go:176-185 | the component-wise sum of all ciphertexts |
| ElGamal.AggregateEncryptsSum | prover/pedersen.go:176-185 | the aggregate of encryptions is an encryption of the sum of the values |
| ElGamal.SmallLog | prover/pedersen.go:203-215 | the smallest tally within the bound whose multiple of the base is the point, nothing if there is none |
| ElGamal.Decrypt | prover/pedersen.go:192-216 | for any key and any points: the smallest tally within the bound that the ciphertext decrypts to under the reduced key, and an error exactly when there is none |
| ElGamal.ReducedKeyDecrypts | public/pedersen.js:143-154 | for ciphertexts of the subgroup the reduction of the key is invisible |
| ElGamal.PlaintextUnique | prover/pedersen.go:192-216 | below the group order a ciphertext has one plaintext at most |
| ElGamal.EncryptedDecrypts | prover/pedersen.go:161-216 | an encryption under the public key of sk decrypts, by sk, to the encrypted value |
| ElGamal.EncryptThenDecrypt | public/pedersen.js:222-256 | decryption returns every value within the bound that was encrypted |
| Circuit.BooleanIff | prover/vote_homomorphic_gen.go:80-86 | in a field x (1 - x) = 0 forces x to be 0 or 1 |
| Circuit.HasBitsIff | prover/vote_homomorphic_gen.go:88-98 | n boolean wires recompose to x exactly when x is below 2^n |
| Circuit.Api.ToBinary | prover/tally_decrypt_gen.go:80-88 | the decomposition constraint holds exactly for elements below 2^n, and the wires carry the value |
| Circuit.Api.FoldPath | prover/vote_gen.go:27-36 | the Select loop demands boolean indices and computes the fold that the tree verifies |
| HomomorphicTally.OneHot | prover/vote_homomorphic_gen.go:80-86 | the constraints hold exactly when all entries are boolean and sum to one |
| HomomorphicTally.RangeBound | prover/vote_homomorphic_gen.go:88-98 | the constraints hold exactly when MaxChoices and every masked distance fit in four bits |
| HomomorphicTally.ElGamalBinding | prover/vote_homomorphic_gen.go:100-113 | the constraints hold exactly when every bin's ciphertext encrypts its entry under its randomness |
| HomomorphicTally.DefineBallot | prover/vote_homomorphic_gen.go:70-131 | the voter circuit accepts exactly the assignments that satisfy its five groups of constraints |
| HomomorphicTally.SatisfiedBallotIsOneHot | prover/vote_homomorphic_gen.go:80-98 | an accepted ballot marks exactly one bin, below MaxChoices, which is below 16 |
| HomomorphicTally.AggregateBins | public/poll.js:1021-1043 | bin-wise sums over all votes, an error exactly when some vote has not one ciphertext per bin |
| HomomorphicTally.BinAggregate | public/poll.js:1021-1043 | the aggregate of a bin encrypts the number of ballots that mark it |
| HomomorphicTally.ColumnIsBin | public/poll.js:1021-1043 | the sums run over the ciphertexts the ballots carry for that bin |
| HomomorphicTally.DefineOpening | prover/tally_decrypt_gen.go:58-91 | the decrypt circuit accepts exactly the openings with a matching key whose 16-bit tallies are the plaintexts |
| HomomorphicTally.EveryBallotCounts | prover/vote_homomorphic_gen.go:80-98 | the votes of all bins add up to the number of ballots |
| HomomorphicTally.HomomorphicTallyIsCorrect | prover/tally_decrypt_gen.go:58-91 | for fewer ballots than the group order, every accepted tally vector on the aggregates counts each bin's ballots, is zero from MaxChoices on and sums to the number of ballots |
| HomomorphicTally.AggregateAndDecrypt | prover/pedersen.go:176-216 | decrypting the aggregate of a bin returns its count if that is within the bound, and the range error if not |
| TallyCircuit.CountBin | prover/tally_gen.go:100-112 | the counting wire is congruent to the sum of the matching active slots |
| TallyCircuit.TallyProofConstraints | prover/tally_gen.go:78-122 | accepts exactly the assignments that satisfy slot, bin and sum constraints, for any number of slots |
| TallyCircuit.TallyIsSound | prover/tally_gen.go:78-122 | with fewer slots than field elements, tallies and numReveals are the exact counts, and every active slot is opened correctly and lies in a bin |
| TallyCircuit.ExactTallySatisfies | prover/tally_gen.go:78-122 | conversely exact counts over boolean masks, opened slots and 8-bit choices satisfy the circuit |
| Mimc.RoundIsFieldRound | public/mimc.js:122-145 | a round on any representative, negative ones included, is the fifth power on residues |
| Mimc.MimcEncrypt | public/mimc.js:134-145 | congruent to the rounds on residues plus the key, for any round constants |
| Mimc.MimcHash | public/mimc.js:150-158 | the Miyaguchi-Preneel hash of two inputs on residues, in [0, P) |
| Mimc.MimcIsFieldHash | public/mimc.js:122-158 | the hash lies in the field and depends on its inputs modulo P alone |
| MerkleTrees.ComputeZeroHashes | public/merkle.js:12-19 | level by level the root of the all-zero subtree |
| MerkleTrees.BuildSparseLayers | public/merkle.js:21-38 | every stored-or-zero node is the node of the dense tree |
| MerkleTrees.EmptySubtree | public/merkle.js:12-38 | a node above all-zero leaves is the zero hash of its level |
| MerkleTrees.MerkleTree.constructor | public/merkle.js:41-48 | a tree from finished layers is valid, with the dense root |
| MerkleTrees.MerkleTree.FromLeaves | public/merkle.js:51-61 | a valid tree of the leaves, an error exactly when they do not fit |
| MerkleTrees.MerkleTree.GetProof | public/merkle.js:71-88 | the siblings and parities along the path of the leaf, an error exactly for an index outside the leaves |
| MerkleTrees.OffPathUnchanged | public/merkle.js:91-114 | changing one leaf changes the nodes above it alone |
| MerkleTrees.MerkleTree.UpdateLeaf | public/merkle.js:91-114 | recomputing one path leaves the valid tree of the updated, zero-extended leaves |
| MerkleTrees.MerkleTree.UpdateAll | public/merkle.js:91-114 | any sequence of updates leaves the valid tree of the leaves updated in order |
| MerkleTrees.MerkleTree.VerifyProof | public/merkle.js:117-127 | true exactly when the fold of the leaf along the path is the root |
| MerkleTrees.NewDenseLayers | arc/merkle.go:52-79 | all layers of the padded tree, leaves beyond 2^depth cut off |
| MerkleTrees.DenseGetProof | arc/merkle.go:92-118 | the same proof as the sparse tree's, nothing for an index outside the padded leaves |
| MerkleTrees.SparseIsDense | public/merkle.js:21-61 | a valid sparse tree has the dense tree's node at every level and index, and its root |
| MerkleTrees.SameLeavesSameTree | public/merkle.js:91-114 | trees with the same leaves agree node for node, whatever updates produced them |
| MerkleTrees.ProofVerifiesIff | public/merkle.js:71-127 | the proof of an index below 2^depth verifies; beyond, it does exactly when the leaves below the ancestor equal the tree's own level by level or hash alike, so equal leaves suffice and others collide at a level below |
| MerkleTrees.ProofBeyondTheTree | public/merkle.js:91-127 | after an update at index 2 of a tree of depth one the proof of that index fails |
| MerkleTrees.ProofVerifies | arc/merkle.go:92-135 | the proof of every index below 2^depth verifies |
| MerkleTrees.ProofIsSound | public/merkle.js:117-127 | a verifying proof whose indices spell a position shows that leaf, or its path and the tree collide at one of its levels |
| MerkleTrees.BooleanPathIsSound | prover/vote_gen.go:27-36 | every path with boolean indices that leads to the root shows the leaf at the position they spell, below 2^depth, or collides with the tree |
| LedgerCircuits.DefineVoteCast | prover/vote_gen.go:26-52 | accepts exactly membership, nullifier, commitment and the two 8-bit range checks |
| LedgerCircuits.DefineTransfer | prover/erc020_gen.go:25-49 | accepts exactly the 64-bit difference, membership in the pre-state and the recomputed post-state |
| LedgerCircuits.DefineTransferFrom | prover/erc020_gen.go:89-131 | accepts exactly both 64-bit differences, both memberships under the composite root and the post-state |
| LedgerCircuits.DefineBurn | prover/erc020_gen.go:168-189 | accepts exactly the 64-bit difference, membership and the reduced leaf |
| LedgerCircuits.DefineVestClaim | prover/erc05725_gen.go:28-68 | accepts exactly owner equal to caller, the 64-bit availability check, both memberships and the new claimed leaf |
| LedgerCircuits.DifferenceCheck | prover/erc020_gen.go:25-29 | an n-bit check of a field difference admits exactly a true difference below 2^n or one that wraps around |
| LedgerCircuits.CoveredIff | prover/erc020_gen.go:25-29 | the 64-bit check of two field elements holds exactly if the first exceeds the second by 0 to 2^64 - 1 or the second the first by more than p - 2^64 |
| LedgerCircuits.SpendCheck | prover/erc020_gen.go:25-29 | the check proves amount at most balance exactly for amounts that cannot wrap around |
| LedgerCircuits.SpendCheckWraps | prover/erc020_gen.go:25-29 | p - 1 spent from 0 passes the check |
| LedgerCircuits.VoteRangeCheck | prover/vote_gen.go:42-46 | the range constraints hold exactly for choice at most 255 and choice < maxChoices <= choice + 256 |
| Witness.FlattenProof | public/witness-builder.js:25-32 | the first levels of a proof as wire values, an error exactly when it has fewer |
| Witness.AssignedPathLeads | public/witness-builder.js:25-32 | the assigned proof of a leaf satisfies the path constraints against the assigned root, although elements are reduced modulo p |
| Witness.BuildTransfer | public/witness-builder.js:41-75 | fields and errors; with the sender's leaf in the tree the circuit is satisfied exactly if the balance exceeds the amount by 0 to 2^64 - 1 as residues, or the difference wraps around |
| Witness.BuildBurn | public/witness-builder.js:105-128 | fields and errors; satisfied exactly if the balance covers the amount in the same sense |
| Witness.BuildTransferFrom | public/witness-builder.js:154-198 | fields and errors; satisfied exactly if balance and allowance both cover the amount in the same sense |
| Witness.BuildVoteCast | public/witness-builder.js:207-238 | fields and errors; satisfied exactly for choice at most 255 and choice < maxChoices <= choice + 256 |
| Witness.BuildVestClaim | public/witness-builder.js:439-477 | fields and errors; satisfied exactly if owner is caller and what is vested and not yet claimed covers the claim in the same sense |
| Witness.SmallValuesCovered | public/witness-builder.js:41-75 | between values below 2^64 covering is the plain order |
| PollWitness.BuildBallot | public/witness-builder.js:276-358 | one-hot bins and errors; satisfied exactly if the randomness survives its assignment modulo the group order |
| PollWitness.BinSatisfiedIff | public/witness-builder.js:300-330 | a bin satisfies its ElGamal constraint exactly if its wire holds the same scalar modulo the order |
| PollWitness.FieldSizeRandomnessFails | public/witness-builder.js:300-330 | with the field size as randomness no bin satisfies its constraint, whatever it encrypts |
| PollWitness.SmallRandomnessFits | public/witness-builder.js:300-330 | derived scalars, and supplied ones below the field size, always do |
| PollWitness.BallotSatisfiedIff | prover/vote_homomorphic_gen.go:70-131 | a built ballot satisfies all groups of constraints exactly if the randomness fits |
| PollWitness.DecryptToBigInt | public/witness-builder.js:426-436 | finds a tally exactly when there is one up to the bound, a negative bound still admitting zero |
| PollWitness.BuildOpening | public/witness-builder.js:372-422 | errors for bin count, undecryptable bins and tallies out of range; satisfied exactly if the key survives its assignment and the tallies are the plaintexts |
| PollWitness.OpeningSatisfiedIff | prover/tally_decrypt_gen.go:58-91 | an opening with given tallies satisfies the decrypt circuit exactly under these two conditions |
| PollWitness.FieldSizeKeyFails | public/witness-builder.js:372-422 | with the field size as the key no opening satisfies the circuit, whatever the aggregates and tallies |
| Layout.BuildGraph | public/petri-view.js:5936-5948 | adjacency lists of exactly the arcs between known nodes |
| Layout.Search.Visit | public/petri-view.js:5954-5962 | the recursive search over fields ends in the visited nodes and remembered texts of the search over values, leaves the stack as it was and keeps the finish order |
| Layout.BreakCycles | public/petri-view.js:5950-5965 | each remembered text is that of some arc that closes a cycle; if the arcs of one text all close a cycle or none does, only such arcs are dropped; along kept arcs finish times decrease, so these have no cycle |
| Layout.DroppedCloseIff | public/petri-view.js:5950-5992 | in every order of nodes and arcs only arcs that close a cycle are dropped, exactly when the arcs of one text all close a cycle or none does |
| Layout.SomeOrderRemembers | public/petri-view.js:5950-5965 | every arc that closes a cycle is remembered in some order of nodes and arcs |
| Layout.PlainNamesAgree | public/petri-view.js:5960 | ids without -> are enough for that |
| Layout.InnocentArcDropped | public/petri-view.js:5950-5992 | a net in which an arc that closes no cycle is dropped |
| Layout.AcyclicNetKeepsAll | public/petri-view.js:5950-5965 | an acyclic net loses no arc |
| Layout.RelaxAll | public/petri-view.js:5976-5989 | one round keeps levels attained by paths, and uses up slack if anything changed |
| Layout.AssignLevels | public/petri-view.js:5967-5992 | the relaxation ends; every level is the length of the longest kept path from a source, kept arcs go up in level, and no node needs the fallback |
| Layout.GroupByLevel | public/petri-view.js:5994-6001 | the layers partition the nodes by level, each in node order |
| Layout.ComputeBarycenter | public/petri-view.js:6014-6041 | the mean position of the kept neighbours on the adjacent level, or the own position |
| Layout.SortLayer | public/petri-view.js:6025-6043 | the layer strictly sorted by barycenter, ties in their order |
| Layout.SortedUnique | public/petri-view.js:6025-6043 | there is only one such arrangement |
| Layout.ReorderLayer | public/petri-view.js:6011-6045 | one layer sorted by the barycenters of the positions before, nothing else moved |
| Layout.MinimizeCrossings | public/petri-view.js:6003-6046 | exactly four passes of a downward and an upward sweep, over which the layers stay a partition by level |
| Layout.SweptUnique | public/petri-view.js:6003-6046 | the sweeps determine the layers they end in |
| Layout.View.AssignCoordinates | public/petri-view.js:6048-6069 | every node gets the spot of its index in its layer |
| Layout.View.NormalizeNodePositions | public/petri-view.js:5892-5922 | one shift of everything, after which no coordinate is below the margin and a shifted axis touches it |
| Layout.View.ApplySugiyamaLayout | public/petri-view.js:5924-6074 | the remembered texts are those of the search, and dropped arcs close cycles if the arcs of one text all do or none does; nodes stand on the line of their longest path, kept arcs lead at least 150 down, positions are pairwise different and at least 100 |
| Runtime.State.constructor | public/state.js:9-23 | scalar places hold their initial tokens, map places start empty |
| Runtime.State.Clone | public/state.js:25-34 | a fresh state with the same content |
| Runtime.State.IsEnabled | public/state.js:52-65 | true exactly when every scalar input place holds a token |
| Runtime.State.EnabledTransitions | public/state.js:67-71 | exactly the enabled transitions of the model |
| Runtime.State.Fire | public/state.js:75-95 | the scalar tokens after the arcs and one more step, or an error that changes nothing |
| Runtime.State.ExecuteWithBindings | public/state.js:99-146 | tokens and maps after all arcs but read arcs, told by their joined text, or an error that changes nothing |
| Runtime.PlainTextIff | public/state.js:107-122 | without bars in ids and without commas or emptiness in key names, joined texts are equal exactly for the same place and keys |
| Runtime.ConflatedTexts | public/state.js:107-122 | other ids or key names give different arcs one text |
| Runtime.State.MatchesMarking | public/state.js:220-225 | the loop over the target's entries answers true exactly when every targeted place holds the target |
| Runtime.KeyIsInjective | public/state.js:214-218 | markings with the same key agree on every place, whatever the place ids are |
| Runtime.KeyIsFunction | public/state.js:214-218 | markings that agree on every place have the same key |
| Runtime.SearchIsReached | public/state.js:149-171 | every marking the search sees is reached, and no two agree on the declared places |
| Runtime.SearchIsComplete | public/state.js:149-171 | a search that ends with steps left has seen, for every run, a marking that agrees with its end on the declared places |
| Runtime.Exhausted | public/state.js:149-171 | such a search has found every reachable target on declared places |
| Runtime.SearchIsRightIff | public/state.js:149-225 | its answer is right for every target exactly when runs that agree on the declared places agree on all |
| Runtime.State.CanReach | public/state.js:149-171 | true exactly if the breadth-first search sees a match; true only with a firing sequence to one, and false with steps left excludes every one on declared places |
| Runtime.ValidModelDecides | public/model.js:61-90 | in a validated model no firing changes an undeclared place, so the search is right for every target |
| Runtime.ValidatedTargets | public/model.js:61-90 | in a validated model every target speaks of declared places or of places no run changes |
| Runtime.UndeclaredTargetIsMissed | public/state.js:149-225 | a model and target for which the search answers false with steps left although a firing reaches a match |
| DataMaps.TotalAfter | public/state.js:182-208 | changing one entry changes the total of a map place by the same amount |
| DataMaps.RowAfter | public/state.js:182-208 | changing one nested entry changes the total of its row alone |
| Ledger.ExecutionMoves | public/state.js:99-146 | an execution changes a measured total by an amount that depends on action and bindings alone |
| Ledger.GapsAddUp | public/state.js:99-146 | over a run two totals drift apart by exactly the sum of the calls' gaps |
| Ledger.VaultConservation | erc/erc04626.go:30-46 | over every run share balances sum to the total shares, and asset balances plus total assets change by harvested yield alone |
| Ledger.CombinedConservation | erc/combined.go:53-116 | over every run vault shares sum to their total, and for every id token balances sum to the supply |
| Solver.ComputeFlux | public/petri-solver.js:210-230 | the mass-action product, or zero when it is not positive |
| Solver.ApplyFlux | public/petri-solver.js:232-245 | adds the flux times the incidence to every place |
| Solver.Derivative | public/petri-solver.js:199-250 | the right-hand side: incidence times fluxes |
| Solver.InvariantAnnihilates | public/petri-solver.js:199-250 | every place invariant of the incidence matrix is annihilated by the right-hand side at every state |
| Solver.Step | public/petri-solver.js:447-472 | all stages by the tableau, and a next state with the same value of every invariant |
| Solver.EstimateError | public/petri-solver.js:474-485 | the largest scaled difference of the two embedded solutions |
| Solver.RejectBurnsFuel | public/petri-solver.js:501-505 | every rejection brings the step size a fixed factor closer to its minimum |
| Solver.Solve | public/petri-solver.js:417-509 | the loop ends; times strictly increase and never pass tf, each state is an accepted step from the one before, all invariants stay constant, and tf is reached unless maxiters is used up |
| ColorStates.TokenCount | public/petri-solver.js:28-30 | the sum of the declared tokens |
| ColorStates.SetState | public/petri-solver.js:160-171 | every place with its custom or declared total |
| ColorStates.ExpandState | public/petri-colors.js:233-262 | every multi-colour entry split over its expanded names, every other passed through |
| ColorStates.ExpandIsIdempotent | public/petri-colors.js:233-262 | expanding an expanded state changes nothing |
| ColorStates.ExpandOfDeclaredState | public/petri-colors.js:233-262 | expanding the declared totals gives the declared vectors exactly when every vector with a zero sum is zero |
| ColorStates.TokensComeBack | public/petri-colors.js:233-262 | expanding the declared totals gives the declared vectors whenever no token is negative |
| ColorStates.OpposedTokensAreLost | public/petri-colors.js:233-262 | the declared tokens 1 and -1 come back as 0 and 0 |
| ColorStates.SumByBase | public/petri-colors.js:72-80 | the sum over all entries of each base place |
| ColorStates.SumOfExpanded | public/petri-colors.js:72-80 | summing an expanded state by base gives back the state |
| Lexing.Lexer.SkipWhitespace | dsl/lexer.go:190-216 | leaves the rest after spaces and comments |
| Lexing.Lexer.ReadStringToken | dsl/lexer.go:314-346 | the literal with its escapes resolved, nothing if it is not closed |
| Lexing.Lexer.ReadNumber | dsl/lexer.go:348-355 | the longest run of digits |
| Lexing.Lexer.ReadIdent | dsl/lexer.go:357-369 | the longest run of identifier characters, as a keyword if it is one |
| Lexing.Lexer.Next | dsl/lexer.go:218-312 | the first token after space, or nothing at a lexical error |
| Lexing.Lexer.Tokenize | dsl/lexer.go:157-169 | all tokens of the text, nothing exactly when it has a lexical error |
| Lexing.LexedAreLexemes | dsl/lexer.go:157-312 | what the lexer produces before the end of file are well-formed tokens |
| Lexing.ReadBack | dsl/lexer.go:314-346 | a literal written without escapes is read back, with what follows it, exactly when it survives |
| Lexing.ValueReadBack | dsl/lexer.go:314-346 | a literal that does not survive is never read back with its own value |
| Lexing.RetokenizedIff | dsl/lexer.go:157-312 | tokens written out with spaces are read back exactly when all their literals survive |
| Parsing.Parser.ParseRequireExpr | dsl/parser.go:393-459 | the text of the tokens up to the matching parenthesis, an error exactly without an opening one |
| Parsing.Parser.ParseTypeString | dsl/parser.go:212-258 | the canonical text of the parsed keys and value, or the error |
| Parsing.GuardRoundTrip | dsl/parser.go:393-459 | retokenizing guard text gives back its tokens exactly when its string literals survive |
| Parsing.PlainLiteralsSurvive | dsl/parser.go:423-424 | literals without quotes and backslashes survive |
| Parsing.EscapedQuoteIsLost | dsl/parser.go:423-424 | the literal of an escaped quote has a quote as its value, which written without escapes ends at once and leaves a quote behind |
| Parsing.TypeRoundTrip | dsl/parser.go:212-258 | canonical type text is read back to the same keys and value, and its map depth is the number of keys |
| Parsing.ComputeMapKeyDepth | dsl/builder.go:246-258 | the number of map prefixes |
| Parsing.DepthOfCanonical | dsl/builder.go:246-258 | the depth of canonical text is the number of its keys, nested or comma-separated in the source |
| Parsing.ScalarHasNoKeys | dsl/builder.go:359-361 | a type is scalar exactly when it has no keys |
| VaultMath.RoundTripLoss | public/safemath.js:60-84 | assets to shares to assets never gains, and loses less than one share price plus one |
| VaultMath.OrderKeepsPrice | public/safemath.js:68-84 | a deposit or redemption with shares outstanding does not lower the share price |
| VaultMath.PriceNeverFalls | public/safemath.js:68-84 | over any run of them the share price never falls |
| VaultMath.SafeAdd64 | arc/safemath.go:42-48 | overflow is reported exactly when the true sum does not fit in 64 bits |
| VaultMath.SafeMul64 | arc/safemath.go:79-88 | overflow is reported exactly when the true product does not fit |
| VaultMath.WrappedProduct | arc/safemath.go:79-88 | dividing a wrapped product by a factor gives the other one exactly when nothing wrapped |
| VaultMath.MulDiv64 | arc/safemath.go:131-150 | division by zero and overflow are reported exactly, and the quotient is that of the full product |

## Left out

- PetriSim.FireTransition: takes weights and capacities as vectors of naturals; scalar and missing ones, which the source normalizes first, are their one-element and default forms.
- PetriColors.ExpandColors: keeps the insertion order of places; positions, labels and other fields that only the editor reads are not modelled.
- PollNet.MetamodelToPflow: keeps declaration order for every key, also for names that are numerals, which a JavaScript object would list first; positions, keys and values of arcs are not modelled.
- HomomorphicTally.AggregateBins: takes decoded points; the hexadecimal text of the stored ciphertexts is not modelled.
- HomomorphicTally.HomomorphicTallyIsCorrect: takes a group order of at least 2^16, as the tallies of the decrypt circuit have 16 bits; the order of the real subgroup has 251.
- MerkleTrees.ProofIsSound: no hash into a finite field is injective on pairs, so instead of assuming injectivity the lemma names the collision that a wrong proof would exhibit.
- Parsing.Parser.ParseTypeString: the list of token lines is kept by the lexer alone; error messages are error cases.
- Solver.Solve: arithmetic is exact, over the reals; rounding is not modelled, and neither are a minimal step or tolerance of zero or below, which the source does not refuse.
- Runtime.State.ExecuteWithBindings: binding keys are text and amounts are integers, read from two dictionaries; a numeric key 0 is not modelled.
- VaultMath.MulDiv64: the general 256-bit MulDiv, whose overflow flag is discarded, is not modelled.
- Layout.SortLayer: the engine's stable sort is represented by insertion sort; their results agree because the sorted layer is unique.
- The addition formulas of the curve, the derivation of the second generator and any hardness assumption.
- A concrete 254-bit prime: the field is any prime above 2^128, and no primality certificate is given.
- fungibleConservation of the combined template: the arcs of totalSupply carry no value and move one token while balances move an amount.
- Non-negativity in the token runtime, whose enabling check ignores weights.
- The mint and approve builders, which have no tree, and the order in which builders with two trees report two errors.
- The rest of the schema parser, guards and their evaluation; the Unicode tables are parameters of the lexer.
- Proof generation and verification, keys on disk, the server, the wallet, the editor beyond its layout, and plotting.
