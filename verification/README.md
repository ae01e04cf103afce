# A verified model of the Tendermint ZK light client

The repository is an IBC light client for Tendermint chains that lives on an EVM chain. A contract
stores block headers; each new header comes with a zero-knowledge proof that it follows from a
stored one, and anybody can then ask whether the chain's state has an entry or lacks it. A relayer
written in Go builds the messages. This project models four parts of it and proves what they are for.

1. **Merkle proofs** (`TreeVerifier`, `ProofFormat`, `IavlTree`, `IavlSoundness`, `IavlCompleteness`,
   `NonMembership`, `SimpleTree`, `AppState`). The ICS-23 verifier is judged against explicit trees: an
   IAVL tree per store, a simple tree of store roots. Accepted proofs are true, and which true
   facts have accepted proofs, and when the neighbour search succeeds, is stated exactly.
2. **The light client** (`LightClient`, `LightClientSafety`, `LightClientRuns`, `StateQueries`, with
   `TendermintHeader`, `RelayerTree`, `HeaderFields`, `Relayer`). The contract is a class over its two
   mappings, and its calls are steps of runs. Over every run everything stored is the chain's own, the heights are in
   order, updates commute and repeat harmlessly, and accepted answers are true of the chain. The
   relayer's header proof gives the RFC 6962 tree hash, and its update is accepted exactly when the
   verifier takes its proof and its numbers survive their transport.
3. **Field arithmetic and point compression** (`Arithmetic`, `Modular`, `Squares`, `FieldArithmetic`,
   `SquareRoots2`, `PointCompression`, `Bn254`). Over any prime that leaves 3 when divided by 4: Fermat's
   theorem and Euler's criterion are proved, then when inversions and square roots succeed, which hint
   `sqrt_Fp2` needs and which root it gives, what the code of a point is, and that compression and
   decompression undo each other.
4. **The protobuf codec** (`ProtoWire`, `ProtoParse`, `ParseFailures`, `UnknownFields`, `Messages`,
   `WireCodec`, `MessageCodec`, `WireFormat`). The generated Go code is modelled with its arrays, indices
   and 64-bit wrap-around: a buffer filled from back to front, a parser, a skipper of unknown fields. Parsing is a fold over
   records, undoes marshalling, and ignores well-formed unknown fields, nested groups included.

`Bytes`, `Varint`, `LexOrder` and `BigEndian` hold what the parts share.

## Conventions

- SHA-256 is a parameter `H`, any function from byte strings to 32 bytes. It cannot be injective, so
  every theorem that needs it assumes only that `H` has no collision within a finite set of strings: the
  ones hashed to build the trees or headers and the ones the verifier hashes.
- A keccak256 comparison is byte equality. The modular exponentiation precompile is `Pow(a, e) % p`.
- `ProtoBufRuntime` is not part of this model: it is taken to write canonical varints, to read values
  modulo 2^256, and to fail when it reads past the end.
- A Solidity revert, also one for an index or an underflow, is `Revert(reason)` and undoes the call.
  Custom errors keep their names.
- The zero-knowledge verifier is a predicate `accepts` on proof bytes and public inputs. Safety assumes
  that what it accepts proves a true step or skip claim whose public inputs these are, and that the
  hashes cut to 253 bits do not collide on the strings in play.
- `block.timestamp`, the stored timestamp and the trusting period are compared as plain integers, as the
  contract does at line 100, although the first counts seconds and the second nanoseconds.
- Where a loop of the source computes a value, a method with that loop is proved equal to a function, and
  the theorems are about the function. Formats and orders that several parts use are also stated on
  literal bytes, without those functions.

## Where the code and its comments differ

- `Groth16Verifier.sol:178,183` says that a failing inner square root means that there is no root in Fp2.
  Every real input has a root (`SquareRoots2.RealIsSquare`), and for those that are zero or no square in
  Fp every hint fails; `SquareRoots2.FindsRootExactly` shows that these are exactly the inputs where the
  comment fails, `SquareRoots2.MinusOneNotFound` is one of them.
- `Groth16Verifier.sol:347` says that `y0` may be zero. Such points exist, and both directions reject them: `Bn254.ImaginaryYRejected` is one,
  `PointCompression.CompressG2Accepts` and `PointCompression.DecompressG2Accepts` give the accepted points
  and codes exactly.
- `HexBigInt.Bytes` drops leading zeros and `bytes32()` pads on the right, so a public input arrives
  intact exactly when it is zero or its top byte is not (`BigEndian.MinBytesAsBytes32`), and the relayer's
  message is accepted exactly when this holds of all three (`Relayer.RelayerAgreement`). With a nonzero
  step digest that starts with a zero byte no step message is accepted (`Relayer.LeadingZeroRejected`).
- The verifier limits the prefix of an IAVL operation to 45 bytes. The step from a left child carries only
  the header and a length byte, so it takes headers of up to 44 bytes; the step from a right child carries
  the left sibling too and takes 11. A leaf has an accepted proof exactly when the steps of its path fit
  (`IavlCompleteness.MembershipComplete`), so all leaves have one exactly when no inner header exceeds 11
  bytes (`IavlCompleteness.AllLeavesProvable`); `IavlCompleteness.TwelveByteHeader` is a tree where one has
  not. The padding test takes headers of up to 11 bytes on both sides; which gaps are provable is
  `NonMembership.NonMembershipComplete`. A leaf with the empty key is taken for a missing neighbour.
- An inner prefix of a simple tree proof is limited only by its length, so soundness needs store names
  under 30 bytes; `SimpleTree.SoundnessFailsAt30` shows that it fails at 30 without any collision.

## Model

| member | source | states |
|---|---|---|
| LexOrder.BytesCompare | contracts/TendermintTreeVerifier.sol:201-219 | negative exactly when, behind a common prefix, the first string ends or has the smaller byte; positive exactly in the mirrored case; zero exactly on equality |
| LexOrder.BeforeByFirstDifference | contracts/TendermintTreeVerifier.sol:201-219 | the key order is decided at the first difference: a common prefix, then the end of the first string or a smaller byte in it |
| LexOrder.BeforeTrichotomy | contracts/TendermintTreeVerifier.sol:201-219 | of two distinct keys exactly one comes before the other |
| LexOrder.BeforeTransitive | contracts/TendermintTreeVerifier.sol:201-219 | the key order is transitive |
| Varint.DecodeEncode | contracts/TendermintTreeVerifier.sol:275-280 | decoding a varint encoding gives the number and consumes every byte |
| Varint.EncodeByte | contracts/TendermintTreeVerifier.sol:275-280 | byte k of an encoding is the k-th group of seven bits, least significant first, with the top bit on all bytes but the last |
| Varint.Encode300 | contracts/TendermintTreeVerifier.sol:275-280 | 300 is encoded as the encoding guide shows |
| Varint.EndExact | go/relay/TendermintZKLightClient.pb.go:912-926 | a varint ends behind its first byte without the top bit |
| Varint.ValueAppend | go/relay/TendermintZKLightClient.pb.go:912-926 | the value is the sum of the groups, the group at distance k times 128^k |
| Varint.EncodeInjective | contracts/TendermintTreeVerifier.sol:275-286 | a length prefix cannot be confused with what follows: equal strings have equal numbers and equal rests |
| TreeVerifier.ValidateIAVLOps | contracts/TendermintTreeVerifier.sol:339-366 | the loop accepts exactly three varints, the first at least the bound, followed by 0 bytes (leaf) or 1 or 34 bytes (inner) |
| ProofFormat.ValidateIAVLOpsExact | contracts/TendermintTreeVerifier.sol:339-366 | any three varints and a rest pass exactly when the first, modulo 2^256, is at least the bound and the rest has 0 bytes for bound 0, 1 or 34 otherwise; else InvalidIAVLOp |
| ProofFormat.UnfinishedVarints | contracts/TendermintTreeVerifier.sol:342-349 | a string that ends inside a varint is refused |
| ProofFormat.LeafString | contracts/TendermintTreeVerifier.sol:318-319 | the string of a leaf for every prefix: prefix, length of the key, key, 0x20, hash of the value |
| ProofFormat.IAVLProofAccepted | contracts/TendermintTreeVerifier.sol:308-335 | an IAVL proof leads to a root exactly when its leaf prefix is a leaf header and every operation i has a prefix of 4 to 45 bytes that validates for i + 1 and a suffix of whole children |
| ProofFormat.SimpleProofAccepted | contracts/TendermintTreeVerifier.sol:247-271 | a simple tree proof leads to a root exactly when its prefix is the zero byte and every operation has a prefix of 1 to 33 bytes and a suffix of whole children; all others revert with one error |
| ProofFormat.AbsenceProofAccepted | contracts/TendermintTreeVerifier.sol:48-87 | an absence proof leads to a root exactly when both sides are IAVL proofs, one has a key, the target is between them, every given one leads to that root, and they are adjacent |
| ProofFormat.RootValue | contracts/TendermintTreeVerifier.sol:318-334 | the root is the hash of the leaf string, then of prefix, child hash and suffix for one operation after the other, in both trees |
| ProofFormat.RefusedOperation | contracts/TendermintTreeVerifier.sol:321-330 | a prefix or suffix of a wrong length reverts with its own error, whatever follows |
| ProofFormat.PaddingLengths | contracts/TendermintTreeVerifier.sol:139-173 | a left child has a prefix of 4 to 12 bytes and a suffix of 33, a right child a prefix of 37 to 45 and no suffix |
| ProofFormat.LeftStepExact | contracts/TendermintTreeVerifier.sol:175-187 | two operations step from left to right exactly when they have these lengths in this order; other lengths revert |
| ProofFormat.NeighborsParted | contracts/TendermintTreeVerifier.sol:116-137 | on any two paths that part below a common top: the parting operations must step right, the rest of the left path be right steps and of the right path left steps |
| ProofFormat.NeighborsExhausted | contracts/TendermintTreeVerifier.sol:123-126 | when one path is the upper end of the other the search underflows |
| TreeVerifier.VerifyMembershipIAVLSpec | contracts/TendermintTreeVerifier.sol:308-335 | the loop computes the fold of the path over the leaf hash, or reverts with the reason of the first bad operation |
| TreeVerifier.VerifyMembershipTendermintSpec | contracts/TendermintTreeVerifier.sol:241-273 | the same for the simple tree |
| TreeVerifier.IsLeftMostIAVL | contracts/TendermintTreeVerifier.sol:89-100 | true exactly when every operation has the lengths of a left child |
| TreeVerifier.IsRightMostIAVL | contracts/TendermintTreeVerifier.sol:102-114 | true exactly when every operation has the lengths of a right child |
| TreeVerifier.IsLeftNeighborIAVL | contracts/TendermintTreeVerifier.sol:116-137 | the downward search terminates (measure `leftIdx`) and decides the recursive neighbour relation; running out of operations panics |
| TreeVerifier.EnsureKeysInValidRange | contracts/TendermintTreeVerifier.sol:189-199 | passes exactly when the target is strictly between the neighbours that are given |
| TreeVerifier.VerifyNonMembershipIAVL | contracts/TendermintTreeVerifier.sol:48-87 | the method with its local root and flags computes the specified root or revert reason |
| IavlTree.HeaderUnique | contracts/TendermintTreeVerifier.sol:339-349 | unique parsing: equal strings that start with three varints share those three varints |
| IavlTree.OpPadding | contracts/TendermintTreeVerifier.sol:139-173 | the padding test recognizes the side of an honest operation exactly when the header has at most 11 bytes |
| IavlSoundness.LeafStep | contracts/TendermintTreeVerifier.sol:308-319 | an accepted leaf string equal to a node's string makes the node that leaf (leaf and inner nodes are separated) |
| IavlSoundness.OpStep | contracts/TendermintTreeVerifier.sol:321-333 | an accepted operation over a node's string is one of the node's two honest operations on the hash of that child |
| IavlSoundness.ProofIsHonest | contracts/TendermintTreeVerifier.sol:308-335 | position binding: an accepted proof for the root of a tree is, byte for byte, the honest proof of a leaf |
| IavlSoundness.MembershipSound | contracts/TendermintTreeVerifier.sol:308-335 | soundness of existence proofs: the tree maps the key to the value |
| IavlCompleteness.MembershipComplete | contracts/TendermintTreeVerifier.sol:308-335 | completeness, exactly: the honest proof of a leaf leads to the root if every left step on its path has a header of at most 44 bytes and every right step one of at most 11, and reverts otherwise |
| IavlCompleteness.AllLeavesProvable | contracts/TendermintTreeVerifier.sol:308-335 | every leaf has an accepted proof exactly when no inner header exceeds 11 bytes |
| IavlCompleteness.TwelveByteHeader | contracts/TendermintTreeVerifier.sol:322-327 | a well-formed 12-byte header: the proof of the left leaf is accepted, that of the right leaf reverts |
| IavlCompleteness.LeftMostExact | contracts/TendermintTreeVerifier.sol:89-100 | left padding all the way exactly on the first leaf's path when its headers have at most 11 bytes |
| IavlCompleteness.RightMostExact | contracts/TendermintTreeVerifier.sol:102-114 | right padding all the way exactly on the last leaf's path when its headers have at most 11 bytes |
| IavlCompleteness.NeighborExact | contracts/TendermintTreeVerifier.sol:116-187 | for any two leaves and any headers: the test panics on one leaf and itself, reverts where the fork has a long header, and otherwise accepts exactly the direct successors with short headers below the fork |
| IavlCompleteness.NeighborOfShortHeaders | contracts/TendermintTreeVerifier.sol:116-187 | with headers of at most 11 bytes the test never reverts on distinct leaves and accepts exactly the direct successors |
| NonMembership.BetweenIsAbsent | contracts/TendermintTreeVerifier.sol:189-199 | what lies strictly between consecutive keys of a sorted tree is not a key |
| NonMembership.NonMembershipSound | contracts/TendermintTreeVerifier.sol:48-137 | soundness of absence proofs: accepted for the root of a sorted tree, the key is not in the tree |
| NonMembership.NonMembershipComplete | contracts/TendermintTreeVerifier.sol:48-137 | completeness, exactly: the honest proof of any absent key of a sorted tree returns the root if the gap is provable (the steps of both neighbours fit, short headers below their fork or all the way to the first leaf, no empty left key), and reverts otherwise |
| NonMembership.ShortHeadersProvable | contracts/TendermintTreeVerifier.sol:48-137 | with headers of at most 11 bytes and no empty key every gap is provable |
| SimpleTree.NodeStep | contracts/TendermintTreeVerifier.sol:257-271 | an accepted operation over an inner node's string takes the hash of one of its children |
| SimpleTree.MembershipSound | contracts/TendermintTreeVerifier.sol:241-273 | an accepted proof proves a mapping of the simple tree, for names under 30 bytes |
| SimpleTree.NameBoundIsSharp | contracts/TendermintTreeVerifier.sol:257-271 | with a 30-byte name a one-operation proof of another mapping leads to the root, for any root and any hash with a digest of the right shape |
| SimpleTree.SoundnessFailsAt30 | contracts/TendermintTreeVerifier.sol:257-271 | a hash function, a tree with a 30-byte name and an accepted proof of another mapping, with no collision among the strings hashed |
| SimpleTree.MembershipComplete | contracts/TendermintTreeVerifier.sol:241-273 | every mapping of the simple tree has an accepted proof |
| AppState.MembershipSound | contracts/TendermintZKLightClient.sol:200-208 | two-layer soundness: an app hash reached by a membership proof means that store `prefix` maps `path` to `value` |
| AppState.AbsenceSound | contracts/TendermintZKLightClient.sol:224-232 | two-layer soundness of absence: store `prefix` exists and lacks the key |
| AppState.StateComplete | contracts/TendermintZKLightClient.sol:200-232 | of every store exactly the entries and gaps whose headers fit have honest proofs that lead to the app hash; the others revert |
| TendermintHeader.CdcEncode | contracts/TendermintHeader.sol:62-74 | the buffer written through the pointer is 0x0a, 0x20 and the 32 bytes, the protobuf encoding of them as field 1 |
| TendermintHeader.TimestampBytesInjective | contracts/TendermintHeader.sol:15-19 | splitting nanoseconds, omitting zero fields and varints lose nothing |
| ProtoWire.EncodeTimestampInjective | go/relay/TendermintZKLightClient.pb.go:443-459 | two timestamps with the same encoding are equal, negative fields included |
| TendermintHeader.HeaderBinding | contracts/TendermintHeader.sol:10-25 | the same block hash from two inputs means the same timestamp, app hash and sibling hashes |
| RelayerTree.HeaderToLeaves | go/relay/tree.go:34-75 | the in-place loop turns each of the 14 encoded fields into its leaf hash; nil for no header and for one without validators |
| HeaderFields.FieldsReadBack | go/relay/tree.go:54-69 | each of the 14 encoded fields, parsed as a wrapper message or timestamp, gives the field of the header that belongs at its place |
| HeaderFields.TimeReadBack | contracts/TendermintHeader.sol:15-19 | the encoded time has seconds and nanoseconds below 10^9 that add up to it |
| RelayerTree.GetSimpleTreeProof | go/relay/tree.go:17-21 | there is a proof exactly for headers with validators, and it has six siblings |
| RelayerTree.SimpleTreeProofCorrect | go/relay/tree.go:17-32 | the relayer's six siblings make the contract compute the RFC 6962 section 2.1 tree hash of the 14 fields, which is defined on its own strings 0x00, leaf and 0x01, left, right |
| LightClient.TendermintZKLightClient.constructor | contracts/TendermintZKLightClient.sol:26-31 | a new contract has empty mappings |
| LightClient.TendermintZKLightClient.InitializeClient | contracts/TendermintZKLightClient.sol:33-83 | writes exactly one consensus state and one client state, or reverts without a write; the first failing check gives the reason |
| LightClient.TendermintZKLightClient.UpdateClient | contracts/groth16/TendermintZKLightClientGroth16.sol:24-31 | the proof is checked before the update |
| LightClient.TendermintZKLightClient.UpdateState | contracts/TendermintZKLightClient.sol:85-156 | writes the new consensus state and raises the latest height, or reverts without a write |
| LightClient.TendermintZKLightClient.Membership | contracts/TendermintZKLightClient.sol:183-210 | answers from the stored app hash of the height, or reverts |
| LightClient.TendermintZKLightClient.NonMembership | contracts/TendermintZKLightClient.sol:212-234 | the same for absence, with the proven keys tied to the asked ones |
| LightClientSafety.InputsExact | contracts/TendermintZKLightClient.sol:104-135 | the public input checks accept exactly the public inputs of the claim the message makes about the stored block |
| LightClientSafety.InputsLiteral | contracts/TendermintZKLightClient.sol:104-135 | the input checks on literal strings: eight bytes of the trusted height and the trusted hash, for a skip eight bytes of the new height too, hashed and cut to 253 bits |
| LightClientSafety.StringsReadBack | contracts/TendermintZKLightClient.sol:111-126 | the step string has 40 bytes, the skip string 48, and heights and hash are read back from their places, big-endian |
| LightClientSafety.ClaimDetermined | contracts/TendermintZKLightClient.sol:109-129 | step and skip strings determine the claim: heights, trusted hash and kind |
| LightClientSafety.InitializeExact | contracts/TendermintZKLightClient.sol:33-72 | an initialization is accepted exactly when the handler sends it, both verifier digests are the big-endian bytes of the contract's, and period, heights, hashes and timestamp are well-formed |
| LightClientSafety.InitializeReason | contracts/TendermintZKLightClient.sol:38-72 | which error a refused initialization reverts with, by its first failing check |
| LightClientSafety.UpdateExact | contracts/TendermintZKLightClient.sol:85-156 | an update is accepted exactly when its proof is, it moves up from a stored unexpired block, its inputs are those of its claim, and its header proof leads to its block hash |
| LightClientSafety.UpdateReason | contracts/TendermintZKLightClient.sol:89-143 | which error a refused update reverts with, by its first failing check |
| LightClientSafety.UpdateEffect | contracts/TendermintZKLightClient.sol:145-154 | an accepted update writes one consensus state and at most raises the latest height of its client; every other entry reads as before |
| LightClientSafety.InitializeEffect | contracts/TendermintZKLightClient.sol:74-80 | an accepted initialization writes one consensus state and one client state; every other entry reads as before |
| LightClientSafety.AcceptedUpdateIsGenuine | contracts/TendermintZKLightClient.sol:85-156 | from a safe state an accepted update carries the chain's block hash, app hash and timestamp |
| LightClientSafety.StepSafe | contracts/TendermintZKLightClient.sol:33-156 | every call, accepted or not, keeps everything stored genuine, if an accepted initialization uses a genuine header |
| LightClientSafety.WholeRunSafe | contracts/TendermintZKLightClient.sol:33-156 | whole-run safety: after any calls from the empty contract, whose accepted initializations use genuine headers, every stored entry is the chain's own at its height |
| LightClientRuns.OthersUntouched | contracts/TendermintZKLightClient.sol:33-156 | no call alters another client's entries |
| LightClientRuns.HeightsStep | contracts/TendermintZKLightClient.sol:85-156 | no update lowers the latest height, writes below the first height or above the latest, or changes the trusting period |
| LightClientRuns.HeightsRun | contracts/TendermintZKLightClient.sol:33-156 | the same over any calls none of which initializes the client again; attempts that revert are allowed |
| LightClientRuns.HeightInvariant | contracts/TendermintZKLightClient.sol:33-156 | over every run with one accepted initialization the latest height is the largest written, the initial one the smallest, the trusting period the initial one and nonzero |
| LightClientRuns.StillAcceptable | contracts/TendermintZKLightClient.sol:85-156 | after one accepted update another one acceptable before still is |
| LightClientRuns.UpdatesCommute | contracts/TendermintZKLightClient.sol:85-156 | two updates acceptable in a safe state give the same state in either order |
| LightClientRuns.RunOrderIrrelevant | contracts/TendermintZKLightClient.sol:85-156 | the same in every reachable state, with both updates applied |
| LightClientRuns.UpdateRepeats | contracts/TendermintZKLightClient.sol:145-154 | an accepted update to a stored height changes nothing |
| LightClientRuns.RunRepeatHarmless | contracts/TendermintZKLightClient.sol:85-156 | the same in every state reached with one initialization |
| StateQueries.MembershipExact | contracts/TendermintZKLightClient.sol:183-210 | answered exactly for the contract's own revision number and a proof that leads to the stored app hash |
| StateQueries.AbsenceExact | contracts/TendermintZKLightClient.sol:212-234 | the same for absence, and the proof must be about the asked path and store |
| StateQueries.UnwrittenHeight | contracts/TendermintZKLightClient.sol:204-208 | at a height never written only a proof of the zero hash could be answered |
| StateQueries.MembershipUnique | contracts/TendermintZKLightClient.sol:183-210 | under the app hash of an honest state two accepted values for one path are equal |
| StateQueries.MembershipExcludesAbsence | contracts/TendermintZKLightClient.sol:183-234 | membership and absence of one path are never both accepted |
| StateQueries.QueriesComplete | contracts/TendermintZKLightClient.sol:183-234 | the contract answers an entry or a gap of a store, given the honest proof, exactly when the headers on the way fit |
| StateQueries.MembershipTrueOfChain | contracts/TendermintZKLightClient.sol:183-210 | end to end: after any run an accepted membership answer at a stored height is true of the chain's state |
| StateQueries.AbsenceTrueOfChain | contracts/TendermintZKLightClient.sol:212-234 | end to end: the same for absence |
| BigEndian.MinBytesAsBytes32 | go/relay/zkprover.go:164-168 | minimal bytes read as a bytes32 give the number back exactly when it is zero or its top byte is not |
| BigEndian.MinBytesNoLeadingZero | go/relay/zkprover.go:166-168 | the bytes of a positive number start with a nonzero byte |
| BigEndian.Bytes32At | contracts/TendermintZKLightClientProtoMarshaler.sol:93-113 | bytes32() keeps the first 32 bytes and fills up with zeros behind |
| BigEndian.MaskTopBits | go/relay/zkprover.go:104-105 | clearing three bits of a digest is reduction modulo 2^253, as the contract does |
| Relayer.ProveMock | go/relay/zkprover.go:91-136 | the filled arrays, read as numbers, are the expected public inputs; heights out of order and headers the node does not serve fail |
| Relayer.ExpectedInputsAgree | go/relay/zkprover.go:91-136 | the relayer expects exactly the public inputs the contract computes for its stored block |
| Relayer.ConvertSimpleTreeProof | contracts/TendermintZKLightClientProtoMarshaler.sol:111-116 | the loop converts the first six siblings or reverts as specified |
| Relayer.ConvertProofExact | contracts/TendermintZKLightClientProtoMarshaler.sol:111-116 | conversion succeeds exactly when there are six siblings of 32 bytes, and then keeps them |
| Relayer.ConvertExact | contracts/TendermintZKLightClientProtoMarshaler.sol:86-116 | conversion succeeds exactly on three inputs and six siblings of 32 bytes; every field comes from its own field, and the proof is passed on |
| Relayer.ConvertUpdateStateMessage | contracts/TendermintZKLightClientProtoMarshaler.sol:86-109 | the array filled in the loop gives the specified message or revert |
| Relayer.MessageConverts | go/relay/prover.go:172-187 | the relayer's message converts; the result has its heights, block hash, time, app hash and zero-knowledge proof, its header proof leads to its block hash, and its inputs arrive intact exactly when each survives |
| Relayer.RelayerAgreement | contracts/TendermintZKLightClient.sol:85-156 | with matching digests and an unexpired trusted block the update the relayer sends is accepted exactly when the verifier takes its proof and each input is zero or has a nonzero top byte |
| Relayer.LeadingZeroRejected | contracts/TendermintZKLightClientProtoMarshaler.sol:93-97 | with a nonzero step digest whose first byte is zero no step message is accepted |
| Modular.Fermat | contracts/groth16/Groth16Verifier.sol:130-137 | a to the power p - 1 is 1 for prime p and nonzero a, which makes the exponent p - 2 an inversion |
| FieldArithmetic.NegateCong | contracts/groth16/Groth16Verifier.sol:92-96 | negate gives the reduced additive inverse of any number |
| FieldArithmetic.InvertExact | contracts/groth16/Groth16Verifier.sol:130-137 | inversion succeeds exactly on numbers that are nonzero modulo p and gives the reduced inverse |
| FieldArithmetic.SqrtExact | contracts/groth16/Groth16Verifier.sol:145-163 | the square root succeeds exactly on reduced squares and gives the reduced root that is a square itself; the square test agrees |
| SquareRoots2.HintWhenImaginary | contracts/groth16/Groth16Verifier.sol:177-193 | with a nonzero imaginary part and a square norm the hint that compression computes is the only one that works |
| SquareRoots2.HintWhenReal | contracts/groth16/Groth16Verifier.sol:177-193 | without an imaginary part only nonzero squares of Fp have a root found, without the hint |
| SquareRoots2.Sqrt2Exact | contracts/groth16/Groth16Verifier.sol:177-193 | when the square root in Fp2 succeeds, for every input and hint, and which root it gives: the reduced one whose real part is a nonzero square; the hint says that its norm is no square |
| SquareRoots2.RealIsSquare | contracts/groth16/Groth16Verifier.sol:165-193 | every real number has a root in Fp2 |
| SquareRoots2.FindsRootExactly | contracts/groth16/Groth16Verifier.sol:177-193 | some hint works exactly when there is a root and the input is not a real number that is zero or no square; a root that no hint finds exists exactly for those; never both hints work |
| SquareRoots2.MinusOneNotFound | contracts/groth16/Groth16Verifier.sol:178-192 | the concrete input where the comment fails: -1 has the root i and no hint finds it |
| PointCompression.CompressG1Accepts | contracts/groth16/Groth16Verifier.sol:202-222 | accepts exactly reduced points of the curve and (0, 0) |
| PointCompression.CompressG1Code | contracts/groth16/Groth16Verifier.sol:202-222 | the code of a point is twice x, plus one if y is no square |
| PointCompression.DecompressG1Accepts | contracts/groth16/Groth16Verifier.sol:230-251 | accepts exactly zero and the codes of reduced x over which the curve has a point; returns that x and the reduced y that is a square exactly when the sign bit is clear |
| PointCompression.DecompressCompressG1 | contracts/groth16/Groth16Verifier.sol:202-251 | decompression undoes compression, if 3 is not a square |
| PointCompression.CompressDecompressG1 | contracts/groth16/Groth16Verifier.sol:202-251 | an accepted code comes back from its point exactly when it does not put a sign bit on a point with y = 0 |
| PointCompression.Rhs2IsCube | contracts/groth16/Groth16Verifier.sol:280-286 | the five products compute the cube of x plus the constant in Fp2 |
| PointCompression.TwoRoots2 | contracts/groth16/Groth16Verifier.sol:177-193 | roots in Fp2 are unique up to sign |
| PointCompression.CompressG2Accepts | contracts/groth16/Groth16Verifier.sol:265-308 | accepts exactly the reduced points of the curve with nonzero y0, and (0, 0, 0, 0) |
| PointCompression.CompressG2Code | contracts/groth16/Groth16Verifier.sol:265-308 | the code of a point is four times the real part of x, plus two if the norm of y is no square, plus one if its real part is none; and the imaginary part of x |
| PointCompression.DecompressG2Accepts | contracts/groth16/Groth16Verifier.sol:321-353 | accepts exactly (0, 0) and the codes of reduced x over which the curve has a point with nonzero real y, with the hint that compression computes; returns such a point, with bit 1 set when the norm of y is no square and bit 0 when its real part is none |
| PointCompression.DecompressCompressG2 | contracts/groth16/Groth16Verifier.sol:265-353 | decompression undoes compression, if the constant of the curve is not a square in Fp2 |
| PointCompression.CompressDecompressG2 | contracts/groth16/Groth16Verifier.sol:265-353 | compression undoes decompression on every accepted code |
| Bn254.ConstantsFit | contracts/groth16/Groth16Verifier.sol:30-53 | P is the BN polynomial at the stated parameter; the contract's exponents, its half and its two fractions are what the field functions need |
| Bn254.ImaginaryYRejected | contracts/groth16/Groth16Verifier.sol:345-348 | a point of the curve with y0 = 0, and that compression rejects it |
| Bn254.CompressionIsBijectiveG1 | contracts/groth16/Groth16Verifier.sol:202-251 | for the contract's P the two directions are inverse on accepted points and codes of G1 |
| Bn254.CompressionIsBijectiveG2 | contracts/groth16/Groth16Verifier.sol:265-353 | the same on G2, if 3/(9 + i) is not a square |
| WireCodec.SovIsLength | go/relay/TendermintZKLightClient.pb.go:574-576 | the size from the bit length is the length of the varint |
| WireCodec.EncodeVarint | go/relay/TendermintZKLightClient.pb.go:461-471 | the varint ends right before the offset and nothing else in the buffer changes |
| WireCodec.CopyBefore | go/relay/TendermintZKLightClient.pb.go:371-373 | the bytes end right before the index and nothing else changes |
| WireCodec.WriteText | go/relay/TendermintZKLightClient.pb.go:371-377 | content, length and tag, written backwards, are the length-delimited field |
| WireCodec.WriteRepeated | go/relay/TendermintZKLightClient.pb.go:378-386 | elements written last to first appear in order |
| WireCodec.WriteNumber | go/relay/TendermintZKLightClient.pb.go:403-407 | a nonzero number is written as tag and varint, zero not at all |
| WireCodec.ReadVarintAt | go/relay/TendermintZKLightClient.pb.go:912-926 | the shift loop reads the value modulo 2^64 of at most ten bytes, or reports an overflow after ten bytes and an unexpected end before |
| WireCodec.Skip | go/relay/TendermintZKLightClient.pb.go:1268-1345 | terminates on every input, succeeds exactly when a field, groups included, ends at an index that is an int, and then advances; otherwise reports the specified error |
| MessageCodec.UpdateStateMessage.Size | go/relay/TendermintZKLightClient.pb.go:517-557 | the size is the length of the encoding |
| MessageCodec.UpdateStateMessage.MarshalToSizedBuffer | go/relay/TendermintZKLightClient.pb.go:366-426 | the end of the buffer becomes the encoding, the front is untouched, the number of bytes is returned |
| MessageCodec.UpdateStateMessage.Marshal | go/relay/TendermintZKLightClient.pb.go:351-359 | a buffer of exactly Size() bytes is filled back to index 0 with the encoding |
| MessageCodec.UpdateStateMessage.Unmarshal | go/relay/TendermintZKLightClient.pb.go:907-1179 | terminates without leaving the buffer on every input; succeeds exactly when the input is records throughout, and leaves the message they make; otherwise reports the error of the first bad record |
| MessageCodec.UpdateStateMessage.Assign | go/relay/TendermintZKLightClient.pb.go:935-1158 | what one record does to the fields |
| MessageCodec.ReadRecordAt | go/relay/TendermintZKLightClient.pb.go:911-935 | one pass: tag, known field or skipped field, with the wrapped index checked, or the error that stops it |
| MessageCodec.ReadKnownAt | go/relay/TendermintZKLightClient.pb.go:974-1007 | a known field is read exactly when its wire type fits and it ends inside the input; otherwise the error says why |
| MessageCodec.Timestamp.Size | go/relay/TendermintZKLightClient.pb.go:559-572 | the size is the length of the encoding |
| MessageCodec.Timestamp.MarshalToSizedBuffer | go/relay/TendermintZKLightClient.pb.go:443-459 | the end of the buffer becomes the encoding, the front is untouched |
| MessageCodec.Timestamp.Marshal | go/relay/TendermintZKLightClient.pb.go:428-436 | a buffer of exactly Size() bytes is filled with the encoding |
| MessageCodec.Timestamp.Unmarshal | go/relay/TendermintZKLightClient.pb.go:1180-1267 | as for the update message, with signed 64-bit and 32-bit fields |
| ParseFailures.ParseFailureExact | go/relay/TendermintZKLightClient.pb.go:907-1179 | there is an error exactly when parsing does not succeed, whatever the message is |
| ProtoParse.ReadRecordLocal | go/relay/TendermintZKLightClient.pb.go:907-1179 | a record depends on its own bytes only, wherever they stand |
| ProtoParse.ParseConcat | go/relay/TendermintZKLightClient.pb.go:907-1179 | parsing is a fold over records: once a first string is parsed, its concatenation with any second one parses to what the second one parses to, failure included |
| ProtoParse.UnknownFieldIgnored | go/relay/TendermintZKLightClient.pb.go:1159-1171 | a field that is skipped changes nothing after parsed records, whatever follows |
| UnknownFields.SkipField | go/relay/TendermintZKLightClient.pb.go:1268-1345 | skipping passes over every well-formed field of the encoding guide, nested groups included, and stops right behind it |
| UnknownFields.FieldIsUnknown | go/relay/TendermintZKLightClient.pb.go:1159-1171 | a well-formed field with an unknown number is skipped whole |
| MessageCodec.UpdateConcat | go/relay/TendermintZKLightClient.pb.go:907-1179 | the fold law for the update message |
| MessageCodec.TimestampConcat | go/relay/TendermintZKLightClient.pb.go:1180-1267 | the fold law for timestamps |
| MessageCodec.UpdateIgnoresUnknown | go/relay/TendermintZKLightClient.pb.go:1159-1171 | a well-formed field with a number above 8 changes nothing after parsed records, whatever follows |
| MessageCodec.TimestampIgnoresUnknown | go/relay/TendermintZKLightClient.pb.go:1247-1259 | the same for timestamps and numbers above 2 |
| ProtoParse.ReadAnyVarint | go/relay/TendermintZKLightClient.pb.go:912-926 | an encoded number below 2^70 is read modulo 2^64, a larger one is refused |
| ProtoWire.TwosComplement | go/relay/TendermintZKLightClient.pb.go:1196-1246 | the signed and unsigned conversions keep the number modulo 2^64 or 2^32 |
| WireFormat.NumberFormat | go/relay/TendermintZKLightClient.pb.go:403-426 | a message with one number is written, and read, as tag 0x08, 0x10 or 0x20 and the varint |
| WireFormat.BytesFormat | go/relay/TendermintZKLightClient.pb.go:371-413 | a message with one byte string is written, and read, as tag 0x1a, 0x2a or 0x42, length and content |
| WireFormat.RepeatedFormat | go/relay/TendermintZKLightClient.pb.go:378-395 | a sibling or an input is written, and read, as tag 0x32 or 0x3a, length and content |
| WireFormat.FieldsInOrder | go/relay/TendermintZKLightClient.pb.go:366-426 | fields are written in the order of their numbers |
| WireFormat.TimestampFormat | go/relay/TendermintZKLightClient.pb.go:443-459 | a timestamp is written, and read, as 0x08, seconds, 0x10, nanos; negative numbers as 64-bit two's complement |
| WireFormat.TimestampCuts | go/relay/TendermintZKLightClient.pb.go:1196-1246 | a number of any size is cut to the 64 or 32 bits of its field |
| WireFormat.TagIsCut | go/relay/TendermintZKLightClient.pb.go:927-935 | a tag with more than 32 bits of field number is read as the field of its low bits |
| WireFormat.SkippedWireTypes | go/relay/TendermintZKLightClient.pb.go:1284-1338 | on literal tags: a varint, eight bytes, a length and so many bytes, a group and four bytes are skipped |
| WireFormat.TagRefused | go/relay/TendermintZKLightClient.pb.go:927-940 | end-group tags, field numbers that are not positive in 32 bits, wrong wire types of known fields and wire types 6 and 7 are refused, each with its error |
| WireFormat.LengthRefused | go/relay/TendermintZKLightClient.pb.go:993-1002 | a byte string announced longer than the input is refused |
| WireFormat.OpenGroupRefused | go/relay/TendermintZKLightClient.pb.go:1268-1345 | a group that does not end is refused |
| MessageCodec.UpdateMerges | go/relay/TendermintZKLightClient.pb.go:935-1158 | parsing an encoded message into any message merges them: encoded numbers and byte strings replace, repeated fields grow |
| MessageCodec.TimestampMerges | go/relay/TendermintZKLightClient.pb.go:1196-1246 | the same for timestamps |
| MessageCodec.UpdateRoundTrip | go/relay/TendermintZKLightClient.pb.go:366-1179 | parsing the encoding of any message into an empty one gives the message |
| MessageCodec.TimestampRoundTrip | go/relay/TendermintZKLightClient.pb.go:443-1267 | the same for timestamps, negative seconds and nanos included |

## Left out

- The dispatch `verifyMembership` by proof kind and the getters of the contract: easy members over the same state.
- ABI decoding of proofs and messages, the routing functions and `Any`: the work is in libraries that are not part of this model; the calls take decoded arguments.
- The pairing check, `publicInputMSM`, `verifyProof`, `verifyCompressedProof`, `Groth16CommitmentVerifier.sol` and the Plonk wrapper: precompile calls behind the predicate `accepts`.
- The Rust circuits and the Go files around proving, services, RPC, tickers and channels: input, output and libraries. Of `SetupHeadersForUpdate` only the message it builds is modelled.
- `merkleRoot2`: the same expression as `merkleRoot`.
- The codec of `ClientState` and `ConsensusState`, `MarshalTo`, and the second copy of the generated code: the same loops over other fields.
- The primality of P, that 3 is not a square modulo P, that x^3 + 3 has no root and that 3/(9 + i) is not a square: hypotheses, as the contract's comments state them.
- Byte strings that are nil and byte strings that are empty are one value, so the distinction Go makes between them is not captured.
- MessageCodec.UpdateStateMessage.Unmarshal: the fields after a failed call are left open. The varint loop that the generated code repeats at every field is one method, and the bitwise or of disjoint groups is addition modulo 2^64.
- MessageCodec.UpdateStateMessage.MarshalToSizedBuffer: fields 8 to 5 are written by a helper method; a buffer that is too short, on which Go panics, is excluded, and so are messages of 2^63 bytes or more.
- MessageCodec.Timestamp.Unmarshal: the fields after a failed call are left open.
- RelayerTree.HeaderToLeaves: the version and the last block id of a header are given as encoded bytes, and their encoders do not fail; times are between 1970 and the largest uint64 of nanoseconds.
- Relayer.ProveMock: headers come from a function of the height instead of an RPC client, and a header's hash is its tree hash, also without validators, where CometBFT has no hash.
- SimpleTree.MembershipSound: assumes 32-byte roots and store names under 30 bytes; the first is what the chain stores, the second is needed (`SimpleTree.SoundnessFailsAt30`).
- IavlTree has no empty tree: an empty store has no root that a proof could lead to.
- The `spec` numbers in the relayer's proofs (`go/relay/tree.go:191-194` counts from 0, the contract's enum has `None` first): `verifyMembership` of the light client never reads them.
- Gas, reentrancy and who may call what besides the handler check: not part of the promises modelled.
