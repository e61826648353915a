# Reward distribution Merkle leaves and proofs

A model, in Dafny, of the two scripts that turn one cycle of reward entitlements into a
published Merkle distribution:

- `parseRewards` (scripts/merkleDist/parseRewards.js) takes `{cycle, userRewards}`, where
  `userRewards` maps account keys to `{tokens, cumulativeAmounts}`. It rejects any key that
  is not an address and any two keys that normalise to the same account. It numbers the
  accounts 0..n-1 in key order and builds a `BalanceTree` over them. It returns the cycle,
  the Merkle root and, for each normalised account, its index, tokens, amounts and proof.
- `BalanceTree` (scripts/merkleDist/balanceTree.js) turns record `i` into the leaf
  `toNode(cycle, i, account, tokens, cumulativeAmounts)`. That leaf is keccak256 of the
  Solidity packed encoding of `(uint256, uint256, address, address[], uint256[])`.
  `BalanceTree` delegates the root and the proofs to the Merkle tree of merkleTree.js.
  Its `verifyProof` folds `combinedHash` over a proof, left to right, and compares the
  result with the root.

Modules:

- `SolidityPacked` (packed_encoding.dfy) covers the leaf's byte layout. This is the
  non-standard packed mode of the Solidity ABI specification: a `uint256` is 32 big-endian
  bytes, a scalar `address` is 20 bytes, each array element is padded to 32 bytes, and
  arrays have no length prefix.
- `BalanceTrees` (balance_tree.dfy) covers `toNode`, the `BalanceTree` class, and the
  fold `verifyProof` computes.
- `RewardParsing` (parse_rewards.dfy) covers `parseRewards`. Its two `reduce` passes over
  a mutable memo are the loops of `CollectRewards` and `AttachProofs`. Each loop is proved
  equal to a pure specification (`Validate`, `Claims`). `Parse` combines those
  specifications, and the lemmas about the outcome are stated about `Parse`.

The code does not check that `tokens` and `cumulativeAmounts` have the same length, and
the model follows the code. `MismatchedArraysCollide` shows the consequence: two different
records can pack to the same bytes, and so to the same leaf.

Collaborators the code calls but this model does not contain are passed in as functions:

- keccak256;
- merkleTree.js's `combinedHash`, root and proof (`MerkleLib`);
- ethers' `isAddress` and `getAddress` (`AddressLib`).

A lemma that needs more than their types states that as a `requires`. Examples are
`CollisionFree(keccak)`, and `ProofsReachRoot(merkle)`: the tree's proofs fold back to
its root.

## Model

| member | source | states |
|---|---|---|
| `SolidityPacked.FromBigEndianOfBigEndian` | scripts/merkleDist/balanceTree.js:36-38 | a `uint256` written as 32 big-endian bytes reads back as the same number |
| `SolidityPacked.EncodePackedLayout` | scripts/merkleDist/balanceTree.js:36-38 | the packed leaf places cycle, index, account, tokens and amounts at fixed offsets, in that order, with total length 84 + 32·(tokens + amounts) |
| `SolidityPacked.EncodePackedInjective` | scripts/merkleDist/balanceTree.js:36-38 | two leaves whose token and amount arrays have matching lengths pack to the same bytes only if all five fields are equal |
| `SolidityPacked.EncodePackedSeparatesIndices` | scripts/merkleDist/balanceTree.js:36-38 | leaves with different indices never pack to the same bytes, whatever their other fields |
| `SolidityPacked.MismatchedArraysCollide` | scripts/merkleDist/balanceTree.js:36-38 | without a length check, `([t], [])` and `([], [value of t])` pack to the same bytes |
| `BalanceTrees.ToNodeBindsFields` | scripts/merkleDist/balanceTree.js:32-42 | with a collision-free keccak, two leaves of length-matched records are equal iff their five fields are equal; the map on line 34 changes nothing |
| `BalanceTrees.LeavesDistinct` | scripts/merkleDist/balanceTree.js:7-11 | with a collision-free keccak, no two records of one tree get the same leaf |
| `BalanceTrees.FoldSnoc` | scripts/merkleDist/balanceTree.js:24-27 | the left fold combines the last proof item last: `Fold(leaf, p + [x]) == combinedHash(Fold(leaf, p), x)` |
| `BalanceTrees.FoldAppend` | scripts/merkleDist/balanceTree.js:24-27 | folding a proof in two parts gives the same value as folding it in one pass |
| `BalanceTrees.VerifyEmptyProof` | scripts/merkleDist/balanceTree.js:24-29 | with an empty proof, verification succeeds iff the record's own leaf is the root |
| `BalanceTrees.VerifyLastStep` | scripts/merkleDist/balanceTree.js:24-29 | for a proof `p + [x]`, the value compared with the root is `combinedHash(Fold(leaf, p), x)` |
| `BalanceTrees.RecordProofVerifies` | scripts/merkleDist/balanceTree.js:5-29 | if the tree's proofs fold back to its root, the proof for leaf i verifies with record i's fields |
| `BalanceTrees.BalanceTree.constructor` | scripts/merkleDist/balanceTree.js:6-12 | the tree has exactly one leaf per record, and leaf i is `toNode(cycle, i, account_i, tokens_i, amounts_i)` |
| `BalanceTrees.BalanceTree.VerifyProof` | scripts/merkleDist/balanceTree.js:14-30 | the loop returns exactly whether the left fold of `combinedHash` over the proof, from the record's leaf, equals the root; a mismatch is `false`, never an error |
| `BalanceTrees.BalanceTree.GetHexRoot` | scripts/merkleDist/balanceTree.js:44-46 | returns the underlying tree's root, the root over every record's leaf |
| `BalanceTrees.BalanceTree.GetProof` | scripts/merkleDist/balanceTree.js:48-51 | recomputes the leaf from the five fields; given record i's fields, the result is the tree's proof for leaf i |
| `RewardParsing.Validate` | scripts/merkleDist/parseRewards.js:8-26 | on success, one record per input key, in key order, each with its key normalised and its tokens and amounts unchanged; accounts are pairwise distinct |
| `RewardParsing.ValidateAcceptsClean` | scripts/merkleDist/parseRewards.js:8-20 | if no key is invalid and none duplicates an earlier normalised account, the first pass succeeds |
| `RewardParsing.ValidateStopsAtFirstOffence` | scripts/merkleDist/parseRewards.js:8-20 | the first pass fails with the error of the first offending key: an invalid address, or a duplicate of the normalised account |
| `RewardParsing.ValidateSucceedsIff` | scripts/merkleDist/parseRewards.js:8-20 | the first pass succeeds iff no key offends |
| `RewardParsing.ValidateKeepsFailure` | scripts/merkleDist/parseRewards.js:8-20 | once a prefix of the keys has failed, the whole input fails with the same error |
| `RewardParsing.ClaimsKeys` | scripts/merkleDist/parseRewards.js:29-40 | the second pass files claims under exactly the records' accounts |
| `RewardParsing.ClaimsLookup` | scripts/merkleDist/parseRewards.js:29-40 | with distinct accounts, record i's account holds record i's claim: index i, its fields, and its proof |
| `RewardParsing.ParseSucceedsIff` | scripts/merkleDist/parseRewards.js:8-28 | the call succeeds iff there is at least one key, every key is an address, and no two keys normalise to the same account; otherwise nothing is returned |
| `RewardParsing.ParseEmptyIff` | scripts/merkleDist/parseRewards.js:28 | the call throws for the empty tree exactly when there are no keys; a bad or duplicated key is reported first |
| `RewardParsing.ParseReportsFirstOffence` | scripts/merkleDist/parseRewards.js:9-13 | a failing call reports the first offending key's error |
| `RewardParsing.DuplicateKeyReportsAccount` | scripts/merkleDist/parseRewards.js:12-13 | with the duplicate message corrected, when keys 0..j are addresses, keys before j are distinct, and key j normalises to an earlier key's account, the call throws the duplicate-address error naming that account |
| `RewardParsing.ParseOneClaimPerKey` | scripts/merkleDist/parseRewards.js:12-33 | on success there is exactly one claim per input key, filed under its normalised account |
| `RewardParsing.ParseIndicesFollowKeyOrder` | scripts/merkleDist/parseRewards.js:22-34 | on success key j's account has index j, and each claim's index leads back to its key, so indices are a bijection onto 0..n-1 in key order |
| `RewardParsing.ParsePassesFieldsThrough` | scripts/merkleDist/parseRewards.js:14-36 | each claim carries its key's tokens and amounts unchanged: same length, order and values |
| `RewardParsing.ParseCommitsToEveryEntry` | scripts/merkleDist/parseRewards.js:6-44 | the output cycle is the input cycle, and `merkleRoot` is the root of the tree whose leaf j is `toNode` of key j's fields |
| `RewardParsing.ParseProofsMatchLeaves` | scripts/merkleDist/parseRewards.js:28-37 | key j's proof is the tree's proof for leaf j, the leaf built from exactly its `(cycle, j, account, tokens, amounts)` |
| `RewardParsing.ParsedClaimsVerify` | scripts/merkleDist/parseRewards.js:28-44 | if the tree's proofs fold back to its root, every published claim passes `verifyProof` against the published root |
| `RewardParsing.CollectRewards` | scripts/merkleDist/parseRewards.js:8-26 | the loop that fills the memo and then reads it back in key order computes exactly the first pass |
| `RewardParsing.AttachProofs` | scripts/merkleDist/parseRewards.js:29-40 | the loop that files each record's claim, with the proof from `getProof`, computes exactly the second pass |
| `RewardParsing.ParseRewards` | scripts/merkleDist/parseRewards.js:5-47 | the whole call returns exactly `Parse`: the first pass's error, the empty-tree error when there are no keys, or the cycle, root and claims |
| `RewardParsing.DuplicateErrorAsWrittenHidesAccount` | scripts/merkleDist/parseRewards.js:13 | as written, two different duplicated accounts raise the same error, which is not a duplicate-address error |
| `RewardParsing.DuplicateErrorSeparatesAccounts` | scripts/merkleDist/parseRewards.js:13 | the corrected duplicate error differs for different accounts, the mirror of the as-written error, which is the same for all |

## Left out

- merkleTree.js is not part of this model. Its tree construction, `combinedHash`, `getHexRoot` and `getHexProof` are the functions of `MerkleLib`, with no property assumed. The one behaviour taken from it is that it refuses to build a tree from no elements: `Parse` and `ParseRewards` fail with `EmptyTree` there, before the tree is built. Nothing is assumed about sorted pair hashing, odd-node handling, sorting or deduplication of elements, or an element that is not in the tree. End-to-end membership (`RecordProofVerifies`, `ParsedClaimsVerify`) holds only under the stated hypothesis `ProofsReachRoot`.
- keccak256 is an injected function. Collision freedom is only a hypothesis of `ToNodeBindsFields` and `LeavesDistinct`. It is an idealisation: no function into 32-byte strings is injective, so the hypothesis can hold only because `Hash` has no fixed width in the model.
- `ethers.utils.isAddress` and `getAddress` (EIP-55 checksumming) are the injected `AddressLib`. A normalised account is its 20-byte value, not its checksummed hex string.
- `BigNumber.from` and `toHexString` are the identity on `Uint256` values. Hex and JSON formatting of the root, amounts and proofs is not modelled.
- The cycle and the amounts are `Uint256` and the tokens are 20-byte `Address` values, so the model does not cover other inputs. parseRewards.js and ethers' `solidityPack` do not reject all of them:
  - `BigNumber.from` on parseRewards.js line 14 accepts a negative amount. Ethers' `solidityPack` writes a negative amount or a negative `cycle` whose magnitude is below 2^256 as its 256-bit two's complement, 2^256 - |v|, without an error.
  - A token shorter than 32 bytes is zero-padded to a word.
  - The packing throws for a `cycle` or an amount of 2^256 or more, for a token longer than 32 bytes, for a token of odd hex length, and for a value that is not hex.
- `RewardParsing.ParseRewards` requires fewer than 2^256 keys, so that every index fits the `uint256` slot. A JavaScript array cannot come near that length.
- The input sequence is the `Object.keys` order of `userRewards`. JavaScript lists integer-like keys such as "7" first, in ascending numeric order, and the other keys after them in insertion order. Such keys are never addresses, so this order decides which invalid key is reported. The checksummed keys of `mappedInfo` are not integer-like, so `treeElements` follows insertion order.
- The JSON output object is modelled as a map. Its key order is not modelled; it follows the indices.
- The implicit globals assigned on parseRewards.js lines 30-31 are locals in the model.
- `RewardParsing.AttachProofs` reads tokens and amounts from the record rather than from the memo. The record was built from the memo entry, so the values are the same.
- The `${parsed}` ReferenceError on line 13 appears only in the finding below. The rest of the model raises the intended duplicate-address error.
- `BalanceTrees.BalanceTree.constructor` accepts an empty record list, where merkleTree.js's `new MerkleTree` throws. Its one caller, `ParseRewards`, fails with `EmptyTree` before calling it.
- The command-line wrapper and the reading and writing of files are not modelled.

## Findings

| source | as written | input that shows it | evidently intended | confidence | as-written member | corrected member |
|---|---|---|---|---|---|---|
| scripts/merkleDist/parseRewards.js:13 | the duplicate branch builds its message from `${parsed}`, an undeclared name, so it throws a ReferenceError about `parsed` instead of the duplicate-address error | two keys that spell the same address in different letter case, which `getAddress` maps to one account | throw "Duplicate address: " followed by the normalised account | high; not executed | `RewardParsing.DuplicateErrorAsWrittenHidesAccount` | `RewardParsing.DuplicateKeyReportsAccount` |
