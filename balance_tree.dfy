/**
  `BalanceTree`: the leaves of one reward distribution and the check a claim's proof
  must pass.  The Merkle tree underneath belongs to merkleTree.js, which is not part of
  this model: its `combinedHash`, its root and its proofs are given as functions, and
  nothing is assumed about them except where a lemma says so in its `requires`.
 */
module BalanceTrees {
  import opened SolidityPacked

  /**
    A node value.  In merkleTree.js every node is a 32-byte `Buffer`; the model leaves the
    width open, which is what lets `CollisionFree` below be satisfied at all.
   */
  type Hash = seq<Byte>

  /** keccak256 over a byte string, the hash inside `solidityKeccak256`. */
  type Keccak = seq<Byte> -> Hash

  /** The part of merkleTree.js this code calls. */
  datatype MerkleLib = MerkleLib(
    combinedHash: (Hash, Hash) -> Hash,      // MerkleTree.combinedHash(a, b)
    rootOf: seq<Hash> -> Hash,               // new MerkleTree(elements).getHexRoot()
    proofOf: (seq<Hash>, Hash) -> seq<Hash>) // new MerkleTree(elements).getHexProof(element)

  /** A `MerkleTree` object, known by the elements it was built from. */
  datatype MerkleTree = MerkleTree(elements: seq<Hash>)

  /** One element of the `userRewards` array the tree is built from. */
  datatype Record = Record(account: Address, tokens: seq<Address>, cumulativeAmounts: seq<Uint256>)

  /** `BalanceTree.toNode`: keccak256 of the packed five fields. */
  function ToNode(keccak: Keccak, cycle: Uint256, index: Uint256, account: Address,
                  tokens: seq<Address>, cumulativeAmounts: seq<Uint256>): Hash
  {
    keccak(EncodePacked(cycle, index, account, tokens, cumulativeAmounts))
  }

  /** The leaf the constructor makes for record `index`. */
  function LeafOf(keccak: Keccak, cycle: Uint256, index: Uint256, r: Record): Hash
  {
    ToNode(keccak, cycle, index, r.account, r.tokens, r.cumulativeAmounts)
  }

  /** `userRewards.map((record, index) => toNode(cycle, index, ...record))`. */
  function Leaves(keccak: Keccak, cycle: Uint256, records: seq<Record>): seq<Hash>
    requires |records| < TWO_256
  {
    seq(|records|, i requires 0 <= i < |records| => LeafOf(keccak, cycle, i, records[i]))
  }

  /**
    keccak256 idealised as free of collisions.  No function from all byte strings into
    32-byte strings is injective, so this holds only of hashes with unbounded output; it is
    the idealisation under which leaves bind their fields, not a property of keccak256.
   */
  ghost predicate CollisionFree(keccak: Keccak)
  {
    forall a, b :: keccak(a) == keccak(b) ==> a == b
  }

  /**
    With a collision-free hash, two leaves whose arrays have matching lengths are equal
    exactly when all five fields are equal, in the order toNode takes them.
   */
  lemma ToNodeBindsFields(keccak: Keccak,
                          cycle: Uint256, index: Uint256, account: Address,
                          tokens: seq<Address>, amounts: seq<Uint256>,
                          cycle': Uint256, index': Uint256, account': Address,
                          tokens': seq<Address>, amounts': seq<Uint256>)
    requires CollisionFree(keccak)
    requires |tokens| == |amounts| && |tokens'| == |amounts'|
    ensures ToNode(keccak, cycle, index, account, tokens, amounts)
            == ToNode(keccak, cycle', index', account', tokens', amounts')
        <==> cycle == cycle' && index == index' && account == account'
             && tokens == tokens' && amounts == amounts'
  {
    if ToNode(keccak, cycle, index, account, tokens, amounts)
       == ToNode(keccak, cycle', index', account', tokens', amounts') {
      EncodePackedInjective(cycle, index, account, tokens, amounts,
                            cycle', index', account', tokens', amounts');
    }
  }

  /** With a collision-free hash, no two records of a tree share a leaf. */
  lemma LeavesDistinct(keccak: Keccak, cycle: Uint256, records: seq<Record>)
    requires CollisionFree(keccak) && |records| < TWO_256
    ensures forall i, j :: 0 <= i < j < |records| ==>
      Leaves(keccak, cycle, records)[i] != Leaves(keccak, cycle, records)[j]
  {
    forall i, j | 0 <= i < j < |records|
      ensures Leaves(keccak, cycle, records)[i] != Leaves(keccak, cycle, records)[j]
    {
      var r, s := records[i], records[j];
      EncodePackedSeparatesIndices(cycle, i, r.account, r.tokens, r.cumulativeAmounts,
                                   cycle, j, s.account, s.tokens, s.cumulativeAmounts);
    }
  }

  /** `combinedHash` applied along the proof, left to right, starting from `node`. */
  function Fold(combine: (Hash, Hash) -> Hash, node: Hash, proof: seq<Hash>): Hash
    decreases |proof|
  {
    if proof == [] then node else Fold(combine, combine(node, proof[0]), proof[1..])
  }

  /** The last proof item is combined last. */
  lemma {:induction false} FoldSnoc(combine: (Hash, Hash) -> Hash, node: Hash, proof: seq<Hash>, item: Hash)
    ensures Fold(combine, node, proof + [item]) == combine(Fold(combine, node, proof), item)
    decreases |proof|
  {
    if proof != [] {
      assert (proof + [item])[1..] == proof[1..] + [item];
      FoldSnoc(combine, combine(node, proof[0]), proof[1..], item);
    }
  }

  /** Checking a proof in two parts gives the same value as checking it at once. */
  lemma {:induction false} FoldAppend(combine: (Hash, Hash) -> Hash, node: Hash, proof: seq<Hash>, more: seq<Hash>)
    ensures Fold(combine, node, proof + more) == Fold(combine, Fold(combine, node, proof), more)
    decreases |proof|
  {
    if proof != [] {
      assert (proof + more)[0] == proof[0] && (proof + more)[1..] == proof[1..] + more;
      FoldAppend(combine, combine(node, proof[0]), proof[1..], more);
    } else {
      assert proof + more == more;
    }
  }

  /** What `BalanceTree.verifyProof` answers. */
  predicate ProofVerifies(keccak: Keccak, merkle: MerkleLib, cycle: Uint256, index: Uint256,
                          account: Address, tokens: seq<Address>, cumulativeAmounts: seq<Uint256>,
                          proof: seq<Hash>, root: Hash)
  {
    Fold(merkle.combinedHash, ToNode(keccak, cycle, index, account, tokens, cumulativeAmounts), proof) == root
  }

  /** An empty proof verifies exactly when the record's own leaf is the root. */
  lemma VerifyEmptyProof(keccak: Keccak, merkle: MerkleLib, cycle: Uint256, index: Uint256,
                         account: Address, tokens: seq<Address>, cumulativeAmounts: seq<Uint256>, root: Hash)
    ensures ProofVerifies(keccak, merkle, cycle, index, account, tokens, cumulativeAmounts, [], root)
        <==> ToNode(keccak, cycle, index, account, tokens, cumulativeAmounts) == root
  {
  }

  /** For a proof `p + [x]`, the value compared with the root is `combinedHash(Fold(leaf, p), x)`. */
  lemma VerifyLastStep(keccak: Keccak, merkle: MerkleLib, cycle: Uint256, index: Uint256,
                       account: Address, tokens: seq<Address>, cumulativeAmounts: seq<Uint256>,
                       proof: seq<Hash>, item: Hash, root: Hash)
    ensures var leaf := ToNode(keccak, cycle, index, account, tokens, cumulativeAmounts);
      ProofVerifies(keccak, merkle, cycle, index, account, tokens, cumulativeAmounts, proof + [item], root)
      <==> merkle.combinedHash(Fold(merkle.combinedHash, leaf, proof), item) == root
  {
    FoldSnoc(merkle.combinedHash, ToNode(keccak, cycle, index, account, tokens, cumulativeAmounts), proof, item);
  }

  /**
    What merkleTree.js is relied on to provide: the proof it gives for an element of a
    tree folds, under its `combinedHash`, back to that tree's root.
   */
  ghost predicate ProofsReachRoot(merkle: MerkleLib)
  {
    forall elements: seq<Hash>, element: Hash {:trigger merkle.proofOf(elements, element)} ::
      element in elements ==>
        Fold(merkle.combinedHash, element, merkle.proofOf(elements, element)) == merkle.rootOf(elements)
  }

  /** Given such a tree, the proof for record i's leaf passes verifyProof with record i's fields. */
  lemma RecordProofVerifies(keccak: Keccak, merkle: MerkleLib, cycle: Uint256, records: seq<Record>, i: nat)
    requires ProofsReachRoot(merkle)
    requires |records| < TWO_256 && i < |records|
    ensures var leaves := Leaves(keccak, cycle, records);
      var r := records[i];
      ProofVerifies(keccak, merkle, cycle, i, r.account, r.tokens, r.cumulativeAmounts,
                    merkle.proofOf(leaves, leaves[i]), merkle.rootOf(leaves))
  {
  }

  class BalanceTree {
    const keccak: Keccak
    const merkle: MerkleLib
    const tree: MerkleTree
    ghost const cycle: Uint256
    ghost const records: seq<Record>

    /** The tree holds one leaf per record, leaf i being record i's node. */
    ghost predicate Valid()
    {
      |records| < TWO_256 && tree.elements == Leaves(keccak, cycle, records)
    }

    constructor (keccak: Keccak, merkle: MerkleLib, cycle: Uint256, userRewards: seq<Record>)
      requires |userRewards| < TWO_256
      ensures Valid()
      ensures this.keccak == keccak && this.merkle == merkle
      ensures this.cycle == cycle && records == userRewards
      ensures |tree.elements| == |userRewards|
      ensures forall i :: 0 <= i < |userRewards| ==>
        tree.elements[i] == ToNode(keccak, cycle, i, userRewards[i].account,
                                   userRewards[i].tokens, userRewards[i].cumulativeAmounts)
    {
      this.keccak := keccak;
      this.merkle := merkle;
      this.cycle := cycle;
      records := userRewards;
      tree := MerkleTree(Leaves(keccak, cycle, userRewards));
    }

    /** `BalanceTree.verifyProof`: a mismatch is the answer false, never an error. */
    static method VerifyProof(keccak: Keccak, merkle: MerkleLib, cycle: Uint256, index: Uint256,
                              account: Address, tokens: seq<Address>, cumulativeAmounts: seq<Uint256>,
                              proof: seq<Hash>, root: Hash) returns (ok: bool)
      ensures ok <==> ProofVerifies(keccak, merkle, cycle, index, account, tokens, cumulativeAmounts, proof, root)
    {
      ghost var leaf := ToNode(keccak, cycle, index, account, tokens, cumulativeAmounts);
      var pair := ToNode(keccak, cycle, index, account, tokens, cumulativeAmounts);
      for i := 0 to |proof|
        invariant pair == Fold(merkle.combinedHash, leaf, proof[..i])
      {
        assert proof[..i + 1] == proof[..i] + [proof[i]];
        FoldSnoc(merkle.combinedHash, leaf, proof[..i], proof[i]);
        pair := merkle.combinedHash(pair, proof[i]);
      }
      assert proof[..|proof|] == proof;
      ok := pair == root;
    }

    /** `getHexRoot`: the root of the tree built from every record's leaf. */
    function GetHexRoot(): (root: Hash)
      ensures Valid() ==> root == merkle.rootOf(Leaves(keccak, cycle, records))
    {
      merkle.rootOf(tree.elements)
    }

    /**
      `getProof`: the tree's proof for the leaf recomputed from the five fields; given the
      fields of record `index`, that is the proof for leaf `index` of the tree.
     */
    function GetProof(cycle: Uint256, index: Uint256, account: Address,
                      tokens: seq<Address>, cumulativeAmounts: seq<Uint256>): (proof: seq<Hash>)
      ensures Valid() && cycle == this.cycle && index < |records|
              && records[index] == Record(account, tokens, cumulativeAmounts)
          ==> |tree.elements| == |records|
              && proof == merkle.proofOf(tree.elements, tree.elements[index])
    {
      merkle.proofOf(tree.elements, ToNode(keccak, cycle, index, account, tokens, cumulativeAmounts))
    }
  }
}
