/**
  `parseRewards`: turns one cycle's reward input (account key -> tokens and cumulative
  amounts) into the published distribution: the Merkle root and, per normalised account,
  its leaf index, its fields and its proof.  Address checking and normalisation come from
  ethers and are given as functions.
 */
module RewardParsing {
  import opened SolidityPacked
  import opened BalanceTrees

  datatype Result<T, E> = Success(value: T) | Failure(error: E)

  /** What parseRewards throws. */
  datatype ParseError =
    | InvalidAddress(key: string)         // "Found invalid address: <key>"
    | DuplicateAddress(account: Address)  // "Duplicate address: <account>"
    | ReferenceError(name: string)        // reading an undeclared variable
    | EmptyTree                           // the Merkle tree refuses to be built from no elements

  /** `ethers.utils.isAddress` and `ethers.utils.getAddress`. */
  datatype AddressLib = AddressLib(isAddress: string -> bool, getAddress: string -> Address)

  /** The value of one `userRewards` key, and of one `mappedInfo` key. */
  datatype Reward = Reward(tokens: seq<Address>, cumulativeAmounts: seq<Uint256>)

  /** One key of `rewardInfo.userRewards`, in `Object.keys` order, with its value. */
  datatype Entry = Entry(key: string, reward: Reward)

  datatype RewardInfo = RewardInfo(cycle: Uint256, userRewards: seq<Entry>)

  /** One value of the returned `userRewards`. */
  datatype Claim = Claim(index: Uint256, tokens: seq<Address>, cumulativeAmounts: seq<Uint256>, proof: seq<Hash>)

  /** The returned `{cycle, merkleRoot, userRewards}`. */
  datatype Distribution = Distribution(cycle: Uint256, merkleRoot: Hash, userRewards: map<Address, Claim>)

  /**
    The duplicate check as written: its message reads the undeclared `parsed`, so what is
    thrown is a ReferenceError, whatever the account.
   */
  function DuplicateErrorAsWritten(account: Address): (e: ParseError)
  {
    ReferenceError("parsed")
  }

  /** Two different duplicated accounts raise the same error: the message cannot name either. */
  lemma DuplicateErrorAsWrittenHidesAccount()
    ensures var a, b := Zeros(20), Zeros(19) + [1];
      a != b && DuplicateErrorAsWritten(a) == DuplicateErrorAsWritten(b)
      && !DuplicateErrorAsWritten(a).DuplicateAddress?
  {
    assert (Zeros(19) + [1])[19] == 1 != Zeros(20)[19];
  }

  /** The duplicate check as intended: the error names the normalised account. */
  function DuplicateError(account: Address): (e: ParseError)
  {
    DuplicateAddress(account)
  }

  /** The record kept for an entry: its key normalised, its fields unchanged. */
  function Normalised(lib: AddressLib, entry: Entry): Record
  {
    Record(lib.getAddress(entry.key), entry.reward.tokens, entry.reward.cumulativeAmounts)
  }

  function Accounts(records: seq<Record>): set<Address>
  {
    set r | r in records :: r.account
  }

  ghost predicate DistinctAccounts(records: seq<Record>)
  {
    forall i, j :: 0 <= i < j < |records| ==> records[i].account != records[j].account
  }

  /**
    The first pass (the `reduce` that fills `mappedInfo`, then `treeElements`): entries are
    taken in order; the first key that is not an address, or whose normalised form an
    earlier key already produced, stops everything.
   */
  function Validate(lib: AddressLib, entries: seq<Entry>): (r: Result<seq<Record>, ParseError>)
    ensures r.Success? ==> |r.value| == |entries| && DistinctAccounts(r.value)
    ensures r.Failure? ==> r.error.InvalidAddress? || r.error.DuplicateAddress?
    ensures r.Success? ==> forall i :: 0 <= i < |entries| ==> r.value[i] == Normalised(lib, entries[i])
  {
    if entries == [] then Success([])
    else
      var last := entries[|entries| - 1];
      match Validate(lib, entries[..|entries| - 1])
      case Failure(e) => Failure(e)
      case Success(records) =>
        if !lib.isAddress(last.key) then Failure(InvalidAddress(last.key))
        else if lib.getAddress(last.key) in Accounts(records) then Failure(DuplicateError(lib.getAddress(last.key)))
        else
          assert forall i :: 0 <= i < |records| ==> records[i] in records;
          Success(records + [Normalised(lib, last)])
  }

  /**
    Entry j is where parseRewards throws if it gets that far: its key is not an address,
    or it normalises to an account an earlier valid key already gave.
   */
  ghost predicate Offends(lib: AddressLib, entries: seq<Entry>, j: int)
    requires 0 <= j < |entries|
  {
    || !lib.isAddress(entries[j].key)
    || exists i :: 0 <= i < j && lib.isAddress(entries[i].key)
                   && lib.getAddress(entries[i].key) == lib.getAddress(entries[j].key)
  }

  /** The error thrown at an offending entry. */
  function ErrorAt(lib: AddressLib, entries: seq<Entry>, j: int): ParseError
    requires 0 <= j < |entries|
  {
    if !lib.isAddress(entries[j].key) then InvalidAddress(entries[j].key)
    else DuplicateError(lib.getAddress(entries[j].key))
  }

  lemma OffendsInPrefix(lib: AddressLib, entries: seq<Entry>, m: int, j: int)
    requires 0 <= j < m <= |entries|
    ensures Offends(lib, entries[..m], j) <==> Offends(lib, entries, j)
  {
  }

  /** Every input with an offending entry has a first one. */
  lemma {:induction false} FirstOffence(lib: AddressLib, entries: seq<Entry>, j: int) returns (k: int)
    requires 0 <= j < |entries| && Offends(lib, entries, j)
    ensures 0 <= k <= j && Offends(lib, entries, k)
    ensures forall i :: 0 <= i < k ==> !Offends(lib, entries, i)
    decreases j
  {
    if i :| 0 <= i < j && Offends(lib, entries, i) {
      k := FirstOffence(lib, entries, i);
    } else {
      k := j;
    }
  }

  /** Without an offending entry the first pass succeeds. */
  lemma {:induction false} ValidateAcceptsClean(lib: AddressLib, entries: seq<Entry>)
    requires forall j :: 0 <= j < |entries| ==> !Offends(lib, entries, j)
    ensures Validate(lib, entries).Success?
  {
    if entries != [] {
      var n := |entries| - 1;
      var init := entries[..n];
      forall j | 0 <= j < n
        ensures !Offends(lib, init, j)
      {
        OffendsInPrefix(lib, entries, n, j);
      }
      ValidateAcceptsClean(lib, init);
      var records := Validate(lib, init).value;
      var account := lib.getAddress(entries[n].key);
      assert !Offends(lib, entries, n);
      forall r | r in records
        ensures r.account != account
      {
        var i :| 0 <= i < n && records[i] == r;
        assert !Offends(lib, entries, i);
      }
    }
  }

  /** At the first offending entry the first pass fails with that entry's error. */
  lemma {:induction false} ValidateStopsAtFirstOffence(lib: AddressLib, entries: seq<Entry>, j: int)
    requires 0 <= j < |entries| && Offends(lib, entries, j)
    requires forall i :: 0 <= i < j ==> !Offends(lib, entries, i)
    ensures Validate(lib, entries) == Failure(ErrorAt(lib, entries, j))
  {
    var n := |entries| - 1;
    var init := entries[..n];
    forall i | 0 <= i < j && i < n
      ensures !Offends(lib, init, i)
    {
      OffendsInPrefix(lib, entries, n, i);
    }
    if j < n {
      OffendsInPrefix(lib, entries, n, j);
      ValidateStopsAtFirstOffence(lib, init, j);
    } else {
      ValidateAcceptsClean(lib, init);
      var records := Validate(lib, init).value;
      if lib.isAddress(entries[n].key) {
        var i :| 0 <= i < n && lib.isAddress(entries[i].key)
                 && lib.getAddress(entries[i].key) == lib.getAddress(entries[n].key);
        assert records[i] in records;
      }
    }
  }

  /** The first pass succeeds exactly when no entry offends. */
  lemma ValidateSucceedsIff(lib: AddressLib, entries: seq<Entry>)
    ensures Validate(lib, entries).Success? <==> forall j :: 0 <= j < |entries| ==> !Offends(lib, entries, j)
  {
    if j :| 0 <= j < |entries| && Offends(lib, entries, j) {
      var k := FirstOffence(lib, entries, j);
      ValidateStopsAtFirstOffence(lib, entries, k);
    } else {
      ValidateAcceptsClean(lib, entries);
    }
  }

  /** Once a prefix has failed, the whole input fails the same way. */
  lemma {:induction false} ValidateKeepsFailure(lib: AddressLib, entries: seq<Entry>, m: int)
    requires 0 <= m <= |entries| && Validate(lib, entries[..m]).Failure?
    ensures Validate(lib, entries) == Validate(lib, entries[..m])
    decreases |entries|
  {
    if m == |entries| {
      assert entries[..m] == entries;
    } else {
      var init := entries[..|entries| - 1];
      assert init[..m] == entries[..m];
      ValidateKeepsFailure(lib, init, m);
    }
  }

  /** `Object.keys(mappedInfo).map(account => ({account, ...mappedInfo[account]}))`. */
  function TreeElements(keys: seq<Address>, mappedInfo: map<Address, Reward>): seq<Record>
    requires forall k :: k in keys ==> k in mappedInfo
  {
    seq(|keys|, i requires 0 <= i < |keys| =>
      Record(keys[i], mappedInfo[keys[i]].tokens, mappedInfo[keys[i]].cumulativeAmounts))
  }

  lemma AccountsOfTreeElements(keys: seq<Address>, mappedInfo: map<Address, Reward>, account: Address)
    requires forall k :: k in keys ==> k in mappedInfo
    ensures account in Accounts(TreeElements(keys, mappedInfo)) <==> account in keys
  {
    var elements := TreeElements(keys, mappedInfo);
    if account in keys {
      var i :| 0 <= i < |keys| && keys[i] == account;
      assert elements[i] in elements;
    }
    if account in Accounts(elements) {
      var r :| r in elements && r.account == account;
      var i :| 0 <= i < |elements| && elements[i] == r;
      assert keys[i] == account;
    }
  }

  lemma TreeElementsAppend(keys: seq<Address>, mappedInfo: map<Address, Reward>, account: Address, reward: Reward)
    requires forall k :: k in keys ==> k in mappedInfo
    requires account !in keys
    ensures TreeElements(keys + [account], mappedInfo[account := reward])
         == TreeElements(keys, mappedInfo) + [Record(account, reward.tokens, reward.cumulativeAmounts)]
  {
  }

  /** The published entry of record i. */
  function ClaimAt(keccak: Keccak, merkle: MerkleLib, cycle: Uint256, records: seq<Record>, i: int): Claim
    requires |records| < TWO_256 && 0 <= i < |records|
  {
    var r := records[i];
    Claim(i, r.tokens, r.cumulativeAmounts,
          merkle.proofOf(Leaves(keccak, cycle, records),
                         ToNode(keccak, cycle, i, r.account, r.tokens, r.cumulativeAmounts)))
  }

  /** The claims of the first k records, each filed under its account, in record order. */
  function Claims(keccak: Keccak, merkle: MerkleLib, cycle: Uint256, records: seq<Record>, k: nat): map<Address, Claim>
    requires |records| < TWO_256 && k <= |records|
  {
    if k == 0 then map[]
    else Claims(keccak, merkle, cycle, records, k - 1)[records[k - 1].account := ClaimAt(keccak, merkle, cycle, records, k - 1)]
  }

  /** The claims of the first k records are filed under exactly those records' accounts. */
  lemma {:induction false} ClaimsKeys(keccak: Keccak, merkle: MerkleLib, cycle: Uint256, records: seq<Record>, k: nat)
    requires |records| < TWO_256 && k <= |records|
    ensures Claims(keccak, merkle, cycle, records, k).Keys == set i | 0 <= i < k :: records[i].account
  {
    if k > 0 {
      ClaimsKeys(keccak, merkle, cycle, records, k - 1);
      assert (set i | 0 <= i < k :: records[i].account)
          == (set i | 0 <= i < k - 1 :: records[i].account) + {records[k - 1].account};
    }
  }

  /** With distinct accounts no claim is overwritten: record i's account holds record i's claim. */
  lemma {:induction false} ClaimsLookup(keccak: Keccak, merkle: MerkleLib, cycle: Uint256, records: seq<Record>, k: nat)
    requires |records| < TWO_256 && k <= |records| && DistinctAccounts(records)
    ensures forall i :: 0 <= i < k ==>
      var claims := Claims(keccak, merkle, cycle, records, k);
      records[i].account in claims && claims[records[i].account] == ClaimAt(keccak, merkle, cycle, records, i)
  {
    if k > 0 {
      ClaimsLookup(keccak, merkle, cycle, records, k - 1);
      var prev := Claims(keccak, merkle, cycle, records, k - 1);
      forall i | 0 <= i < k
        ensures var claims := Claims(keccak, merkle, cycle, records, k);
          records[i].account in claims && claims[records[i].account] == ClaimAt(keccak, merkle, cycle, records, i)
      {
        if i < k - 1 {
          assert records[i].account != records[k - 1].account;
          assert records[i].account in prev;
        }
      }
    }
  }

  /** The second pass: the tree over all records, and one claim per record keyed by its account. */
  function Assemble(keccak: Keccak, merkle: MerkleLib, cycle: Uint256, records: seq<Record>): Distribution
    requires |records| < TWO_256
  {
    Distribution(cycle, merkle.rootOf(Leaves(keccak, cycle, records)), Claims(keccak, merkle, cycle, records, |records|))
  }

  /**
    What parseRewards returns or throws.  With no records, the tree on line 28 is built
    from no elements, which the Merkle tree refuses.
   */
  function Parse(lib: AddressLib, keccak: Keccak, merkle: MerkleLib, info: RewardInfo): Result<Distribution, ParseError>
    requires |info.userRewards| < TWO_256
  {
    match Validate(lib, info.userRewards)
    case Failure(e) => Failure(e)
    case Success(records) =>
      if records == [] then Failure(EmptyTree)
      else Success(Assemble(keccak, merkle, info.cycle, records))
  }

  /** The leaves read straight off the input: leaf j is toNode of entry j with its key normalised. */
  function InputLeaves(lib: AddressLib, keccak: Keccak, info: RewardInfo): seq<Hash>
    requires |info.userRewards| < TWO_256
  {
    var entries := info.userRewards;
    seq(|entries|, j requires 0 <= j < |entries| =>
      ToNode(keccak, info.cycle, j, lib.getAddress(entries[j].key),
             entries[j].reward.tokens, entries[j].reward.cumulativeAmounts))
  }

  /**
    parseRewards succeeds exactly when there is at least one key, every key is an address
    and no two keys normalise alike.
   */
  lemma ParseSucceedsIff(lib: AddressLib, keccak: Keccak, merkle: MerkleLib, info: RewardInfo)
    requires |info.userRewards| < TWO_256
    ensures var entries := info.userRewards;
      Parse(lib, keccak, merkle, info).Success?
      <==> && |entries| > 0
           && (forall j :: 0 <= j < |entries| ==> lib.isAddress(entries[j].key))
           && (forall i, j :: 0 <= i < j < |entries| ==> lib.getAddress(entries[i].key) != lib.getAddress(entries[j].key))
  {
    var entries := info.userRewards;
    ValidateSucceedsIff(lib, entries);
    if forall j :: 0 <= j < |entries| ==> !Offends(lib, entries, j) {
      forall j | 0 <= j < |entries|
        ensures lib.isAddress(entries[j].key)
      {
        assert !Offends(lib, entries, j);
      }
      forall i, j | 0 <= i < j < |entries|
        ensures lib.getAddress(entries[i].key) != lib.getAddress(entries[j].key)
      {
        assert !Offends(lib, entries, i) && !Offends(lib, entries, j);
      }
    } else {
      var j :| 0 <= j < |entries| && Offends(lib, entries, j);
      if lib.isAddress(entries[j].key) {
        var i :| 0 <= i < j && lib.isAddress(entries[i].key)
                 && lib.getAddress(entries[i].key) == lib.getAddress(entries[j].key);
      }
    }
  }

  /**
    An input without keys, and only such an input, makes parseRewards throw for the empty
    tree: a key that is not an address, or a duplicate, is reported before the tree is built.
   */
  lemma ParseEmptyIff(lib: AddressLib, keccak: Keccak, merkle: MerkleLib, info: RewardInfo)
    requires |info.userRewards| < TWO_256
    ensures Parse(lib, keccak, merkle, info) == Failure(EmptyTree) <==> info.userRewards == []
  {
  }

  /** A failing call reports the first offending entry: its bad key, or the account it duplicates. */
  lemma ParseReportsFirstOffence(lib: AddressLib, keccak: Keccak, merkle: MerkleLib, info: RewardInfo, j: int)
    requires |info.userRewards| < TWO_256
    requires 0 <= j < |info.userRewards| && Offends(lib, info.userRewards, j)
    requires forall i :: 0 <= i < j ==> !Offends(lib, info.userRewards, i)
    ensures Parse(lib, keccak, merkle, info) == Failure(ErrorAt(lib, info.userRewards, j))
  {
    ValidateStopsAtFirstOffence(lib, info.userRewards, j);
  }

  /**
    The duplicate check as corrected: when every key up to key j is an address, the earlier
    ones are distinct, and key j normalises to the account of an earlier key, the call
    throws the duplicate-address error naming that account.
   */
  lemma DuplicateKeyReportsAccount(lib: AddressLib, keccak: Keccak, merkle: MerkleLib, info: RewardInfo, i: int, j: int)
    requires |info.userRewards| < TWO_256
    requires 0 <= i < j < |info.userRewards|
    requires forall k :: 0 <= k <= j ==> lib.isAddress(info.userRewards[k].key)
    requires forall k, l :: 0 <= k < l < j ==>
      lib.getAddress(info.userRewards[k].key) != lib.getAddress(info.userRewards[l].key)
    requires lib.getAddress(info.userRewards[i].key) == lib.getAddress(info.userRewards[j].key)
    ensures Parse(lib, keccak, merkle, info) == Failure(DuplicateAddress(lib.getAddress(info.userRewards[j].key)))
  {
    var entries := info.userRewards;
    assert Offends(lib, entries, j);
    forall k | 0 <= k < j
      ensures !Offends(lib, entries, k)
    {
      assert lib.isAddress(entries[k].key);
    }
    ParseReportsFirstOffence(lib, keccak, merkle, info, j);
  }

  /** The corrected error tells duplicated accounts apart, unlike the error as written. */
  lemma DuplicateErrorSeparatesAccounts(a: Address, b: Address)
    requires a != b
    ensures DuplicateError(a) != DuplicateError(b)
  {
  }

  /** The facts about a successful call that the lemmas below share. */
  lemma ParsedRecords(lib: AddressLib, keccak: Keccak, merkle: MerkleLib, info: RewardInfo)
    requires |info.userRewards| < TWO_256 && Parse(lib, keccak, merkle, info).Success?
    ensures var records := Validate(lib, info.userRewards).value;
      && Validate(lib, info.userRewards).Success?
      && Parse(lib, keccak, merkle, info).value == Assemble(keccak, merkle, info.cycle, records)
      && Leaves(keccak, info.cycle, records) == InputLeaves(lib, keccak, info)
      && Parse(lib, keccak, merkle, info).value.userRewards.Keys == (set i | 0 <= i < |records| :: records[i].account)
      && forall i :: 0 <= i < |records| ==>
           var claims := Parse(lib, keccak, merkle, info).value.userRewards;
           records[i].account in claims && claims[records[i].account] == ClaimAt(keccak, merkle, info.cycle, records, i)
  {
    var records := Validate(lib, info.userRewards).value;
    ClaimsKeys(keccak, merkle, info.cycle, records, |records|);
    ClaimsLookup(keccak, merkle, info.cycle, records, |records|);
  }

  lemma {:induction false} DistinctAccountsCount(records: seq<Record>, k: nat)
    requires k <= |records| && DistinctAccounts(records)
    ensures |set i | 0 <= i < k :: records[i].account| == k
  {
    if k > 0 {
      DistinctAccountsCount(records, k - 1);
      var before := set i | 0 <= i < k - 1 :: records[i].account;
      assert (set i | 0 <= i < k :: records[i].account) == before + {records[k - 1].account};
      assert records[k - 1].account !in before;
    }
  }

  /** On success there is one claim per input key, filed under the key's normalised account. */
  lemma ParseOneClaimPerKey(lib: AddressLib, keccak: Keccak, merkle: MerkleLib, info: RewardInfo)
    requires |info.userRewards| < TWO_256 && Parse(lib, keccak, merkle, info).Success?
    ensures var entries, claims := info.userRewards, Parse(lib, keccak, merkle, info).value.userRewards;
      && claims.Keys == (set j | 0 <= j < |entries| :: lib.getAddress(entries[j].key))
      && |claims| == |entries|
  {
    ParsedRecords(lib, keccak, merkle, info);
    var records := Validate(lib, info.userRewards).value;
    DistinctAccountsCount(records, |records|);
    assert (set i | 0 <= i < |records| :: records[i].account)
        == set j | 0 <= j < |info.userRewards| :: lib.getAddress(info.userRewards[j].key);
  }

  /**
    On success the indices are 0..n-1, one per account, in input key order: key j's account
    holds index j, and every claim's index leads back to the key that produced it.
   */
  lemma ParseIndicesFollowKeyOrder(lib: AddressLib, keccak: Keccak, merkle: MerkleLib, info: RewardInfo)
    requires |info.userRewards| < TWO_256 && Parse(lib, keccak, merkle, info).Success?
    ensures var entries, claims := info.userRewards, Parse(lib, keccak, merkle, info).value.userRewards;
      && (forall j :: 0 <= j < |entries| ==>
            lib.getAddress(entries[j].key) in claims && claims[lib.getAddress(entries[j].key)].index == j)
      && (forall a :: a in claims ==>
            claims[a].index < |entries| && lib.getAddress(entries[claims[a].index].key) == a)
  {
    ParsedRecords(lib, keccak, merkle, info);
  }

  /** On success each claim carries its key's tokens and amounts unchanged. */
  lemma ParsePassesFieldsThrough(lib: AddressLib, keccak: Keccak, merkle: MerkleLib, info: RewardInfo)
    requires |info.userRewards| < TWO_256 && Parse(lib, keccak, merkle, info).Success?
    ensures var entries, claims := info.userRewards, Parse(lib, keccak, merkle, info).value.userRewards;
      forall j :: 0 <= j < |entries| ==>
        var account := lib.getAddress(entries[j].key);
        && account in claims
        && claims[account].tokens == entries[j].reward.tokens
        && claims[account].cumulativeAmounts == entries[j].reward.cumulativeAmounts
  {
    ParsedRecords(lib, keccak, merkle, info);
  }

  /** On success the cycle is the input's and the root is that of the tree over every entry's leaf. */
  lemma ParseCommitsToEveryEntry(lib: AddressLib, keccak: Keccak, merkle: MerkleLib, info: RewardInfo)
    requires |info.userRewards| < TWO_256 && Parse(lib, keccak, merkle, info).Success?
    ensures var d := Parse(lib, keccak, merkle, info).value;
      d.cycle == info.cycle && d.merkleRoot == merkle.rootOf(InputLeaves(lib, keccak, info))
  {
    ParsedRecords(lib, keccak, merkle, info);
  }

  /** On success key j's proof is the tree's proof for leaf j, the leaf of exactly its fields. */
  lemma ParseProofsMatchLeaves(lib: AddressLib, keccak: Keccak, merkle: MerkleLib, info: RewardInfo)
    requires |info.userRewards| < TWO_256 && Parse(lib, keccak, merkle, info).Success?
    ensures var entries, claims := info.userRewards, Parse(lib, keccak, merkle, info).value.userRewards;
      var leaves := InputLeaves(lib, keccak, info);
      forall j :: 0 <= j < |entries| ==>
        var account := lib.getAddress(entries[j].key);
        account in claims && claims[account].proof == merkle.proofOf(leaves, leaves[j])
  {
    ParsedRecords(lib, keccak, merkle, info);
  }

  /**
    When merkleTree.js's proofs fold back to its root, every published claim passes
    verifyProof against the published root.
   */
  lemma ParsedClaimsVerify(lib: AddressLib, keccak: Keccak, merkle: MerkleLib, info: RewardInfo)
    requires ProofsReachRoot(merkle)
    requires |info.userRewards| < TWO_256 && Parse(lib, keccak, merkle, info).Success?
    ensures var d := Parse(lib, keccak, merkle, info).value;
      forall a :: a in d.userRewards ==>
        var c := d.userRewards[a];
        ProofVerifies(keccak, merkle, d.cycle, c.index, a, c.tokens, c.cumulativeAmounts, c.proof, d.merkleRoot)
  {
    ParsedRecords(lib, keccak, merkle, info);
    var records := Validate(lib, info.userRewards).value;
    var d := Parse(lib, keccak, merkle, info).value;
    forall a | a in d.userRewards
      ensures var c := d.userRewards[a];
        ProofVerifies(keccak, merkle, d.cycle, c.index, a, c.tokens, c.cumulativeAmounts, c.proof, d.merkleRoot)
    {
      var i :| 0 <= i < |records| && records[i].account == a;
      RecordProofVerifies(keccak, merkle, info.cycle, records, i);
    }
  }

  /**
    Lines 8-26: the `reduce` that fills the `mappedInfo` memo in place, checking membership
    before each insertion, then `treeElements` read back in key order.
   */
  method CollectRewards(lib: AddressLib, userRewards: seq<Entry>) returns (r: Result<seq<Record>, ParseError>)
    ensures r == Validate(lib, userRewards)
  {
    // mappedInfo is a JS object: its keys in insertion order, and its contents
    var keys: seq<Address> := [];
    var mappedInfo: map<Address, Reward> := map[];
    assert userRewards[..0] == [] && TreeElements(keys, mappedInfo) == [];
    for n := 0 to |userRewards|
      invariant forall k :: k in keys <==> k in mappedInfo
      invariant Validate(lib, userRewards[..n]) == Success(TreeElements(keys, mappedInfo))
    {
      var entry := userRewards[n];
      assert userRewards[..n + 1][..n] == userRewards[..n];
      assert userRewards[..n + 1][n] == entry;
      if !lib.isAddress(entry.key) {
        ValidateKeepsFailure(lib, userRewards, n + 1);
        return Failure(InvalidAddress(entry.key));
      }
      var parsedAddress := lib.getAddress(entry.key);
      AccountsOfTreeElements(keys, mappedInfo, parsedAddress);
      if parsedAddress in mappedInfo {
        ValidateKeepsFailure(lib, userRewards, n + 1);
        return Failure(DuplicateError(parsedAddress));
      }
      TreeElementsAppend(keys, mappedInfo, parsedAddress, entry.reward);
      mappedInfo := mappedInfo[parsedAddress := Reward(entry.reward.tokens, entry.reward.cumulativeAmounts)];
      keys := keys + [parsedAddress];
    }
    assert userRewards[..|userRewards|] == userRewards;
    r := Success(TreeElements(keys, mappedInfo));
  }

  /** Lines 29-40: the `reduce` that files each record's claim, with its proof, under its account. */
  method AttachProofs(tree: BalanceTree, cycle: Uint256, treeElements: seq<Record>)
    returns (userRewardsWithProof: map<Address, Claim>)
    requires tree.Valid() && tree.cycle == cycle && tree.records == treeElements
    ensures userRewardsWithProof == Claims(tree.keccak, tree.merkle, cycle, treeElements, |treeElements|)
  {
    userRewardsWithProof := map[];
    for index := 0 to |treeElements|
      invariant userRewardsWithProof == Claims(tree.keccak, tree.merkle, cycle, treeElements, index)
    {
      var account := treeElements[index].account;
      var tokens := treeElements[index].tokens;
      var cumulativeAmounts := treeElements[index].cumulativeAmounts;
      var proof := tree.GetProof(cycle, index, account, tokens, cumulativeAmounts);
      userRewardsWithProof := userRewardsWithProof[account := Claim(index, tokens, cumulativeAmounts, proof)];
    }
  }

  /** `parseRewards(rewardInfo)`. */
  method ParseRewards(lib: AddressLib, keccak: Keccak, merkle: MerkleLib, rewardInfo: RewardInfo)
    returns (r: Result<Distribution, ParseError>)
    requires |rewardInfo.userRewards| < TWO_256
    ensures r == Parse(lib, keccak, merkle, rewardInfo)
  {
    var cycle := rewardInfo.cycle;
    var collected := CollectRewards(lib, rewardInfo.userRewards);
    if collected.Failure? {
      return Failure(collected.error);
    }
    var treeElements := collected.value;
    if |treeElements| == 0 {
      return Failure(EmptyTree);
    }
    var tree := new BalanceTree(keccak, merkle, cycle, treeElements);
    var userRewardsWithProof := AttachProofs(tree, cycle, treeElements);
    r := Success(Distribution(cycle, tree.GetHexRoot(), userRewardsWithProof));
  }
}
