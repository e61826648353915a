/**
  The byte string a balance-tree leaf hashes: the Solidity "non-standard packed mode"
  encoding of `(uint256 cycle, uint256 index, address account, address[] tokens,
  uint256[] cumulativeAmounts)`.  In that mode a `uint256` is 32 big-endian bytes, a
  scalar `address` is its raw 20 bytes, and every element of an array is padded to
  32 bytes (an address with twelve leading zero bytes); arrays carry no length prefix.
 */
module SolidityPacked {

  type Byte = b: int | 0 <= b < 256

  /** An account or token address: exactly 20 bytes. */
  type Address = a: seq<Byte> | |a| == 20 witness seq(20, _ => 0)

  /** 256^k, the number of values k bytes can hold. */
  function Pow256(k: nat): (p: nat)
    ensures p > 0
  {
    if k == 0 then 1 else 256 * Pow256(k - 1)
  }

  const TWO_256: nat := Pow256(32)

  /** An unsigned 256-bit integer, the Solidity `uint256`. */
  type Uint256 = n: nat | n < TWO_256

  lemma {:induction false} Pow256Grows(j: nat, k: nat)
    requires j < k
    ensures Pow256(j) < Pow256(k)
  {
    if j < k - 1 {
      Pow256Grows(j, k - 1);
    }
  }

  function Zeros(k: nat): (z: seq<Byte>)
  {
    seq(k, _ => 0)
  }

  /** The k-byte big-endian representation of n (of n modulo 256^k when n is wider). */
  function BigEndian(n: nat, k: nat): (bytes: seq<Byte>)
    ensures |bytes| == k
  {
    if k == 0 then [] else BigEndian(n / 256, k - 1) + [n % 256]
  }

  /** The unsigned value a big-endian byte string denotes. */
  function FromBigEndian(bytes: seq<Byte>): (n: nat)
    ensures n < Pow256(|bytes|)
  {
    if bytes == [] then 0
    else
      var high := FromBigEndian(bytes[..|bytes| - 1]);
      assert high * 256 <= (Pow256(|bytes| - 1) - 1) * 256;
      high * 256 + bytes[|bytes| - 1]
  }

  lemma {:induction false} FromBigEndianOfBigEndian(n: nat, k: nat)
    requires n < Pow256(k)
    ensures FromBigEndian(BigEndian(n, k)) == n
  {
    if k > 0 {
      var bytes := BigEndian(n, k);
      assert bytes[..k - 1] == BigEndian(n / 256, k - 1);
      FromBigEndianOfBigEndian(n / 256, k - 1);
    }
  }

  lemma {:induction false} BigEndianOfFromBigEndian(bytes: seq<Byte>)
    ensures BigEndian(FromBigEndian(bytes), |bytes|) == bytes
  {
    if bytes != [] {
      var k := |bytes|;
      var init := bytes[..k - 1];
      BigEndianOfFromBigEndian(init);
      assert bytes == init + [bytes[k - 1]];
    }
  }

  lemma {:induction false} BigEndianOfZero(m: nat)
    ensures BigEndian(0, m) == Zeros(m)
  {
    if m > 0 {
      BigEndianOfZero(m - 1);
    }
  }

  /** Writing a value in more bytes than it needs only adds leading zero bytes. */
  lemma {:induction false} BigEndianWiden(n: nat, k: nat, m: nat)
    requires n < Pow256(k)
    ensures BigEndian(n, k + m) == Zeros(m) + BigEndian(n, k)
  {
    if k == 0 {
      BigEndianOfZero(m);
    } else {
      BigEndianWiden(n / 256, k - 1, m);
    }
  }

  /** A `uint256` in packed mode. */
  function Word(n: Uint256): (bytes: seq<Byte>)
  {
    BigEndian(n, 32)
  }

  lemma WordInjective(x: Uint256, y: Uint256)
    requires Word(x) == Word(y)
    ensures x == y
  {
    FromBigEndianOfBigEndian(x, 32);
    FromBigEndianOfBigEndian(y, 32);
  }

  /** An `address` as an element of an `address[]` in packed mode. */
  function PadAddress(a: Address): (bytes: seq<Byte>)
  {
    Zeros(12) + a
  }

  function Concat(chunks: seq<seq<Byte>>): (bytes: seq<Byte>)
  {
    if chunks == [] then [] else chunks[0] + Concat(chunks[1..])
  }

  ghost predicate Words(chunks: seq<seq<Byte>>)
  {
    forall i :: 0 <= i < |chunks| ==> |chunks[i]| == 32
  }

  lemma {:induction false} ConcatWords(chunks: seq<seq<Byte>>)
    requires Words(chunks)
    ensures |Concat(chunks)| == 32 * |chunks|
    ensures forall j :: 0 <= j < |chunks| ==> Concat(chunks)[32 * j..32 * j + 32] == chunks[j]
  {
    if chunks != [] {
      ConcatWords(chunks[1..]);
      var rest := Concat(chunks[1..]);
      forall j | 0 <= j < |chunks|
        ensures Concat(chunks)[32 * j..32 * j + 32] == chunks[j]
      {
        if j > 0 {
          assert chunks[1..][j - 1] == chunks[j];
          assert Concat(chunks)[32 * j..32 * j + 32] == rest[32 * (j - 1)..32 * (j - 1) + 32];
        }
      }
    }
  }

  /** The packed `address[]`: one 32-byte padded word per token, no length prefix. */
  function PackAddresses(tokens: seq<Address>): (bytes: seq<Byte>)
  {
    Concat(seq(|tokens|, i requires 0 <= i < |tokens| => PadAddress(tokens[i])))
  }

  /** The packed `uint256[]`: one 32-byte word per amount, no length prefix. */
  function PackWords(amounts: seq<Uint256>): (bytes: seq<Byte>)
  {
    Concat(seq(|amounts|, i requires 0 <= i < |amounts| => Word(amounts[i])))
  }

  lemma PackAddressesInjective(xs: seq<Address>, ys: seq<Address>)
    requires |xs| == |ys| && PackAddresses(xs) == PackAddresses(ys)
    ensures |PackAddresses(xs)| == 32 * |xs|
    ensures xs == ys
  {
    var cx := seq(|xs|, i requires 0 <= i < |xs| => PadAddress(xs[i]));
    var cy := seq(|ys|, i requires 0 <= i < |ys| => PadAddress(ys[i]));
    ConcatWords(cx);
    ConcatWords(cy);
    forall i | 0 <= i < |xs|
      ensures xs[i] == ys[i]
    {
      assert cx[i] == cy[i];
      assert xs[i] == cx[i][12..] && ys[i] == cy[i][12..];
    }
  }

  lemma PackWordsInjective(xs: seq<Uint256>, ys: seq<Uint256>)
    requires |xs| == |ys| && PackWords(xs) == PackWords(ys)
    ensures xs == ys
  {
    var cx := seq(|xs|, i requires 0 <= i < |xs| => Word(xs[i]));
    var cy := seq(|ys|, i requires 0 <= i < |ys| => Word(ys[i]));
    ConcatWords(cx);
    ConcatWords(cy);
    forall i | 0 <= i < |xs|
      ensures xs[i] == ys[i]
    {
      assert cx[i] == cy[i];
      WordInjective(xs[i], ys[i]);
    }
  }

  /**
    `solidityPack(['uint256','uint256','address','address[]','uint256[]'],
    [cycle, index, account, tokens, cumulativeAmounts])`.
   */
  function EncodePacked(cycle: Uint256, index: Uint256, account: Address,
                        tokens: seq<Address>, amounts: seq<Uint256>): (bytes: seq<Byte>)
  {
    Word(cycle) + Word(index) + account + PackAddresses(tokens) + PackWords(amounts)
  }

  /** Where each field sits in the packed leaf: the fields appear in declaration order. */
  lemma EncodePackedLayout(cycle: Uint256, index: Uint256, account: Address,
                           tokens: seq<Address>, amounts: seq<Uint256>)
    ensures var bytes := EncodePacked(cycle, index, account, tokens, amounts);
      var t := 84 + 32 * |tokens|;
      && |bytes| == t + 32 * |amounts|
      && bytes[..32] == Word(cycle)
      && bytes[32..64] == Word(index)
      && bytes[64..84] == account
      && bytes[84..t] == PackAddresses(tokens)
      && bytes[t..] == PackWords(amounts)
  {
    ConcatWords(seq(|tokens|, i requires 0 <= i < |tokens| => PadAddress(tokens[i])));
    ConcatWords(seq(|amounts|, i requires 0 <= i < |amounts| => Word(amounts[i])));
  }

  /**
    Two leaves whose token and amount arrays each have matching lengths have the same
    packed encoding only when all five fields agree.
   */
  lemma EncodePackedInjective(cycle: Uint256, index: Uint256, account: Address,
                              tokens: seq<Address>, amounts: seq<Uint256>,
                              cycle': Uint256, index': Uint256, account': Address,
                              tokens': seq<Address>, amounts': seq<Uint256>)
    requires |tokens| == |amounts| && |tokens'| == |amounts'|
    requires EncodePacked(cycle, index, account, tokens, amounts)
          == EncodePacked(cycle', index', account', tokens', amounts')
    ensures cycle == cycle' && index == index' && account == account'
    ensures tokens == tokens' && amounts == amounts'
  {
    EncodePackedLayout(cycle, index, account, tokens, amounts);
    EncodePackedLayout(cycle', index', account', tokens', amounts');
    assert |tokens| == |tokens'|;
    WordInjective(cycle, cycle');
    WordInjective(index, index');
    PackAddressesInjective(tokens, tokens');
    PackWordsInjective(amounts, amounts');
  }

  /** The index always occupies bytes 32..64, so leaves at different indices never share an encoding. */
  lemma EncodePackedSeparatesIndices(cycle: Uint256, index: Uint256, account: Address,
                                     tokens: seq<Address>, amounts: seq<Uint256>,
                                     cycle': Uint256, index': Uint256, account': Address,
                                     tokens': seq<Address>, amounts': seq<Uint256>)
    requires index != index'
    ensures EncodePacked(cycle, index, account, tokens, amounts)
         != EncodePacked(cycle', index', account', tokens', amounts')
  {
    EncodePackedLayout(cycle, index, account, tokens, amounts);
    EncodePackedLayout(cycle', index', account', tokens', amounts');
    if EncodePacked(cycle, index, account, tokens, amounts)
       == EncodePacked(cycle', index', account', tokens', amounts') {
      WordInjective(index, index');
    }
  }

  /** A padded address element is the `uint256` word of the address's value. */
  lemma PadAddressIsWord(token: Address)
    ensures FromBigEndian(token) < TWO_256
    ensures Word(FromBigEndian(token)) == PadAddress(token)
  {
    Pow256Grows(20, 32);
    BigEndianWiden(FromBigEndian(token), 20, 12);
    BigEndianOfFromBigEndian(token);
  }

  lemma PackSingletons(token: Address, amount: Uint256)
    ensures PackAddresses([token]) == PadAddress(token)
    ensures PackWords([amount]) == Word(amount)
  {
    assert seq(1, i requires 0 <= i < 1 => PadAddress([token][i])) == [PadAddress(token)];
    assert seq(1, i requires 0 <= i < 1 => Word([amount][i])) == [Word(amount)];
    assert [PadAddress(token)][1..] == [] == [Word(amount)][1..];
    assert Concat([PadAddress(token)]) == PadAddress(token) + Concat([]);
    assert Concat([Word(amount)]) == Word(amount) + Concat([]);
  }

  /**
    Without a length check, a record with one token and no amount and a record with no
    token and one amount (the token's value) pack to the same bytes.
   */
  lemma MismatchedArraysCollide(cycle: Uint256, index: Uint256, account: Address, token: Address)
    ensures var amount := FromBigEndian(token);
      && amount < TWO_256
      && EncodePacked(cycle, index, account, [token], [])
         == EncodePacked(cycle, index, account, [], [amount])
  {
    PadAddressIsWord(token);
    var amount: Uint256 := FromBigEndian(token);
    PackSingletons(token, amount);
    assert PackAddresses([]) == [] == PackWords([]);
  }
}
