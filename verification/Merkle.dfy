/** packages/core/src/merkle.ts: leaves, nodes and proof folding, over any hash. */
module Merkle {
  import opened Texts
  import opened Outcomes
  import opened Hex

  type Digest = b: Bytes | |b| == 32 witness seq(32, _ => 0)
  /**
   * The hash is a parameter. Where a theorem needs it to tell inputs apart it says so of
   * the finite set of byte strings actually hashed: no function to 32 bytes is injective
   * on all inputs, so nothing stronger is ever assumed.
   */
  type HashFunction = Bytes -> Digest

  /** 64 hexadecimal characters. */
  type HexHash = t: Text | IsHexOf(t, 32) witness seq(64, _ => 48)

  const LEAF_TAG: Byte := 0
  const NODE_TAG: Byte := 1
  const SALT_TAG: Byte := 2
  const MAX_PROOF_LENGTH := 48

  ghost predicate NoCollision(h: HashFunction, inputs: set<Bytes>) {
    forall x, y :: x in inputs && y in inputs && h(x) == h(y) ==> x == y
  }

  /** A hash as the SDK itself prints one. */
  predicate UpperHex(t: HexHash) {
    ToHex(FromHex(t)) == t
  }

  /** The upper-case text of a hash. */
  function HashText(h: HashFunction, input: Bytes): (t: HexHash)
    ensures UpperHex(t) && FromHex(t) == h(input)
  {
    FromToHex(h(input));
    ToHex(h(input))
  }

  lemma EqualHashTexts(h: HashFunction, x: Bytes, y: Bytes, inputs: set<Bytes>)
    requires NoCollision(h, inputs) && x in inputs && y in inputs
    requires HashText(h, x) == HashText(h, y)
    ensures x == y
  {}

  // --------------------------------------------------------------- leaves

  function LeafInput(key: Digest, asset: Bytes, amount: nat): Bytes {
    [LEAF_TAG] + key + asset + BigEndian(amount, 16)
  }

  function SaltInput(salt: Bytes): Bytes { [SALT_TAG] + salt }

  function LeafHash(h: HashFunction, key: Digest, asset: Text, amount: int): Result<HexHash, HexError> {
    if !IsHex(asset) then Err(BadHex)
    else if amount < 0 then Err(NegativeAmount)
    else if amount >= Pow256(16) then Err(Overflow)
    else Ok(HashText(h, LeafInput(key, FromHex(asset), amount)))
  }

  /** None when the salt is not 64 hexadecimal characters. */
  function SaltLeaf(h: HashFunction, salt: Text): Option<HexHash> {
    if !IsHexOf(salt, 32) then None else Some(HashText(h, SaltInput(FromHex(salt))))
  }

  /** A leaf is its tag, the key, the asset and sixteen bytes of amount; a salt is tagged apart from it. */
  lemma LeafInputLayout(key: Digest, asset: Bytes, amount: nat, salt: Bytes)
    requires amount < Pow256(16)
    ensures var p := LeafInput(key, asset, amount);
      && |p| == 49 + |asset| && p[0] == 0 && p[1..33] == key && p[33..33 + |asset|] == asset
      && |p[33 + |asset|..]| == 16 && Number(p[33 + |asset|..]) == amount
    ensures |SaltInput(salt)| == 1 + |salt| && SaltInput(salt)[0] == 2 && SaltInput(salt)[1..] == salt
  {
    hide Number, BigEndian, Pow256;
    var p := LeafInput(key, asset, amount);
    assert p[33 + |asset|..] == BigEndian(amount, 16);
    NumberOfBigEndian(amount, 16);
  }

  /** A leaf is the hash of its bytes, refused for an asset that is no hexadecimal or an amount that does not fit. */
  lemma LeafHashIsExact(h: HashFunction, key: Digest, asset: Text, amount: int)
    ensures LeafHash(h, key, asset, amount).Ok? <==> IsHex(asset) && 0 <= amount < Pow256(16)
    ensures LeafHash(h, key, asset, amount).Ok? ==>
      FromHex(LeafHash(h, key, asset, amount).value) == h(LeafInput(key, FromHex(asset), amount))
  {
    hide LeafInput, HashText, Pow256;
  }

  /** An entitlement's bytes say who, of what, and how much, with nothing ambiguous between them. */
  lemma LeafInputInjective(k1: Digest, a1: Bytes, n1: nat, k2: Digest, a2: Bytes, n2: nat)
    requires n1 < Pow256(16) && n2 < Pow256(16)
    requires LeafInput(k1, a1, n1) == LeafInput(k2, a2, n2)
    ensures k1 == k2 && a1 == a2 && n1 == n2
  {
    hide BigEndian, Pow256;
    var x, y := LeafInput(k1, a1, n1), LeafInput(k2, a2, n2);
    assert x[1..33] == k1 && y[1..33] == k2;
    assert |a1| == |a2|;
    assert x[33..33 + |a1|] == a1 && y[33..33 + |a1|] == a2;
    assert x[33 + |a1|..] == BigEndian(n1, 16) && y[33 + |a1|..] == BigEndian(n2, 16);
    BigEndianInjective(n1, n2, 16);
  }

  // ---------------------------------------------------------------- nodes

  /** What an internal node hashes: its tag, then the two children in text order. */
  function NodeInput(left: HexHash, right: HexHash): Bytes {
    if left == right || Less(left, right) then [NODE_TAG] + FromHex(left) + FromHex(right)
    else [NODE_TAG] + FromHex(right) + FromHex(left)
  }

  function CombineHashes(h: HashFunction, left: HexHash, right: HexHash): HexHash {
    HashText(h, NodeInput(left, right))
  }

  /** A pair hashes alike in either order, which is why a proof needs no direction bits. */
  lemma CombineCommutes(h: HashFunction, left: HexHash, right: HexHash)
    ensures CombineHashes(h, left, right) == CombineHashes(h, right, left)
  {
    LessTrichotomy(left, right);
  }

  /** The tag of a node, then the child whose text is the lesser, then the other. */
  lemma NodeInputLayout(left: HexHash, right: HexHash)
    ensures |NodeInput(left, right)| == 65 && NodeInput(left, right)[0] == 1
    ensures !Less(right, left) ==> NodeInput(left, right)[1..33] == FromHex(left)
    ensures !Less(right, left) ==> NodeInput(left, right)[33..] == FromHex(right)
    ensures Less(right, left) ==> NodeInput(left, right)[1..33] == FromHex(right)
    ensures Less(right, left) ==> NodeInput(left, right)[33..] == FromHex(left)
  {
    hide FromHex;
    LessTrichotomy(left, right);
  }

  /** Equal node inputs have the same two children, in some order. */
  lemma NodeInputChildren(a: HexHash, b: HexHash, c: HexHash, d: HexHash)
    requires NodeInput(a, b) == NodeInput(c, d)
    ensures FromHex(a) == FromHex(c) || FromHex(a) == FromHex(d)
  {
    hide FromHex;
    var x, y := NodeInput(a, b), NodeInput(c, d);
    assert x[1..33] == y[1..33] && x[33..] == y[33..];
  }

  // ---------------------------------------------------------------- proofs

  predicate AllSiblings(proof: seq<Text>) { forall i :: 0 <= i < |proof| ==> IsHexOf(proof[i], 32) }

  /** Folding a leaf up a list of siblings; the same fold as `foldProof` of the drop tables. */
  function Fold(h: HashFunction, leaf: HexHash, proof: seq<HexHash>): HexHash {
    if proof == [] then leaf
    else CombineHashes(h, Fold(h, leaf, proof[..|proof| - 1]), proof[|proof| - 1])
  }

  predicate Accepts(h: HashFunction, leaf: Text, proof: seq<Text>, root: Text) {
    IsHexOf(leaf, 32) && IsHexOf(root, 32) && |proof| <= MAX_PROOF_LENGTH && AllSiblings(proof) &&
    Fold(h, leaf, proof) == root
  }

  method VerifyProof(h: HashFunction, leaf: Text, proof: seq<Text>, root: Text) returns (ok: bool)
    ensures ok == Accepts(h, leaf, proof, root)
  {
    hide IsHex, IsHexOf, CombineHashes;
    if !IsHexOf(leaf, 32) || !IsHexOf(root, 32) {
      return false;
    }
    if |proof| > MAX_PROOF_LENGTH {
      return false;
    }
    var current := leaf;
    for i := 0 to |proof|
      invariant AllSiblings(proof[..i])
      invariant current == Fold(h, leaf, proof[..i])
    {
      if !IsHexOf(proof[i], 32) {
        return false;
      }
      assert proof[..i + 1][..i] == proof[..i];
      current := CombineHashes(h, current, proof[i]);
    }
    assert proof[..|proof|] == proof;
    return current == root;
  }

  /** Folding from the leaf end: one sibling, then the rest. */
  lemma {:induction false} FoldFirst(h: HashFunction, leaf: HexHash, proof: seq<HexHash>)
    requires proof != []
    ensures Fold(h, leaf, proof) == Fold(h, CombineHashes(h, leaf, proof[0]), proof[1..])
    decreases |proof|
  {
    var front, last := proof[..|proof| - 1], proof[|proof| - 1];
    if |proof| == 1 {
      assert front == [] && proof[1..] == [];
    } else {
      FoldFirst(h, leaf, front);
      assert front[1..] == proof[1..][..|proof| - 2];
      assert proof[1..][|proof| - 2] == last;
    }
  }

  /** Everything hashed while folding a proof. */
  ghost function FoldInputs(h: HashFunction, leaf: HexHash, proof: seq<HexHash>): set<Bytes> {
    if proof == [] then {}
    else FoldInputs(h, leaf, proof[..|proof| - 1]) +
         {NodeInput(Fold(h, leaf, proof[..|proof| - 1]), proof[|proof| - 1])}
  }
}
