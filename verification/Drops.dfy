/** packages/economy/src/drops.ts: the binding of a batch's salt to a drop table. */
module Drops {
  import opened Texts
  import opened Outcomes
  import opened Hex
  import opened Merkle
  import opened Tree

  const SALT_DOMAIN: Bytes := [107, 101, 105, 45, 100, 114, 111, 112, 45, 115, 97, 108, 116, 45, 118, 49]

  function DropSaltInput(digest: Text, nonce: Text): Bytes
    requires IsHexOf(digest, 32) && IsHexOf(nonce, 32)
  {
    SALT_DOMAIN + FromHex(digest) + FromHex(nonce)
  }

  /** None when the digest or the nonce is not 64 hexadecimal characters. */
  function DropSalt(h: HashFunction, digest: Text, nonce: Text): Option<HexHash> {
    if !IsHexOf(digest, 32) || !IsHexOf(nonce, 32) then None
    else Some(HashText(h, DropSaltInput(digest, nonce)))
  }

  datatype Award = Award(
    root: Text, asset: Text, amount: nat, proof: seq<Text>,
    table: Text, digest: Text, nonce: Text, saltProof: seq<Text>)

  datatype Table = Table(id: Text, digest: Text)

  datatype BindingError = BadAward | WrongTable | TableChanged | BadDigestOrNonce | UnboundDrop | BadLeaf | NotInDrop

  /** What `checkDropBinding` refuses first, or None when the award passes. */
  function CheckDropBinding(h: HashFunction, award: Award, table: Table, key: Digest): Option<BindingError> {
    if !IsHexOf(award.root, 32) || !IsHexOf(award.asset, 32) then Some(BadAward)
    else if award.table != table.id then Some(WrongTable)
    else if award.digest != table.digest then Some(TableChanged)
    else
      match DropSalt(h, award.digest, award.nonce)
      case None => Some(BadDigestOrNonce)
      case Some(salt) =>
        if !Accepts(h, SaltLeaf(h, salt).value, award.saltProof, award.root) then Some(UnboundDrop)
        else
          match LeafHash(h, key, award.asset, award.amount)
          case Err(_) => Some(BindingError.BadLeaf)
          case Ok(leaf) => if Accepts(h, leaf, award.proof, award.root) then None else Some(NotInDrop)
  }

  /** The domain text, then the digest's bytes, then the nonce's. */
  lemma DropSaltLayout(digest: Text, nonce: Text)
    requires IsHexOf(digest, 32) && IsHexOf(nonce, 32)
    ensures DropSaltInput(digest, nonce)[..16] == Ascii("kei-drop-salt-v1")
    ensures DropSaltInput(digest, nonce)[16..48] == FromHex(digest)
    ensures DropSaltInput(digest, nonce)[48..] == FromHex(nonce)
  {
    hide FromHex;
    assert Ascii("kei-drop-salt-v1") == SALT_DOMAIN;
  }

  /** The award is shaped as one, names this very table, and reveals a digest and a nonce of 32 bytes. */
  ghost predicate NamesTable(award: Award, table: Table) {
    && IsHexOf(award.root, 32) && IsHexOf(award.asset, 32)
    && award.table == table.id && award.digest == table.digest
    && IsHexOf(award.digest, 32) && IsHexOf(award.nonce, 32)
  }

  /** An award passes exactly when it names the table and the root proves both the table's salt and the amount owed. */
  lemma CheckIsExact(h: HashFunction, award: Award, table: Table, key: Digest)
    ensures CheckDropBinding(h, award, table, key).None? <==>
      && NamesTable(award, table) && award.amount < Pow256(16)
      && Accepts(h, HashText(h, SaltInput(h(DropSaltInput(award.digest, award.nonce)))), award.saltProof, award.root)
      && Accepts(h, HashText(h, LeafInput(key, FromHex(award.asset), award.amount)), award.proof, award.root)
    ensures CheckDropBinding(h, award, table, key) == Some(WrongTable) <==>
      IsHexOf(award.root, 32) && IsHexOf(award.asset, 32) && award.table != table.id
    ensures CheckDropBinding(h, award, table, key) == Some(TableChanged) <==>
      IsHexOf(award.root, 32) && IsHexOf(award.asset, 32) && award.table == table.id && award.digest != table.digest
    ensures CheckDropBinding(h, award, table, key) == Some(UnboundDrop) <==>
      && NamesTable(award, table)
      && !Accepts(h, HashText(h, SaltInput(h(DropSaltInput(award.digest, award.nonce)))), award.saltProof, award.root)
  {
    hide Accepts, HashText, DropSaltInput, LeafInput, Pow256, FromHex;
    if IsHexOf(award.digest, 32) && IsHexOf(award.nonce, 32) {
      assert FromHex(HashText(h, DropSaltInput(award.digest, award.nonce)))
          == h(DropSaltInput(award.digest, award.nonce));
    }
  }

  lemma DropSaltInputInjective(d1: Text, n1: Text, d2: Text, n2: Text)
    requires IsHexOf(d1, 32) && IsHexOf(n1, 32) && IsHexOf(d2, 32) && IsHexOf(n2, 32)
    requires DropSaltInput(d1, n1) == DropSaltInput(d2, n2)
    ensures FromHex(d1) == FromHex(d2) && FromHex(n1) == FromHex(n2)
  {
    hide FromHex;
    var x, y := DropSaltInput(d1, n1), DropSaltInput(d2, n2);
    assert x[16..48] == FromHex(d1) && y[16..48] == FromHex(d2);
    assert x[48..] == FromHex(n1) && y[48..] == FromHex(n2);
  }

  /**
   * A root binds one table and one nonce: if a batch was built with the salt of
   * (digest, nonce), an award that passes the check names that digest and that nonce, and
   * the batch owes the account exactly the awarded amount of the awarded asset.
   */
  lemma BindingIsSound(
      h: HashFunction, keyOf: KeyOf, decimals: nat, entries: seq<Entry>, c: Commit,
      digest: Text, nonce: Text, award: Award, table: Table, key: Digest)
    requires Built(h, keyOf, decimals, entries, c) && DropSalt(h, digest, nonce) == Some(c.salt)
    requires award.root == c.root && CheckDropBinding(h, award, table, key).None?
    requires IsHexOf(award.asset, 32) && IsHexOf(award.digest, 32) && IsHexOf(award.nonce, 32)
    requires AllSiblings(award.proof) && AllSiblings(award.saltProof)
    requires NoCollision(h, {DropSaltInput(digest, nonce), DropSaltInput(award.digest, award.nonce)})
    requires NoCollision(h, Hashed(h, keyOf, c, LeafInput(key, FromHex(award.asset), award.amount), award.proof))
    requires NoCollision(h,
      Hashed(h, keyOf, c, SaltInput(h(DropSaltInput(award.digest, award.nonce))), award.saltProof))
    ensures IsHexOf(digest, 32) && FromHex(table.digest) == FromHex(digest)
    ensures IsHexOf(nonce, 32) && FromHex(award.nonce) == FromHex(nonce)
    ensures exists a :: a in c.merged && keyOf(a) == Some(key) && c.merged[a] == award.amount
    ensures IsHex(c.asset) && FromHex(award.asset) == FromHex(c.asset)
  {
    hide Built, Hashed, NoCollision, HashText, LeafInput, Accepts, DropSaltInput, FromHex, Pow256;
    var salt := DropSalt(h, award.digest, award.nonce).value;
    SaltIsSound(h, keyOf, decimals, entries, c, salt, award.saltProof);
    EntitlementIsSound(h, keyOf, decimals, entries, c, key, award.asset, award.amount, award.proof);
    SameSalt(h, digest, nonce, award.digest, award.nonce);
  }

  lemma SameSalt(h: HashFunction, d1: Text, n1: Text, d2: Text, n2: Text)
    requires IsHexOf(d1, 32) && IsHexOf(n1, 32) && IsHexOf(d2, 32) && IsHexOf(n2, 32)
    requires NoCollision(h, {DropSaltInput(d1, n1), DropSaltInput(d2, n2)})
    requires h(DropSaltInput(d1, n1)) == h(DropSaltInput(d2, n2))
    ensures FromHex(d1) == FromHex(d2) && FromHex(n1) == FromHex(n2)
  {
    hide DropSaltInput, FromHex, IsHexOf;
    DropSaltInputInjective(d1, n1, d2, n2);
  }

  /** An honest award passes the check: the batch's own proofs, its table and its nonce. */
  lemma HonestAwardPasses(
      h: HashFunction, keyOf: KeyOf, decimals: nat, entries: seq<Entry>, c: Commit, i: nat,
      digest: Text, nonce: Text, table: Table)
    requires Built(h, keyOf, decimals, entries, c) && i < |c.recipients| && |c.leaves| <= Pow2(MAX_PROOF_LENGTH)
    requires DropSalt(h, digest, nonce) == Some(c.salt) && IsHexOf(c.asset, 32) && table.digest == digest
    ensures |c.leaves| == |c.recipients| + 1
    ensures c.recipients[i] in c.merged && keyOf(c.recipients[i]).Some?
    ensures CheckDropBinding(
      h,
      Award(c.root, c.asset, c.merged[c.recipients[i]], Path(h, c.leaves, i),
            table.id, digest, nonce, Path(h, c.leaves, |c.recipients|)),
      table, keyOf(c.recipients[i]).value).None?
  {
    hide Built, LeafHash, SaltLeaf, Accepts, Path, Pow2, DropSaltInput, HashText, IsHex;
    BuiltLeaves(h, keyOf, decimals, entries, c);
    CommitIsComplete(h, keyOf, decimals, entries, c, i);
    CommitIsComplete(h, keyOf, decimals, entries, c, |c.recipients|);
  }
}
