/** packages/core/src/wire.ts: the decoder accepts nothing the encoder does not write, and where each field stands. */
module WireExact {
  import opened Outcomes
  import opened Hex
  import opened Merkle
  import opened Wire

  // ------------------------------------------------ what each reader accepts

  lemma ReadStringIsExact(p: Bytes)
    requires ReadString(p).Some?
    ensures var (s, rest) := ReadString(p).value; p == PayloadString(s) + rest && |s| < 65536
  {
    var n := Length16(p[0], p[1]);
    assert U16LE(n) == [p[0], p[1]];
    assert p == [p[0], p[1]] + p[2..2 + n] + p[2 + n..];
  }

  lemma {:induction false} ReadProofIsExact(n: nat, p: Bytes)
    requires ReadProof(n, p).Some?
    ensures |ReadProof(n, p).value| == n && ProofBytes(ReadProof(n, p).value) == p
    decreases n
  {
    if n > 0 {
      ReadProofIsExact(n - 1, p[32..]);
      assert p == p[..32] + p[32..];
      var proof := ReadProof(n, p).value;
      assert proof[1..] == ReadProof(n - 1, p[32..]).value;
    }
  }

  function TermsBytes(op: AssetOp): Bytes
    requires op.Issue?
  {
    U8(op.decimals) + BigEndian(op.maxSupply.GetOr(0), 16) + [TransferByte(op.transfer)] + [SwapByte(op.swap)]
    + (PayloadString(op.description) + (PayloadString(op.image) + [KindByte(op.kind)]))
  }

  lemma EnumsAreExact(b: Byte)
    ensures ReadTransfer(b).Some? ==> TransferByte(ReadTransfer(b).value) == b
    ensures ReadSwap(b).Some? ==> SwapByte(ReadSwap(b).value) == b
    ensures ReadKind(b).Some? ==> KindByte(ReadKind(b).value) == b
  {}

  lemma TermsAreExact(name: Bytes, symbol: Bytes, p: Bytes)
    requires ReadTerms(name, symbol, p).Some?
    ensures var op := ReadTerms(name, symbol, p).value;
      && op.name == name && op.symbol == symbol && op.decimals < 256 && p == TermsBytes(op)
      && op.maxSupply != Some(0) && FitsAmount(op.maxSupply.GetOr(0))
      && |op.description| <= MAX_DESCRIPTION && |op.image| <= MAX_IMAGE
  {
    hide ReadString, PayloadString, BigEndian, Number, Pow256, TransferByte, SwapByte, KindByte;
    hide ReadTransfer, ReadSwap, ReadKind;
    var first := ReadString(p[19..]).value;
    var second := ReadString(first.1).value;
    ReadStringIsExact(p[19..]);
    ReadStringIsExact(first.1);
    BigEndianOfNumber(p[1..17]);
    EnumsAreExact(p[17]);
    EnumsAreExact(p[18]);
    EnumsAreExact(second.1[0]);
    assert second.1 == [second.1[0]];
    assert p == [p[0]] + p[1..17] + [p[17]] + [p[18]] + p[19..];
  }

  lemma IssueIsExact(p: Bytes)
    requires ReadIssue(p).Some?
    ensures var op := ReadIssue(p).value;
      op.Issue? && OpRefusal(op).None? && CanonicalOp(op) == op && IssuePayload(op) == p
  {
    hide ReadString, PayloadString, BigEndian, Number, Pow256, ReadTerms, NormalizeSymbol, IsSymbol;
    var first := ReadString(p).value;
    var second := ReadString(first.1).value;
    ReadStringIsExact(p);
    ReadStringIsExact(first.1);
    TermsAreExact(first.0, second.0, second.1);
    SymbolIsNormal(second.0);
  }

  lemma OfferIsExact(f: Fields)
    requires ReadOffer(f).Some? && FitsAmount(f.amount)
    ensures var op := ReadOffer(f).value;
      && op.SwapOffer? && OpRefusal(op).None? && CanonicalOp(op) == op
      && f.assetId == op.asset && f.amount == op.amount && f.link == op.counterparty.GetOr(Zero32())
      && f.payload == OfferPayload(op)
  {
    hide BigEndian, Number, Pow256;
    var p := f.payload;
    BigEndianOfNumber(p[32..48]);
    BigEndianOfNumber(p[48..]);
    assert p == p[..32] + p[32..48] + p[48..];
  }

  lemma ClaimIsExact(f: Fields)
    requires ReadClaim(f).Some? && FitsAmount(f.amount)
    ensures var op := ReadClaim(f).value;
      && op.Claim? && OpRefusal(op).None?
      && f.assetId == op.asset && f.amount == op.amount && f.link == op.root
      && f.payload == U8(|op.proof|) + ProofBytes(op.proof)
  {
    hide ReadProof, ProofBytes, Pow256;
    ReadProofIsExact(f.payload[0], f.payload[1..]);
    assert f.payload == [f.payload[0]] + f.payload[1..];
  }

  lemma TransferIsExact(f: Fields)
    requires ReadTransferOp(f).Some? && FitsAmount(f.amount)
    ensures var op := ReadTransferOp(f).value;
      && op.Transfer? && OpRefusal(op).None?
      && f.assetId == op.asset && f.amount == op.amount && f.link == op.to && f.payload == PayloadString(op.memo)
  {
    hide ReadString, PayloadString, Pow256;
    ReadStringIsExact(f.payload);
    var (memo, rest) := ReadString(f.payload).value;
    assert PayloadString(memo) + [] == PayloadString(memo);
  }

  lemma CountIsExact(payload: Bytes)
    requires |payload| == 4
    ensures Number(payload) <= 0xffff_ffff && BigEndian(Number(payload), 4) == payload
  {
    hide BigEndian, Number;
    BigEndianOfNumber(payload);
    assert Pow256(4) == 0x1_0000_0000;
  }

  /** What is read from five fields is canonical, encodable, and has exactly those fields. */
  lemma OpIsExact(h: HashFunction, account: Digest, f: Fields)
    requires ReadOp(h, account, f).Some? && FitsAmount(f.amount)
    ensures var op := ReadOp(h, account, f).value;
      OpRefusal(op).None? && CanonicalOp(op) == op && AssetFields(h, account, op) == f
  {
    hide ReadIssue, IssuePayload, ReadOffer, OfferPayload, ReadClaim, ProofBytes, ReadTransferOp, PayloadString;
    hide BigEndian, Number, Pow256, NormalizeSymbol, IsSymbol;
    match f.op
    case 0 => IssueIdIsExact(h, account, f);
    case 1 => EmptyString();
    case 3 => TransferIsExact(f);
    case 5 => CountIsExact(f.payload);
    case 7 => ClaimIsExact(f);
    case 8 => OfferIsExact(f);
    case _ =>
  }

  lemma IssueIdIsExact(h: HashFunction, account: Digest, f: Fields)
    requires ReadIssueOp(h, account, f).Some? && f.op == 0
    ensures var op := ReadIssueOp(h, account, f).value;
      OpRefusal(op).None? && CanonicalOp(op) == op && AssetFields(h, account, op) == f
  {
    hide ReadIssue, IssuePayload, NormalizeSymbol, IsSymbol, Pow256;
    IssueIsExact(f.payload);
    assert NormalizeSymbol(ReadIssueOp(h, account, f).value.symbol) == ReadIssueOp(h, account, f).value.symbol;
  }

  lemma FieldsAreExact(p: Bytes)
    requires ReadFields(p).Some?
    ensures FitsAmount(ReadFields(p).value.amount) && FieldBytes(ReadFields(p).value) == p
  {
    hide BigEndian, Number, Pow256;
    var f := ReadFields(p).value;
    BigEndianOfNumber(p[33..49]);
    assert U16LE(|f.payload|) == [p[81], p[82]];
    assert p == [p[0]] + p[1..33] + p[33..49] + p[49..81] + [p[81], p[82]] + p[83..];
  }

  lemma PrefixIsExact(h: HashFunction, p: Bytes)
    requires |p| >= 176 && p[..32] == h(DOMAIN_TEXT)
    ensures FitsAmount(Number(p[160..176]))
    ensures p == Preamble(h, Number(p[32..64])) + Common(p[64..96], p[96..128], p[128..160], Number(p[160..176]))
      + p[176..]
  {
    hide BigEndian, Number, Pow256;
    BigEndianOfNumber(p[32..64]);
    BigEndianOfNumber(p[160..176]);
    assert p == p[..32] + p[32..64] + p[64..96] + p[96..128] + p[128..160] + p[160..176] + p[176..];
  }

  lemma DecodedEncodesBack(h: HashFunction, p: Bytes)
    requires Decode(h, p).Some?
    ensures var body := Decode(h, p).value;
      Refusal(body).None? && Canonical(body) == body && Encode(h, body) == p
  {
    hide Preamble, Common, FieldBytes, AssetFields, ReadOp, ReadFields, Number, OpRefusal, CanonicalOp, FitsAmount;
    PrefixIsExact(h, p);
    if Number(p[32..64]) == BLOCK_TYPE_ASSET {
      FieldsAreExact(p[176..]);
      OpIsExact(h, p[64..96], ReadFields(p[176..]).value);
    }
  }

  /**
   * The preimages of blocks and the canonical encodable bodies match one to one: the decoder
   * reads a body from exactly the bytes the encoder writes for it, and refuses all others.
   */
  lemma DecodingIsExact(h: HashFunction, p: Bytes, body: Body)
    ensures Decode(h, p) == Some(body) <==> BlockPreimage(h, body) == Ok(p) && Canonical(body) == body
  {
    hide Decode, Encode, Refusal, Canonical;
    if Decode(h, p) == Some(body) { DecodedEncodesBack(h, p); }
    if BlockPreimage(h, body) == Ok(p) { PreimageRoundTrip(h, body); }
  }

  // --------------------------------------------------------- byte positions

  /** The code, asset, amount, link and payload that an asset block carries from byte 176 on. */
  ghost predicate Carries(p: Bytes, op: Byte, asset: Digest, amount: nat, link: Digest, payload: Bytes) {
    && |p| == 259 + |payload| && p[176] == op && p[177..209] == asset && p[209..225] == BigEndian(amount, 16)
    && p[225..257] == link && Length16(p[257], p[258]) == |payload| && p[259..] == payload
  }

  /** `kei-block-v1`. */
  function DomainText(): Bytes { seq(12, i requires 0 <= i < 12 => "kei-block-v1"[i] as int) }

  /** What stands in front of it, the same for every block. */
  ghost predicate Prefixed(h: HashFunction, p: Bytes, blockType: Byte, body: Body) {
    && |p| >= 176 && p[..32] == h(DomainText()) && p[32..63] == seq(31, _ => 0) && p[63] == blockType
    && p[64..96] == body.account && p[96..128] == body.previous && p[128..160] == body.representative
    && p[160..176] == BigEndian(body.balance, 16)
  }

  /** What each operation carries, with zeros wherever it has nothing to say. */
  ghost predicate OpCarried(h: HashFunction, p: Bytes, account: Digest, op: AssetOp) {
    var zero: Digest := seq(32, _ => 0);
    match op
    case Issue(_, symbol, _, _, _, _, _, _, _) =>
      Carries(p, 0, h(account + NormalizeSymbol(symbol)), 0, zero, IssuePayload(op))
    case Mint(asset, to, amount) => Carries(p, 1, asset, amount, to, [0, 0])
    case Burn(asset, amount) => Carries(p, 2, asset, amount, zero, [])
    case Transfer(asset, to, amount, memo) => Carries(p, 3, asset, amount, to, PayloadString(memo))
    case AssetReceive(source) => Carries(p, 4, zero, 0, source, [])
    case Commit(root, asset, count, total) => Carries(p, 5, asset, total, root, BigEndian(count, 4))
    case CommitClose(root) => Carries(p, 6, zero, 0, root, [])
    case Claim(root, asset, amount, proof) => Carries(p, 7, asset, amount, root, U8(|proof|) + ProofBytes(proof))
    case SwapOffer(asset, amount, _, _, counterparty, _) =>
      Carries(p, 8, asset, amount, if counterparty.None? then zero else counterparty.value, OfferPayload(op))
    case SwapAccept(offer, asset, amount) => Carries(p, 9, asset, amount, offer, [])
    case SwapCancel(offer) => Carries(p, 10, zero, 0, offer, [])
  }

  /** The bytes of every operation, by position; an issue names the asset its issuer and symbol hash to. */
  lemma AssetLayout(h: HashFunction, body: Body)
    requires body.Asset? && Refusal(body).None?
    ensures Prefixed(h, Encode(h, body), 7, body) && OpCarried(h, Encode(h, body), body.account, body.op)
  {
    hide BigEndian, NormalizeSymbol, IssuePayload, OfferPayload, ProofBytes, Preamble, Common, FieldBytes, Pow256;
    hide Prefixed, Carries, PayloadString;
    var f := AssetFields(h, body.account, body.op);
    PayloadFits(h, body.account, body.op);
    EmptyString();
    FieldPositions(h, body, f);
    PrefixPositions(h, body, 7, FieldBytes(f));
  }

  /** In an issue block the asset id is the hash of the issuer and the normalised symbol. */
  lemma IssueIdStandsInItsBytes(h: HashFunction, body: Body)
    requires body.Asset? && body.op.Issue? && Refusal(body).None?
    ensures BlockPreimage(h, body).Ok? && |BlockPreimage(h, body).value| >= 257
    ensures BlockPreimage(h, body).value[177..209] == h(body.account + NormalizeSymbol(body.op.symbol))
  {
    hide BigEndian, NormalizeSymbol, IssuePayload, Prefixed, Encode;
    AssetLayout(h, body);
  }

  lemma PrefixPositions(h: HashFunction, body: Body, blockType: Byte, rest: Bytes)
    ensures var common := Common(body.account, body.previous, body.representative, body.balance);
      Prefixed(h, Preamble(h, blockType) + common + rest, blockType, body)
  {
    TypeBytes(blockType);
    hide BigEndian;
    var common := Common(body.account, body.previous, body.representative, body.balance);
    var p := Preamble(h, blockType) + common + rest;
    assert p[..64] == Preamble(h, blockType) && p[64..176] == common;
    assert p[32..64] == BigEndian(blockType, 32);
    assert p[32..63] == p[32..64][..31];
    assert DomainText() == DOMAIN_TEXT;
  }

  lemma TypeBytes(n: Byte)
    ensures BigEndian(n, 32)[..31] == seq(31, _ => 0) && BigEndian(n, 32)[31] == n
  {
    ZeroBytes(31);
    assert BigEndian(n, 32) == BigEndian(0, 31) + [n];
  }

  lemma {:induction false} ZeroBytes(n: nat)
    ensures BigEndian(0, n) == seq(n, _ => 0)
    decreases n
  {
    if n > 0 { ZeroBytes(n - 1); }
  }

  lemma FieldPositions(h: HashFunction, body: Body, f: Fields)
    requires |f.payload| < 65536
    ensures var common := Common(body.account, body.previous, body.representative, body.balance);
      Carries(Preamble(h, 7) + common + FieldBytes(f), f.op, f.assetId, f.amount, f.link, f.payload)
  {
    hide BigEndian, Preamble, Common;
    var front := Preamble(h, 7) + Common(body.account, body.previous, body.representative, body.balance);
    var fields := FieldBytes(f);
    var p := front + fields;
    assert |front| == 176 && p[176..] == fields;
    assert fields[1..33] == f.assetId && fields[33..49] == BigEndian(f.amount, 16) && fields[49..81] == f.link;
    assert Length16(fields[81], fields[82]) == |f.payload| && fields[83..] == f.payload;
    assert p[177..209] == fields[1..33] && p[209..225] == fields[33..49] && p[225..257] == fields[49..81];
    assert p[259..] == fields[83..];
  }

  /** A state block is its link after the common part. */
  lemma StateLayout(h: HashFunction, body: Body)
    requires body.State? && Refusal(body).None?
    ensures var p := Encode(h, body); Prefixed(h, p, 6, body) && p[176..] == body.link
  {
    hide BigEndian, Preamble, Common, Prefixed, Pow256;
    PrefixPositions(h, body, 6, body.link);
  }
}
