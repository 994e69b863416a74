/** packages/core/src/wire.ts: the bytes a block hashes over, and a decoder showing exactly what they say. */
module Wire {
  import opened Outcomes
  import opened Hex
  import opened Merkle

  const MAX_NAME := 64
  const MAX_DESCRIPTION := 256
  const MAX_IMAGE := 128
  const MAX_MEMO := 128
  const MAX_SAFE_INTEGER := 9007199254740991

  const BLOCK_TYPE_STATE := 6
  const BLOCK_TYPE_ASSET := 7

  function Zero32(): Digest { seq(32, _ => 0) }

  datatype TransferPolicy = Open | IssuerOnly | NoTransfer
  datatype SwapPolicy = TwoWay | OneWay | Off
  datatype AssetKind = Unspecified | Token | Item
  datatype Subtype = OpenBlock | Send | Receive | Change

  datatype AssetOp =
    | Issue(name: Bytes, symbol: Bytes, decimals: nat, maxSupply: Option<nat>, transfer: TransferPolicy,
            swap: SwapPolicy, description: Bytes, image: Bytes, kind: AssetKind)
    | Mint(asset: Digest, to: Digest, amount: nat)
    | Burn(asset: Digest, amount: nat)
    | Transfer(asset: Digest, to: Digest, amount: nat, memo: Bytes)
    | AssetReceive(source: Digest)
    | Commit(root: Digest, asset: Digest, count: nat, total: nat)
    | CommitClose(root: Digest)
    | Claim(root: Digest, asset: Digest, amount: nat, proof: seq<Digest>)
    | SwapOffer(asset: Digest, amount: nat, wantAsset: Digest, wantAmount: nat,
                counterparty: Option<Digest>, expiresAt: Option<int>)
    | SwapAccept(offer: Digest, asset: Digest, amount: nat)
    | SwapCancel(offer: Digest)

  datatype Body =
    | State(subtype: Subtype, account: Digest, previous: Digest, representative: Digest,
            balance: nat, link: Digest, memo: Option<Bytes>)
    | Asset(account: Digest, previous: Digest, representative: Digest, balance: nat, op: AssetOp)

  // ------------------------------------------------------------- symbols

  predicate IsBlank(b: Byte) { 9 <= b <= 13 || b == 32 }

  function TrimLeft(s: Bytes): Bytes { if s != [] && IsBlank(s[0]) then TrimLeft(s[1..]) else s }

  function TrimRight(s: Bytes): Bytes { if s != [] && IsBlank(s[|s| - 1]) then TrimRight(s[..|s| - 1]) else s }

  function Upper(s: Bytes): (r: Bytes)
    ensures |r| == |s|
  {
    seq(|s|, i requires 0 <= i < |s| => UpperByte(s[i]))
  }

  function UpperByte(b: Byte): Byte { if 97 <= b <= 122 then b - 32 else b }

  predicate IsAlphanumeric(b: Byte) { 48 <= b <= 57 || 65 <= b <= 90 }

  predicate IsSymbol(s: Bytes) {
    1 <= |s| <= 20 && IsAlphanumeric(s[0]) &&
    forall i :: 0 <= i < |s| ==> IsAlphanumeric(s[i]) || s[i] == 45
  }

  /** `normalizeSymbol` on ASCII text. */
  function NormalizeSymbol(symbol: Bytes): (r: Bytes)
    ensures |r| <= |symbol|
  {
    Upper(TrimmedSymbol(symbol))
  }

  function TrimmedSymbol(symbol: Bytes): (r: Bytes)
    ensures |r| <= |symbol|
  {
    TrimBounds(symbol);
    TrimRight(TrimLeft(symbol))
  }

  lemma {:induction false} TrimBounds(s: Bytes)
    ensures |TrimLeft(s)| <= |s|
    ensures |TrimRight(TrimLeft(s))| <= |TrimLeft(s)|
    decreases |s|
  {
    if s != [] && IsBlank(s[0]) { TrimBounds(s[1..]); }
    TrimRightBound(TrimLeft(s));
  }

  lemma {:induction false} TrimRightBound(s: Bytes)
    ensures |TrimRight(s)| <= |s|
    decreases |s|
  {
    if s != [] && IsBlank(s[|s| - 1]) { TrimRightBound(s[..|s| - 1]); }
  }

  /** A normalised symbol is its own normal form. */
  lemma SymbolIsNormal(symbol: Bytes)
    requires IsSymbol(symbol)
    ensures NormalizeSymbol(symbol) == symbol
  {
    assert TrimLeft(symbol) == symbol;
    assert IsAlphanumeric(symbol[|symbol| - 1]) || symbol[|symbol| - 1] == 45;
    assert TrimRight(symbol) == symbol;
    assert Upper(symbol) == symbol;
  }

  ghost predicate AllBlank(s: Bytes) { forall i :: 0 <= i < |s| ==> s[i] in {9, 10, 11, 12, 13, 32} }

  /** A letter of either case, a digit or a hyphen. */
  ghost predicate IsSymbolByte(b: Byte) { 48 <= b <= 57 || 65 <= b <= 90 || 97 <= b <= 122 || b == 45 }

  /** One to twenty letters, digits and hyphens, the first no hyphen. */
  ghost predicate IsWritableSymbol(s: Bytes) {
    1 <= |s| <= 20 && s[0] != 45 && forall i :: 0 <= i < |s| ==> IsSymbolByte(s[i])
  }

  lemma {:induction false} TrimLeftBlanks(front: Bytes, s: Bytes)
    requires AllBlank(front) && s != [] && !IsBlank(s[0])
    ensures TrimLeft(front + s) == s
    decreases |front|
  {
    if front == [] {
      assert front + s == s;
    } else {
      assert (front + s)[1..] == front[1..] + s;
      TrimLeftBlanks(front[1..], s);
    }
  }

  lemma {:induction false} TrimRightBlanks(s: Bytes, back: Bytes)
    requires AllBlank(back) && s != [] && !IsBlank(s[|s| - 1])
    ensures TrimRight(s + back) == s
    decreases |back|
  {
    if back == [] {
      assert s + back == s;
    } else {
      assert (s + back)[..|s + back| - 1] == s + back[..|back| - 1];
      TrimRightBlanks(s, back[..|back| - 1]);
    }
  }

  /** A symbol may be written in either case and with blanks around it: it is accepted, raised and trimmed. */
  lemma SymbolIsRaised(front: Bytes, s: Bytes, back: Bytes)
    requires AllBlank(front) && IsWritableSymbol(s) && AllBlank(back)
    ensures var symbol := NormalizeSymbol(front + s + back);
      && IsSymbol(symbol) && |symbol| == |s|
      && forall i :: 0 <= i < |s| ==> symbol[i] == if 97 <= s[i] <= 122 then s[i] - 32 else s[i]
  {
    assert IsSymbolByte(s[0]) && IsSymbolByte(s[|s| - 1]);
    assert front + s + back == front + (s + back);
    TrimLeftBlanks(front, s + back);
    TrimRightBlanks(s, back);
  }

  lemma {:induction false} TrimLeftParts(t: Bytes) returns (front: Bytes)
    ensures t == front + TrimLeft(t) && AllBlank(front)
    decreases |t|
  {
    front := [];
    if t != [] && IsBlank(t[0]) {
      var more := TrimLeftParts(t[1..]);
      front := [t[0]] + more;
    }
  }

  lemma {:induction false} TrimRightParts(t: Bytes) returns (back: Bytes)
    ensures t == TrimRight(t) + back && AllBlank(back)
    decreases |t|
  {
    back := [];
    if t != [] && IsBlank(t[|t| - 1]) {
      var more := TrimRightParts(t[..|t| - 1]);
      back := more + [t[|t| - 1]];
    }
  }

  /** And nothing else is accepted as one. */
  lemma AcceptedSymbolIsWritable(t: Bytes) returns (front: Bytes, s: Bytes, back: Bytes)
    requires IsSymbol(NormalizeSymbol(t))
    ensures t == front + s + back && AllBlank(front) && IsWritableSymbol(s) && AllBlank(back)
  {
    front := TrimLeftParts(t);
    back := TrimRightParts(TrimLeft(t));
    s := TrimRight(TrimLeft(t));
    var symbol := NormalizeSymbol(t);
    forall i | 0 <= i < |s| ensures IsSymbolByte(s[i]) { assert symbol[i] == UpperByte(s[i]); }
    assert symbol[0] == UpperByte(s[0]);
    assert t == front + s + back;
  }

  // ------------------------------------------------------ field encodings

  function U8(value: nat): Bytes { [value % 256] }

  function U16LE(value: nat): Bytes { [value % 256, (value / 256) % 256] }

  /** A length-prefixed payload string. */
  function PayloadString(s: Bytes): Bytes { U16LE(|s|) + s }

  function TransferByte(p: TransferPolicy): Byte { match p case Open => 0 case IssuerOnly => 1 case NoTransfer => 2 }
  function SwapByte(p: SwapPolicy): Byte { match p case TwoWay => 0 case OneWay => 1 case Off => 2 }
  function KindByte(k: AssetKind): Byte { match k case Unspecified => 0 case Token => 1 case Item => 2 }

  function ProofBytes(proof: seq<Digest>): (r: Bytes)
    ensures |r| == 32 * |proof|
  {
    if proof == [] then [] else proof[0] + ProofBytes(proof[1..])
  }

  /** The five op-dependent fields of an asset block. */
  datatype Fields = Fields(op: Byte, assetId: Digest, amount: nat, link: Digest, payload: Bytes)

  /** An asset's id is derived from its issuer and symbol. */
  function DeriveAssetId(h: HashFunction, issuer: Digest, symbol: Bytes): Digest {
    h(issuer + NormalizeSymbol(symbol))
  }

  function IssuePayload(op: AssetOp): Bytes
    requires op.Issue?
  {
    PayloadString(op.name) + PayloadString(NormalizeSymbol(op.symbol)) + U8(op.decimals)
    + BigEndian(op.maxSupply.GetOr(0), 16) + [TransferByte(op.transfer)] + [SwapByte(op.swap)]
    + PayloadString(op.description) + PayloadString(op.image) + [KindByte(op.kind)]
  }

  function OfferPayload(op: AssetOp): Bytes
    requires op.SwapOffer?
  {
    op.wantAsset + BigEndian(op.wantAmount, 16)
    + BigEndian(if op.expiresAt.Some? && op.expiresAt.value >= 0 then op.expiresAt.value else 0, 8)
  }

  function AssetFields(h: HashFunction, account: Digest, op: AssetOp): Fields {
    match op
    case Issue(_, symbol, _, _, _, _, _, _, _) => Fields(0, DeriveAssetId(h, account, symbol), 0, Zero32(),
        IssuePayload(op))
    case Mint(asset, to, amount) => Fields(1, asset, amount, to, PayloadString([]))
    case Burn(asset, amount) => Fields(2, asset, amount, Zero32(), [])
    case Transfer(asset, to, amount, memo) => Fields(3, asset, amount, to, PayloadString(memo))
    case AssetReceive(source) => Fields(4, Zero32(), 0, source, [])
    case Commit(root, asset, count, total) => Fields(5, asset, total, root, BigEndian(count, 4))
    case CommitClose(root) => Fields(6, Zero32(), 0, root, [])
    case Claim(root, asset, amount, proof) => Fields(7, asset, amount, root, U8(|proof|) + ProofBytes(proof))
    case SwapOffer(asset, amount, _, _, counterparty, _) => Fields(8, asset, amount, counterparty.GetOr(Zero32()),
        OfferPayload(op))
    case SwapAccept(offer, asset, amount) => Fields(9, asset, amount, offer, [])
    case SwapCancel(offer) => Fields(10, Zero32(), 0, offer, [])
  }

  // -------------------------------------------------------------- refusals

  datatype WireError = StateMemo | BadAmount | BadSymbol | ZeroSupply | TooLong | BadCount | LongProof | BadExpiry

  predicate FitsAmount(n: nat) { n < Pow256(16) }

  /** What the encoder refuses about an operation, if anything. */
  function OpRefusal(op: AssetOp): Option<WireError> {
    match op
    case Issue(name, symbol, _, maxSupply, _, _, description, image, _) =>
      if !IsSymbol(NormalizeSymbol(symbol)) then Some(BadSymbol)
      else if maxSupply == Some(0) then Some(ZeroSupply)
      else if |name| > MAX_NAME then Some(TooLong)
      else if !FitsAmount(maxSupply.GetOr(0)) then Some(BadAmount)
      else if |description| > MAX_DESCRIPTION || |image| > MAX_IMAGE then Some(TooLong)
      else None
    case Mint(_, _, amount) => if FitsAmount(amount) then None else Some(BadAmount)
    case Burn(_, amount) => if FitsAmount(amount) then None else Some(BadAmount)
    case Transfer(_, _, amount, memo) =>
      if !FitsAmount(amount) then Some(BadAmount) else if |memo| > MAX_MEMO then Some(TooLong) else None
    case AssetReceive(_) => None
    case Commit(_, _, count, total) =>
      if count < 1 || count > 0xffff_ffff then Some(BadCount) else if FitsAmount(total) then None else Some(BadAmount)
    case CommitClose(_) => None
    case Claim(_, _, amount, proof) =>
      if |proof| > 48 then Some(LongProof) else if FitsAmount(amount) then None else Some(BadAmount)
    case SwapOffer(_, amount, _, wantAmount, _, expiresAt) =>
      if !FitsAmount(amount) || !FitsAmount(wantAmount) then Some(BadAmount)
      else if expiresAt.Some? && !(0 < expiresAt.value <= MAX_SAFE_INTEGER) then Some(BadExpiry)
      else None
    case SwapAccept(_, _, amount) => if FitsAmount(amount) then None else Some(BadAmount)
    case SwapCancel(_) => None
  }

  function Refusal(body: Body): Option<WireError> {
    match body
    case State(_, _, _, _, balance, _, memo) =>
      if memo.Some? then Some(StateMemo) else if FitsAmount(balance) then None else Some(BadAmount)
    case Asset(_, _, _, balance, op) =>
      if OpRefusal(op).Some? then OpRefusal(op) else if FitsAmount(balance) then None else Some(BadAmount)
  }

  // --------------------------------------------------------------- blocks

  const DOMAIN_TEXT: Bytes := [107, 101, 105, 45, 98, 108, 111, 99, 107, 45, 118, 49]

  function Preamble(h: HashFunction, blockType: nat): (r: Bytes)
    ensures |r| == 64
  {
    h(DOMAIN_TEXT) + BigEndian(blockType, 32)
  }

  /** The three keys and the balance that every block carries. */
  function Common(account: Digest, previous: Digest, representative: Digest, balance: nat): (r: Bytes)
    ensures |r| == 112
  {
    account + previous + representative + BigEndian(balance, 16)
  }

  function FieldBytes(f: Fields): Bytes {
    [f.op] + f.assetId + BigEndian(f.amount, 16) + f.link + U16LE(|f.payload|) + f.payload
  }

  function Encode(h: HashFunction, body: Body): Bytes {
    match body
    case State(_, account, previous, representative, balance, link, _) =>
      Preamble(h, BLOCK_TYPE_STATE) + Common(account, previous, representative, balance) + link
    case Asset(account, previous, representative, balance, op) =>
      Preamble(h, BLOCK_TYPE_ASSET) + Common(account, previous, representative, balance)
          + FieldBytes(AssetFields(h, account, op))
  }

  function BlockPreimage(h: HashFunction, body: Body): Result<Bytes, WireError> {
    match Refusal(body)
    case Some(e) => Err(e)
    case None => Ok(Encode(h, body))
  }

  // -------------------------------------------------------------- decoding

  function Length16(low: int, high: int): int { low + 256 * high }

  function ReadString(p: Bytes): Option<(Bytes, Bytes)> {
    if |p| < 2 || |p| < 2 + Length16(p[0], p[1]) then None
    else Some((p[2..2 + Length16(p[0], p[1])], p[2 + Length16(p[0], p[1])..]))
  }

  function ReadProof(n: nat, p: Bytes): Option<seq<Digest>>
    decreases n
  {
    if n == 0 then (if p == [] then Some([]) else None)
    else if |p| < 32 then None
    else
      match ReadProof(n - 1, p[32..])
      case None => None
      case Some(rest) => Some([p[..32]] + rest)
  }

  function ReadTransfer(b: Byte): Option<TransferPolicy> {
    if b == 0 then Some(Open) else if b == 1 then Some(IssuerOnly) else if b == 2 then Some(NoTransfer) else None
  }

  function ReadSwap(b: Byte): Option<SwapPolicy> {
    if b == 0 then Some(TwoWay) else if b == 1 then Some(OneWay) else if b == 2 then Some(Off) else None
  }

  function ReadKind(b: Byte): Option<AssetKind> {
    if b == 0 then Some(Unspecified) else if b == 1 then Some(Token) else if b == 2 then Some(Item) else None
  }

  /** The part of an issue payload after its two names. */
  function ReadTerms(name: Bytes, symbol: Bytes, p: Bytes): (r: Option<AssetOp>)
    ensures r.Some? ==> r.value.Issue?
  {
    if |p| < 19 then None
    else
      var supply := Number(p[1..17]);
      var transfer, swap, first := ReadTransfer(p[17]), ReadSwap(p[18]), ReadString(p[19..]);
      if transfer.None? || swap.None? || first.None? then None
      else
        var second := ReadString(first.value.1);
        if second.None? || |second.value.1| != 1 then None
        else
          var kind := ReadKind(second.value.1[0]);
          if kind.None? || |first.value.0| > 256 || |second.value.0| > 128 then None
          else
            Some(Issue(name, symbol, p[0], if supply == 0 then None else Some(supply), transfer.value, swap.value,
                       first.value.0, second.value.0, kind.value))
  }

  function ReadIssue(p: Bytes): (r: Option<AssetOp>)
    ensures r.Some? ==> r.value.Issue?
  {
    match ReadString(p)
    case None => None
    case Some((name, q)) =>
      match ReadString(q)
      case None => None
      case Some((symbol, r)) => if |name| > 64 || !IsSymbol(symbol) then None else ReadTerms(name, symbol, r)
  }

  function ReadTransferOp(f: Fields): Option<AssetOp> {
    match ReadString(f.payload)
    case None => None
    case Some((memo, rest)) =>
      if rest == [] && |memo| <= 128 then Some(Transfer(f.assetId, f.link, f.amount, memo)) else None
  }

  function ReadClaim(f: Fields): Option<AssetOp> {
    if f.payload == [] || f.payload[0] > 48 then None
    else
      match ReadProof(f.payload[0], f.payload[1..])
      case None => None
      case Some(proof) => Some(Claim(f.link, f.assetId, f.amount, proof))
  }

  function ReadOffer(f: Fields): Option<AssetOp> {
    if |f.payload| != 56 then None
    else
      var expiry := Number(f.payload[48..]);
      if expiry > 9007199254740991 then None
      else
        Some(SwapOffer(f.assetId, f.amount, f.payload[..32], Number(f.payload[32..48]),
                       if f.link == Zero32() then None else Some(f.link),
                       if expiry == 0 then None else Some(expiry)))
  }

  /** An issue names the asset its issuer and symbol make, and neither an amount nor a link. */
  function ReadIssueOp(h: HashFunction, account: Digest, f: Fields): Option<AssetOp> {
    match ReadIssue(f.payload)
    case None => None
    case Some(op) =>
      if f.assetId == h(account + op.symbol) && f.amount == 0 && f.link == Zero32() then Some(op) else None
  }

  /** Nothing but the link: no asset, no amount, no payload. */
  predicate OnlyLinks(f: Fields) { f.assetId == Zero32() && f.amount == 0 && f.payload == [] }

  function ReadOp(h: HashFunction, account: Digest, f: Fields): Option<AssetOp> {
    match f.op
    case 0 => ReadIssueOp(h, account, f)
    case 1 => if f.payload == [0, 0] then Some(Mint(f.assetId, f.link, f.amount)) else None
    case 2 => if f.link == Zero32() && f.payload == [] then Some(Burn(f.assetId, f.amount)) else None
    case 3 => ReadTransferOp(f)
    case 4 => if OnlyLinks(f) then Some(AssetReceive(f.link)) else None
    case 5 =>
      if |f.payload| == 4 && Number(f.payload) >= 1 then Some(Commit(f.link, f.assetId, Number(f.payload), f.amount))
      else None
    case 6 => if OnlyLinks(f) then Some(CommitClose(f.link)) else None
    case 7 => ReadClaim(f)
    case 8 => ReadOffer(f)
    case 9 => if f.payload == [] then Some(SwapAccept(f.link, f.assetId, f.amount)) else None
    case 10 => if OnlyLinks(f) then Some(SwapCancel(f.link)) else None
    case _ => None
  }

  function ReadFields(p: Bytes): Option<Fields> {
    if |p| < 83 || |p| != 83 + Length16(p[81], p[82]) then None
    else Some(Fields(p[0], p[1..33], Number(p[33..49]), p[49..81], p[83..]))
  }

  function Decode(h: HashFunction, p: Bytes): Option<Body> {
    if |p| < 176 || p[..32] != h(DOMAIN_TEXT) then None
    else
      var account, previous, representative := p[64..96], p[96..128], p[128..160];
      var balance := Number(p[160..176]);
      var rest := p[176..];
      if Number(p[32..64]) == BLOCK_TYPE_STATE then
        if |rest| != 32 then None
        else Some(State(OpenBlock, account, previous, representative, balance, rest, None))
      else if Number(p[32..64]) == BLOCK_TYPE_ASSET then
        match ReadFields(rest)
        case None => None
        case Some(f) =>
          match ReadOp(h, account, f)
          case None => None
          case Some(op) => Some(Asset(account, previous, representative, balance, op))
      else None
  }

  // ------------------------------------------------- what the bytes say

  /** The canonical body of those that share one preimage. */
  function CanonicalOp(op: AssetOp): AssetOp {
    match op
    case Issue(_, symbol, decimals, _, _, _, _, _, _) =>
      op.(symbol := NormalizeSymbol(symbol), decimals := decimals % 256)
    case SwapOffer(_, _, _, _, counterparty, _) =>
      op.(counterparty := if counterparty == Some(Zero32()) then None else counterparty)
    case _ => op
  }

  function Canonical(body: Body): Body {
    match body
    case State(_, _, _, _, _, _, _) => body.(subtype := OpenBlock)
    case Asset(_, _, _, _, op) => body.(op := CanonicalOp(op))
  }

  lemma ReadPayloadString(s: Bytes, rest: Bytes)
    requires |s| < 65536
    ensures ReadString(PayloadString(s) + rest) == Some((s, rest))
  {
    var p := PayloadString(s) + rest;
    assert Length16(p[0], p[1]) == |s|;
    assert p[2..2 + |s|] == s && p[2 + |s|..] == rest;
  }

  lemma {:induction false} ReadProofBytes(proof: seq<Digest>)
    ensures ReadProof(|proof|, ProofBytes(proof)) == Some(proof)
    decreases |proof|
  {
    if proof != [] {
      var p := ProofBytes(proof);
      assert p[..32] == proof[0] && p[32..] == ProofBytes(proof[1..]);
      ReadProofBytes(proof[1..]);
      assert proof == [proof[0]] + proof[1..];
    }
  }

  lemma IssueReadsBack(op: AssetOp)
    requires op.Issue? && OpRefusal(op).None?
    ensures ReadIssue(IssuePayload(op)) == Some(CanonicalOp(op))
    ensures |IssuePayload(op)| < 65536
  {
    hide NormalizeSymbol, BigEndian, Number, Pow256, ReadString, PayloadString;
    var symbol := NormalizeSymbol(op.symbol);
    var terms := U8(op.decimals) + BigEndian(op.maxSupply.GetOr(0), 16) + [TransferByte(op.transfer)]
        + [SwapByte(op.swap)]
      + PayloadString(op.description) + PayloadString(op.image) + [KindByte(op.kind)];
    PayloadLength(op.name);
    PayloadLength(symbol);
    PayloadLength(op.description);
    PayloadLength(op.image);
    assert IssuePayload(op) == PayloadString(op.name) + (PayloadString(symbol) + terms);
    ReadPayloadString(op.name, PayloadString(symbol) + terms);
    ReadPayloadString(symbol, terms);
    TermsReadBack(op, symbol, terms);
  }

  lemma PayloadLength(s: Bytes)
    ensures |PayloadString(s)| == 2 + |s|
  {}

  lemma TermsReadBack(op: AssetOp, symbol: Bytes, terms: Bytes)
    requires op.Issue? && OpRefusal(op).None? && symbol == NormalizeSymbol(op.symbol)
    requires terms
      == U8(op.decimals) + BigEndian(op.maxSupply.GetOr(0), 16) + [TransferByte(op.transfer)] + [SwapByte(op.swap)]
      + PayloadString(op.description) + PayloadString(op.image) + [KindByte(op.kind)]
    ensures ReadTerms(op.name, symbol, terms) == Some(CanonicalOp(op))
  {
    hide NormalizeSymbol, BigEndian, Number, Pow256, ReadString, PayloadString;
    var tail := PayloadString(op.image) + [KindByte(op.kind)];
    assert terms[0] == op.decimals % 256;
    assert terms[1..17] == BigEndian(op.maxSupply.GetOr(0), 16);
    assert terms[17] == TransferByte(op.transfer) && terms[18] == SwapByte(op.swap);
    assert terms[19..] == PayloadString(op.description) + tail;
    NumberOfBigEndian(op.maxSupply.GetOr(0), 16);
    ReadPayloadString(op.description, tail);
    ReadPayloadString(op.image, [KindByte(op.kind)]);
  }

  lemma OfferReadsBack(op: AssetOp, f: Fields)
    requires op.SwapOffer? && OpRefusal(op).None?
    requires f == Fields(8, op.asset, op.amount, op.counterparty.GetOr(Zero32()), OfferPayload(op))
    ensures ReadOffer(f) == Some(CanonicalOp(op))
  {
    hide BigEndian, Number, OfferPayload, Pow256;
    OfferPayloadReadsBack(op);
  }

  lemma OfferPayloadReadsBack(op: AssetOp)
    requires op.SwapOffer? && OpRefusal(op).None?
    ensures var p := OfferPayload(op);
      && |p| == 56 && p[..32] == op.wantAsset && Number(p[32..48]) == op.wantAmount
      && Number(p[48..]) == if op.expiresAt.Some? then op.expiresAt.value else 0
  {
    hide BigEndian, Number, OfferPayload, Pow256;
    OfferPayloadParts(op);
    NumberOfBigEndian(op.wantAmount, 16);
    ExpiryReadsBack(if op.expiresAt.Some? then op.expiresAt.value else 0);
  }

  lemma OfferPayloadParts(op: AssetOp)
    requires op.SwapOffer? && OpRefusal(op).None?
    ensures var p := OfferPayload(op);
      && |p| == 56 && p[..32] == op.wantAsset && p[32..48] == BigEndian(op.wantAmount, 16)
      && p[48..] == BigEndian(if op.expiresAt.Some? then op.expiresAt.value else 0, 8)
  {
    hide BigEndian, Number, Pow256;
  }

  lemma ExpiryReadsBack(expiry: nat)
    requires expiry < 0x1_0000_0000_0000_0000
    ensures Number(BigEndian(expiry, 8)) == expiry
  {
    hide BigEndian, Number;
    assert Pow256(4) == 0x1_0000_0000;
    assert Pow256(8) == 0x1_0000_0000_0000_0000;
    NumberOfBigEndian(expiry, 8);
  }

  lemma ClaimReadsBack(op: AssetOp, f: Fields)
    requires op.Claim? && OpRefusal(op).None?
    requires f == Fields(7, op.asset, op.amount, op.root, U8(|op.proof|) + ProofBytes(op.proof))
    ensures ReadClaim(f) == Some(op)
  {
    hide ReadProof, ProofBytes, ReadIssue, ReadString, BigEndian, Number, Pow256, NormalizeSymbol, IssuePayload;
    ReadProofBytes(op.proof);
    assert f.payload[1..] == ProofBytes(op.proof);
  }

  lemma CountReadsBack(count: nat)
    requires count <= 0xffff_ffff
    ensures Number(BigEndian(count, 4)) == count
  {
    assert Pow256(4) == 0x1_0000_0000;
    NumberOfBigEndian(count, 4);
  }

  /** Every operation is recovered from its five fields, in canonical form. */
  lemma OpReadsBack(h: HashFunction, account: Digest, op: AssetOp)
    requires OpRefusal(op).None?
    ensures ReadOp(h, account, AssetFields(h, account, op)) == Some(CanonicalOp(op))
    ensures FitsAmount(AssetFields(h, account, op).amount)
  {
    hide ReadIssue, IssuePayload, ReadString, BigEndian, Number, NormalizeSymbol, OfferPayload, ReadProof;
    hide ProofBytes, Pow256, ReadClaim, ReadOffer, PayloadString;
    match op
    case Issue(_, _, _, _, _, _, _, _, _) => IssueReadsBack(op);
    case Mint(_, _, _) => EmptyString();
    case Transfer(_, _, _, memo) => MemoReadsBack(memo);
    case Commit(_, _, count, _) => CountReadsBack(count);
    case Claim(_, _, _, _) => ClaimReadsBack(op, AssetFields(h, account, op));
    case SwapOffer(_, _, _, _, _, _) => OfferReadsBack(op, AssetFields(h, account, op));
    case _ =>
  }

  lemma EmptyString()
    ensures PayloadString([]) == [0, 0]
  {}

  lemma MemoReadsBack(memo: Bytes)
    requires |memo| < 65536
    ensures ReadString(PayloadString(memo)) == Some((memo, []))
  {
    ReadPayloadString(memo, []);
    assert PayloadString(memo) + [] == PayloadString(memo);
  }

  /** No payload outgrows its two-byte length; the longest is a full claim proof. */
  lemma PayloadFits(h: HashFunction, account: Digest, op: AssetOp)
    requires OpRefusal(op).None?
    ensures |AssetFields(h, account, op).payload| <= 1537
  {
    hide BigEndian, NormalizeSymbol, Pow256, PayloadString;
    match op
    case Issue(name, symbol, _, _, _, _, description, image, _) =>
      PayloadLength(name);
      PayloadLength(NormalizeSymbol(symbol));
      PayloadLength(description);
      PayloadLength(image);
    case Mint(_, _, _) => PayloadLength([]);
    case Transfer(_, _, _, memo) => PayloadLength(memo);
    case _ =>
  }

  lemma FieldsReadBack(f: Fields)
    requires FitsAmount(f.amount) && |f.payload| < 65536
    ensures ReadFields(FieldBytes(f)) == Some(f)
  {
    hide BigEndian, Number, Pow256;
    var p := FieldBytes(f);
    assert p[0] == f.op && p[1..33] == f.assetId && p[33..49] == BigEndian(f.amount, 16) && p[49..81] == f.link;
    assert Length16(p[81], p[82]) == |f.payload|;
    assert p[83..] == f.payload;
    NumberOfBigEndian(f.amount, 16);
  }

  lemma PrefixReadsBack(
      h: HashFunction, blockType: nat, account: Digest, previous: Digest, representative: Digest, balance: nat,
      rest: Bytes)
    requires blockType == BLOCK_TYPE_STATE || blockType == BLOCK_TYPE_ASSET
    requires FitsAmount(balance)
    ensures var p := Preamble(h, blockType) + Common(account, previous, representative, balance) + rest;
      && |p| == 176 + |rest| && p[..32] == h(DOMAIN_TEXT) && Number(p[32..64]) == blockType
      && p[64..96] == account && p[96..128] == previous && p[128..160] == representative
      && Number(p[160..176]) == balance && p[176..] == rest
  {
    hide BigEndian, Number, Pow256;
    var p := Preamble(h, blockType) + Common(account, previous, representative, balance) + rest;
    assert p[..32] == h(DOMAIN_TEXT);
    assert p[32..64] == BigEndian(blockType, 32);
    assert p[160..176] == BigEndian(balance, 16);
    SmallFits(blockType);
    NumberOfBigEndian(blockType, 32);
    NumberOfBigEndian(balance, 16);
  }

  lemma SmallFits(n: nat)
    requires n < 256
    ensures n < Pow256(32)
  {
  }

  /** The decoder recovers every encodable body from its preimage, in canonical form. */
  lemma PreimageRoundTrip(h: HashFunction, body: Body)
    requires Refusal(body).None?
    ensures BlockPreimage(h, body).Ok?
    ensures Decode(h, BlockPreimage(h, body).value) == Some(Canonical(body))
  {
    hide Preamble, Common, FieldBytes, AssetFields, ReadOp, ReadFields, Number, OpRefusal, CanonicalOp;
    match body
    case State(_, account, previous, representative, balance, link, _) =>
      PrefixReadsBack(h, BLOCK_TYPE_STATE, account, previous, representative, balance, link);
    case Asset(account, previous, representative, balance, op) =>
      var f := AssetFields(h, account, op);
      PrefixReadsBack(h, BLOCK_TYPE_ASSET, account, previous, representative, balance, FieldBytes(f));
      OpReadsBack(h, account, op);
      PayloadFits(h, account, op);
      FieldsReadBack(f);
  }

  /** What is not canonical about a body is not in its bytes. */
  lemma CanonicalEncodesAlike(h: HashFunction, body: Body)
    requires Refusal(body).None?
    ensures Refusal(Canonical(body)).None? && Encode(h, Canonical(body)) == Encode(h, body)
  {
    hide Preamble, Common, FieldBytes, NormalizeSymbol, BigEndian, Pow256, PayloadString;
    match body
    case Asset(_, _, _, _, Issue(_, symbol, decimals, _, _, _, _, _, _)) =>
      SymbolIsNormal(NormalizeSymbol(symbol));
    case _ =>
  }

  /**
   * Two encodable bodies hash the same bytes exactly when they have the same canonical
   * form: the subtype of a state block, the case of a symbol, decimals beyond a byte and a
   * zero counterparty are all a preimage leaves out.
   */
  lemma SamePreimageExactlyWhenSameCanonicalBody(h: HashFunction, a: Body, b: Body)
    requires Refusal(a).None? && Refusal(b).None?
    ensures BlockPreimage(h, a) == BlockPreimage(h, b) <==> Canonical(a) == Canonical(b)
  {
    hide Encode, Decode, Canonical, Refusal;
    PreimageRoundTrip(h, a);
    PreimageRoundTrip(h, b);
    CanonicalEncodesAlike(h, a);
    CanonicalEncodesAlike(h, b);
  }

  /** No state block hashes the bytes of an asset block. */
  lemma StateAndAssetNeverCollide(h: HashFunction, a: Body, b: Body)
    requires a.State? && b.Asset? && Refusal(a).None? && Refusal(b).None?
    ensures BlockPreimage(h, a) != BlockPreimage(h, b)
  {
    SamePreimageExactlyWhenSameCanonicalBody(h, a, b);
  }

  /** Decimals past one byte are lost: 256 places encode as none. */
  lemma WideDecimalsAreLost(h: HashFunction, account: Digest, op: AssetOp)
    requires op.Issue? && OpRefusal(op).None? && op.decimals == 0
    ensures BlockPreimage(h, Asset(account, Zero32(), account, 0, op))
         == BlockPreimage(h, Asset(account, Zero32(), account, 0, op.(decimals := 256)))
    ensures op != op.(decimals := 256)
  {
    hide Encode, NormalizeSymbol, IsSymbol;
    var a := Asset(account, Zero32(), account, 0, op);
    var b := Asset(account, Zero32(), account, 0, op.(decimals := 256));
    SamePreimageExactlyWhenSameCanonicalBody(h, a, b);
  }
}
