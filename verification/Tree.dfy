/** packages/claims/src/tree.ts: building a commit, its sibling paths, and what its root can prove. */
module Tree {
  import opened Texts
  import opened Outcomes
  import opened Hex
  import opened Merkle
  import Amount

  // -------------------------------------------------------------- layers

  /** The right-hand partner of an even position: the next entry, or the entry itself at an odd end. */
  function Partner(below: seq<HexHash>, i: nat): HexHash
    requires i < |below|
  {
    if i + 1 < |below| then below[i + 1] else below[i]
  }

  function NextLayer(h: HashFunction, below: seq<HexHash>): (r: seq<HexHash>)
    ensures |r| == (|below| + 1) / 2
  {
    seq((|below| + 1) / 2, i requires 0 <= i < (|below| + 1) / 2 =>
      CombineHashes(h, below[2 * i], Partner(below, 2 * i)))
  }

  function Layers(h: HashFunction, leaves: seq<HexHash>): (r: seq<seq<HexHash>>)
    requires leaves != []
    ensures r != [] && r[0] == leaves && |r[|r| - 1]| == 1
    ensures forall k :: 0 <= k < |r| ==> r[k] != []
    ensures forall k {:trigger NextLayer(h, r[k])} :: 0 <= k < |r| - 1 ==> r[k + 1] == NextLayer(h, r[k])
    decreases |leaves|
  {
    if |leaves| == 1 then [leaves] else [leaves] + Layers(h, NextLayer(h, leaves))
  }

  /** Each node stands for the pair below it, the last of an odd layer for itself twice. */
  lemma NextLayerPairs(h: HashFunction, below: seq<HexHash>, j: nat)
    requires 2 * j < |below|
    ensures |NextLayer(h, below)| == (|below| + 1) / 2 && j < |NextLayer(h, below)|
    ensures NextLayer(h, below)[j]
         == CombineHashes(h, below[2 * j], if 2 * j + 1 < |below| then below[2 * j + 1] else below[2 * j])
  {
    hide CombineHashes;
  }

  function Root(h: HashFunction, leaves: seq<HexHash>): HexHash
    requires leaves != []
  {
    var layers := Layers(h, leaves);
    layers[|layers| - 1][0]
  }

  function SiblingOf(layer: seq<HexHash>, position: nat): HexHash
    requires position < |layer|
  {
    if position % 2 == 0 then Partner(layer, position) else layer[position - 1]
  }

  /** The sibling path from one leaf to the root. */
  function Path(h: HashFunction, leaves: seq<HexHash>, position: nat): (p: seq<HexHash>)
    requires leaves != [] && position < |leaves|
    ensures |p| == |Layers(h, leaves)| - 1
    decreases |leaves|
  {
    if |leaves| == 1 then []
    else [SiblingOf(leaves, position)] + Path(h, NextLayer(h, leaves), position / 2)
  }

  method BuildNext(h: HashFunction, below: seq<HexHash>) returns (next: seq<HexHash>)
    requires below != []
    ensures next == NextLayer(h, below)
  {
    hide CombineHashes, IsHexOf;
    next := [];
    var i := 0;
    while i < |below|
      invariant 0 <= i <= |below| + 1 && i % 2 == 0 && |next| == i / 2
      invariant next == NextLayer(h, below)[..i / 2]
    {
      var left := below[i];
      var right := if i + 1 < |below| then below[i + 1] else left;
      next := next + [CombineHashes(h, left, right)];
      i := i + 2;
    }
  }

  method BuildLayers(h: HashFunction, leaves: seq<HexHash>) returns (layers: seq<seq<HexHash>>)
    requires leaves != []
    ensures layers == Layers(h, leaves)
  {
    hide NextLayer, Layers, IsHexOf;
    layers := [leaves];
    ghost var done: seq<seq<HexHash>> := [];
    assert done + Layers(h, leaves) == Layers(h, leaves);
    while |layers[|layers| - 1]| > 1
      invariant layers != [] && layers[|layers| - 1] != [] && layers == done + [layers[|layers| - 1]]
      invariant Layers(h, leaves) == done + Layers(h, layers[|layers| - 1])
      decreases |layers[|layers| - 1]|
    {
      var below := layers[|layers| - 1];
      var next := BuildNext(h, below);
      LayersStep(h, done, below);
      done := layers;
      layers := layers + [next];
    }
    LayersStep(h, done, layers[|layers| - 1]);
  }

  lemma LayersStep(h: HashFunction, done: seq<seq<HexHash>>, below: seq<HexHash>)
    requires below != []
    ensures |below| > 1 ==> done + Layers(h, below) == (done + [below]) + Layers(h, NextLayer(h, below))
    ensures |Layers(h, below)| == if |below| == 1 then 1 else 1 + |Layers(h, NextLayer(h, below))|
    ensures |below| == 1 ==> Layers(h, below) == [below]
  {
    hide NextLayer, IsHexOf;
  }

  method PathTo(h: HashFunction, layers: seq<seq<HexHash>>, leafIndex: nat) returns (path: seq<HexHash>)
    requires layers != [] && layers[0] != [] && layers == Layers(h, layers[0]) && leafIndex < |layers[0]|
    ensures path == Path(h, layers[0], leafIndex)
  {
    path := [];
    var position := leafIndex;
    for level := 0 to |layers| - 1
      invariant 0 <= position < |layers[level]|
      invariant layers[level..] == Layers(h, layers[level])
      invariant Path(h, layers[0], leafIndex) == path + Path(h, layers[level], position)
    {
      var layer := layers[level];
      assert |layer| > 1 by { assert layers[level..][0] == layer; }
      path := path + [SiblingOf(layer, position)];
      position := position / 2;
      assert layers[level + 1..] == layers[level..][1..];
    }
    assert |layers[|layers| - 1]| == 1;
  }

  // -------------------------------------------------------- completeness

  function Pow2(n: nat): (p: nat)
    ensures p >= 1
  {
    if n == 0 then 1 else 2 * Pow2(n - 1)
  }

  /** A path is as long as the base-two logarithm of the leaf count, rounded up. */
  lemma {:induction false} PathLength(h: HashFunction, leaves: seq<HexHash>)
    requires leaves != []
    ensures var d := |Layers(h, leaves)| - 1;
      |leaves| <= Pow2(d) && (d > 0 ==> Pow2(d - 1) < |leaves|)
    decreases |leaves|
  {
    hide NextLayer, Layers, IsHexOf;
    LayersStep(h, [], leaves);
    if |leaves| > 1 {
      PathLength(h, NextLayer(h, leaves));
    }
  }

  lemma {:induction false} Pow2Monotone(a: nat, b: nat)
    requires a <= b
    ensures Pow2(a) <= Pow2(b)
    decreases b
  {
    if a < b { Pow2Monotone(a, b - 1); }
  }

  /** Every leaf folds up its own path to the root, odd layers and all. */
  lemma {:induction false} PathFoldsToRoot(h: HashFunction, leaves: seq<HexHash>, position: nat)
    requires leaves != [] && position < |leaves|
    ensures Fold(h, leaves[position], Path(h, leaves, position)) == Root(h, leaves)
    decreases |leaves|
  {
    hide CombineHashes, IsHexOf, NextLayer, Layers, Root, SiblingOf;
    if |leaves| > 1 {
      var next := NextLayer(h, leaves);
      ParentOf(h, leaves, position);
      PathFoldsToRoot(h, next, position / 2);
      FoldFirst(h, leaves[position], Path(h, leaves, position));
      assert Path(h, leaves, position)[1..] == Path(h, next, position / 2);
    }
    RootStep(h, leaves);
  }

  lemma RootStep(h: HashFunction, leaves: seq<HexHash>)
    requires leaves != []
    ensures Root(h, leaves) == if |leaves| == 1 then leaves[0] else Root(h, NextLayer(h, leaves))
  {
    hide NextLayer, IsHexOf;
    LayersStep(h, [], leaves);
  }

  /** One entry and its sibling combine to the entry above them. */
  lemma ParentOf(h: HashFunction, leaves: seq<HexHash>, position: nat)
    requires 1 < |leaves| && position < |leaves|
    ensures NextLayer(h, leaves)[position / 2] == CombineHashes(h, leaves[position], SiblingOf(leaves, position))
  {
    hide CombineHashes, IsHexOf;
    var even := position - position % 2;
    CombineCommutes(h, leaves[even], Partner(leaves, even));
    assert even == 2 * (position / 2);
  }

  /** Up to 2^48 leaves, the verifier accepts every leaf with its path. */
  lemma PathIsAccepted(h: HashFunction, leaves: seq<HexHash>, position: nat)
    requires leaves != [] && position < |leaves| <= Pow2(MAX_PROOF_LENGTH)
    ensures Accepts(h, leaves[position], Path(h, leaves, position), Root(h, leaves))
  {
    hide Fold, Path, Root, Layers, Pow2, IsHex, FromHex;
    PathFoldsToRoot(h, leaves, position);
    PathLength(h, leaves);
    var d := |Layers(h, leaves)| - 1;
    if d > MAX_PROOF_LENGTH { Pow2Monotone(MAX_PROOF_LENGTH, d - 1); }
  }

  // ------------------------------------------------------------ soundness

  /** Leaves with the byte strings they hash, none of which is tagged as a node. */
  ghost predicate LeavesOf(h: HashFunction, leaves: seq<HexHash>, inputs: seq<Bytes>) {
    |leaves| == |inputs| && leaves != [] &&
    forall i :: 0 <= i < |leaves| ==>
      inputs[i] != [] && inputs[i][0] != NODE_TAG && leaves[i] == HashText(h, inputs[i])
  }

  ghost function PairInputs(layer: seq<HexHash>): set<Bytes>
  {
    set i | 0 <= i < |layer| :: NodeInput(layer[i], Partner(layer, i))
  }

  /** Everything hashed above the leaves of a tree. */
  ghost function NodeInputs(h: HashFunction, leaves: seq<HexHash>): (s: set<Bytes>)
    requires leaves != []
    decreases |leaves|
  {
    if |leaves| == 1 then {} else PairInputs(leaves) + NodeInputs(h, NextLayer(h, leaves))
  }

  /** Everything hashed to build a tree. */
  ghost function TreeInputs(h: HashFunction, leaves: seq<HexHash>, inputs: seq<Bytes>): set<Bytes> {
    (set i | 0 <= i < |inputs| :: inputs[i]) + (if leaves == [] then {} else NodeInputs(h, leaves))
  }

  /** Layers stacked from the leaves up, everything hashed in them being among `hashed`. */
  ghost predicate Stack(h: HashFunction, below: seq<seq<HexHash>>, inputs: seq<Bytes>, hashed: set<Bytes>) {
    && below != [] && LeavesOf(h, below[0], inputs)
    && (forall k :: 0 <= k < |below| ==> below[k] != [])
    && (forall k {:trigger NextLayer(h, below[k])} :: 0 <= k < |below| - 1 ==> below[k + 1] == NextLayer(h, below[k]))
    && (forall i :: 0 <= i < |inputs| ==> inputs[i] in hashed)
    && (forall k :: 0 <= k < |below| - 1 ==> PairInputs(below[k]) <= hashed)
  }

  /** The claimed input, its fold and the stack collide nowhere. */
  ghost predicate Claim(h: HashFunction, input: Bytes, proof: seq<HexHash>, hashed: set<Bytes>) {
    && input != [] && input[0] != NODE_TAG
    && NoCollision(h, hashed) && input in hashed && FoldInputs(h, HashText(h, input), proof) <= hashed
  }

  /** A fold that ends in an entry of some layer started from a leaf of the tree. */
  lemma {:induction false} FoldLandsOnLeaf(
      h: HashFunction, below: seq<seq<HexHash>>, position: nat, input: Bytes, proof: seq<HexHash>,
      inputs: seq<Bytes>, hashed: set<Bytes>)
    requires Stack(h, below, inputs, hashed) && Claim(h, input, proof, hashed)
    requires position < |below[|below| - 1]|
    requires Fold(h, HashText(h, input), proof) == below[|below| - 1][position]
    ensures input in inputs
    decreases |proof|
  {
    hide FoldInputs, HashText, NextLayer;
    if |below| == 1 {
      LeafLevel(h, below[0], position, input, proof, inputs, hashed);
    } else {
      var next := NodeLevel(h, below, position, input, proof, inputs, hashed);
      FoldLandsOnLeaf(h, below[..|below| - 1], next, input, proof[..|proof| - 1], inputs, hashed);
    }
  }

  lemma LeafLevel(
      h: HashFunction, leaves: seq<HexHash>, position: nat, input: Bytes, proof: seq<HexHash>,
      inputs: seq<Bytes>, hashed: set<Bytes>)
    requires LeavesOf(h, leaves, inputs) && (forall i :: 0 <= i < |inputs| ==> inputs[i] in hashed)
    requires Claim(h, input, proof, hashed) && position < |leaves|
    requires Fold(h, HashText(h, input), proof) == leaves[position]
    ensures input in inputs
  {
    if proof == [] {
      EqualHashTexts(h, input, inputs[position], hashed);
    } else {
      assert false;
    }
  }

  lemma NodeLevel(
      h: HashFunction, below: seq<seq<HexHash>>, position: nat, input: Bytes, proof: seq<HexHash>,
      inputs: seq<Bytes>, hashed: set<Bytes>) returns (next: nat)
    requires Stack(h, below, inputs, hashed) && Claim(h, input, proof, hashed)
    requires |below| > 1 && position < |below[|below| - 1]|
    requires Fold(h, HashText(h, input), proof) == below[|below| - 1][position]
    ensures proof != []
    ensures next < |below[|below| - 2]|
    ensures Fold(h, HashText(h, input), proof[..|proof| - 1]) == below[|below| - 2][next]
    ensures Claim(h, input, proof[..|proof| - 1], hashed)
    ensures Stack(h, below[..|below| - 1], inputs, hashed)
  {
    hide NodeInput, NextLayer, FoldInputs, PairInputs, IsHex, LeavesOf, Fold, HashText;
    var under := below[|below| - 2];
    TopNode(h, below, position, inputs, hashed);
    var l, r := under[2 * position], Partner(under, 2 * position);
    if proof == [] {
      NoStepFromNode(h, input, l, r, hashed);
      assert false;
    }
    ClaimShrinks(h, input, proof, hashed);
    StepDown(h, HashText(h, input), proof, l, r, hashed);
    next := if Fold(h, HashText(h, input), proof[..|proof| - 1]) == l then 2 * position else 2 * position + 1;
  }

  lemma TopNode(h: HashFunction, below: seq<seq<HexHash>>, position: nat, inputs: seq<Bytes>, hashed: set<Bytes>)
    requires Stack(h, below, inputs, hashed) && |below| > 1 && position < |below[|below| - 1]|
    ensures 2 * position < |below[|below| - 2]|
    ensures var under := below[|below| - 2];
      var l, r := under[2 * position], Partner(under, 2 * position);
      && below[|below| - 1][position] == HashText(h, NodeInput(l, r))
      && NodeInput(l, r) in hashed && UpperHex(l) && UpperHex(r)
    ensures Stack(h, below[..|below| - 1], inputs, hashed)
  {
    hide NodeInput, IsHexOf, HashText, LeavesOf, UpperHex;
    var under := below[|below| - 2];
    StackTop(h, below, inputs, hashed);
    PairHashed(h, under, position, hashed);
    StackShrinks(h, below, inputs, hashed);
    LayerIsUpper(h, below[..|below| - 1], 2 * position, inputs, hashed);
    if 2 * position + 1 < |under| { LayerIsUpper(h, below[..|below| - 1], 2 * position + 1, inputs, hashed); }
  }

  lemma StackTop(h: HashFunction, below: seq<seq<HexHash>>, inputs: seq<Bytes>, hashed: set<Bytes>)
    requires Stack(h, below, inputs, hashed) && |below| > 1
    ensures below[|below| - 2] != [] && below[|below| - 1] == NextLayer(h, below[|below| - 2])
    ensures PairInputs(below[|below| - 2]) <= hashed
  {
    hide PairInputs, NextLayer, LeavesOf, IsHexOf;
    var k := |below| - 2;
    assert 0 <= k < |below| - 1 && below[k + 1] == NextLayer(h, below[k]);
  }

  lemma PairHashed(h: HashFunction, under: seq<HexHash>, position: nat, hashed: set<Bytes>)
    requires under != [] && PairInputs(under) <= hashed && position < |NextLayer(h, under)|
    ensures 2 * position < |under|
    ensures var input := NodeInput(under[2 * position], Partner(under, 2 * position));
      NextLayer(h, under)[position] == HashText(h, input) && input in hashed
  {
    hide NodeInput, IsHexOf, HashText;
    assert NodeInput(under[2 * position], Partner(under, 2 * position)) in PairInputs(under);
  }

  lemma StackShrinks(h: HashFunction, below: seq<seq<HexHash>>, inputs: seq<Bytes>, hashed: set<Bytes>)
    requires Stack(h, below, inputs, hashed) && |below| > 1
    ensures Stack(h, below[..|below| - 1], inputs, hashed)
  {
    hide NextLayer, PairInputs, LeavesOf, IsHexOf;
  }

  lemma LayerIsUpper(h: HashFunction, below: seq<seq<HexHash>>, i: nat, inputs: seq<Bytes>, hashed: set<Bytes>)
    requires Stack(h, below, inputs, hashed) && i < |below[|below| - 1]|
    ensures UpperHex(below[|below| - 1][i])
  {
    hide NodeInput, IsHexOf, HashText, UpperHex, PairInputs;
    if |below| > 1 { assert below[|below| - 1] == NextLayer(h, below[|below| - 2]); }
  }

  lemma NoStepFromNode(h: HashFunction, input: Bytes, l: HexHash, r: HexHash, hashed: set<Bytes>)
    requires Claim(h, input, [], hashed) && NodeInput(l, r) in hashed
    ensures Fold(h, HashText(h, input), []) != HashText(h, NodeInput(l, r))
  {
  }

  lemma ClaimShrinks(h: HashFunction, input: Bytes, proof: seq<HexHash>, hashed: set<Bytes>)
    requires Claim(h, input, proof, hashed) && proof != []
    ensures Claim(h, input, proof[..|proof| - 1], hashed)
  {}

  /** If a fold ends in a node's text, its previous step is one of that node's two children. */
  lemma StepDown(h: HashFunction, leaf: HexHash, proof: seq<HexHash>, l: HexHash, r: HexHash, hashed: set<Bytes>)
    requires proof != []
    requires NoCollision(h, hashed) && NodeInput(l, r) in hashed
    requires FoldInputs(h, leaf, proof) <= hashed
    requires Fold(h, leaf, proof) == HashText(h, NodeInput(l, r))
    requires UpperHex(leaf) && UpperHex(l) && UpperHex(r)
    ensures var before := Fold(h, leaf, proof[..|proof| - 1]); before == l || before == r
  {
    var before := Fold(h, leaf, proof[..|proof| - 1]);
    EqualHashTexts(h, NodeInput(before, proof[|proof| - 1]), NodeInput(l, r), hashed);
    NodeInputChildren(before, proof[|proof| - 1], l, r);
  }

  // --------------------------------------------------------------- commits

  /** `publicKeyFromAddress`: the key behind an address, None when it is not an address. */
  type KeyOf = Text -> Option<Digest>

  datatype Entry = Entry(to: Text, amount: Text)

  datatype CommitError =
    | EmptyCommit
    | BadAddress
    | BadEntitlement(amount: Amount.AmountError)
    | NotPositive
    | BadLeaf(leaf: HexError)
    | BadSalt

  datatype Commit = Commit(
    root: HexHash, asset: Text, total: nat, recipients: seq<Text>, salt: Text,
    merged: map<Text, nat>, leaves: seq<HexHash>)

  function RawOf(keyOf: KeyOf, decimals: nat, entry: Entry): Result<nat, CommitError> {
    if keyOf(entry.to).None? then Err(BadAddress)
    else
      match Amount.ToRaw(entry.amount, decimals)
      case Err(e) => Err(BadEntitlement(e))
      case Ok(raw) => if raw == 0 then Err(NotPositive) else Ok(raw)
  }

  /** One entry added to the amounts merged so far. */
  function MergeOne(
      keyOf: KeyOf, decimals: nat, merged: map<Text, nat>, entry: Entry): Result<map<Text, nat>, CommitError> {
    match RawOf(keyOf, decimals, entry)
    case Err(e) => Err(e)
    case Ok(raw) => Ok(merged[entry.to := AmountFor(merged, entry.to) + raw])
  }

  /** One merged amount per address, or the first entry's refusal. */
  function Merged(keyOf: KeyOf, decimals: nat, entries: seq<Entry>): (r: Result<map<Text, nat>, CommitError>)
    ensures r.Ok? ==> forall a :: a in r.value ==> keyOf(a).Some?
    ensures r.Ok? && entries != [] ==> |r.value| > 0
  {
    if entries == [] then Ok(map[])
    else
      var before := Merged(keyOf, decimals, entries[..|entries| - 1]);
      var entry := entries[|entries| - 1];
      if before.Err? then before
      else
        assert MergeOne(keyOf, decimals, before.value, entry).Ok? ==>
            entry.to in MergeOne(keyOf, decimals, before.value, entry).value;
        MergeOne(keyOf, decimals, before.value, entry)
  }

  function AmountFor(merged: map<Text, nat>, address: Text): nat {
    if address in merged then merged[address] else 0
  }

  function EntitlementLeaves(h: HashFunction, keyOf: KeyOf, asset: Text, merged: map<Text, nat>, recipients: seq<Text>)
      : (r: Result<seq<HexHash>, HexError>)
    requires forall a :: a in recipients ==> a in merged && keyOf(a).Some?
    ensures r.Ok? ==> |r.value| == |recipients|
  {
    if recipients == [] then Ok([])
    else
      var front := recipients[..|recipients| - 1];
      match EntitlementLeaves(h, keyOf, asset, merged, front)
      case Err(e) => Err(e)
      case Ok(leaves) =>
        var last := recipients[|recipients| - 1];
        match LeafHash(h, keyOf(last).value, asset, merged[last])
        case Err(e) => Err(e)
        case Ok(leaf) => Ok(leaves + [leaf])
  }

  lemma {:induction false} EntitlementLeafAt(
      h: HashFunction, keyOf: KeyOf, asset: Text, merged: map<Text, nat>, recipients: seq<Text>, i: nat)
    requires forall a :: a in recipients ==> a in merged && keyOf(a).Some?
    requires i < |recipients| && EntitlementLeaves(h, keyOf, asset, merged, recipients).Ok?
    ensures LeafHash(h, keyOf(recipients[i]).value, asset, merged[recipients[i]])
         == Ok(EntitlementLeaves(h, keyOf, asset, merged, recipients).value[i])
    decreases |recipients|
  {
    hide LeafHash;
    if i < |recipients| - 1 {
      EntitlementLeafAt(h, keyOf, asset, merged, recipients[..|recipients| - 1], i);
    }
  }

  /** The sum of a table of amounts. */
  function Sum(m: map<Text, nat>): nat
    decreases |m|
  {
    if |m| == 0 then 0
    else
      var k := Least(m.Keys);
      m[k] + Sum(m - {k})
  }

  function CommitOf(h: HashFunction, keyOf: KeyOf, asset: Text, decimals: nat, entries: seq<Entry>, salt: Text)
      : Result<Commit, CommitError>
  {
    if entries == [] then Err(EmptyCommit)
    else
      match Merged(keyOf, decimals, entries)
      case Err(e) => Err(e)
      case Ok(merged) =>
        var recipients := SortedSet(merged.Keys);
        match EntitlementLeaves(h, keyOf, asset, merged, recipients)
        case Err(e) => Err(BadLeaf(e))
        case Ok(entitlements) =>
          match SaltLeaf(h, salt)
          case None => Err(BadSalt)
          case Some(saltLeaf) =>
            var leaves := entitlements + [saltLeaf];
            Ok(Commit(Root(h, leaves), asset, Sum(merged), recipients, salt, merged, leaves))
  }

  lemma MergeNext(keyOf: KeyOf, decimals: nat, entries: seq<Entry>, n: nat)
    requires n < |entries| && Merged(keyOf, decimals, entries[..n]).Ok?
    ensures Merged(keyOf, decimals, entries[..n + 1])
         == MergeOne(keyOf, decimals, Merged(keyOf, decimals, entries[..n]).value, entries[n])
  {
    hide MergeOne;
    assert entries[..n + 1][..n] == entries[..n];
  }

  lemma MergedNone(keyOf: KeyOf, decimals: nat)
    ensures Merged(keyOf, decimals, []) == Ok(map[])
  {}

  method MergeEntries(keyOf: KeyOf, decimals: nat, entries: seq<Entry>) returns (r: Result<map<Text, nat>, CommitError>)
    ensures r == Merged(keyOf, decimals, entries)
  {
    hide RawOf, Merged;
    var merged: map<Text, nat> := map[];
    MergedNone(keyOf, decimals);
    for n := 0 to |entries|
      invariant Merged(keyOf, decimals, entries[..n]) == Ok(merged)
    {
      MergeNext(keyOf, decimals, entries, n);
      var raw := RawOf(keyOf, decimals, entries[n]);
      if raw.Err? {
        MergeStops(keyOf, decimals, entries, n + 1);
        return Err(raw.error);
      }
      merged := merged[entries[n].to := AmountFor(merged, entries[n].to) + raw.value];
    }
    assert entries[..|entries|] == entries;
    return Ok(merged);
  }

  method TotalOf(merged: map<Text, nat>) returns (total: nat)
    ensures total == Sum(merged)
  {
    total := 0;
    var unread := merged;
    while |unread| > 0
      invariant total + Sum(unread) == Sum(merged)
      decreases |unread|
    {
      var address :| address in unread;
      SumRemove(unread, address);
      total := total + unread[address];
      unread := unread - {address};
    }
  }

  method BuildCommit(h: HashFunction, keyOf: KeyOf, asset: Text, decimals: nat, entries: seq<Entry>, salt: Text)
      returns (r: Result<Commit, CommitError>)
    ensures r == CommitOf(h, keyOf, asset, decimals, entries, salt)
  {
    hide Merged, SaltLeaf, Sum, Layers, IsHexOf, LeafHash, EntitlementLeaves, RawOf;
    if |entries| == 0 {
      return Err(EmptyCommit);
    }
    var merged := MergeEntries(keyOf, decimals, entries);
    if merged.Err? {
      return Err(merged.error);
    }
    var recipients := SortedSet(merged.value.Keys);
    var entitlements := EntitlementLeaves(h, keyOf, asset, merged.value, recipients);
    if entitlements.Err? {
      return Err(BadLeaf(entitlements.error));
    }
    var saltLeaf := SaltLeaf(h, salt);
    if saltLeaf.None? {
      return Err(BadSalt);
    }
    var leaves := entitlements.value + [saltLeaf.value];
    var layers := BuildLayers(h, leaves);
    var total := TotalOf(merged.value);
    r := Ok(Commit(layers[|layers| - 1][0], asset, total, recipients, salt, merged.value, leaves));
  }

  /** An entry that names an address and a positive amount the asset has decimals for. */
  ghost predicate IsPayable(keyOf: KeyOf, decimals: nat, entry: Entry) {
    && keyOf(entry.to).Some? && Amount.ToRaw(entry.amount, decimals).Ok?
    && Amount.ToRaw(entry.amount, decimals).value > 0
  }

  /** What the entries of one recipient come to. */
  ghost function OwedTo(decimals: nat, entries: seq<Entry>, address: Text): nat {
    if entries == [] then 0
    else
      var last := entries[|entries| - 1];
      OwedTo(decimals, entries[..|entries| - 1], address)
      + (if last.to == address && Amount.ToRaw(last.amount, decimals).Ok?
         then Amount.ToRaw(last.amount, decimals).value else 0)
  }

  /** Entries merge exactly when each of them is payable. */
  lemma {:induction false} MergedExactlyWhenPayable(keyOf: KeyOf, decimals: nat, entries: seq<Entry>)
    ensures Merged(keyOf, decimals, entries).Ok? <==> forall e :: e in entries ==> IsPayable(keyOf, decimals, e)
    decreases |entries|
  {
    hide IsPayable, RawOf;
    if entries != [] {
      var n := |entries| - 1;
      MergedExactlyWhenPayable(keyOf, decimals, entries[..n]);
      assert entries == entries[..n] + [entries[n]];
      RawIsPayable(keyOf, decimals, entries[n]);
    }
  }

  /** Then each recipient, and nobody else, is owed what its own entries come to. */
  lemma {:induction false} MergedAmountsAreExact(keyOf: KeyOf, decimals: nat, entries: seq<Entry>, a: Text)
    requires Merged(keyOf, decimals, entries).Ok?
    ensures a in Merged(keyOf, decimals, entries).value <==> exists e :: e in entries && e.to == a
    ensures AmountFor(Merged(keyOf, decimals, entries).value, a) == OwedTo(decimals, entries, a)
    decreases |entries|
  {
    hide IsPayable, RawOf, Amount.ToRaw;
    if entries != [] {
      var n := |entries| - 1;
      var front, last := entries[..n], entries[n];
      MergedAmountsAreExact(keyOf, decimals, front, a);
      assert entries == front + [last];
      MergedExactlyWhenPayable(keyOf, decimals, entries);
      assert last in entries;
      PayableIsOwed(keyOf, decimals, last);
    }
  }

  lemma PayableIsOwed(keyOf: KeyOf, decimals: nat, entry: Entry)
    requires IsPayable(keyOf, decimals, entry)
    ensures Amount.ToRaw(entry.amount, decimals).Ok?
    ensures RawOf(keyOf, decimals, entry) == Ok(Amount.ToRaw(entry.amount, decimals).value)
  {}

  lemma RawIsPayable(keyOf: KeyOf, decimals: nat, entry: Entry)
    ensures RawOf(keyOf, decimals, entry).Ok? <==> IsPayable(keyOf, decimals, entry)
  {}

  /** A refused entry refuses every longer list. */
  lemma {:induction false} MergeStops(keyOf: KeyOf, decimals: nat, entries: seq<Entry>, n: nat)
    requires n <= |entries| && Merged(keyOf, decimals, entries[..n]).Err?
    ensures Merged(keyOf, decimals, entries) == Merged(keyOf, decimals, entries[..n])
    decreases |entries| - n
  {
    if n == |entries| {
      assert entries[..n] == entries;
    } else {
      assert entries[..n + 1][..n] == entries[..n];
      MergeStops(keyOf, decimals, entries, n + 1);
    }
  }

  /** A sum can be taken off in any order. */
  lemma {:induction false} SumRemove(m: map<Text, nat>, k: Text)
    requires k in m
    ensures |m - {k}| == |m| - 1
    ensures Sum(m) == m[k] + Sum(m - {k})
    decreases |m|
  {
    hide Least;
    RemoveKey(m, k);
    var l := Least(m.Keys);
    if l != k {
      RemoveKey(m, l);
      SumRemove(m - {l}, k);
      RemoveTwice(m, k, l);
      LeastStays(m.Keys, k);
    }
  }

  lemma RemoveKey(m: map<Text, nat>, k: Text)
    requires k in m
    ensures (m - {k}).Keys == m.Keys - {k} && |m - {k}| == |m| - 1
  {
    assert |(m - {k}).Keys| == |m.Keys| - 1;
  }

  lemma RemoveTwice(m: map<Text, nat>, k: Text, l: Text)
    requires k in m && l in m && k != l
    ensures (m - {l}) - {k} == (m - {k}) - {l}
    ensures l in (m - {k}).Keys && (m - {k}).Keys == m.Keys - {k} && |m - {k}| > 0
  {
    assert l in m - {k};
  }

  lemma LeastStays(s: set<Text>, k: Text)
    requires k in s && s - {k} != {} && Least(s) != k
    ensures Least(s - {k}) == Least(s)
  {
    var l, r := Least(s), Least(s - {k});
    assert l in s - {k} && r in s;
    LessTrichotomy(l, r);
  }

  // ----------------------------------------------------- what a root promises

  ghost function RawTotal(keyOf: KeyOf, decimals: nat, entries: seq<Entry>): nat {
    if entries == [] then 0
    else
      var raw := RawOf(keyOf, decimals, entries[|entries| - 1]);
      RawTotal(keyOf, decimals, entries[..|entries| - 1]) + (if raw.Ok? then raw.value else 0)
  }

  lemma SumEmpty()
    ensures Sum(map[]) == 0
  {}

  /** Merging duplicates moves no units: the recipients' amounts add up to the entries'. */
  lemma {:induction false} MergingConservesTotal(keyOf: KeyOf, decimals: nat, entries: seq<Entry>)
    requires Merged(keyOf, decimals, entries).Ok?
    ensures Sum(Merged(keyOf, decimals, entries).value) == RawTotal(keyOf, decimals, entries)
    decreases |entries|
  {
    hide RawOf, Sum;
    if entries == [] {
      SumEmpty();
    } else {
      var front, last := entries[..|entries| - 1], entries[|entries| - 1];
      MergingConservesTotal(keyOf, decimals, front);
      var before := Merged(keyOf, decimals, front).value;
      var after := Merged(keyOf, decimals, entries).value;
      SumRemove(after, last.to);
      assert after - {last.to} == before - {last.to};
      if last.to in before {
        SumRemove(before, last.to);
      } else {
        assert before - {last.to} == before;
      }
    }
  }

  /** The bytes of hexadecimal text. */
  ghost function HexBytes(t: Text): Bytes {
    if AllHex(t) then FromHex(t) else []
  }

  ghost function KeyBytes(keyOf: KeyOf, address: Text): Digest {
    if keyOf(address).Some? then keyOf(address).value else seq(32, _ => 0)
  }

  /** What each leaf of a commit hashes: one entitlement per recipient, then the salt. */
  ghost function CommitInputs(keyOf: KeyOf, c: Commit): seq<Bytes> {
    seq(|c.recipients|, i requires 0 <= i < |c.recipients| =>
      LeafInput(KeyBytes(keyOf, c.recipients[i]), HexBytes(c.asset), AmountFor(c.merged, c.recipients[i])))
    + [SaltInput(HexBytes(c.salt))]
  }

  ghost predicate Built(h: HashFunction, keyOf: KeyOf, decimals: nat, entries: seq<Entry>, c: Commit) {
    CommitOf(h, keyOf, c.asset, decimals, entries, c.salt) == Ok(c)
  }

  lemma BuiltLeaves(h: HashFunction, keyOf: KeyOf, decimals: nat, entries: seq<Entry>, c: Commit)
    requires Built(h, keyOf, decimals, entries, c)
    ensures IsHex(c.asset) && IsHexOf(c.salt, 32)
    ensures Merged(keyOf, decimals, entries) == Ok(c.merged) && c.recipients == SortedSet(c.merged.Keys)
    ensures forall a :: a in c.recipients <==> a in c.merged
    ensures forall a :: a in c.merged ==> keyOf(a).Some?
    ensures forall i :: 0 <= i < |c.recipients| ==> c.merged[c.recipients[i]] < Pow256(16)
    ensures |c.leaves| == |c.recipients| + 1 && c.root == Root(h, c.leaves)
    ensures LeavesOf(h, c.leaves, CommitInputs(keyOf, c))
  {
    hide Merged, Root, FromHex, Pow256, IsHexOf, CommitInputs, EntitlementLeaves;
    var entitlements := EntitlementLeaves(h, keyOf, c.asset, c.merged, c.recipients).value;
    assert c.leaves == entitlements + [SaltLeaf(h, c.salt).value];
    CommittedLeaves(h, keyOf, c, entitlements);
  }

  /**
   * A commit's leaves are its recipients' entitlements in the order of their addresses, each
   * once, and then the salt; its total is what the recipients are owed together.
   */
  lemma CommitIsLaidOut(h: HashFunction, keyOf: KeyOf, decimals: nat, entries: seq<Entry>, c: Commit)
    requires Built(h, keyOf, decimals, entries, c)
    ensures forall i, j :: 0 <= i < j < |c.recipients| ==> Less(c.recipients[i], c.recipients[j])
    ensures forall a :: a in c.recipients <==> exists e :: e in entries && e.to == a
    ensures |c.leaves| == |c.recipients| + 1
    ensures forall i :: 0 <= i < |c.recipients| ==>
      && c.recipients[i] in c.merged && keyOf(c.recipients[i]).Some?
      && LeafHash(h, keyOf(c.recipients[i]).value, c.asset, c.merged[c.recipients[i]]) == Ok(c.leaves[i])
    ensures SaltLeaf(h, c.salt) == Some(c.leaves[|c.recipients|])
    ensures forall a :: a in c.merged ==> c.merged[a] == OwedTo(decimals, entries, a)
  {
    hide Merged, Root, SaltLeaf, LeafHash, EntitlementLeaves, Sum, OwedTo, IsHexOf, Less;
    BuiltLeaves(h, keyOf, decimals, entries, c);
    var entitlements := EntitlementLeaves(h, keyOf, c.asset, c.merged, c.recipients).value;
    forall a ensures a in c.merged <==> exists e :: e in entries && e.to == a {
      MergedAmountsAreExact(keyOf, decimals, entries, a);
    }
    forall a | a in c.merged ensures c.merged[a] == OwedTo(decimals, entries, a) {
      MergedAmountsAreExact(keyOf, decimals, entries, a);
    }
    forall i | 0 <= i < |c.recipients|
      ensures c.recipients[i] in c.merged && keyOf(c.recipients[i]).Some?
      ensures LeafHash(h, keyOf(c.recipients[i]).value, c.asset, c.merged[c.recipients[i]]) == Ok(c.leaves[i])
    {
      assert c.recipients[i] in c.recipients;
      EntitlementLeafAt(h, keyOf, c.asset, c.merged, c.recipients, i);
    }
  }

  lemma CommittedLeaves(h: HashFunction, keyOf: KeyOf, c: Commit, entitlements: seq<HexHash>)
    requires c.recipients != [] && (forall a :: a in c.recipients ==> a in c.merged && keyOf(a).Some?)
    requires EntitlementLeaves(h, keyOf, c.asset, c.merged, c.recipients) == Ok(entitlements)
    requires SaltLeaf(h, c.salt).Some? && c.leaves == entitlements + [SaltLeaf(h, c.salt).value]
    ensures IsHex(c.asset) && IsHexOf(c.salt, 32)
    ensures forall i :: 0 <= i < |c.recipients| ==> c.merged[c.recipients[i]] < Pow256(16)
    ensures LeavesOf(h, c.leaves, CommitInputs(keyOf, c))
  {
    hide FromHex, Pow256, EntitlementLeaves, LeafInput;
    var inputs := CommitInputs(keyOf, c);
    forall i | 0 <= i < |c.recipients|
      ensures IsHex(c.asset) && c.merged[c.recipients[i]] < Pow256(16)
      ensures inputs[i] != [] && inputs[i][0] != NODE_TAG && c.leaves[i] == HashText(h, inputs[i])
    {
      assert c.recipients[i] in c.recipients;
      EntitlementLeafAt(h, keyOf, c.asset, c.merged, c.recipients, i);
      LeafInputTagged(KeyBytes(keyOf, c.recipients[i]), HexBytes(c.asset), AmountFor(c.merged, c.recipients[i]));
    }
    assert IsHex(c.asset) by { var x := c.recipients[0]; }
  }

  /** Every recipient's proof, and the salt's, is accepted and no longer than the tree is high. */
  lemma CommitIsComplete(h: HashFunction, keyOf: KeyOf, decimals: nat, entries: seq<Entry>, c: Commit, i: nat)
    requires Built(h, keyOf, decimals, entries, c) && i < |c.leaves| <= Pow2(MAX_PROOF_LENGTH)
    ensures i < |c.recipients| ==>
      c.recipients[i] in c.merged && keyOf(c.recipients[i]).Some? &&
      LeafHash(h, keyOf(c.recipients[i]).value, c.asset, c.merged[c.recipients[i]]) == Ok(c.leaves[i])
    ensures i == |c.recipients| ==> SaltLeaf(h, c.salt) == Some(c.leaves[i])
    ensures Accepts(h, c.leaves[i], Path(h, c.leaves, i), c.root)
    ensures var d := |Path(h, c.leaves, i)|;
      |c.leaves| <= Pow2(d) && (d > 0 ==> Pow2(d - 1) < |c.leaves|)
  {
    hide *;
    BuiltLeaves(h, keyOf, decimals, entries, c);
    LeafOfCommit(h, keyOf, decimals, entries, c, i);
    PathIsAccepted(h, c.leaves, i);
    PathLength(h, c.leaves);
  }

  lemma LeafOfCommit(h: HashFunction, keyOf: KeyOf, decimals: nat, entries: seq<Entry>, c: Commit, i: nat)
    requires Built(h, keyOf, decimals, entries, c) && i < |c.leaves|
    ensures i < |c.recipients| ==>
      c.recipients[i] in c.merged && keyOf(c.recipients[i]).Some? &&
      LeafHash(h, keyOf(c.recipients[i]).value, c.asset, c.merged[c.recipients[i]]) == Ok(c.leaves[i])
    ensures i == |c.recipients| ==> SaltLeaf(h, c.salt) == Some(c.leaves[i])
  {
    hide Merged, Root, IsHexOf, LeafHash, SaltLeaf, EntitlementLeaves;
    if i < |c.recipients| {
      assert c.recipients[i] in c.recipients;
      EntitlementLeafAt(h, keyOf, c.asset, c.merged, c.recipients, i);
    }
  }

  /** Everything hashed to build a commit and to check one proof against it. */
  ghost function Hashed(h: HashFunction, keyOf: KeyOf, c: Commit, input: Bytes, proof: seq<HexHash>): set<Bytes> {
    TreeInputs(h, c.leaves, CommitInputs(keyOf, c)) + {input} + FoldInputs(h, HashText(h, input), proof)
  }

  /** An accepted leaf is one of the batch's own. */
  lemma AcceptedInputIsCommitted(
      h: HashFunction, keyOf: KeyOf, decimals: nat, entries: seq<Entry>, c: Commit, input: Bytes, proof: seq<HexHash>)
    requires Built(h, keyOf, decimals, entries, c)
    requires input != [] && input[0] != NODE_TAG
    requires Accepts(h, HashText(h, input), proof, c.root)
    requires NoCollision(h, Hashed(h, keyOf, c, input, proof))
    ensures input in CommitInputs(keyOf, c)
  {
    hide CommitOf, CommitInputs, HashText, Accepts, FoldInputs, NoCollision, LeavesOf, IsHexOf, NextLayer;
    BuiltLeaves(h, keyOf, decimals, entries, c);
    var inputs := CommitInputs(keyOf, c);
    var hashed := Hashed(h, keyOf, c, input, proof);
    var layers := Layers(h, c.leaves);
    LayersAreStacked(h, c.leaves, inputs, hashed);
    FoldToRoot(h, HashText(h, input), proof, c.root);
    FoldLandsOnLeaf(h, layers, 0, input, proof, inputs, hashed);
  }

  lemma FoldToRoot(h: HashFunction, leaf: HexHash, proof: seq<HexHash>, root: HexHash)
    requires Accepts(h, leaf, proof, root)
    ensures Fold(h, leaf, proof) == root
  {}

  lemma {:induction false} NodeInputsCoverPairs(h: HashFunction, leaves: seq<HexHash>, k: nat)
    requires leaves != [] && k < |Layers(h, leaves)| - 1
    ensures PairInputs(Layers(h, leaves)[k]) <= NodeInputs(h, leaves)
    decreases |leaves|
  {
    hide NextLayer, PairInputs, IsHexOf, Layers;
    LayersStep(h, [], leaves);
    assert [] + Layers(h, leaves) == Layers(h, leaves);
    if k > 0 { NodeInputsCoverPairs(h, NextLayer(h, leaves), k - 1); }
  }

  lemma LayersAreStacked(h: HashFunction, leaves: seq<HexHash>, inputs: seq<Bytes>, hashed: set<Bytes>)
    requires leaves != [] && LeavesOf(h, leaves, inputs) && TreeInputs(h, leaves, inputs) <= hashed
    ensures Stack(h, Layers(h, leaves), inputs, hashed)
  {
    hide NextLayer, PairInputs, IsHexOf, NodeInputs, LeavesOf;
    var layers := Layers(h, leaves);
    forall k | 0 <= k < |layers| - 1 ensures PairInputs(layers[k]) <= hashed {
      NodeInputsCoverPairs(h, leaves, k);
    }
  }

  /**
   * A root pays only what it was built to pay: an accepted entitlement is a recipient's merged
   * amount of the batch's asset.
   */
  lemma EntitlementIsSound(
      h: HashFunction, keyOf: KeyOf, decimals: nat, entries: seq<Entry>, c: Commit,
      key: Digest, asset: Text, amount: nat, proof: seq<HexHash>)
    requires Built(h, keyOf, decimals, entries, c)
    requires IsHex(asset) && amount < Pow256(16)
    requires LeafHash(h, key, asset, amount).Ok? && Accepts(h, LeafHash(h, key, asset, amount).value, proof, c.root)
    requires NoCollision(h, Hashed(h, keyOf, c, LeafInput(key, FromHex(asset), amount), proof))
    ensures exists a :: a in c.merged && keyOf(a) == Some(key) && c.merged[a] == amount
    ensures IsHex(c.asset) && FromHex(asset) == FromHex(c.asset)
  {
    hide CommitOf, HashText, Accepts, LeafInput, NoCollision, Hashed, Pow256, FromHex, CommitInputs, LeavesOf, Merged;
    BuiltLeaves(h, keyOf, decimals, entries, c);
    var input := LeafInput(key, FromHex(asset), amount);
    LeafInputTagged(key, FromHex(asset), amount);
    AcceptedInputIsCommitted(h, keyOf, decimals, entries, c, input, proof);
    var i := WhichInput(keyOf, c, input);
    if i < |c.recipients| {
      var a := c.recipients[i];
      assert a in c.recipients;
      LeafInputInjective(KeyBytes(keyOf, a), HexBytes(c.asset), AmountFor(c.merged, a), key, FromHex(asset), amount);
      assert a in c.merged;
    }
  }

  lemma WhichInput(keyOf: KeyOf, c: Commit, input: Bytes) returns (i: nat)
    requires input in CommitInputs(keyOf, c)
    ensures i <= |c.recipients|
    ensures i < |c.recipients| ==>
      input == LeafInput(KeyBytes(keyOf, c.recipients[i]), HexBytes(c.asset), AmountFor(c.merged, c.recipients[i]))
    ensures i == |c.recipients| ==> input == SaltInput(HexBytes(c.salt))
  {
    hide LeafInput, SaltInput, HexBytes, KeyBytes;
    i :| 0 <= i < |CommitInputs(keyOf, c)| && CommitInputs(keyOf, c)[i] == input;
  }

  lemma LeafInputTagged(key: Digest, asset: Bytes, amount: nat)
    ensures LeafInput(key, asset, amount) != [] && LeafInput(key, asset, amount)[0] == LEAF_TAG
  {}

  /** An accepted salt leaf is the batch's own salt. */
  lemma SaltIsSound(
      h: HashFunction, keyOf: KeyOf, decimals: nat, entries: seq<Entry>, c: Commit, salt: Text, proof: seq<HexHash>)
    requires Built(h, keyOf, decimals, entries, c) && IsHexOf(salt, 32)
    requires SaltLeaf(h, salt).Some? && Accepts(h, SaltLeaf(h, salt).value, proof, c.root)
    requires NoCollision(h, Hashed(h, keyOf, c, SaltInput(FromHex(salt)), proof))
    ensures IsHexOf(c.salt, 32) && FromHex(salt) == FromHex(c.salt)
  {
    hide CommitOf, HashText, Accepts, LeafInput, NoCollision, Hashed, Pow256, FromHex, CommitInputs, LeavesOf, Merged;
    BuiltLeaves(h, keyOf, decimals, entries, c);
    var input := SaltInput(FromHex(salt));
    AcceptedInputIsCommitted(h, keyOf, decimals, entries, c, input, proof);
    var i := WhichInput(keyOf, c, input);
    if i < |c.recipients| {
      LeafInputTagged(KeyBytes(keyOf, c.recipients[i]), HexBytes(c.asset), AmountFor(c.merged, c.recipients[i]));
      assert false;
    }
    assert input[1..] == FromHex(salt) && SaltInput(HexBytes(c.salt))[1..] == HexBytes(c.salt);
  }
}
