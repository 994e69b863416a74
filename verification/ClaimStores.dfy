/** packages/claims/src/store.ts: the two stores as the source writes them, each against those steps. */
module ClaimStores {
  import opened Texts
  import opened Outcomes
  import opened ClaimRecords

  datatype Pair = Pair(root: Text, value: Text)

  function PairAt(pairs: seq<Pair>, root: Text): (i: nat)
    ensures i <= |pairs|
    ensures i < |pairs| ==> pairs[i].root == root
    ensures forall k :: 0 <= k < i ==> pairs[k].root != root
  {
    if pairs == [] || pairs[0].root == root then 0 else 1 + PairAt(pairs[1..], root)
  }

  function PutPair(pairs: seq<Pair>, pair: Pair): seq<Pair> {
    var i := PairAt(pairs, pair.root);
    if i < |pairs| then pairs[i := pair] else pairs + [pair]
  }

  function DropPair(pairs: seq<Pair>, root: Text): seq<Pair> {
    var i := PairAt(pairs, root);
    if i < |pairs| then pairs[..i] + pairs[i + 1..] else pairs
  }

  ghost predicate UniquePairs(pairs: seq<Pair>) {
    forall i, j :: 0 <= i < j < |pairs| ==> pairs[i].root != pairs[j].root
  }

  function ItemsOf(pairs: seq<Pair>, admitted: set<Text>): (items: seq<Item>)
    ensures |items| == |pairs|
    ensures forall i :: 0 <= i < |pairs| ==> items[i] == Item(pairs[i].root, pairs[i].value, pairs[i].root in admitted)
  {
    seq(|pairs|, i requires 0 <= i < |pairs| => Item(pairs[i].root, pairs[i].value, pairs[i].root in admitted))
  }

  /** Putting a pair and flagging or unflagging its root is putting the item. */
  lemma PutIsPut(pairs: seq<Pair>, admitted: set<Text>, root: Text, value: Text, flag: bool)
    requires UniquePairs(pairs)
    ensures ItemsOf(PutPair(pairs, Pair(root, value)), if flag then admitted + {root} else admitted - {root})
         == PutItem(ItemsOf(pairs, admitted), Item(root, value, flag))
    ensures UniquePairs(PutPair(pairs, Pair(root, value)))
    ensures |PutPair(pairs, Pair(root, value))| <= |pairs| + 1
  {
    var i, after := PairAt(pairs, root), PutPair(pairs, Pair(root, value));
    var items := ItemsOf(after, if flag then admitted + {root} else admitted - {root});
    forall k | 0 <= k < |items| ensures items[k] == PutItem(ItemsOf(pairs, admitted), Item(root, value, flag))[k] {
      if k < |pairs| && k != i { assert pairs[k].root != root; }
    }
  }

  /** Where the `k`-th pair stood before the `i`-th was dropped. */
  function Origin(i: nat, k: nat): nat { if k < i then k else k + 1 }

  lemma DroppedPairs(pairs: seq<Pair>, root: Text)
    requires UniquePairs(pairs)
    ensures UniquePairs(DropPair(pairs, root))
    ensures PairAt(pairs, root) < |pairs| ==> |DropPair(pairs, root)| == |pairs| - 1
    ensures PairAt(pairs, root) < |pairs| ==> forall k :: 0 <= k < |DropPair(pairs, root)| ==>
      var from := Origin(PairAt(pairs, root), k);
      from < |pairs| && DropPair(pairs, root)[k] == pairs[from] && DropPair(pairs, root)[k].root != root
  {
    hide PairAt;
    var i, after := PairAt(pairs, root), DropPair(pairs, root);
    if i < |pairs| {
      forall k | 0 <= k < |pairs| - 1 ensures after[k] == pairs[Origin(i, k)] && after[k].root != root {}
      forall j, k | 0 <= j < k < |after| ensures after[j].root != after[k].root {
        assert after[j] == pairs[Origin(i, j)] && after[k] == pairs[Origin(i, k)];
      }
    }
  }

  lemma DropIsDrop(pairs: seq<Pair>, admitted: set<Text>, root: Text)
    requires UniquePairs(pairs)
    ensures ItemsOf(DropPair(pairs, root), admitted - {root}) == DropItem(ItemsOf(pairs, admitted), root)
    ensures UniquePairs(DropPair(pairs, root))
  {
    hide UniquePairs, PairAt, ItemAt;
    DroppedPairs(pairs, root);
    var i, after := PairAt(pairs, root), DropPair(pairs, root);
    var items, dropped := ItemsOf(after, admitted - {root}), DropItem(ItemsOf(pairs, admitted), root);
    forall k | 0 <= k < |items| ensures items[k] == dropped[k] {
      if i < |pairs| { assert after[k] == pairs[Origin(i, k)]; }
    }
  }

  predicate Holds(pairs: seq<Pair>, root: Text) { PairAt(pairs, root) < |pairs| }

  lemma PuttingHolds(pairs: seq<Pair>, root: Text, value: Text, other: Text)
    ensures Holds(PutPair(pairs, Pair(root, value)), other) <==> other == root || Holds(pairs, other)
  {
    var i, j, after := PairAt(pairs, root), PairAt(pairs, other), PutPair(pairs, Pair(root, value));
    assert i < |after| && after[i].root == root;
    if j < |pairs| && other != root { assert after[j].root == other; }
    assert forall k :: 0 <= k < |after| ==> after[k].root == root || (k < |pairs| && after[k] == pairs[k]);
  }

  lemma DroppingHolds(pairs: seq<Pair>, root: Text, other: Text)
    requires other != root && Holds(pairs, other)
    ensures Holds(DropPair(pairs, root), other)
  {
    var i, j, after := PairAt(pairs, root), PairAt(pairs, other), DropPair(pairs, root);
    if i < |pairs| {
      var k := if j < i then j else j - 1;
      assert after[k] == pairs[j];
    }
  }

  class MemoryClaimStore {
    var records: map<Scope, seq<Pair>>
    var admitted: map<Scope, set<Text>>

    ghost predicate Valid()
      reads this
    {
      && (forall s :: s in records ==> UniquePairs(records[s]))
      && (forall s :: s in admitted ==> s in records && forall root :: root in admitted[s] ==> Holds(records[s], root))
    }

    function PairsAt(scope: Scope): seq<Pair>
      reads this
    {
      if scope in records then records[scope] else []
    }

    function AdmittedAt(scope: Scope): set<Text>
      reads this
    {
      if scope in admitted then admitted[scope] else {}
    }

    ghost function Items(scope: Scope): seq<Item>
      reads this
    {
      ItemsOf(PairsAt(scope), AdmittedAt(scope))
    }

    constructor ()
      ensures Valid() && forall s :: Items(s) == []
    {
      records := map[];
      admitted := map[];
    }

    method List(scope: Scope, limit: int) returns (r: Response)
      requires Valid()
      ensures (Items(scope), r) == MemoryStep(Items(scope), Op.List(limit))
    {
      var pairs := PairsAt(scope);
      var roots: seq<Text> := seq(|pairs|, i requires 0 <= i < |pairs| => pairs[i].root);
      assert roots == ItemRoots(Items(scope));
      r := Roots(SliceTo(roots, limit));
    }

    method Read(scope: Scope, root: Text) returns (r: Response)
      requires Valid()
      ensures (Items(scope), r) == MemoryStep(Items(scope), Op.Read(root))
    {
      var i := PairAt(PairsAt(scope), root);
      r := Found(if i < |PairsAt(scope)| then Some(PairsAt(scope)[i].value) else None);
    }

    method ReadAdmitted(scope: Scope, root: Text) returns (r: Response)
      requires Valid()
      ensures (Items(scope), r) == MemoryStep(Items(scope), Op.ReadAdmitted(root))
    {
      if root !in AdmittedAt(scope) { return Found(None); }
      var i := PairAt(PairsAt(scope), root);
      r := Found(if i < |PairsAt(scope)| then Some(PairsAt(scope)[i].value) else None);
    }

    method Write(scope: Scope, root: Text, value: Text) returns (r: Response)
      requires Valid()
      modifies this
      ensures Valid() && (Items(scope), r) == MemoryStep(old(Items(scope)), Op.Write(root, value))
      ensures forall s :: s != scope ==> Items(s) == old(Items(s))
    {
      hide PutItem, PutPair;
      var pairs := PairsAt(scope);
      PutIsPut(pairs, AdmittedAt(scope), root, value, false);
      if PairAt(pairs, root) == |pairs| && |pairs| >= MAX_PENDING { return Full; }
      forall other ensures Holds(PutPair(pairs, Pair(root, value)), other) <==> other == root || Holds(pairs, other) {
        PuttingHolds(pairs, root, value, other);
      }
      records := records[scope := PutPair(pairs, Pair(root, value))];
      if scope in admitted { admitted := admitted[scope := admitted[scope] - {root}]; }
      assert AdmittedAt(scope) == old(AdmittedAt(scope)) - {root};
      r := Done;
    }

    method Admit(scope: Scope, root: Text, value: Text) returns (r: Response)
      requires Valid()
      modifies this
      ensures Valid() && (Items(scope), r) == MemoryStep(old(Items(scope)), Op.Admit(root, value, None))
      ensures forall s :: s != scope ==> Items(s) == old(Items(s))
    {
      hide PutItem, PutPair;
      var pairs := PairsAt(scope);
      var i := PairAt(pairs, root);
      PutIsPut(pairs, AdmittedAt(scope), root, value, true);
      if root in AdmittedAt(scope) { return Admitted(pairs[i].value == value); }
      if i == |pairs| && |pairs| >= MAX_PENDING { return Full; }
      forall other ensures Holds(PutPair(pairs, Pair(root, value)), other) <==> other == root || Holds(pairs, other) {
        PuttingHolds(pairs, root, value, other);
      }
      records := records[scope := PutPair(pairs, Pair(root, value))];
      admitted := admitted[scope := AdmittedAt(scope) + {root}];
      r := Admitted(true);
    }

    method Remove(scope: Scope, root: Text) returns (r: Response)
      requires Valid()
      modifies this
      ensures Valid() && (Items(scope), r) == MemoryStep(old(Items(scope)), Op.Remove(root))
      ensures forall s :: s != scope ==> Items(s) == old(Items(s))
    {
      hide DropItem, DropPair, ItemsOf, Holds;
      DropIsDrop(PairsAt(scope), AdmittedAt(scope), root);
      DropsNothing(AdmittedAt(scope), root);
      if scope !in records { return Done; }
      var left, flags := DropPair(records[scope], root), AdmittedAt(scope) - {root};
      forall other | other in flags ensures Holds(left, other) { DroppingHolds(records[scope], root, other); }
      NothingHeld(root);
      records := if left == [] then records - {scope} else records[scope := left];
      if scope in admitted { admitted := if flags == {} then admitted - {scope} else admitted[scope := flags]; }
      assert PairsAt(scope) == left && AdmittedAt(scope) == flags;
      r := Done;
    }
  }

  lemma NothingHeld(root: Text)
    ensures forall other :: !Holds([], other)
  {}

  lemma DropsNothing(admitted: set<Text>, root: Text)
    ensures DropItem(ItemsOf([], admitted), root) == ItemsOf([], admitted)
  {}

  class BrowserClaimStore {
    /** The namespace records web storage holds for each scope. */
    var storage: map<Scope, seq<Stored>>
    const verify: Verifier

    ghost predicate Valid()
      reads this
    {
      forall s :: s in storage ==> Bounded(storage[s])
    }

    function Load(scope: Scope): seq<Stored>
      reads this
    {
      if scope in storage then storage[scope] else []
    }

    constructor (verify: Verifier)
      ensures Valid() && this.verify == verify && forall s :: Load(s) == []
    {
      storage := map[];
      this.verify := verify;
    }

    method List(scope: Scope, limit: int) returns (r: Response)
      requires Valid()
      ensures (Load(scope), r) == BrowserStep(verify, scope, Load(scope), Op.List(limit))
    {
      var records := Load(scope);
      var kept := SliceTo(records, if limit > 0 then limit else 0);
      var roots: seq<Text> := seq(|kept|, i requires 0 <= i < |kept| => kept[i].root);
      assert roots == SliceTo(StoredRoots(records), if limit > 0 then limit else 0);
      r := Roots(roots);
    }

    method Read(scope: Scope, root: Text) returns (r: Response)
      requires Valid()
      ensures (Load(scope), r) == BrowserStep(verify, scope, Load(scope), Op.Read(root))
    {
      var records := Load(scope);
      var i := StoredAt(records, root);
      r := Found(if i < |records| then Some(records[i].value) else None);
    }

    method ReadAdmitted(scope: Scope, root: Text) returns (r: Response)
      requires Valid()
      ensures (Load(scope), r) == BrowserStep(verify, scope, Load(scope), Op.ReadAdmitted(root))
    {
      var records := Load(scope);
      var i := StoredAt(records, root);
      if i == |records| { return Found(None); }
      var admitted := HasAuthority(verify, scope, root, records[i].value, records[i].admission);
      r := Found(if admitted then Some(records[i].value) else None);
    }

    method Write(scope: Scope, root: Text, value: Text) returns (r: Response)
      requires Valid()
      modifies this`storage
      ensures Valid() && (Load(scope), r) == BrowserStep(verify, scope, old(Load(scope)), Op.Write(root, value))
      ensures forall s :: s != scope ==> Load(s) == old(Load(s))
    {
      hide Bounded;
      NothingStored();
      var records := Load(scope);
      BrowserStepKeepsBound(verify, scope, records, Op.Write(root, value));
      var existing := StoredAt(records, root);
      if existing == |records| && |records| >= MAX_PENDING { return Full; }
      if existing == |records| {
        records := records + [Stored(root, value, None)];
      } else {
        records := records[existing := Stored(root, value, None)];
      }
      storage := storage[scope := records];
      r := Done;
    }

    /** Stores the bytes unsigned, reads them back, then signs them and reads that back. */
    method Admit(scope: Scope, root: Text, value: Text, authority: Option<Text>) returns (r: Response)
      requires Valid()
      modifies this`storage
      ensures Valid() &&
        (Load(scope), r) == BrowserStep(verify, scope, old(Load(scope)), Op.Admit(root, value, authority))
      ensures forall s :: s != scope ==> Load(s) == old(Load(s))
    {
      hide Bounded;
      NothingStored();
      if !HasAuthority(verify, scope, root, value, authority) { return Admitted(false); }
      var records := Load(scope);
      BrowserStepKeepsBound(verify, scope, records, Op.Admit(root, value, authority));
      BrowserStepKeepsBound(verify, scope, records, Op.Write(root, value));
      var existing := StoredAt(records, root);
      if existing < |records| &&
         HasAuthority(verify, scope, root, records[existing].value, records[existing].admission) {
        return Admitted(records[existing].value == value);
      }
      if existing == |records| && |records| >= MAX_PENDING { return Full; }
      if existing == |records| {
        records := records + [Stored(root, value, None)];
      } else {
        records := records[existing := Stored(root, value, None)];
      }
      storage := storage[scope := records];
      // What web storage gives back decides: only the very bytes just written are signed.
      var candidateRecords := Load(scope);
      OnlyPlace(candidateRecords, root, existing);
      var candidate := StoredAt(candidateRecords, root);
      var intact := candidate < |candidateRecords| && candidateRecords[candidate] == Stored(root, value, None);
      if intact {
        candidateRecords := candidateRecords[candidate := Stored(root, value, authority)];
        assert candidateRecords == PutStored(old(Load(scope)), Stored(root, value, authority));
        storage := storage[scope := candidateRecords];
      }
      OnlyPlace(candidateRecords, root, existing);
      var stored := Load(scope);
      var place := StoredAt(stored, root);
      var admission := if place < |stored| && stored[place].value == value then stored[place].admission else None;
      r := Admitted(if intact then admission == authority else HasAuthority(verify, scope, root, value, admission));
    }

    method Remove(scope: Scope, root: Text) returns (r: Response)
      requires Valid()
      modifies this`storage
      ensures Valid() && (Load(scope), r) == BrowserStep(verify, scope, old(Load(scope)), Op.Remove(root))
      ensures forall s :: s != scope ==> Load(s) == old(Load(s))
    {
      hide Bounded, WithoutRoot;
      NothingStored();
      var records := WithoutRoot(Load(scope), root);
      BrowserStepKeepsBound(verify, scope, Load(scope), Op.Remove(root));
      if records == [] {
        storage := storage - {scope};
      } else {
        storage := storage[scope := records];
      }
      r := Done;
    }
  }
}
