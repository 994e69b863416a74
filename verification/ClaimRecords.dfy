/** packages/claims/src/store.ts: a memory and a browser store for claim bundles, as steps on one scope's records. */
module ClaimRecords {
  import opened Texts
  import opened Outcomes

  const MAX_PENDING: nat := 128

  datatype Scope = Scope(network: Text, address: Text)

  /** Whether a wallet signed this exact value at this root; nothing is assumed about it. */
  type Verifier = (Scope, Text, Text, Text) -> bool

  /** A record of the memory store. */
  datatype Item = Item(root: Text, value: Text, admitted: bool)

  /** A record of the browser store: admission is the signature itself. */
  datatype Stored = Stored(root: Text, value: Text, admission: Option<Text>)

  datatype Op =
    | List(limit: int)
    | Read(root: Text)
    | ReadAdmitted(root: Text)
    | Write(root: Text, value: Text)
    | Admit(root: Text, value: Text, authority: Option<Text>)
    | Remove(root: Text)

  datatype Response = Roots(roots: seq<Text>) | Found(value: Option<Text>) | Done | Admitted(ok: bool) | Full

  // ------------------------------------------------------- the memory store

  function ItemAt(items: seq<Item>, root: Text): (i: nat)
    ensures i <= |items|
    ensures i < |items| ==> items[i].root == root
    ensures forall k :: 0 <= k < i ==> items[k].root != root
  {
    if items == [] || items[0].root == root then 0 else 1 + ItemAt(items[1..], root)
  }

  /** `set` on a map that remembers insertion order. */
  function PutItem(items: seq<Item>, item: Item): seq<Item> {
    var i := ItemAt(items, item.root);
    if i < |items| then items[i := item] else items + [item]
  }

  function DropItem(items: seq<Item>, root: Text): seq<Item> {
    var i := ItemAt(items, root);
    if i < |items| then items[..i] + items[i + 1..] else items
  }

  function ItemRoots(items: seq<Item>): seq<Text> { seq(|items|, i requires 0 <= i < |items| => items[i].root) }

  /** `roots.slice(0, limit)`: a negative limit counts from the end. */
  function SliceTo<T>(s: seq<T>, limit: int): seq<T> {
    if limit >= 0 then (if limit < |s| then s[..limit] else s)
    else if |s| + limit > 0 then s[..|s| + limit] else []
  }

  function MemoryStep(items: seq<Item>, op: Op): (seq<Item>, Response) {
    match op
    case List(limit) => (items, Roots(SliceTo(ItemRoots(items), limit)))
    case Read(root) =>
      var i := ItemAt(items, root);
      (items, Found(if i < |items| then Some(items[i].value) else None))
    case ReadAdmitted(root) =>
      var i := ItemAt(items, root);
      (items, Found(if i < |items| && items[i].admitted then Some(items[i].value) else None))
    case Write(root, value) =>
      if ItemAt(items, root) == |items| >= MAX_PENDING then (items, Full)
      else (PutItem(items, Item(root, value, false)), Done)
    case Admit(root, value, _) =>
      var i := ItemAt(items, root);
      if i < |items| && items[i].admitted then (items, Admitted(items[i].value == value))
      else if i == |items| >= MAX_PENDING then (items, Full)
      else (PutItem(items, Item(root, value, true)), Admitted(true))
    case Remove(root) => (DropItem(items, root), Done)
  }

  // ------------------------------------------------------ the browser store

  function StoredAt(records: seq<Stored>, root: Text): (i: nat)
    ensures i <= |records|
    ensures i < |records| ==> records[i].root == root
    ensures forall k :: 0 <= k < i ==> records[k].root != root
  {
    if records == [] || records[0].root == root then 0 else 1 + StoredAt(records[1..], root)
  }

  function PutStored(records: seq<Stored>, record: Stored): seq<Stored> {
    var i := StoredAt(records, record.root);
    if i < |records| then records[i := record] else records + [record]
  }

  /** `records.filter(([candidate]) => candidate !== root)`. */
  function WithoutRoot(records: seq<Stored>, root: Text): seq<Stored> {
    if records == [] then []
    else (if records[0].root == root then [] else [records[0]]) + WithoutRoot(records[1..], root)
  }

  function StoredRoots(records: seq<Stored>): seq<Text> {
    seq(|records|, i requires 0 <= i < |records| => records[i].root)
  }

  predicate HasAuthority(verify: Verifier, scope: Scope, root: Text, value: Text, authority: Option<Text>) {
    authority.Some? && verify(scope, root, value, authority.value)
  }

  function BrowserStep(verify: Verifier, scope: Scope, records: seq<Stored>, op: Op): (seq<Stored>, Response) {
    match op
    case List(limit) => (records, Roots(SliceTo(StoredRoots(records), if limit > 0 then limit else 0)))
    case Read(root) =>
      var i := StoredAt(records, root);
      (records, Found(if i < |records| then Some(records[i].value) else None))
    case ReadAdmitted(root) =>
      var i := StoredAt(records, root);
      if i < |records| && HasAuthority(verify, scope, root, records[i].value, records[i].admission)
      then (records, Found(Some(records[i].value)))
      else (records, Found(None))
    case Write(root, value) =>
      if StoredAt(records, root) == |records| >= MAX_PENDING then (records, Full)
      else (PutStored(records, Stored(root, value, None)), Done)
    case Admit(root, value, authority) =>
      var i := StoredAt(records, root);
      if !HasAuthority(verify, scope, root, value, authority) then (records, Admitted(false))
      else if i < |records| && HasAuthority(verify, scope, root, records[i].value, records[i].admission) then
        (records, Admitted(records[i].value == value))
      else if i == |records| >= MAX_PENDING then (records, Full)
      else (PutStored(records, Stored(root, value, authority)), Admitted(true))
    case Remove(root) => (WithoutRoot(records, root), Done)
  }

  /** Both stores list their first roots, as many as asked for; a negative limit takes from the memory store's end. */
  lemma ListsAreExact(verify: Verifier, scope: Scope, items: seq<Item>, records: seq<Stored>, limit: int)
    ensures var listed := MemoryStep(items, List(limit)).1;
      && listed.Roots? && |listed.roots| <= |items|
      && |listed.roots| == (if limit >= 0 then (if limit < |items| then limit else |items|)
                            else if |items| + limit > 0 then |items| + limit else 0)
      && forall i :: 0 <= i < |listed.roots| ==> listed.roots[i] == items[i].root
    ensures var listed := BrowserStep(verify, scope, records, List(limit)).1;
      && listed.Roots? && |listed.roots| <= |records|
      && |listed.roots| == (if limit <= 0 then 0 else if limit < |records| then limit else |records|)
      && forall i :: 0 <= i < |listed.roots| ==> listed.roots[i] == records[i].root
  {}

  // ------------------------------------------------------------ equivalence

  ghost predicate UniqueRoots(records: seq<Stored>) {
    forall i, j :: 0 <= i < j < |records| ==> records[i].root != records[j].root
  }

  /** What parsing accepts and every step keeps. */
  ghost predicate Bounded(records: seq<Stored>) { UniqueRoots(records) && |records| <= MAX_PENDING }

  function AsItem(verify: Verifier, scope: Scope, s: Stored): Item {
    Item(s.root, s.value, HasAuthority(verify, scope, s.root, s.value, s.admission))
  }

  /** The memory store's records that browser records amount to. */
  function AsItems(verify: Verifier, scope: Scope, records: seq<Stored>): (items: seq<Item>)
    ensures |items| == |records|
    ensures forall i :: 0 <= i < |records| ==> items[i] == AsItem(verify, scope, records[i])
  {
    seq(|records|, i requires 0 <= i < |records| => AsItem(verify, scope, records[i]))
  }

  /**
   * The requests on which the two stores answer alike: a signed admission, or one the memory
   * store refuses too; a list limit that is not negative, or so negative that nothing is left.
   */
  predicate Agreeable(verify: Verifier, scope: Scope, items: seq<Item>, op: Op) {
    match op
    case List(limit) => limit >= 0 || |items| + limit <= 0
    case Admit(root, value, authority) =>
      || HasAuthority(verify, scope, root, value, authority)
      || (var i := ItemAt(items, root); i < |items| && items[i].admitted && items[i].value != value)
    case _ => true
  }

  lemma SameIndex(verify: Verifier, scope: Scope, records: seq<Stored>, root: Text)
    ensures ItemAt(AsItems(verify, scope, records), root) == StoredAt(records, root)
  {
    var items := AsItems(verify, scope, records);
    var i, j := ItemAt(items, root), StoredAt(records, root);
    assert i < |items| ==> records[i].root == root;
    assert j < |records| ==> items[j].root == root;
  }

  lemma SameRoots(verify: Verifier, scope: Scope, records: seq<Stored>)
    ensures ItemRoots(AsItems(verify, scope, records)) == StoredRoots(records)
  {}

  lemma {:induction false} WithoutAbsent(records: seq<Stored>, root: Text)
    requires forall k :: 0 <= k < |records| ==> records[k].root != root
    ensures WithoutRoot(records, root) == records
    decreases |records|
  {
    if records != [] {
      WithoutAbsent(records[1..], root);
      assert records == [records[0]] + records[1..];
    }
  }

  lemma CutLater(records: seq<Stored>, i: nat)
    requires 0 < i < |records|
    ensures records[..i] + records[i + 1..] == [records[0]] + (records[1..][..i - 1] + records[1..][i..])
  {}

  lemma {:induction false} WithoutIsDrop(records: seq<Stored>, root: Text)
    requires UniqueRoots(records)
    ensures var i := StoredAt(records, root);
      WithoutRoot(records, root) == if i < |records| then records[..i] + records[i + 1..] else records
    decreases |records|
  {
    if records != [] {
      var tail, i := records[1..], StoredAt(records, root);
      assert records == [records[0]] + tail;
      if records[0].root == root {
        WithoutAbsent(tail, root);
        assert [] + tail == records[..0] + records[1..];
      } else {
        WithoutIsDrop(tail, root);
        assert i == 1 + StoredAt(tail, root);
        if i < |records| { CutLater(records, i); }
      }
    }
  }

  lemma PutAgrees(verify: Verifier, scope: Scope, records: seq<Stored>, record: Stored)
    ensures AsItems(verify, scope, PutStored(records, record))
      == PutItem(AsItems(verify, scope, records), AsItem(verify, scope, record))
  {
    hide HasAuthority;
    SameIndex(verify, scope, records, record.root);
  }

  lemma DropAgrees(verify: Verifier, scope: Scope, records: seq<Stored>, root: Text)
    requires UniqueRoots(records)
    ensures AsItems(verify, scope, WithoutRoot(records, root)) == DropItem(AsItems(verify, scope, records), root)
  {
    hide WithoutRoot, UniqueRoots, AsItem, ItemAt, StoredAt;
    SameIndex(verify, scope, records, root);
    WithoutIsDrop(records, root);
    var i, items := StoredAt(records, root), AsItems(verify, scope, records);
    if i < |records| {
      var kept := records[..i] + records[i + 1..];
      forall k | 0 <= k < |kept| ensures AsItems(verify, scope, kept)[k] == (items[..i] + items[i + 1..])[k] {}
    }
  }

  lemma DropKeepsBound(records: seq<Stored>, root: Text)
    requires UniqueRoots(records)
    ensures UniqueRoots(WithoutRoot(records, root)) && |WithoutRoot(records, root)| <= |records|
  {
    hide WithoutRoot, StoredAt;
    WithoutIsDrop(records, root);
  }

  /** One request: the two stores answer alike exactly when it is agreeable, and then stay alike. */
  lemma StepsAgreeExactlyWhenAgreeable(verify: Verifier, scope: Scope, records: seq<Stored>, op: Op)
    requires Bounded(records)
    ensures var items := AsItems(verify, scope, records);
      && (MemoryStep(items, op).1 == BrowserStep(verify, scope, records, op).1 <==> Agreeable(verify, scope, items, op))
      && (Agreeable(verify, scope, items, op) ==>
            MemoryStep(items, op).0 == AsItems(verify, scope, BrowserStep(verify, scope, records, op).0))
  {
    hide PutItem, PutStored, WithoutRoot, DropItem, UniqueRoots;
    match op
    case List(limit) =>
      SameRoots(verify, scope, records);
      if limit < 0 && |records| + limit > 0 {
        assert |SliceTo(StoredRoots(records), limit)| > 0;
      }
    case Read(root) => SameIndex(verify, scope, records, root);
    case ReadAdmitted(root) => SameIndex(verify, scope, records, root);
    case Write(root, value) =>
      SameIndex(verify, scope, records, root);
      PutAgrees(verify, scope, records, Stored(root, value, None));
    case Admit(root, value, authority) =>
      SameIndex(verify, scope, records, root);
      PutAgrees(verify, scope, records, Stored(root, value, authority));
    case Remove(root) => DropAgrees(verify, scope, records, root);
  }

  /** Every request leaves at most 128 records, under distinct roots. */
  lemma BrowserStepKeepsBound(verify: Verifier, scope: Scope, records: seq<Stored>, op: Op)
    requires Bounded(records)
    ensures Bounded(BrowserStep(verify, scope, records, op).0)
  {
    hide HasAuthority, WithoutRoot;
    if op.Remove? { DropKeepsBound(records, op.root); }
  }

  // ------------------------------------------------------------------- runs

  /** One scope's requests, in the order its lock serves them. */
  function MemoryRun(ops: seq<Op>): (seq<Item>, seq<Response>) {
    if ops == [] then ([], [])
    else
      var before := MemoryRun(ops[..|ops| - 1]);
      var step := MemoryStep(before.0, ops[|ops| - 1]);
      (step.0, before.1 + [step.1])
  }

  function BrowserRun(verify: Verifier, scope: Scope, ops: seq<Op>): (seq<Stored>, seq<Response>) {
    if ops == [] then ([], [])
    else
      var before := BrowserRun(verify, scope, ops[..|ops| - 1]);
      var step := BrowserStep(verify, scope, before.0, ops[|ops| - 1]);
      (step.0, before.1 + [step.1])
  }

  ghost predicate AllAgreeable(verify: Verifier, scope: Scope, ops: seq<Op>) {
    forall n :: 0 <= n < |ops| ==> Agreeable(verify, scope, MemoryRun(ops[..n]).0, ops[n])
  }

  lemma {:induction false} RunSizes(verify: Verifier, scope: Scope, ops: seq<Op>)
    ensures |MemoryRun(ops).1| == |ops| == |BrowserRun(verify, scope, ops).1|
    decreases |ops|
  {
    hide MemoryStep, BrowserStep;
    if ops != [] { RunSizes(verify, scope, ops[..|ops| - 1]); }
  }

  /** Over every run: at most 128 records, under distinct roots. */
  lemma {:induction false} EveryRunIsBounded(verify: Verifier, scope: Scope, ops: seq<Op>)
    ensures Bounded(BrowserRun(verify, scope, ops).0)
    decreases |ops|
  {
    hide BrowserStep, Bounded;
    if ops != [] {
      EveryRunIsBounded(verify, scope, ops[..|ops| - 1]);
      BrowserStepKeepsBound(verify, scope, BrowserRun(verify, scope, ops[..|ops| - 1]).0, ops[|ops| - 1]);
    } else {
      NothingStored();
    }
  }

  lemma NothingStored()
    ensures Bounded([])
  {}

  lemma AgreeableStep(verify: Verifier, scope: Scope, ops: seq<Op>)
    requires ops != []
    ensures var n := |ops| - 1;
      AllAgreeable(verify, scope, ops) <==>
          AllAgreeable(verify, scope, ops[..n]) && Agreeable(verify, scope, MemoryRun(ops[..n]).0, ops[n])
  {
    hide Agreeable, MemoryRun;
    var n := |ops| - 1;
    forall k | 0 <= k < n ensures ops[..n][..k] == ops[..k] && ops[..n][k] == ops[k] {}
  }

  /**
   * Observational equality, exactly: from empty stores, the answers of a whole run are the
   * same, and the records stay alike, if and only if every request of it is agreeable. Signed
   * admissions and non-negative limits always are.
   */
  lemma {:induction false} RunsAgreeExactlyWhenAgreeable(verify: Verifier, scope: Scope, ops: seq<Op>)
    ensures MemoryRun(ops).1 == BrowserRun(verify, scope, ops).1 <==> AllAgreeable(verify, scope, ops)
    ensures AllAgreeable(verify, scope, ops) ==>
      MemoryRun(ops).0 == AsItems(verify, scope, BrowserRun(verify, scope, ops).0)
    decreases |ops|
  {
    hide MemoryStep, BrowserStep, Agreeable, AllAgreeable, AsItems, Bounded;
    if ops == [] {
      NothingAsked(verify, scope);
    } else {
      var n := |ops| - 1;
      RunsAgreeExactlyWhenAgreeable(verify, scope, ops[..n]);
      EveryRunIsBounded(verify, scope, ops[..n]);
      RunSizes(verify, scope, ops[..n]);
      AgreeableStep(verify, scope, ops);
      StepsAgreeExactlyWhenAgreeable(verify, scope, BrowserRun(verify, scope, ops[..n]).0, ops[n]);
      var m, b := MemoryRun(ops), BrowserRun(verify, scope, ops);
      assert m.1[..n] == MemoryRun(ops[..n]).1 && b.1[..n] == BrowserRun(verify, scope, ops[..n]).1;
      assert m.1[n] == MemoryStep(MemoryRun(ops[..n]).0, ops[n]).1;
      assert b.1[n] == BrowserStep(verify, scope, BrowserRun(verify, scope, ops[..n]).0, ops[n]).1;
    }
  }

  lemma NothingAsked(verify: Verifier, scope: Scope)
    ensures AllAgreeable(verify, scope, []) && AsItems(verify, scope, []) == []
  {}

  /** Well-signed admissions and non-negative limits keep any run agreeable. */
  lemma SignedRunsAgree(verify: Verifier, scope: Scope, ops: seq<Op>)
    requires forall op :: op in ops && op.Admit? ==> HasAuthority(verify, scope, op.root, op.value, op.authority)
    requires forall op :: op in ops && op.List? ==> op.limit >= 0
    ensures MemoryRun(ops).1 == BrowserRun(verify, scope, ops).1
  {
    hide HasAuthority, MemoryRun, BrowserRun;
    forall n | 0 <= n < |ops| ensures Agreeable(verify, scope, MemoryRun(ops[..n]).0, ops[n]) { assert ops[n] in ops; }
    RunsAgreeExactlyWhenAgreeable(verify, scope, ops);
  }

  // -------------------------------------------------------------- admission

  /** The value a scope has admitted at a root. */
  function AdmittedValue(verify: Verifier, scope: Scope, records: seq<Stored>, root: Text): Option<Text> {
    BrowserStep(verify, scope, records, ReadAdmitted(root)).1.value
  }

  /**
   * No request but a plain write or a removal of the same root takes an admitted value away:
   * admitting another value there fails and changes nothing.
   */
  lemma AdmittedValuesStand(verify: Verifier, scope: Scope, records: seq<Stored>, root: Text, op: Op)
    requires Bounded(records) && AdmittedValue(verify, scope, records, root).Some?
    requires !(op.Write? && op.root == root) && !(op.Remove? && op.root == root)
    ensures AdmittedValue(verify, scope, BrowserStep(verify, scope, records, op).0, root)
      == AdmittedValue(verify, scope, records, root)
    ensures op.Admit? && op.root == root && op.value != AdmittedValue(verify, scope, records, root).value ==>
      BrowserStep(verify, scope, records, op) == (records, Admitted(false))
  {
    hide HasAuthority, WithoutRoot;
    var i, after := StoredAt(records, root), BrowserStep(verify, scope, records, op).0;
    if op.Remove? {
      WithoutIsDrop(records, op.root);
      RemovedElsewhere(records, root, op.root);
    } else {
      assert after[i] == records[i];
      OnlyPlace(after, root, i);
    }
  }

  lemma OnlyPlace(records: seq<Stored>, root: Text, i: nat)
    requires i < |records| && records[i].root == root && forall k :: 0 <= k < i ==> records[k].root != root
    ensures StoredAt(records, root) == i
  {
    assert StoredAt(records, root) <= i;
  }

  lemma RemovedElsewhere(records: seq<Stored>, root: Text, gone: Text)
    requires UniqueRoots(records) && root != gone && StoredAt(records, root) < |records|
    ensures StoredAt(WithoutRoot(records, gone), root) < |WithoutRoot(records, gone)|
    ensures WithoutRoot(records, gone)[StoredAt(WithoutRoot(records, gone), root)] == records[StoredAt(records, root)]
  {
    hide WithoutRoot;
    WithoutIsDrop(records, gone);
    var i, d := StoredAt(records, root), StoredAt(records, gone);
    var after := WithoutRoot(records, gone);
    var place := if d < |records| && d < i then i - 1 else i;
    assert after[place] == records[i];
    OnlyPlace(after, root, place);
  }

  /** Whatever `readAdmitted` returns is stored at that root under an authority that verifies for those very bytes. */
  lemma AdmittedBytesVerify(verify: Verifier, scope: Scope, records: seq<Stored>, root: Text)
    requires AdmittedValue(verify, scope, records, root).Some?
    ensures exists s :: s in records && s.root == root && s.value == AdmittedValue(verify, scope, records, root).value
                     && s.admission.Some? && verify(scope, root, s.value, s.admission.value)
  {
    var i := StoredAt(records, root);
    assert records[i] in records;
  }

  /** Over every run, each admitted value was admitted by a request carrying that very authority for it. */
  lemma {:induction false} AdmissionsWereRequested(verify: Verifier, scope: Scope, ops: seq<Op>, s: Stored)
    requires s in BrowserRun(verify, scope, ops).0 && s.admission.Some?
    ensures verify(scope, s.root, s.value, s.admission.value)
    ensures Admit(s.root, s.value, s.admission) in ops
    decreases |ops|
  {
    hide WithoutRoot;
    var n := |ops| - 1;
    assert ops == ops[..n] + [ops[n]];
    var before := BrowserRun(verify, scope, ops[..n]).0;
    if s in before {
      AdmissionsWereRequested(verify, scope, ops[..n], s);
    } else if ops[n].Remove? {
      KeptWereStored(before, ops[n].root, s);
    }
  }

  lemma {:induction false} KeptWereStored(records: seq<Stored>, root: Text, s: Stored)
    requires s in WithoutRoot(records, root)
    ensures s in records
    decreases |records|
  {
    if s !in (if records[0].root == root then [] else [records[0]]) { KeptWereStored(records[1..], root, s); }
  }
}
