/** packages/core/src/asset-cache.ts: the gate that hands a slot straight to the longest waiting task. */
module Gate {
  import opened Outcomes

  /** How many slots are taken, and who waits for one. */
  datatype State = State(held: nat, waiting: seq<nat>)

  function Enter(s: State, limit: nat, task: nat): State {
    if s.held < limit then s.(held := s.held + 1) else s.(waiting := s.waiting + [task])
  }

  /** A slot goes straight to the longest waiting task, or is freed. */
  function Leave(s: State): State
    requires s.held > 0
  {
    if s.waiting != [] then s.(waiting := s.waiting[1..]) else s.(held := s.held - 1)
  }

  class Gate {
    var held: nat
    var waiting: seq<nat>
    const limit: nat

    constructor (limit: nat)
      ensures held == 0 && waiting == [] && this.limit == limit
    {
      held, waiting := 0, [];
      this.limit := limit;
    }

    /** True when the task may start at once; otherwise it waits to be woken. */
    method Take(task: nat) returns (started: bool)
      modifies this
      ensures started == (old(held) < limit)
      ensures State(held, waiting) == Enter(State(old(held), old(waiting)), limit, task)
    {
      started := held < limit;
      if started {
        held := held + 1;
      } else {
        waiting := waiting + [task];
      }
    }

    /** The task woken by this release, if any was waiting. */
    method Release() returns (woken: Option<nat>)
      requires held > 0
      modifies this
      ensures woken == if old(waiting) == [] then None else Some(old(waiting)[0])
      ensures State(held, waiting) == Leave(State(old(held), old(waiting)))
    {
      if |waiting| > 0 {
        woken := Some(waiting[0]);
        waiting := waiting[1..];
      } else {
        woken := None;
        held := held - 1;
      }
    }
  }
}

/** packages/core/src/asset-cache.ts: the memory that forgets what was used least recently. */
module Recency {
  import opened Texts
  import opened Outcomes

  type AssetId = Text

  /** An issuance record as remembered, in the insertion order of the source's map. */
  datatype Entry<R> = Entry(asset: AssetId, record: R)

  function IndexOf<R>(known: seq<Entry<R>>, asset: AssetId): (i: nat)
    ensures i <= |known|
    ensures i < |known| ==> known[i].asset == asset
    ensures forall k :: 0 <= k < i ==> known[k].asset != asset
  {
    if known == [] || known[0].asset == asset then 0 else 1 + IndexOf(known[1..], asset)
  }

  predicate Knows<R>(known: seq<Entry<R>>, asset: AssetId) { IndexOf(known, asset) < |known| }

  /** Deleting and re-inserting an entry moves it to the end. */
  function Touched<R>(known: seq<Entry<R>>, asset: AssetId): seq<Entry<R>>
    requires Knows(known, asset)
  {
    var i := IndexOf(known, asset);
    known[..i] + known[i + 1..] + [known[i]]
  }

  function Inserted<R>(known: seq<Entry<R>>, asset: AssetId, record: R): seq<Entry<R>> {
    var i := IndexOf(known, asset);
    if i < |known| then known[i := Entry(asset, record)] else known + [Entry(asset, record)]
  }

  /** Inserting a record and dropping from the front down to the limit. */
  function Remembered<R>(known: seq<Entry<R>>, limit: nat, asset: AssetId, record: R): seq<Entry<R>> {
    var all := Inserted(known, asset, record);
    if |all| > limit then all[|all| - limit..] else all
  }

  /** One client's memory of the assets it has looked at. */
  class Memory<R> {
    var known: seq<Entry<R>>
    const limit: nat

    constructor (limit: nat)
      ensures known == [] && this.limit == limit
    {
      known := [];
      this.limit := limit;
    }

    method Recall(asset: AssetId) returns (r: Option<R>)
      modifies this
      ensures !Knows(old(known), asset) ==> r.None? && known == old(known)
      ensures Knows(old(known), asset) ==>
        r == Some(old(known)[IndexOf(old(known), asset)].record) && known == Touched(old(known), asset)
    {
      var i := IndexOf(known, asset);
      if i == |known| {
        return None;
      }
      var entry := known[i];
      known := known[..i] + known[i + 1..];
      known := known + [entry];
      return Some(entry.record);
    }

    method Remember(asset: AssetId, record: R)
      modifies this
      ensures known == Remembered(old(known), limit, asset, record)
    {
      known := Inserted(known, asset, record);
      ghost var all := known;
      while |known| > limit
        invariant |known| <= |all| && known == all[|all| - |known|..]
        invariant |all| > limit ==> |known| >= limit
        invariant |all| <= limit ==> known == all
      {
        known := known[1..];
      }
    }
  }

  ghost predicate DistinctKeys<R>(known: seq<Entry<R>>) {
    forall i, j :: 0 <= i < j < |known| ==> known[i].asset != known[j].asset
  }

  /** Entries stand in the order they were last used. */
  ghost predicate ByLastUse<R>(known: seq<Entry<R>>, used: map<AssetId, nat>) {
    && (forall i :: 0 <= i < |known| ==> known[i].asset in used)
    && (forall i, j :: 0 <= i < j < |known| ==> used[known[i].asset] < used[known[j].asset])
  }

  lemma OrderedKeysAreDistinct<R>(known: seq<Entry<R>>, used: map<AssetId, nat>)
    requires ByLastUse(known, used)
    ensures DistinctKeys(known)
  {}

  lemma TouchedAt<R>(known: seq<Entry<R>>, asset: AssetId, k: nat)
    requires Knows(known, asset) && k < |known|
    ensures |Touched(known, asset)| == |known|
    ensures Touched(known, asset)[k] ==
      var i := IndexOf(known, asset);
      if k == |known| - 1 then known[i] else if k < i then known[k] else known[k + 1]
  {}

  /** Touching at a later time keeps the order of last use, the same records, and distinct keys. */
  lemma TouchKeepsOrder<R>(known: seq<Entry<R>>, asset: AssetId, used: map<AssetId, nat>, now: nat)
    requires DistinctKeys(known) && ByLastUse(known, used) && Knows(known, asset)
    requires forall a :: a in used ==> used[a] < now
    ensures DistinctKeys(Touched(known, asset)) && ByLastUse(Touched(known, asset), used[asset := now])
    ensures forall e :: e in Touched(known, asset) ==> e in known
    ensures |Touched(known, asset)| == |known|
  {
    hide Touched, IndexOf;
    var t, later := Touched(known, asset), used[asset := now];
    TouchedAt(known, asset, |known| - 1);
    forall k | 0 <= k < |t| ensures t[k] in known && t[k].asset in later { TouchedAt(known, asset, k); }
    forall j, k | 0 <= j < k < |t| ensures later[t[j].asset] < later[t[k].asset] {
      TouchedAt(known, asset, j);
      TouchedAt(known, asset, k);
    }
    OrderedKeysAreDistinct(t, later);
  }

  lemma RememberedAt<R>(known: seq<Entry<R>>, limit: nat, asset: AssetId, record: R)
    requires !Knows(known, asset) && |known| <= limit
    ensures Remembered(known, limit, asset, record)
         == (known + [Entry(asset, record)])[if |known| == limit then 1 else 0..]
  {}

  lemma UnknownEverywhere<R>(known: seq<Entry<R>>, asset: AssetId, k: nat)
    requires !Knows(known, asset) && k < |known|
    ensures known[k].asset != asset
  {}

  /** Remembering keeps within the limit; what it drops is what was used least recently. */
  lemma RememberEvictsLeastRecent<R>(
      known: seq<Entry<R>>, limit: nat, asset: AssetId, record: R, used: map<AssetId, nat>, now: nat)
    requires DistinctKeys(known) && ByLastUse(known, used) && |known| <= limit && !Knows(known, asset)
    requires forall a :: a in used ==> used[a] < now
    ensures var after := Remembered(known, limit, asset, record);
      && |after| == (if |known| < limit then |known| + 1 else limit)
      && DistinctKeys(after) && ByLastUse(after, used[asset := now])
      && (forall e :: e in after ==> e in known || e == Entry(asset, record))
    ensures forall e, kept :: e in known && e !in Remembered(known, limit, asset, record)
                              && kept in Remembered(known, limit, asset, record) ==>
      e.asset in used[asset := now] && kept.asset in used[asset := now] &&
      used[asset := now][e.asset] < used[asset := now][kept.asset]
  {
    hide *;
    var all, later := known + [Entry(asset, record)], used[asset := now];
    var d := if |known| == limit then 1 else 0;
    RememberedAt(known, limit, asset, record);
    AppendKeepsOrder(known, asset, record, used, now);
    SuffixKeepsOrder(all, d, later);
    OrderedKeysAreDistinct(all[d..], later);
    DroppedWereEarlier(known, all, all[d..], d, later);
  }

  lemma AppendKeepsOrder<R>(known: seq<Entry<R>>, asset: AssetId, record: R, used: map<AssetId, nat>, now: nat)
    requires ByLastUse(known, used) && !Knows(known, asset)
    requires forall a :: a in used ==> used[a] < now
    ensures ByLastUse(known + [Entry(asset, record)], used[asset := now])
  {
    hide Knows;
    var all, later := known + [Entry(asset, record)], used[asset := now];
    forall k | 0 <= k < |known| ensures all[k].asset in used && later[all[k].asset] == used[known[k].asset] {
      UnknownEverywhere(known, asset, k);
    }
  }

  lemma SuffixKeepsOrder<R>(all: seq<Entry<R>>, d: nat, used: map<AssetId, nat>)
    requires ByLastUse(all, used) && d <= |all|
    ensures ByLastUse(all[d..], used)
    ensures forall e :: e in all[d..] ==> e in all
  {}

  lemma DroppedWereEarlier<R>(
      known: seq<Entry<R>>, all: seq<Entry<R>>, after: seq<Entry<R>>, d: nat, later: map<AssetId, nat>)
    requires |known| <= |all| && d <= |all| && known == all[..|known|] && after == all[d..] && ByLastUse(all, later)
    ensures forall e, kept :: e in known && e !in after && kept in after ==>
      e.asset in later && kept.asset in later && later[e.asset] < later[kept.asset]
  {
    forall m | d <= m < |all| ensures all[m] in after { assert after[m - d] == all[m]; }
    forall e, kept | e in known && e !in after && kept in after
      ensures e.asset in later && kept.asset in later && later[e.asset] < later[kept.asset]
    {
      var i :| 0 <= i < |known| && known[i] == e;
      var j :| 0 <= j < |after| && after[j] == kept;
      assert all[i] == e && all[d + j] == kept;
    }
  }
}
