/** packages/core/src/asset-cache.ts: gate, in-flight table and memory as the steps that run between awaits. */
module AssetCache {
  import opened Outcomes
  import opened Recency
  import Gate

  /** What the node says: no such asset, a broken request, or a record under some id. */
  datatype Reply<R> = Unknown | Broken | Info(id: AssetId, record: R)

  /** What a lookup gives its callers. */
  datatype Outcome<R> = Absent | Rejected | Found(record: R)

  /**
   * A lookup: waiting for a slot, woken with a slot but not yet resumed, asking the node,
   * answered with the slot given back, concluded, and gone from the in-flight table.
   */
  datatype Phase<R> =
    | Waiting
    | Woken
    | Looking
    | Answered(reply: Reply<R>)
    | Concluded(outcome: Outcome<R>)
    | Closed(outcome: Outcome<R>)

  datatype Task<R> = Task(asset: AssetId, phase: Phase<R>)

  /**
   * Tasks are numbered in arrival order. `slots` lists them as they got a slot and `started`
   * as their request began; `overtaken` remembers that some task began while an earlier one
   * held a slot but had not resumed.
   */
  datatype State<R> = State(
    gate: Gate.State, tasks: seq<Task<R>>, woken: seq<nat>, asking: map<AssetId, nat>,
    known: seq<Entry<R>>, used: map<AssetId, nat>, clock: nat,
    slots: seq<nat>, started: seq<nat>, overtaken: bool)

  function Initial<R>(): State<R> {
    State(Gate.State(0, []), [], [], map[], [], map[], 0, [], [], false)
  }

  datatype Event<R> =
    | Ask(asset: AssetId)
    | Resume
    | Answer(task: nat, reply: Reply<R>)
    | Conclude(task: nat)
    | Finish(task: nat)

  predicate Enabled<R>(s: State<R>, e: Event<R>) {
    match e
    case Ask(_) => true
    case Resume => s.woken != [] && s.woken[0] < |s.tasks|
    case Answer(t, _) => t < |s.tasks| && s.tasks[t].phase.Looking? && s.gate.held > 0 &&
                         (s.gate.waiting != [] ==> s.gate.waiting[0] < |s.tasks|)
    case Conclude(t) => t < |s.tasks| && s.tasks[t].phase.Answered?
    case Finish(t) => t < |s.tasks| && s.tasks[t].phase.Concluded?
  }

  function WithPhase<R>(tasks: seq<Task<R>>, t: nat, phase: Phase<R>): seq<Task<R>>
    requires t < |tasks|
  {
    tasks[t := tasks[t].(phase := phase)]
  }

  /** `recall`, then `lookUp` when nothing is remembered. */
  function OnAsk<R>(s: State<R>, limit: nat, asset: AssetId): State<R> {
    if Knows(s.known, asset) then
      s.(known := Touched(s.known, asset), used := s.used[asset := s.clock], clock := s.clock + 1)
    else if asset in s.asking then s
    else
      var t := |s.tasks|;
      var now := s.gate.held < limit;
      s.(gate := Gate.Enter(s.gate, limit, t),
         tasks := s.tasks + [Task(asset, if now then Looking else Waiting)],
         asking := s.asking[asset := t],
         slots := if now then s.slots + [t] else s.slots,
         started := if now then s.started + [t] else s.started,
         overtaken := s.overtaken || (now && s.woken != []))
  }

  function OnResume<R>(s: State<R>): State<R>
    requires s.woken != [] && s.woken[0] < |s.tasks|
  {
    s.(woken := s.woken[1..], tasks := WithPhase(s.tasks, s.woken[0], Looking), started := s.started + [s.woken[0]])
  }

  function OnAnswer<R>(s: State<R>, t: nat, reply: Reply<R>): State<R>
    requires Enabled(s, Answer(t, reply))
  {
    var tasks := WithPhase(s.tasks, t, Answered(reply));
    if s.gate.waiting == [] then s.(gate := Gate.Leave(s.gate), tasks := tasks)
    else
      var next := s.gate.waiting[0];
      s.(gate := Gate.Leave(s.gate), tasks := WithPhase(tasks, next, Woken),
         woken := s.woken + [next], slots := s.slots + [next])
  }

  function OnConclude<R>(s: State<R>, capacity: nat, t: nat): State<R>
    requires t < |s.tasks| && s.tasks[t].phase.Answered?
  {
    var asset := s.tasks[t].asset;
    match s.tasks[t].phase.reply
    case Unknown => s.(tasks := WithPhase(s.tasks, t, Concluded(Absent)))
    case Broken => s.(tasks := WithPhase(s.tasks, t, Concluded(Rejected)))
    case Info(id, record) =>
      if id != asset then s.(tasks := WithPhase(s.tasks, t, Concluded(Rejected)))
      else
        s.(tasks := WithPhase(s.tasks, t, Concluded(Found(record))),
           known := Remembered(s.known, capacity, asset, record),
           used := s.used[asset := s.clock], clock := s.clock + 1)
  }

  function OnFinish<R>(s: State<R>, t: nat): State<R>
    requires t < |s.tasks| && s.tasks[t].phase.Concluded?
  {
    s.(tasks := WithPhase(s.tasks, t, Closed(s.tasks[t].phase.outcome)), asking := s.asking - {s.tasks[t].asset})
  }

  function Next<R>(s: State<R>, limit: nat, capacity: nat, e: Event<R>): State<R>
    requires Enabled(s, e)
  {
    match e
    case Ask(asset) => OnAsk(s, limit, asset)
    case Resume => OnResume(s)
    case Answer(t, reply) => OnAnswer(s, t, reply)
    case Conclude(t) => OnConclude(s, capacity, t)
    case Finish(t) => OnFinish(s, t)
  }

  /** The node's record under an id never changes; a reply may still be under a wrong id. */
  ghost predicate Honest<R>(truth: AssetId -> R, e: Event<R>) {
    e.Answer? && e.reply.Info? ==> e.reply.record == truth(e.reply.id)
  }

  // ------------------------------------------------------------ invariants

  predicate HoldsSlot<R>(phase: Phase<R>) { phase.Woken? || phase.Looking? }

  function SlotsHeld<R>(tasks: seq<Task<R>>): nat {
    if tasks == [] then 0
    else SlotsHeld(tasks[..|tasks| - 1]) + (if HoldsSlot(tasks[|tasks| - 1].phase) then 1 else 0)
  }

  function Requests<R>(tasks: seq<Task<R>>): nat {
    if tasks == [] then 0
    else Requests(tasks[..|tasks| - 1]) + (if tasks[|tasks| - 1].phase.Looking? then 1 else 0)
  }

  /** Slots: never more than the limit, all taken while anyone waits, and given in arrival order. */
  ghost predicate GateInv<R>(s: State<R>, limit: nat) {
    && s.gate.held == SlotsHeld(s.tasks) <= limit
    && (s.gate.waiting != [] ==> s.gate.held == limit)
    && |s.slots| + |s.gate.waiting| == |s.tasks|
    && (forall k :: 0 <= k < |s.slots| ==> s.slots[k] == k)
    && (forall k :: 0 <= k < |s.gate.waiting| ==> s.gate.waiting[k] == |s.slots| + k)
    && (forall t :: 0 <= t < |s.tasks| ==> (s.tasks[t].phase.Waiting? <==> t >= |s.slots|))
    && (forall k :: 0 <= k < |s.woken| ==> s.woken[k] < |s.slots| && s.tasks[s.woken[k]].phase.Woken?)
    && (forall j, k :: 0 <= j < k < |s.woken| ==> s.woken[j] != s.woken[k])
  }

  /** At most one open lookup an asset, which is the one the in-flight table names. */
  ghost predicate AskingInv<R>(s: State<R>) {
    && (forall a :: a in s.asking ==>
        s.asking[a] < |s.tasks| && s.tasks[s.asking[a]].asset == a && !s.tasks[s.asking[a]].phase.Closed?)
    && (forall t :: 0 <= t < |s.tasks| && !s.tasks[t].phase.Closed? ==>
        s.tasks[t].asset in s.asking && s.asking[s.tasks[t].asset] == t)
  }

  predicate Unconcluded<R>(phase: Phase<R>) { phase.Waiting? || phase.Woken? || phase.Looking? || phase.Answered? }

  /** The memory: bounded, in order of last use, true, and silent about assets still being asked about. */
  ghost predicate MemoryInv<R>(s: State<R>, capacity: nat, truth: AssetId -> R) {
    && DistinctKeys(s.known) && ByLastUse(s.known, s.used) && |s.known| <= capacity
    && (forall a :: a in s.used ==> s.used[a] < s.clock)
    && (forall k :: 0 <= k < |s.known| ==> s.known[k].record == truth(s.known[k].asset))
    && (forall t :: 0 <= t < |s.tasks| && Unconcluded(s.tasks[t].phase) ==> !Knows(s.known, s.tasks[t].asset))
    && (forall t :: 0 <= t < |s.tasks| && s.tasks[t].phase.Answered? && s.tasks[t].phase.reply.Info? ==>
          s.tasks[t].phase.reply.record == truth(s.tasks[t].phase.reply.id))
    && (forall t :: 0 <= t < |s.tasks| ==> Truthful(s.tasks[t], truth))
  }

  ghost predicate Truthful<R>(task: Task<R>, truth: AssetId -> R) {
    && (task.phase.Concluded? && task.phase.outcome.Found? ==> task.phase.outcome.record == truth(task.asset))
    && (task.phase.Closed? && task.phase.outcome.Found? ==> task.phase.outcome.record == truth(task.asset))
  }

  /** Requests begin in arrival order exactly as long as nobody overtook a woken task. */
  ghost predicate OrderInv<R>(s: State<R>) {
    && (!s.overtaken ==>
          && |s.started| + |s.woken| == |s.slots|
          && (forall k :: 0 <= k < |s.started| ==> s.started[k] == k)
          && (forall k :: 0 <= k < |s.woken| ==> s.woken[k] == |s.started| + k))
    && (s.overtaken ==> exists k :: 0 <= k < |s.started| && s.started[k] != k)
  }

  lemma {:induction false} CountsAt<R>(tasks: seq<Task<R>>, t: nat, phase: Phase<R>)
    requires t < |tasks|
    ensures SlotsHeld(WithPhase(tasks, t, phase))
         == SlotsHeld(tasks) - (if HoldsSlot(tasks[t].phase) then 1 else 0) + (if HoldsSlot(phase) then 1 else 0)
    decreases |tasks|
  {
    var after := WithPhase(tasks, t, phase);
    if t == |tasks| - 1 {
      assert after[..t] == tasks[..t];
    } else {
      CountsAt(tasks[..|tasks| - 1], t, phase);
      assert after[..|tasks| - 1] == WithPhase(tasks[..|tasks| - 1], t, phase);
    }
  }

  lemma {:induction false} RequestsHoldSlots<R>(tasks: seq<Task<R>>)
    ensures Requests(tasks) <= SlotsHeld(tasks)
    decreases |tasks|
  {
    if tasks != [] { RequestsHoldSlots(tasks[..|tasks| - 1]); }
  }

  lemma SlotIsHeld<R>(tasks: seq<Task<R>>, t: nat)
    requires t < |tasks| && HoldsSlot(tasks[t].phase)
    ensures SlotsHeld(tasks) > 0
  {
    CountsAt(tasks, t, Waiting);
  }

  lemma NextKeepsGateInv<R>(s: State<R>, limit: nat, capacity: nat, e: Event<R>)
    requires Enabled(s, e) && GateInv(s, limit)
    ensures GateInv(Next(s, limit, capacity, e), limit)
  {
    hide GateInv, OnAsk, OnAnswer, OnResume, Knows, Touched, Remembered;
    match e
    case Ask(asset) => AskKeepsGate(s, limit, asset);
    case Resume => ResumeKeepsGate(s, limit);
    case Answer(t, reply) => AnswerKeepsGate(s, limit, t, reply);
    case Conclude(t) => LatePhaseKeepsGate(s, Next(s, limit, capacity, e), limit, t);
    case Finish(t) => LatePhaseKeepsGate(s, Next(s, limit, capacity, e), limit, t);
  }

  lemma AskKeepsGate<R>(s: State<R>, limit: nat, asset: AssetId)
    requires GateInv(s, limit)
    ensures GateInv(OnAsk(s, limit, asset), limit)
  {
    hide Knows, Touched, IndexOf, SlotsHeld;
    var n := OnAsk(s, limit, asset);
    if !Knows(s.known, asset) && asset !in s.asking { OneMoreTask(s.tasks, n.tasks[|s.tasks|]); }
  }

  lemma OneMoreTask<R>(tasks: seq<Task<R>>, task: Task<R>)
    ensures SlotsHeld(tasks + [task]) == SlotsHeld(tasks) + (if HoldsSlot(task.phase) then 1 else 0)
  {
    assert (tasks + [task])[..|tasks|] == tasks;
  }

  lemma ResumeKeepsGate<R>(s: State<R>, limit: nat)
    requires GateInv(s, limit) && s.woken != []
    ensures s.woken[0] < |s.tasks| && GateInv(OnResume(s), limit)
  {
    CountsAt(s.tasks, s.woken[0], Looking);
  }

  lemma AnswerKeepsGate<R>(s: State<R>, limit: nat, t: nat, reply: Reply<R>)
    requires Enabled(s, Answer(t, reply)) && GateInv(s, limit)
    ensures GateInv(OnAnswer(s, t, reply), limit)
  {
    hide SlotsHeld;
    CountsAt(s.tasks, t, Answered(reply));
    if s.gate.waiting != [] {
      var next := s.gate.waiting[0];
      assert next == |s.slots|;
      assert s.tasks[next].phase.Waiting?;
      CountsAt(WithPhase(s.tasks, t, Answered(reply)), next, Woken);
    }
  }

  /** A task that gave its slot back changes phase without touching the gate. */
  lemma LatePhaseKeepsGate<R>(s: State<R>, n: State<R>, limit: nat, t: nat)
    requires GateInv(s, limit) && t < |s.tasks| && !HoldsSlot(s.tasks[t].phase) && !s.tasks[t].phase.Waiting?
    requires |n.tasks| == |s.tasks| && n.tasks == WithPhase(s.tasks, t, n.tasks[t].phase)
    requires !HoldsSlot(n.tasks[t].phase) && !n.tasks[t].phase.Waiting?
    requires n.gate == s.gate && n.slots == s.slots && n.woken == s.woken
    ensures GateInv(n, limit)
  {
    hide SlotsHeld;
    CountsAt(s.tasks, t, n.tasks[t].phase);
  }

  lemma NextKeepsAskingInv<R>(s: State<R>, limit: nat, capacity: nat, e: Event<R>)
    requires Enabled(s, e) && GateInv(s, limit) && AskingInv(s)
    ensures AskingInv(Next(s, limit, capacity, e))
  {
    hide GateInv, Knows, Touched, Remembered, IndexOf, SlotsHeld, AskingInv, Gate.Leave, Gate.Enter, OnAsk;
    hide OnAnswer, OnFinish;
    var n := Next(s, limit, capacity, e);
    match e
    case Ask(asset) => AskKeepsAsking(s, limit, asset);
    case Resume => OpenPhaseKeepsAsking(s, n, s.woken[0]) by { WokenIsOpen(s, limit); }
    case Answer(t, reply) => AnswerKeepsAsking(s, limit, t, reply);
    case Conclude(t) => OpenPhaseKeepsAsking(s, n, t);
    case Finish(t) => FinishKeepsAsking(s, t);
  }

  lemma WokenIsOpen<R>(s: State<R>, limit: nat)
    requires GateInv(s, limit) && s.woken != []
    ensures s.woken[0] < |s.tasks| && s.tasks[s.woken[0]].phase.Woken?
  {
    hide SlotsHeld;
  }

  lemma AskKeepsAsking<R>(s: State<R>, limit: nat, asset: AssetId)
    requires AskingInv(s)
    ensures AskingInv(OnAsk(s, limit, asset))
  {
    hide Knows, Touched, IndexOf, Gate.Enter;
  }

  lemma FinishKeepsAsking<R>(s: State<R>, t: nat)
    requires AskingInv(s) && t < |s.tasks| && s.tasks[t].phase.Concluded?
    ensures AskingInv(OnFinish(s, t))
  {
    assert s.asking[s.tasks[t].asset] == t;
  }

  /** An open task moving to another open phase leaves the in-flight table right. */
  lemma OpenPhaseKeepsAsking<R>(s: State<R>, n: State<R>, t: nat)
    requires AskingInv(s) && t < |s.tasks| && !s.tasks[t].phase.Closed?
    requires |n.tasks| == |s.tasks| && n.tasks == WithPhase(s.tasks, t, n.tasks[t].phase) && !n.tasks[t].phase.Closed?
    requires n.asking == s.asking
    ensures AskingInv(n)
  {}

  lemma AnswerKeepsAsking<R>(s: State<R>, limit: nat, t: nat, reply: Reply<R>)
    requires Enabled(s, Answer(t, reply)) && GateInv(s, limit) && AskingInv(s)
    ensures AskingInv(OnAnswer(s, t, reply))
  {
    hide SlotsHeld, AskingInv, Gate.Leave;
    var middle := s.(tasks := WithPhase(s.tasks, t, Answered(reply)));
    OpenPhaseKeepsAsking(s, middle, t);
    if s.gate.waiting == [] {
      OpenPhaseKeepsAsking(s, OnAnswer(s, t, reply), t);
    } else {
      var next := s.gate.waiting[0];
      assert next == |s.slots| && s.tasks[next].phase.Waiting?;
      OpenPhaseKeepsAsking(middle, OnAnswer(s, t, reply), next);
    }
  }

  lemma NextKeepsOrderInv<R>(s: State<R>, limit: nat, capacity: nat, e: Event<R>)
    requires Enabled(s, e) && GateInv(s, limit) && OrderInv(s)
    ensures OrderInv(Next(s, limit, capacity, e))
  {
    hide Knows, Touched, Remembered, IndexOf, SlotsHeld;
    var n := Next(s, limit, capacity, e);
    if s.overtaken {
      var k :| 0 <= k < |s.started| && s.started[k] != k;
      assert n.started[k] != k;
    } else if n.overtaken {
      assert n.started[|s.started|] != |s.started|;
    }
  }

  lemma NextKeepsMemoryInv<R>(s: State<R>, limit: nat, capacity: nat, truth: AssetId -> R, e: Event<R>)
    requires Enabled(s, e) && GateInv(s, limit) && AskingInv(s) && MemoryInv(s, capacity, truth) && Honest(truth, e)
    ensures MemoryInv(Next(s, limit, capacity, e), capacity, truth)
  {
    hide SlotsHeld;
    match e
    case Ask(asset) => AskKeepsMemory(s, limit, capacity, truth, asset);
    case Conclude(t) => ConcludeKeepsMemory(s, capacity, truth, t);
    case _ => PhaseKeepsMemory(s, limit, capacity, truth, e);
  }

  lemma AskKeepsMemory<R>(s: State<R>, limit: nat, capacity: nat, truth: AssetId -> R, asset: AssetId)
    requires MemoryInv(s, capacity, truth)
    ensures MemoryInv(OnAsk(s, limit, asset), capacity, truth)
  {
    var n := OnAsk(s, limit, asset);
    if Knows(s.known, asset) {
      TouchKeepsOrder(s.known, asset, s.used, s.clock);
      SameKeysKnown(s.known, n.known);
      forall k | 0 <= k < |n.known| ensures n.known[k].record == truth(n.known[k].asset) {
        assert n.known[k] in s.known;
      }
    }
  }

  lemma SameKeysKnown<R>(a: seq<Entry<R>>, b: seq<Entry<R>>)
    requires forall e :: e in b ==> e in a
    ensures forall x :: Knows(b, x) ==> Knows(a, x)
  {
    forall x | Knows(b, x) ensures Knows(a, x) { assert b[IndexOf(b, x)] in a; }
  }

  lemma ConcludeKeepsMemory<R>(s: State<R>, capacity: nat, truth: AssetId -> R, t: nat)
    requires t < |s.tasks| && s.tasks[t].phase.Answered? && AskingInv(s) && MemoryInv(s, capacity, truth)
    ensures MemoryInv(OnConclude(s, capacity, t), capacity, truth)
  {
    hide IndexOf, Knows, DistinctKeys, ByLastUse, Remembered, AskingInv;
    var n := OnConclude(s, capacity, t);
    var asset, reply := s.tasks[t].asset, s.tasks[t].phase.reply;
    if reply.Info? && reply.id == asset {
      RememberEvictsLeastRecent(s.known, capacity, asset, reply.record, s.used, s.clock);
      forall k | 0 <= k < |n.known| ensures n.known[k].record == truth(n.known[k].asset) {
        assert n.known[k] in n.known;
        if n.known[k] in s.known { var j :| 0 <= j < |s.known| && s.known[j] == n.known[k]; }
      }
      forall u | 0 <= u < |n.tasks| && Unconcluded(n.tasks[u].phase) ensures !Knows(n.known, n.tasks[u].asset) {
        StillUnknown(s, capacity, t, u, reply.record);
      }
    }
  }

  lemma StillUnknown<R>(s: State<R>, capacity: nat, t: nat, u: nat, record: R)
    requires AskingInv(s) && t < |s.tasks| && u < |s.tasks| && t != u
    requires Unconcluded(s.tasks[t].phase) && Unconcluded(s.tasks[u].phase)
    requires !Knows(s.known, s.tasks[u].asset)
    requires forall e :: e in Remembered(s.known, capacity, s.tasks[t].asset, record) ==>
      e in s.known || e == Entry(s.tasks[t].asset, record)
    ensures !Knows(Remembered(s.known, capacity, s.tasks[t].asset, record), s.tasks[u].asset)
  {
    hide Remembered, Knows, IndexOf;
    var known, asset := Remembered(s.known, capacity, s.tasks[t].asset, record), s.tasks[u].asset;
    assert s.asking[asset] == u && s.asking[s.tasks[t].asset] == t;
    forall k | 0 <= k < |known| ensures known[k].asset != asset {
      assert known[k] in known;
      if known[k] in s.known {
        var j :| 0 <= j < |s.known| && s.known[j] == known[k];
        UnknownEverywhere(s.known, asset, j);
      }
    }
    NowhereIsUnknown(known, asset);
  }

  lemma NowhereIsUnknown<R>(known: seq<Entry<R>>, asset: AssetId)
    requires forall k :: 0 <= k < |known| ==> known[k].asset != asset
    ensures !Knows(known, asset)
  {}

  lemma PhaseKeepsMemory<R>(s: State<R>, limit: nat, capacity: nat, truth: AssetId -> R, e: Event<R>)
    requires Enabled(s, e) && GateInv(s, limit) && MemoryInv(s, capacity, truth) && Honest(truth, e)
    requires e.Resume? || e.Answer? || e.Finish?
    ensures MemoryInv(Next(s, limit, capacity, e), capacity, truth)
  {
    hide SlotsHeld, Knows, DistinctKeys, ByLastUse;
  }

  // ------------------------------------------------------------------ runs

  ghost predicate Inv<R>(s: State<R>, limit: nat, capacity: nat, truth: AssetId -> R) {
    GateInv(s, limit) && AskingInv(s) && MemoryInv(s, capacity, truth) && OrderInv(s)
  }

  /** The state after a list of events, when each could happen in its turn. */
  ghost function After<R>(limit: nat, capacity: nat, events: seq<Event<R>>): Option<State<R>> {
    if events == [] then Some(Initial())
    else
      var before, e := After(limit, capacity, events[..|events| - 1]), events[|events| - 1];
      if before.Some? && Enabled(before.value, e) then Some(Next(before.value, limit, capacity, e)) else None
  }

  ghost predicate AllHonest<R>(truth: AssetId -> R, events: seq<Event<R>>) {
    forall k :: 0 <= k < |events| ==> Honest(truth, events[k])
  }

  lemma {:induction false} EveryRunKeepsInv<R>(limit: nat, capacity: nat, truth: AssetId -> R, events: seq<Event<R>>)
    requires AllHonest(truth, events) && After(limit, capacity, events).Some?
    ensures Inv(After(limit, capacity, events).value, limit, capacity, truth)
    decreases |events|
  {
    if events != [] {
      hide Next, GateInv, AskingInv, MemoryInv, OrderInv;
      var before, e := events[..|events| - 1], events[|events| - 1];
      EveryRunKeepsInv(limit, capacity, truth, before);
      var s := After(limit, capacity, before).value;
      NextKeepsGateInv(s, limit, capacity, e);
      NextKeepsAskingInv(s, limit, capacity, e);
      NextKeepsMemoryInv(s, limit, capacity, truth, e);
      NextKeepsOrderInv(s, limit, capacity, e);
    }
  }

  /**
   * Over every interleaving: at most `limit` requests run, a waiting lookup means every slot
   * is taken, slots are given in arrival order, no asset has two open lookups, the memory
   * stays within its capacity, and whatever is remembered or handed out is the node's own
   * record for that id.
   */
  lemma EveryRunIsSafe<R>(limit: nat, capacity: nat, truth: AssetId -> R, events: seq<Event<R>>)
    requires AllHonest(truth, events) && After(limit, capacity, events).Some?
    ensures var s := After(limit, capacity, events).value;
      && Requests(s.tasks) <= limit
      && (s.gate.waiting != [] ==> SlotsHeld(s.tasks) == limit)
      && (forall k :: 0 <= k < |s.slots| ==> s.slots[k] == k)
      && (forall t, u :: 0 <= t < u < |s.tasks| && s.tasks[t].asset == s.tasks[u].asset ==>
            s.tasks[t].phase.Closed? || s.tasks[u].phase.Closed?)
      && |s.known| <= capacity
      && (forall k :: 0 <= k < |s.known| ==> s.known[k].record == truth(s.known[k].asset))
      && (forall t :: 0 <= t < |s.tasks| && s.tasks[t].phase.Closed? && s.tasks[t].phase.outcome.Found? ==>
            s.tasks[t].phase.outcome.record == truth(s.tasks[t].asset))
  {
    hide After, SlotsHeld, Requests;
    EveryRunKeepsInv(limit, capacity, truth, events);
    var s := After(limit, capacity, events).value;
    RequestsHoldSlots(s.tasks);
    forall t | 0 <= t < |s.tasks| ensures Truthful(s.tasks[t], truth) {}
  }

  /** In every run an answer may come for exactly the lookups that are asking, and a woken lookup may always resume. */
  lemma NothingElseBlocks<R>(
      limit: nat, capacity: nat, truth: AssetId -> R, events: seq<Event<R>>, t: nat, reply: Reply<R>)
    requires AllHonest(truth, events) && After(limit, capacity, events).Some?
    ensures var s := After(limit, capacity, events).value;
      && (Enabled(s, Answer(t, reply)) <==> t < |s.tasks| && s.tasks[t].phase.Looking?)
      && (Enabled(s, Resume) <==> s.woken != [])
      && Enabled(s, Ask([]))
      && (Enabled(s, Conclude(t)) <==> t < |s.tasks| && s.tasks[t].phase.Answered?)
      && (Enabled(s, Finish(t)) <==> t < |s.tasks| && s.tasks[t].phase.Concluded?)
  {
    hide After, AskingInv, MemoryInv, OrderInv, SlotsHeld;
    EveryRunKeepsInv(limit, capacity, truth, events);
    var s := After(limit, capacity, events).value;
    if t < |s.tasks| && s.tasks[t].phase.Looking? { SlotIsHeld(s.tasks, t); }
  }

  // --------------------------------------------------- the order of requests

  /** Requests began in the order in which their lookups arrived. */
  ghost predicate InArrivalOrder<R>(s: State<R>) {
    forall k :: 0 <= k < |s.started| ==> s.started[k] == k
  }

  /** In one run, exactly as long as no arrival took a free slot while a woken lookup had yet to resume. */
  lemma RequestsBeginInOrderExactlyWhenNoneOvertakes<R>(
      limit: nat, capacity: nat, truth: AssetId -> R, events: seq<Event<R>>)
    requires AllHonest(truth, events) && After(limit, capacity, events).Some?
    ensures InArrivalOrder(After(limit, capacity, events).value)
       <==> !After(limit, capacity, events).value.overtaken
  {
    hide After, GateInv, AskingInv, MemoryInv;
    EveryRunKeepsInv(limit, capacity, truth, events);
  }

  /** With one slot a woken lookup holds it, so no arrival finds one free. */
  lemma OneSlotIsNeverOvertaken<R>(s: State<R>, limit: nat, capacity: nat, e: Event<R>)
    requires Enabled(s, e) && GateInv(s, limit) && limit <= 1 && !s.overtaken
    ensures !Next(s, limit, capacity, e).overtaken
  {
    hide SlotsHeld, Knows, Touched, Remembered;
    if s.woken != [] { SlotIsHeld(s.tasks, s.woken[0]); }
  }

  lemma {:induction false} OneSlotKeepsOrder<R>(limit: nat, capacity: nat, truth: AssetId -> R, events: seq<Event<R>>)
    requires AllHonest(truth, events) && After(limit, capacity, events).Some? && limit <= 1
    ensures !After(limit, capacity, events).value.overtaken
    decreases |events|
  {
    if events != [] {
      hide Next, GateInv, AskingInv, MemoryInv, OrderInv;
      var before, e := events[..|events| - 1], events[|events| - 1];
      OneSlotKeepsOrder(limit, capacity, truth, before);
      EveryRunKeepsInv(limit, capacity, truth, before);
      OneSlotIsNeverOvertaken(After(limit, capacity, before).value, limit, capacity, e);
    }
  }

  /** The `n`-th of as many different assets as one likes. */
  function Asset(n: nat): AssetId { seq(n, _ => 65) }

  /** `k` lookups asking, of the first `k` assets, and nothing else under way. */
  ghost predicate Filled<R>(s: State<R>, k: nat) {
    && s.gate == Gate.State(k, []) && |s.tasks| == |s.started| == k && s.woken == [] && s.known == []
    && (forall t :: 0 <= t < k ==> s.tasks[t].phase.Looking?)
    && (forall a :: a in s.asking ==> |a| < k)
  }

  lemma {:induction false} FillSlots<R>(
      limit: nat, capacity: nat, truth: AssetId -> R, k: nat) returns (events: seq<Event<R>>)
    requires k <= limit
    ensures AllHonest(truth, events) && After(limit, capacity, events).Some?
    ensures Filled(After(limit, capacity, events).value, k)
  {
    hide After;
    if k == 0 {
      events := [];
      NothingRun<R>(limit, capacity);
    } else {
      var before := FillSlots(limit, capacity, truth, k - 1);
      var ask: Event<R> := Ask(Asset(k - 1));
      events := before + [ask];
      AfterAppend(limit, capacity, before, ask);
      AskFills(After(limit, capacity, before).value, limit, k - 1);
    }
  }

  lemma NothingRun<R>(limit: nat, capacity: nat)
    ensures After<R>(limit, capacity, []) == Some(Initial<R>())
  {}

  lemma AskFills<R>(s: State<R>, limit: nat, k: nat)
    requires Filled(s, k) && k < limit
    ensures Filled(OnAsk(s, limit, Asset(k)), k + 1)
  {}

  /** All slots taken, one lookup waiting: two answers and an arrival put the arrival ahead of it. */
  lemma ArrivalOvertakes<R>(
      s: State<R>, limit: nat, capacity: nat) returns (s1: State<R>, s2: State<R>, s3: State<R>, s4: State<R>)
    requires Filled(s, limit) && limit >= 2
    ensures s1 == OnAsk(s, limit, Asset(limit))
    ensures Enabled(s1, Answer(0, Broken)) && s2 == OnAnswer(s1, 0, Broken)
    ensures Enabled(s2, Answer(1, Broken)) && s3 == OnAnswer(s2, 1, Broken)
    ensures s4 == OnAsk(s3, limit, Asset(limit + 1)) && |s4.started| == limit + 1 && s4.started[limit] == limit + 1
  {
    s1 := OnAsk(s, limit, Asset(limit));
    s2 := OnAnswer(s1, 0, Broken);
    s3 := OnAnswer(s2, 1, Broken);
    s4 := OnAsk(s3, limit, Asset(limit + 1));
  }

  /** With two slots or more, a later lookup can begin before one woken earlier. */
  lemma ALaterRequestCanBeginFirst<R>(limit: nat, capacity: nat, truth: AssetId -> R) returns (events: seq<Event<R>>)
    requires limit >= 2
    ensures AllHonest(truth, events) && After(limit, capacity, events).Some?
    ensures !InArrivalOrder(After(limit, capacity, events).value)
  {
    hide After, Filled, OnAsk, OnAnswer;
    var full := FillSlots(limit, capacity, truth, limit);
    var s1, s2, s3, s4 := ArrivalOvertakes(After(limit, capacity, full).value, limit, capacity);
    var e1: Event<R>, e2: Event<R> := Ask(Asset(limit)), Answer(0, Broken);
    var e3: Event<R>, e4: Event<R> := Answer(1, Broken), Ask(Asset(limit + 1));
    AfterAppend(limit, capacity, full, e1);
    AfterAppend(limit, capacity, full + [e1], e2);
    AfterAppend(limit, capacity, full + [e1] + [e2], e3);
    AfterAppend(limit, capacity, full + [e1] + [e2] + [e3], e4);
    events := full + [e1] + [e2] + [e3] + [e4];
  }

  /**
   * Every run begins its requests in arrival order if and only if the cache has at most one
   * slot. Slots are given in arrival order under any limit; a slot freed while a woken lookup
   * has yet to resume is what lets a newcomer begin first.
   */
  lemma RequestsBeginInOrderExactlyWithOneSlot<R>(limit: nat, capacity: nat, truth: AssetId -> R)
    ensures limit <= 1 <==>
      forall events :: AllHonest(truth, events) && After(limit, capacity, events).Some? ==>
        InArrivalOrder(After(limit, capacity, events).value)
  {
    hide After, AllHonest, InArrivalOrder;
    if limit <= 1 {
      forall events | AllHonest(truth, events) && After(limit, capacity, events).Some?
        ensures InArrivalOrder(After(limit, capacity, events).value)
      {
        OneSlotKeepsOrder(limit, capacity, truth, events);
        RequestsBeginInOrderExactlyWhenNoneOvertakes(limit, capacity, truth, events);
      }
    } else {
      var events := ALaterRequestCanBeginFirst(limit, capacity, truth);
    }
  }

  lemma AfterAppend<R>(limit: nat, capacity: nat, events: seq<Event<R>>, e: Event<R>)
    ensures After(limit, capacity, events + [e]) ==
      var before := After(limit, capacity, events);
      if before.Some? && Enabled(before.value, e) then Some(Next(before.value, limit, capacity, e)) else None
  {
    assert (events + [e])[..|events|] == events;
  }
}
