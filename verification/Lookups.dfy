/** packages/core/src/asset-cache.ts: what a lookup answers, whom it asks, and what is remembered of it. */
module Lookups {
  import opened Outcomes
  import opened Recency
  import opened AssetCache
  import Gate

  // ---------------------------------------------------- what a lookup answers

  /** What the node's answer means for the asset that was asked about. */
  ghost function Verdict<R>(reply: Reply<R>, asset: AssetId, truth: AssetId -> R): Outcome<R> {
    match reply
    case Unknown => Absent
    case Broken => Rejected
    case Info(id, _) => if id == asset then Found(truth(asset)) else Rejected
  }

  /** The node has answered this task, with this reply. */
  ghost predicate Settled<R>(task: Task<R>, reply: Reply<R>, truth: AssetId -> R) {
    match task.phase
    case Answered(r) => r == reply
    case Concluded(outcome) => outcome == Verdict(reply, task.asset, truth)
    case Closed(outcome) => outcome == Verdict(reply, task.asset, truth)
    case _ => false
  }

  predicate HasAnswer<R>(phase: Phase<R>) { phase.Answered? || phase.Concluded? || phase.Closed? }

  /** Exactly the answered tasks had an answer, and stand as it says. */
  ghost predicate AnswersInv<R(!new)>(events: seq<Event<R>>, s: State<R>, truth: AssetId -> R) {
    && (forall t: nat, reply :: Answer(t, reply) in events ==> t < |s.tasks| && Settled(s.tasks[t], reply, truth))
    && (forall t :: 0 <= t < |s.tasks| && HasAnswer(s.tasks[t].phase) ==> exists reply :: Answer(t, reply) in events)
  }

  /** A step moves the phases of some tasks and leaves the others, and their assets, as they are. */
  ghost predicate Moves<R>(s: State<R>, n: State<R>, moved: set<nat>) {
    && |s.tasks| <= |n.tasks|
    && (forall t :: 0 <= t < |s.tasks| ==> n.tasks[t].asset == s.tasks[t].asset)
    && (forall t :: 0 <= t < |s.tasks| && t !in moved ==> n.tasks[t] == s.tasks[t])
    && (forall t :: |s.tasks| <= t < |n.tasks| ==> !HasAnswer(n.tasks[t].phase))
  }

  lemma QuietStepKeepsAnswers<R(!new)>(events: seq<Event<R>>, s: State<R>, n: State<R>, moved: set<nat>, e: Event<R>,
      truth: AssetId -> R)
    requires AnswersInv(events, s, truth) && Moves(s, n, moved) && !e.Answer?
    requires forall t :: t in moved && t < |s.tasks| ==> !HasAnswer(s.tasks[t].phase) && !HasAnswer(n.tasks[t].phase)
    ensures AnswersInv(events + [e], n, truth)
  {
    hide Verdict;
    forall t: nat, reply | Answer(t, reply) in events + [e] ensures t < |n.tasks| && Settled(n.tasks[t], reply, truth) {
      assert Answer(t, reply) in events;
    }
    forall t | 0 <= t < |n.tasks| && HasAnswer(n.tasks[t].phase)
      ensures exists reply :: Answer(t, reply) in events + [e] {
      var reply :| Answer(t, reply) in events;
      assert Answer(t, reply) in events + [e];
    }
  }

  lemma ConcludeKeepsAnswers<R(!new)>(events: seq<Event<R>>, s: State<R>, capacity: nat, t: nat, truth: AssetId -> R)
    requires AnswersInv(events, s, truth) && AllHonest(truth, events)
    requires t < |s.tasks| && s.tasks[t].phase.Answered?
    ensures AnswersInv(events + [Conclude(t)], OnConclude(s, capacity, t), truth)
  {
    hide Remembered;
    var n, all := OnConclude(s, capacity, t), events + [Conclude(t)];
    var given :| Answer(t, given) in events;
    assert Honest(truth, Answer(t, given));
    assert Moves(s, n, {t});
    OutcomeIsVerdict(s, capacity, t, truth);
    forall u: nat, reply | Answer(u, reply) in all ensures u < |n.tasks| && Settled(n.tasks[u], reply, truth) {
      assert Answer(u, reply) in events;
    }
    forall u | 0 <= u < |n.tasks| && HasAnswer(n.tasks[u].phase) ensures exists reply :: Answer(u, reply) in all {
      var reply :| Answer(u, reply) in events;
      assert Answer(u, reply) in all;
    }
  }

  lemma OutcomeIsVerdict<R>(s: State<R>, capacity: nat, t: nat, truth: AssetId -> R)
    requires t < |s.tasks| && s.tasks[t].phase.Answered?
    requires s.tasks[t].phase.reply.Info? ==> s.tasks[t].phase.reply.record == truth(s.tasks[t].phase.reply.id)
    ensures OnConclude(s, capacity, t).tasks[t].phase
      == Concluded(Verdict(s.tasks[t].phase.reply, s.tasks[t].asset, truth))
    ensures Moves(s, OnConclude(s, capacity, t), {t})
  {
    hide Remembered;
  }

  lemma FinishKeepsAnswers<R(!new)>(events: seq<Event<R>>, s: State<R>, t: nat, truth: AssetId -> R)
    requires AnswersInv(events, s, truth) && t < |s.tasks| && s.tasks[t].phase.Concluded?
    ensures AnswersInv(events + [Finish(t)], OnFinish(s, t), truth)
  {
    hide Verdict;
    var n, all := OnFinish(s, t), events + [Finish(t)];
    forall u: nat, reply | Answer(u, reply) in all ensures u < |n.tasks| && Settled(n.tasks[u], reply, truth) {
      assert Answer(u, reply) in events;
    }
    forall u | 0 <= u < |n.tasks| && HasAnswer(n.tasks[u].phase) ensures exists reply :: Answer(u, reply) in all {
      var reply :| Answer(u, reply) in events;
      assert Answer(u, reply) in all;
    }
  }

  lemma AnswerKeepsAnswers<R(!new)>(events: seq<Event<R>>, s: State<R>, limit: nat, t: nat, reply: Reply<R>,
      truth: AssetId -> R)
    requires AnswersInv(events, s, truth) && GateInv(s, limit) && Enabled(s, Answer(t, reply))
    ensures AnswersInv(events + [Answer(t, reply)], OnAnswer(s, t, reply), truth)
  {
    hide Verdict, SlotsHeld, Gate.Leave;
    var e := Answer(t, reply);
    var n, all := OnAnswer(s, t, reply), events + [e];
    assert e in all;
    forall u: nat, r | Answer(u, r) in all ensures u < |n.tasks| && Settled(n.tasks[u], r, truth) {
      if u == t {
        assert !Settled(s.tasks[t], r, truth);
        assert Answer(u, r) == e;
      } else {
        assert Answer(u, r) in events;
      }
    }
    forall u | 0 <= u < |n.tasks| && HasAnswer(n.tasks[u].phase) ensures exists r :: Answer(u, r) in all {
      if u != t {
        var r :| Answer(u, r) in events;
        assert Answer(u, r) in all;
      }
    }
  }

  lemma NextKeepsAnswers<R(!new)>(
      events: seq<Event<R>>, s: State<R>, limit: nat, capacity: nat, e: Event<R>, truth: AssetId -> R)
    requires AnswersInv(events, s, truth) && GateInv(s, limit) && AllHonest(truth, events) && Enabled(s, e)
    ensures AnswersInv(events + [e], Next(s, limit, capacity, e), truth)
  {
    hide AnswersInv, GateInv, Knows, Touched, Remembered, Gate.Enter, OnConclude, OnFinish, OnAnswer;
    match e
    case Ask(asset) => QuietStepKeepsAnswers(events, s, OnAsk(s, limit, asset), {}, e, truth);
    case Resume =>
      WokenIsOpen(s, limit);
      QuietStepKeepsAnswers(events, s, OnResume(s), {s.woken[0]}, e, truth);
    case Answer(t, reply) => AnswerKeepsAnswers(events, s, limit, t, reply, truth);
    case Conclude(t) => ConcludeKeepsAnswers(events, s, capacity, t, truth);
    case Finish(t) => FinishKeepsAnswers(events, s, t, truth);
  }

  lemma {:induction false} EveryRunKeepsAnswers<R(!new)>(limit: nat, capacity: nat, truth: AssetId -> R,
      events: seq<Event<R>>)
    requires AllHonest(truth, events) && After(limit, capacity, events).Some?
    ensures AnswersInv(events, After(limit, capacity, events).value, truth)
    decreases |events|
  {
    if events != [] {
      hide Next, GateInv, AskingInv, MemoryInv, OrderInv, AnswersInv;
      var before, e := events[..|events| - 1], events[|events| - 1];
      EveryRunKeepsAnswers(limit, capacity, truth, before);
      EveryRunKeepsInv(limit, capacity, truth, before);
      NextKeepsAnswers(before, After(limit, capacity, before).value, limit, capacity, e, truth);
      assert events == before + [e];
    }
  }

  /**
   * In every run of an honest node: a lookup that is over had its answer, and found the node's
   * record exactly when the answer was a record under the asked id, nothing exactly when the
   * node knew none, and was rejected exactly for a broken request or another id.
   */
  lemma OutcomesAreExact<R(!new)>(
      limit: nat, capacity: nat, truth: AssetId -> R, events: seq<Event<R>>, t: nat) returns (reply: Reply<R>)
    requires AllHonest(truth, events) && After(limit, capacity, events).Some?
    requires t < |After(limit, capacity, events).value.tasks| &&
      After(limit, capacity, events).value.tasks[t].phase.Closed?
    ensures Answer(t, reply) in events
    ensures var task := After(limit, capacity, events).value.tasks[t];
      && (task.phase.outcome == Found(truth(task.asset)) <==> reply.Info? && reply.id == task.asset)
      && (task.phase.outcome == Absent <==> reply == Unknown)
      && (task.phase.outcome == Rejected <==> reply == Broken || (reply.Info? && reply.id != task.asset))
  {
    hide After;
    EveryRunKeepsAnswers(limit, capacity, truth, events);
    var s := After(limit, capacity, events).value;
    reply :| Answer(t, reply) in events;
    assert Settled(s.tasks[t], reply, truth);
  }

  // -------------------------------------------------------- what is remembered

  /** The record a memory holds for an asset. */
  ghost predicate Holds<R>(known: seq<Entry<R>>, asset: AssetId, record: R) {
    exists k :: 0 <= k < |known| && known[k] == Entry(asset, record)
  }

  lemma RememberedIsHeld<R>(known: seq<Entry<R>>, limit: nat, asset: AssetId, record: R)
    requires limit >= 1 && !Knows(known, asset)
    ensures Holds(Remembered(known, limit, asset, record), asset, record)
  {
    var after := Remembered(known, limit, asset, record);
    assert after[|after| - 1] == Entry(asset, record);
  }

  lemma KnownIsHeld<R>(known: seq<Entry<R>>, asset: AssetId)
    ensures Knows(known, asset) <==> exists k :: 0 <= k < |known| && known[k].asset == asset
  {}

  /** A lookup that found its asset leaves the node's record in the memory, where the next ask will see it. */
  lemma FoundIsRemembered<R>(
      limit: nat, capacity: nat, truth: AssetId -> R, events: seq<Event<R>>, t: nat)
    requires AllHonest(truth, events) && After(limit, capacity, events).Some? && capacity >= 1
    requires Enabled(After(limit, capacity, events).value, Conclude(t))
    requires Next(After(limit, capacity, events).value, limit, capacity, Conclude(t)).tasks[t].phase
          == Concluded(Found(truth(After(limit, capacity, events).value.tasks[t].asset)))
    ensures var s := After(limit, capacity, events).value;
      var n := Next(s, limit, capacity, Conclude(t));
      Knows(n.known, s.tasks[t].asset) && Holds(n.known, s.tasks[t].asset, truth(s.tasks[t].asset))
  {
    hide After, GateInv, AskingInv, OrderInv, Knows, Remembered, Holds, DistinctKeys, ByLastUse;
    EveryRunKeepsInv(limit, capacity, truth, events);
    var s := After(limit, capacity, events).value;
    assert Unconcluded(s.tasks[t].phase);
    RememberedIsHeld(s.known, capacity, s.tasks[t].asset, truth(s.tasks[t].asset));
    HeldIsKnown(Remembered(s.known, capacity, s.tasks[t].asset, truth(s.tasks[t].asset)), s.tasks[t].asset,
                truth(s.tasks[t].asset));
  }

  lemma HeldIsKnown<R>(known: seq<Entry<R>>, asset: AssetId, record: R)
    requires Holds(known, asset, record)
    ensures Knows(known, asset)
  {
    KnownIsHeld(known, asset);
  }

  /** What one asset of a `resolve` gets at once: its record, or a lookup to wait for. */
  datatype Asked<R> = Recalled(record: R) | WaitsFor(task: nat)

  function AskedFor<R>(s: State<R>, limit: nat, asset: AssetId): Asked<R>
    requires !Knows(s.known, asset) ==> asset in OnAsk(s, limit, asset).asking
  {
    if Knows(s.known, asset) then Recalled(s.known[IndexOf(s.known, asset)].record)
    else WaitsFor(OnAsk(s, limit, asset).asking[asset])
  }

  /**
   * Asking for a remembered asset gives the node's record and starts nothing. Asking for one
   * already asked about waits for that lookup. Any other ask starts one lookup of that asset,
   * which begins at once exactly when a slot is free and otherwise waits its turn.
   */
  lemma AskingIsExact<R>(limit: nat, capacity: nat, truth: AssetId -> R, events: seq<Event<R>>, asset: AssetId)
    requires AllHonest(truth, events) && After(limit, capacity, events).Some?
    ensures var s := After(limit, capacity, events).value;
      var n := Next(s, limit, capacity, Ask(asset));
      && (Knows(s.known, asset) ==>
            && AskedFor(s, limit, asset) == Recalled(truth(asset))
            && n.tasks == s.tasks && n.gate == s.gate && n.started == s.started && n.asking == s.asking
            && n.known[|n.known| - 1] == Entry(asset, truth(asset)))
      && (!Knows(s.known, asset) && asset in s.asking ==>
            && n == s && AskedFor(s, limit, asset) == WaitsFor(s.asking[asset])
            && s.asking[asset] < |s.tasks| && s.tasks[s.asking[asset]].asset == asset
            && !s.tasks[s.asking[asset]].phase.Closed?)
      && (!Knows(s.known, asset) && asset !in s.asking ==>
            && AskedFor(s, limit, asset) == WaitsFor(|s.tasks|) && n.known == s.known
            && n.tasks == s.tasks + [Task(asset, if SlotsHeld(s.tasks) < limit then Looking else Waiting)]
            && n.started == s.started + (if SlotsHeld(s.tasks) < limit then [|s.tasks|] else []))
  {
    hide After, SlotsHeld, Gate.Enter, OrderInv, DistinctKeys, ByLastUse, Truthful;
    EveryRunKeepsInv(limit, capacity, truth, events);
    var s := After(limit, capacity, events).value;
    if Knows(s.known, asset) {
      TouchedAt(s.known, asset, |s.known| - 1);
      assert s.known[IndexOf(s.known, asset)].record == truth(asset);
    }
  }
}
