/** packages/market/src/walk.ts: lanes that share a counter, under every interleaving. */
module Lanes {
  import opened Outcomes

  /** One lane between two awaits. */
  datatype Lane = Ready | Running(index: nat) | Finished

  /** The shared counter, the results landed so far, the lanes, and how often each item was started. */
  datatype Pool<O> = Pool(next: nat, out: seq<Option<O>>, lanes: seq<Lane>, starts: seq<nat>)

  function Start<O>(items: nat, concurrency: nat): Pool<O> {
    Pool(0, seq(items, _ => None), seq(if concurrency < items then concurrency else items, _ => Ready),
        seq(items, _ => 0))
  }

  /** A lane takes the next index, and starts its item or stops when there is none. */
  function Claim<O>(p: Pool<O>, l: nat): Pool<O>
    requires l < |p.lanes| && |p.starts| == |p.out|
  {
    if p.next < |p.out| then
      Pool(p.next + 1, p.out, p.lanes[l := Running(p.next)], p.starts[p.next := p.starts[p.next] + 1])
    else
      Pool(p.next + 1, p.out, p.lanes[l := Finished], p.starts)
  }

  /** A lane's item answers, and the answer lands at the item's own index. */
  function Land<O>(p: Pool<O>, l: nat, answer: O): Pool<O>
    requires l < |p.lanes| && p.lanes[l].Running? && p.lanes[l].index < |p.out|
  {
    p.(out := p.out[p.lanes[l].index := Some(answer)], lanes := p.lanes[l := Ready])
  }

  ghost predicate InRange<O>(p: Pool<O>) {
    && |p.starts| == |p.out|
    && (forall l :: 0 <= l < |p.lanes| && p.lanes[l].Running? ==>
        p.lanes[l].index < p.next && p.lanes[l].index < |p.out|)
  }

  /** One step of some lane; every order of steps is an interleaving. */
  ghost predicate Step<O>(worker: nat -> O, p: Pool<O>, q: Pool<O>) {
    InRange(p) && exists l :: StepOf(worker, p, q, l)
  }

  ghost predicate StepOf<O>(worker: nat -> O, p: Pool<O>, q: Pool<O>, l: nat)
    requires InRange(p)
  {
    l < |p.lanes| &&
    ((p.lanes[l].Ready? && q == Claim(p, l)) || (p.lanes[l].Running? && q == Land(p, l, worker(p.lanes[l].index))))
  }

  /** Some lane holds this item. */
  ghost predicate InFlight<O>(p: Pool<O>, i: nat) { exists l :: 0 <= l < |p.lanes| && p.lanes[l] == Running(i) }

  /**
   * What every interleaving keeps: an item is started exactly when the counter passed it,
   * once; it is then in flight in one lane or landed with its own answer, never both.
   */
  ghost predicate Inv<O>(worker: nat -> O, p: Pool<O>) {
    && InRange(p)
    && (forall l, m :: 0 <= l < m < |p.lanes| && p.lanes[l].Running? ==> p.lanes[l] != p.lanes[m])
    && (forall i :: 0 <= i < |p.out| ==> p.starts[i] == if i < p.next then 1 else 0)
    && (forall i :: 0 <= i < |p.out| ==> p.out[i] == None || p.out[i] == Some(worker(i)))
    && (forall i :: 0 <= i < |p.out| ==> (p.out[i].Some? <==> i < p.next && !InFlight(p, i)))
    && (forall l :: 0 <= l < |p.lanes| && p.lanes[l].Finished? ==> p.next > |p.out|)
  }

  lemma StartKeepsInv<O>(worker: nat -> O, items: nat, concurrency: nat)
    ensures Inv(worker, Start<O>(items, concurrency))
  {}

  lemma StepKeepsInv<O>(worker: nat -> O, p: Pool<O>, q: Pool<O>, l: nat)
    requires Inv(worker, p) && StepOf(worker, p, q, l)
    ensures Inv(worker, q) && |q.lanes| == |p.lanes| && |q.out| == |p.out|
    ensures Weight(q) == Weight(p) - 1
  {
    WeightAt(p.lanes, l, q.lanes[l]);
    if p.lanes[l].Ready? {
      forall i | 0 <= i < |q.out| ensures InFlight(q, i) <==> InFlight(p, i) || (i == p.next && p.next < |p.out|) {
        if InFlight(p, i) { var m :| 0 <= m < |p.lanes| && p.lanes[m] == Running(i); assert q.lanes[m] == Running(i); }
        if i == p.next && p.next < |p.out| { assert q.lanes[l] == Running(i); }
      }
    } else {
      var done := p.lanes[l].index;
      forall i | 0 <= i < |q.out| ensures InFlight(q, i) <==> InFlight(p, i) && i != done {
        if InFlight(p, i) && i != done {
          var m :| 0 <= m < |p.lanes| && p.lanes[m] == Running(i);
          assert q.lanes[m] == Running(i);
        }
        if InFlight(q, i) {
          var m :| 0 <= m < |q.lanes| && q.lanes[m] == Running(i);
          assert m != l && p.lanes[m] == Running(i);
        }
      }
      assert InFlight(p, done);
    }
  }

  // ------------------------------------------------------------ progress

  function LaneWeight(lane: Lane): nat {
    match lane
    case Ready => 1
    case Running(_) => 2
    case Finished => 0
  }

  function LanesWeight(lanes: seq<Lane>): nat {
    if lanes == [] then 0 else LanesWeight(lanes[..|lanes| - 1]) + LaneWeight(lanes[|lanes| - 1])
  }

  /** Steps still to come. */
  function Weight<O>(p: Pool<O>): nat {
    LanesWeight(p.lanes) + 2 * (if p.next < |p.out| then |p.out| - p.next else 0)
  }

  lemma {:induction false} WeightAt(lanes: seq<Lane>, l: nat, lane: Lane)
    requires l < |lanes|
    ensures LanesWeight(lanes[l := lane]) == LanesWeight(lanes) - LaneWeight(lanes[l]) + LaneWeight(lane)
    decreases |lanes|
  {
    if l == |lanes| - 1 {
      assert lanes[l := lane][..l] == lanes[..l];
    } else {
      WeightAt(lanes[..|lanes| - 1], l, lane);
      assert lanes[l := lane][..|lanes| - 1] == lanes[..|lanes| - 1][l := lane];
    }
  }

  ghost predicate AllFinished<O>(p: Pool<O>) { forall l :: 0 <= l < |p.lanes| ==> p.lanes[l].Finished? }

  // ---------------------------------------------------------------- runs

  /** A run: from the start, one lane's step at a time, in any order. */
  ghost predicate Run<O>(worker: nat -> O, items: nat, concurrency: nat, states: seq<Pool<O>>) {
    && states != [] && states[0] == Start<O>(items, concurrency)
    && forall k {:trigger states[k]} :: 1 <= k < |states| ==> Step(worker, states[k - 1], states[k])
  }

  lemma {:induction false} RunKeepsInv<O>(worker: nat -> O, items: nat, concurrency: nat, states: seq<Pool<O>>)
    requires Run(worker, items, concurrency, states)
    ensures var p := states[|states| - 1];
      && Inv(worker, p) && |p.out| == items
      && |p.lanes| == (if concurrency < items then concurrency else items)
      && Weight(p) + |states| - 1 == Weight(Start<O>(items, concurrency))
    decreases |states|
  {
    hide Inv, Weight, Start;
    StartKeepsInv(worker, items, concurrency);
    StartSizes<O>(items, concurrency);
    if |states| > 1 {
      var before := states[..|states| - 1];
      RunShrinks(worker, items, concurrency, states);
      RunKeepsInv(worker, items, concurrency, before);
      var p, q := states[|states| - 2], states[|states| - 1];
      assert Step(worker, p, q);
      var l :| StepOf(worker, p, q, l);
      StepKeepsInv(worker, p, q, l);
    }
  }

  lemma StartSizes<O>(items: nat, concurrency: nat)
    ensures var p := Start<O>(items, concurrency);
      |p.out| == items && |p.lanes| == (if concurrency < items then concurrency else items)
  {}

  lemma RunShrinks<O>(worker: nat -> O, items: nat, concurrency: nat, states: seq<Pool<O>>)
    requires Run(worker, items, concurrency, states) && |states| > 1
    ensures Run(worker, items, concurrency, states[..|states| - 1])
  {
    hide Step, Start;
    var before := states[..|states| - 1];
    forall k | 1 <= k < |before| ensures Step(worker, before[k - 1], before[k]) {
      assert Step(worker, states[k - 1], states[k]);
    }
  }

  /**
   * Whatever the interleaving: at most min(concurrency, items) items are in flight, no item
   * is started twice, and no run is longer than two steps an item and one a lane.
   */
  lemma EveryRunIsBounded<O>(worker: nat -> O, items: nat, concurrency: nat, states: seq<Pool<O>>, i: nat)
    requires Run(worker, items, concurrency, states) && i < items
    ensures var p := states[|states| - 1];
      && |p.lanes| <= concurrency && |p.lanes| <= items
      && |p.starts| == items && p.starts[i] <= 1
      && (forall l, m :: 0 <= l < m < |p.lanes| && p.lanes[l].Running? ==> p.lanes[l] != p.lanes[m])
      && |states| - 1 <= 2 * items + |p.lanes|
  {
    RunKeepsInv(worker, items, concurrency, states);
    StartWeight<O>(items, concurrency);
  }

  lemma StartWeight<O>(items: nat, concurrency: nat)
    ensures var p := Start<O>(items, concurrency); Weight(p) == 2 * items + |p.lanes|
  {
    ReadyWeight(Start<O>(items, concurrency).lanes);
  }

  lemma {:induction false} ReadyWeight(lanes: seq<Lane>)
    requires forall l :: 0 <= l < |lanes| ==> lanes[l].Ready?
    ensures LanesWeight(lanes) == |lanes|
    decreases |lanes|
  {
    if lanes != [] { ReadyWeight(lanes[..|lanes| - 1]); }
  }

  ghost function Answers<O>(worker: nat -> O, items: nat): seq<O> { seq(items, i requires 0 <= i < items => worker(i)) }

  /** When every lane has finished, every item ran exactly once and its answer is at its own index. */
  lemma FinishedRunAnswersInOrder<O>(worker: nat -> O, items: nat, concurrency: nat, states: seq<Pool<O>>)
    requires concurrency >= 1 && Run(worker, items, concurrency, states) && AllFinished(states[|states| - 1])
    ensures var p := states[|states| - 1];
      && |p.out| == |p.starts| == items
      && forall i :: 0 <= i < items ==> p.starts[i] == 1 && p.out[i] == Some(worker(i))
  {
    RunKeepsInv(worker, items, concurrency, states);
    FinishedIsComplete(worker, states[|states| - 1]);
  }

  lemma FinishedIsComplete<O>(worker: nat -> O, p: Pool<O>)
    requires Inv(worker, p) && AllFinished(p) && (|p.out| > 0 ==> |p.lanes| > 0)
    ensures forall i :: 0 <= i < |p.out| ==> p.starts[i] == 1 && p.out[i] == Some(worker(i))
  {
    if |p.out| > 0 { assert p.lanes[0].Finished?; }
    forall i | 0 <= i < |p.out| ensures !InFlight(p, i) {}
  }

  /** A run can only stop when all its lanes have: no interleaving gets stuck. */
  lemma NoDeadlock<O>(worker: nat -> O, p: Pool<O>)
    requires Inv(worker, p) && !AllFinished(p)
    ensures exists q :: Step(worker, p, q)
  {
    var l :| 0 <= l < |p.lanes| && !p.lanes[l].Finished?;
    var q := if p.lanes[l].Ready? then Claim(p, l) else Land(p, l, worker(p.lanes[l].index));
    assert StepOf(worker, p, q, l);
    assert Step(worker, p, q);
  }

  /** `mapConcurrentWith`, the scheduler picking any unfinished lane at every step. */
  method MapConcurrent<O>(items: nat, worker: nat -> O, concurrency: nat) returns (out: seq<O>)
    requires concurrency >= 1
    ensures out == Answers(worker, items)
  {
    hide Inv, StepOf, Weight, Start;
    if items == 0 {
      return [];
    }
    var pool := Start<O>(items, concurrency);
    StartKeepsInv(worker, items, concurrency);
    StartSizes<O>(items, concurrency);
    while exists l :: 0 <= l < |pool.lanes| && !pool.lanes[l].Finished?
      invariant Inv(worker, pool) && |pool.out| == items && |pool.lanes| > 0
      decreases Weight(pool)
    {
      var l :| 0 <= l < |pool.lanes| && !pool.lanes[l].Finished?;
      LaneIsInRange(worker, pool, l);
      var after := if pool.lanes[l].Ready? then Claim(pool, l) else Land(pool, l, worker(pool.lanes[l].index));
      OneStep(worker, pool, after, l);
      StepKeepsInv(worker, pool, after, l);
      pool := after;
    }
    Landed(worker, pool);
    out := seq(items, i requires 0 <= i < items => pool.out[i].value);
  }

  lemma LaneIsInRange<O>(worker: nat -> O, p: Pool<O>, l: nat)
    requires Inv(worker, p) && l < |p.lanes|
    ensures InRange(p) && |p.starts| == |p.out|
    ensures p.lanes[l].Running? ==> p.lanes[l].index < |p.out|
  {}

  lemma OneStep<O>(worker: nat -> O, p: Pool<O>, q: Pool<O>, l: nat)
    requires InRange(p) && l < |p.lanes| && !p.lanes[l].Finished?
    requires q == if p.lanes[l].Ready? then Claim(p, l) else Land(p, l, worker(p.lanes[l].index))
    ensures StepOf(worker, p, q, l)
  {}

  lemma Landed<O>(worker: nat -> O, p: Pool<O>)
    requires Inv(worker, p) && AllFinished(p) && |p.lanes| > 0
    ensures forall i :: 0 <= i < |p.out| ==> p.out[i] == Some(worker(i))
  {
    FinishedIsComplete(worker, p);
  }
}
