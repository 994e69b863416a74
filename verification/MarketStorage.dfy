/** packages/market/src/storage.ts: one cell with compare-and-swap, and a write that retries eight times at most. */
module MarketStorage {
  import opened Texts
  import opened Outcomes
  import opened Envelopes
  import opened Commits

  const ATTEMPTS: nat := 8

  function RevisionOf(value: Option<Envelope>): Option<nat> {
    if value.Some? then Some(value.value.revision) else None
  }

  /** What a load hands to a change function: an absent envelope reads as an empty one. */
  function Current(found: Option<Envelope>, cursorKey: Text): Envelope {
    found.GetOr(EmptyEnvelope(cursorKey))
  }

  /** The reference adapter: one cell. */
  class MemoryStorage {
    var value: Option<Envelope>

    constructor ()
      ensures value == None
    {
      value := None;
    }

    method Load() returns (r: Option<Envelope>)
      ensures r == value
    {
      r := value;
    }

    method CompareAndSwap(expected: Option<nat>, next: Envelope) returns (done: bool)
      modifies this
      ensures done <==> RevisionOf(old(value)) == expected
      ensures value == if done then Some(next) else old(value)
    {
      if RevisionOf(value) != expected { return false; }
      value := Some(next);
      return true;
    }

    method Clear()
      modifies this
      ensures value == None
    {
      value := None;
    }
  }

  /** What other writers left in the cell when an attempt loads it, and when it swaps. */
  datatype Turn = Turn(found: Option<Envelope>, standing: Option<Envelope>, cursorKey: Text)

  datatype Outcome = Committed(answer: Answer, envelope: Envelope) | Refused(refusal: Refusal)

  /** The attempts from the `k`-th on: how the write ends, and what the cell then holds. */
  function Attempts(turns: seq<Turn>, w: Write, retention: Retention, k: nat): (Outcome, Option<Envelope>)
    requires |turns| == ATTEMPTS && k <= ATTEMPTS
    decreases ATTEMPTS - k
  {
    if k == ATTEMPTS then (Refused(StorageConflict), turns[ATTEMPTS - 1].standing)
    else
      var t := turns[k];
      match Commit(w, retention, Current(t.found, t.cursorKey))
      case Err(refusal) => (Refused(refusal), t.found)
      case Ok(made) =>
        if RevisionOf(t.found) == RevisionOf(t.standing) then (Committed(made.1, made.0), Some(made.0))
        else Attempts(turns, w, retention, k + 1)
  }

  /** `updateEnvelope`, with the other writers' work between its own steps given by `turns`. */
  method UpdateEnvelope(storage: MemoryStorage, turns: seq<Turn>, w: Write, retention: Retention) returns (r: Outcome)
    requires |turns| == ATTEMPTS
    modifies storage
    ensures (r, storage.value) == Attempts(turns, w, retention, 0)
  {
    hide Commit;
    for attempt := 0 to ATTEMPTS
      invariant Attempts(turns, w, retention, 0) == Attempts(turns, w, retention, attempt)
      invariant attempt > 0 ==> storage.value == turns[attempt - 1].standing
    {
      storage.value := turns[attempt].found;
      var loaded := storage.Load();
      var changed := Commit(w, retention, Current(loaded, turns[attempt].cursorKey));
      if changed.Err? { return Refused(changed.error); }
      storage.value := turns[attempt].standing;
      var committed := storage.CompareAndSwap(RevisionOf(loaded), changed.value.0);
      if committed { return Committed(changed.value.1, changed.value.0); }
    }
    return Refused(StorageConflict);
  }

  /** Whether an attempt's swap finds the revision its load found. */
  predicate Wins(t: Turn) { RevisionOf(t.found) == RevisionOf(t.standing) }

  /**
   * A write commits through its first attempt that wins, and only then: the cell holds its
   * envelope. A conflict means eight losses and a cell holding what the others left.
   */
  lemma {:induction false} AttemptsEnd(turns: seq<Turn>, w: Write, retention: Retention, k: nat)
    requires |turns| == ATTEMPTS && k < ATTEMPTS
    requires forall j :: k <= j < ATTEMPTS ==> Commit(w, retention, Current(turns[j].found, turns[j].cursorKey)).Ok?
    ensures var end := Attempts(turns, w, retention, k);
      if end.0.Committed? then
        && end.1 == Some(end.0.envelope)
        && exists j :: k <= j < ATTEMPTS && Wins(turns[j]) && (forall i :: k <= i < j ==> !Wins(turns[i]))
             && Commit(w, retention, Current(turns[j].found, turns[j].cursorKey)) == Ok((end.0.envelope, end.0.answer))
      else
        && end.0 == Refused(StorageConflict) && end.1 == turns[ATTEMPTS - 1].standing
        && forall j :: k <= j < ATTEMPTS ==> !Wins(turns[j])
    decreases ATTEMPTS - k
  {
    hide Commit;
    if !Wins(turns[k]) && k + 1 < ATTEMPTS {
      AttemptsEnd(turns, w, retention, k + 1);
    }
  }
}
