/** packages/market/src/walk.ts: one read across a roster, and the coverage it reports. */
module Walk {
  import opened Texts
  import opened Outcomes
  import opened Decimals
  import opened CoverageAlgebra
  import opened Lanes

  const MAX_ACCOUNTS_PER_WALK := 256
  const MAX_CONCURRENCY := 32

  /** A slot of the roster: a hole, something that is no string, or a string. */
  datatype Slot = Hole | NotText | Candidate(text: Text)

  datatype Answer<R> = Rows(rows: seq<R>, truncated: bool) | Threw(reason: Text)

  datatype WalkError = TooManyAccounts | BadConcurrency

  datatype Result<R> = Walked(rows: seq<R>, accounts: seq<Text>, coverage: Coverage) | Refused(error: WalkError)

  function Sentence(prefix: Text, index: nat): Text { prefix + Digits(index) + [93] }

  /** What a slot adds to the skipped list. */
  ghost function SkippedText(
      isAddress: Text -> bool, missing: Text, nonString: Text, slot: Slot, index: nat): seq<Text> {
    match slot
    case Hole => [missing + Digits(index) + [93]]
    case NotText => [nonString + Digits(index) + [93]]
    case Candidate(text) => if isAddress(text) then [] else [text]
  }

  /** The accounts walked: valid addresses, first mention only, in request order. */
  ghost function Accounts(isAddress: Text -> bool, slots: seq<Slot>): (r: seq<Text>)
    ensures |r| <= |slots|
    ensures forall i, j :: 0 <= i < j < |r| ==> r[i] != r[j]
  {
    if slots == [] then []
    else
      var before, last := Accounts(isAddress, slots[..|slots| - 1]), slots[|slots| - 1];
      if last.Candidate? && isAddress(last.text) && last.text !in before then before + [last.text] else before
  }

  ghost function Skipped(isAddress: Text -> bool, missing: Text, nonString: Text, slots: seq<Slot>): seq<Text> {
    if slots == [] then []
    else
      Skipped(isAddress, missing, nonString, slots[..|slots| - 1])
      + SkippedText(isAddress, missing, nonString, slots[|slots| - 1], |slots| - 1)
  }

  ghost function AllRows<R>(answers: seq<Answer<R>>): seq<R> {
    if answers == [] then []
    else
      var last := answers[|answers| - 1];
      AllRows(answers[..|answers| - 1]) + (if last.Rows? then last.rows else [])
  }

  ghost function Failed<R>(accounts: seq<Text>, answers: seq<Answer<R>>): seq<Failure>
    requires |accounts| == |answers|
  {
    if answers == [] then []
    else
      var last := answers[|answers| - 1];
      Failed(accounts[..|answers| - 1], answers[..|answers| - 1])
      + (if last.Threw? then [Failure(accounts[|answers| - 1], last.reason, None)] else [])
  }

  ghost function Truncated<R>(accounts: seq<Text>, answers: seq<Answer<R>>): seq<Text>
    requires |accounts| == |answers|
  {
    if answers == [] then []
    else
      var last := answers[|answers| - 1];
      Truncated(accounts[..|answers| - 1], answers[..|answers| - 1])
      + (if last.Rows? && last.truncated then [accounts[|answers| - 1]] else [])
  }

  lemma {:induction false} FailedFacts<R>(accounts: seq<Text>, answers: seq<Answer<R>>)
    requires |accounts| == |answers|
    requires forall i, j :: 0 <= i < j < |accounts| ==> accounts[i] != accounts[j]
    ensures var failed := Failed(accounts, answers);
      && |failed| <= |accounts| && DistinctAccounts(failed)
      && (forall k :: 0 <= k < |failed| ==> failed[k].reasons.None? && failed[k].account in accounts)
    decreases |answers|
  {
    if answers != [] {
      var n := |answers| - 1;
      FailedFacts(accounts[..n], answers[..n]);
      assert accounts[n] !in accounts[..n];
      assert forall a :: a in accounts[..n] ==> a in accounts;
    }
  }

  /** What a finished walk must say, whatever the interleaving was. */
  ghost predicate Reports<R>(
      isAddress: Text -> bool, read: Text -> Answer<R>, missing: Text, nonString: Text,
      slots: seq<Slot>, dropped: nat, r: Result<R>)
  {
    var accounts := Accounts(isAddress, slots);
    var answers := seq(|accounts|, i requires 0 <= i < |accounts| => read(accounts[i]));
    var failed, truncated := Failed(accounts, answers), Truncated(accounts, answers);
    var skipped := Skipped(isAddress, missing, nonString, slots);
    && r.Walked? && r.rows == AllRows(answers) && r.accounts == accounts
    && r.coverage.asked == |accounts| == r.coverage.read + |failed|
    && r.coverage.failed == failed && r.coverage.truncated == truncated && r.coverage.skipped == skipped
    && r.coverage.dropped == dropped
    && r.coverage.complete == (failed == [] && truncated == [] && skipped == [] && dropped == 0)
  }

  /** Rows are the answers in request order, and the coverage passes `coverageProblem`. */
  lemma ReportedCoverageIsValid<R>(
      isAddress: Text -> bool, read: Text -> Answer<R>, missing: Text, nonString: Text,
      slots: seq<Slot>, dropped: nat, r: Result<R>)
    requires |slots| <= MAX_ACCOUNTS_PER_WALK && dropped <= MAX_SAFE_INTEGER
    requires Reports(isAddress, read, missing, nonString, slots, dropped, r)
    ensures Valid(r.coverage) && (r.coverage.complete <==> Whole(r.coverage))
  {
    var accounts := Accounts(isAddress, slots);
    var answers := seq(|accounts|, i requires 0 <= i < |accounts| => read(accounts[i]));
    FailedFacts(accounts, answers);
  }

  method WalkAccounts<R>(
      isAddress: Text -> bool, read: Text -> Answer<R>, missing: Text, nonString: Text,
      slots: seq<Slot>, dropped: nat, concurrency: int) returns (r: Result<R>)
    ensures !(1 <= concurrency <= MAX_CONCURRENCY) ==> r == Refused(BadConcurrency)
    ensures 1 <= concurrency <= MAX_CONCURRENCY && |slots| > MAX_ACCOUNTS_PER_WALK ==> r == Refused(TooManyAccounts)
    ensures 1 <= concurrency <= MAX_CONCURRENCY && |slots| <= MAX_ACCOUNTS_PER_WALK ==>
      Reports(isAddress, read, missing, nonString, slots, dropped, r)
  {
    if concurrency < 1 || concurrency > MAX_CONCURRENCY {
      return Refused(BadConcurrency);
    }
    if |slots| > MAX_ACCOUNTS_PER_WALK {
      return Refused(TooManyAccounts);
    }
    var accounts, skipped := Roster(isAddress, missing, nonString, slots);
    var work := (i: nat) => if i < |accounts| then read(accounts[i]) else Threw([]);
    var answers := MapConcurrent(|accounts|, work, concurrency);
    assert answers == seq(|accounts|, i requires 0 <= i < |accounts| => read(accounts[i]));
    var rows, failed, truncated, ok := Gather(accounts, answers);
    var complete := |failed| == 0 && |truncated| == 0 && |skipped| == 0 && dropped == 0;
    r := Walked(rows, accounts, Coverage(|accounts|, ok, failed, truncated, dropped, skipped, complete));
  }

  method Roster(isAddress: Text -> bool, missing: Text, nonString: Text, slots: seq<Slot>)
      returns (accounts: seq<Text>, skipped: seq<Text>)
    ensures accounts == Accounts(isAddress, slots) && skipped == Skipped(isAddress, missing, nonString, slots)
  {
    accounts, skipped := [], [];
    var seen: set<Text> := {};
    for index := 0 to |slots|
      invariant accounts == Accounts(isAddress, slots[..index])
      invariant skipped == Skipped(isAddress, missing, nonString, slots[..index])
      invariant forall a :: a in seen <==> a in accounts
    {
      assert slots[..index + 1][..index] == slots[..index];
      match slots[index]
      case Hole => skipped := skipped + [Sentence(missing, index)];
      case NotText => skipped := skipped + [Sentence(nonString, index)];
      case Candidate(text) =>
        if !isAddress(text) {
          skipped := skipped + [text];
        } else if text !in seen {
          seen := seen + {text};
          accounts := accounts + [text];
        }
    }
    assert slots[..|slots|] == slots;
  }

  method Gather<R>(accounts: seq<Text>, answers: seq<Answer<R>>)
      returns (rows: seq<R>, failed: seq<Failure>, truncated: seq<Text>, ok: nat)
    requires |accounts| == |answers|
    ensures rows == AllRows(answers) && failed == Failed(accounts, answers) && truncated == Truncated(accounts, answers)
    ensures ok + |failed| == |accounts|
  {
    rows, failed, truncated, ok := [], [], [], 0;
    for index := 0 to |accounts|
      invariant rows == AllRows(answers[..index])
      invariant failed == Failed(accounts[..index], answers[..index])
      invariant truncated == Truncated(accounts[..index], answers[..index])
      invariant ok + |failed| == index
    {
      assert answers[..index + 1][..index] == answers[..index];
      assert accounts[..index + 1][..index] == accounts[..index];
      match answers[index]
      case Threw(reason) => failed := failed + [Failure(accounts[index], reason, None)];
      case Rows(values, more) =>
        ok := ok + 1;
        if more {
          truncated := truncated + [accounts[index]];
        }
        rows := rows + values;
    }
    assert answers[..|answers|] == answers && accounts[..|accounts|] == accounts;
  }
}
