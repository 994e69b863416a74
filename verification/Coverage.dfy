/** packages/market/src/walk.ts: what a walk could not see, and how two walks' gaps combine. */
module CoverageAlgebra {
  import opened Texts
  import opened Outcomes

  const MAX_SAFE_INTEGER: nat := 9007199254740991

  datatype Failure = Failure(account: Text, reason: Text, reasons: Option<seq<Text>>)

  datatype Coverage = Coverage(
    asked: nat, read: nat, failed: seq<Failure>, truncated: seq<Text>, dropped: nat, skipped: seq<Text>, complete: bool)

  datatype CoverageError = CoverageMismatch

  function EmptyCoverage(): Coverage { Coverage(0, 0, [], [], 0, [], true) }

  // ------------------------------------------------------------ validity

  const SEPARATOR: Text := [59, 32]

  /** `reasons.join('; ')`. */
  function JoinReasons(reasons: seq<Text>): Text
    requires reasons != []
  {
    if |reasons| == 1 then reasons[0] else reasons[0] + SEPARATOR + JoinReasons(reasons[1..])
  }

  /** Reasons stand in their order, each but the last followed by a semicolon and a space. */
  lemma {:induction false} ReasonsAreJoined(first: seq<Text>, second: seq<Text>)
    requires first != [] && second != []
    ensures JoinReasons(first + second) == JoinReasons(first) + [59, 32] + JoinReasons(second)
    ensures JoinReasons([first[0]]) == first[0]
    decreases |first|
  {
    if |first| == 1 {
      assert (first + second)[1..] == second;
    } else {
      assert (first + second)[1..] == first[1..] + second;
      ReasonsAreJoined(first[1..], second);
    }
  }

  predicate StrictlyIncreasing(s: seq<Text>) { forall i, j :: 0 <= i < j < |s| ==> Less(s[i], s[j]) }

  predicate ValidFailure(f: Failure) {
    f.reasons.Some? ==>
      |f.reasons.value| >= 2 && StrictlyIncreasing(f.reasons.value) && f.reason == JoinReasons(f.reasons.value)
  }

  predicate DistinctAccounts(failed: seq<Failure>) {
    forall i, j :: 0 <= i < j < |failed| ==> failed[i].account != failed[j].account
  }

  /** Nothing missed, evicted or skipped. */
  predicate Whole(c: Coverage) {
    c.read == c.asked && c.failed == [] && c.truncated == [] && c.dropped == 0 && c.skipped == []
  }

  predicate Valid(c: Coverage) {
    && c.asked <= MAX_SAFE_INTEGER && c.dropped <= MAX_SAFE_INTEGER && c.read <= c.asked
    && (forall i :: 0 <= i < |c.failed| ==> ValidFailure(c.failed[i]))
    && DistinctAccounts(c.failed)
    && |c.failed| == c.asked - c.read
    && (c.complete ==> Whole(c))
  }

  /** A failure repeats an account exactly when that account is among those before it. */
  lemma AccountSeen(failed: seq<Failure>, i: nat)
    requires i < |failed| && DistinctAccounts(failed[..i])
    ensures AccountsOf(failed[..i + 1]) == AccountsOf(failed[..i]) + {failed[i].account}
    ensures failed[i].account in AccountsOf(failed[..i]) ==> !DistinctAccounts(failed)
    ensures failed[i].account !in AccountsOf(failed[..i]) ==> DistinctAccounts(failed[..i + 1])
  {
    assert failed[..i + 1] == failed[..i] + [failed[i]];
    if failed[i].account in AccountsOf(failed[..i]) {
      var k :| 0 <= k < i && failed[..i][k].account == failed[i].account;
      assert failed[k].account == failed[i].account;
    } else {
      forall k | 0 <= k < i ensures failed[k].account != failed[i].account {
        assert failed[..i][k] in failed[..i];
      }
    }
  }

  lemma NoAccounts(failed: seq<Failure>)
    ensures AccountsOf(failed[..0]) == {} && DistinctAccounts(failed[..0])
  {}

  /** `coverageProblem(value) === null` on a structurally well-typed coverage. */
  method HasNoProblem(c: Coverage) returns (ok: bool)
    ensures ok == Valid(c)
  {
    hide ValidFailure, AccountsOf, DistinctAccounts;
    NoAccounts(c.failed);
    if c.asked > MAX_SAFE_INTEGER || c.dropped > MAX_SAFE_INTEGER || c.read > c.asked {
      return false;
    }
    var accounts: set<Text> := {};
    for i := 0 to |c.failed|
      invariant accounts == AccountsOf(c.failed[..i]) && DistinctAccounts(c.failed[..i])
      invariant forall k :: 0 <= k < i ==> ValidFailure(c.failed[k])
    {
      var failure := c.failed[i];
      AccountSeen(c.failed, i);
      if failure.account in accounts {
        return false;
      }
      if !ValidFailure(failure) {
        return false;
      }
      accounts := accounts + {failure.account};
    }
    assert c.failed[..|c.failed|] == c.failed;
    CountAccounts(c.failed);
    return |accounts| == c.asked - c.read && (c.complete ==> Whole(c));
  }

  // ------------------------------------------------------------------ gaps

  function Atoms(f: Failure): set<Text> {
    if f.reasons.Some? then Elements(f.reasons.value) else {f.reason}
  }

  function FailedAccounts(parts: seq<Coverage>): set<Text> {
    set p, f | p in parts && f in p.failed :: f.account
  }

  function AtomsFor(parts: seq<Coverage>, account: Text): set<Text> {
    set p, f, r | p in parts && f in p.failed && f.account == account && r in Atoms(f) :: r
  }

  function MaxDropped(parts: seq<Coverage>): (m: nat)
    ensures forall p :: p in parts ==> p.dropped <= m
    ensures m == 0 || exists p :: p in parts && p.dropped == m
  {
    if parts == [] then 0
    else
      var rest := MaxDropped(parts[1..]);
      assert forall p :: p in parts ==> p == parts[0] || p in parts[1..];
      if parts[0].dropped > rest then parts[0].dropped else rest
  }

  /** Everything a list of coverages missed, with neither order nor repetition left in it. */
  datatype Gaps = Gaps(
    asked: set<nat>, reasons: map<Text, set<Text>>, truncated: set<Text>, skipped: set<Text>, dropped: nat,
    complete: bool)

  predicate NothingMissed(reasons: map<Text, set<Text>>, truncated: set<Text>, skipped: set<Text>, dropped: nat) {
    |reasons| == 0 && truncated == {} && skipped == {} && dropped == 0
  }

  predicate AllComplete(parts: seq<Coverage>) { forall p :: p in parts ==> p.complete }

  function ReasonsOf(parts: seq<Coverage>): map<Text, set<Text>> {
    map a | a in FailedAccounts(parts) :: AtomsFor(parts, a)
  }

  function TruncatedOf(parts: seq<Coverage>): set<Text> { set p, t | p in parts && t in p.truncated :: t }

  function SkippedOf(parts: seq<Coverage>): set<Text> { set p, t | p in parts && t in p.skipped :: t }

  function GapsOf(parts: seq<Coverage>): Gaps {
    var reasons, truncated, skipped := ReasonsOf(parts), TruncatedOf(parts), SkippedOf(parts);
    var dropped := MaxDropped(parts);
    Gaps(set p | p in parts :: p.asked, reasons, truncated, skipped, dropped,
         AllComplete(parts) && NothingMissed(reasons, truncated, skipped, dropped))
  }

  predicate AllValid(parts: seq<Coverage>) { forall p :: p in parts ==> Valid(p) }

  // --------------------------------------------------------------- merging

  function FailureOf(account: Text, atoms: set<Text>): Failure
    requires atoms != {}
  {
    var reasons := SortedSet(atoms);
    if |reasons| == 1 then Failure(account, JoinReasons(reasons), None)
    else Failure(account, JoinReasons(reasons), Some(reasons))
  }

  ghost predicate Reasoned(reasons: map<Text, set<Text>>) { forall a :: a in reasons ==> reasons[a] != {} }

  function Failures(reasons: map<Text, set<Text>>, accounts: seq<Text>): (r: seq<Failure>)
    requires Reasoned(reasons) && forall a :: a in accounts ==> a in reasons
    ensures |r| == |accounts|
    ensures forall i :: 0 <= i < |r| ==> accounts[i] in reasons && r[i] == FailureOf(accounts[i], reasons[accounts[i]])
  {
    if accounts == [] then []
    else [FailureOf(accounts[0], reasons[accounts[0]])] + Failures(reasons, accounts[1..])
  }

  /** The one coverage with these gaps in canonical order. */
  function FromGaps(g: Gaps, asked: nat): Coverage
    requires Reasoned(g.reasons) && |g.reasons| <= asked
  {
    Coverage(asked, asked - |g.reasons|, Failures(g.reasons, SortedSet(g.reasons.Keys)), SortedSet(g.truncated),
             g.dropped, SortedSet(g.skipped), g.complete)
  }

  lemma AtomsExist(parts: seq<Coverage>)
    requires AllValid(parts)
    ensures Reasoned(ReasonsOf(parts))
  {
    forall a | a in FailedAccounts(parts) ensures AtomsFor(parts, a) != {} {
      var p, f :| p in parts && f in p.failed && f.account == a;
      var k :| 0 <= k < |p.failed| && p.failed[k] == f;
      assert ValidFailure(p.failed[k]);
      var r := if f.reasons.Some? then f.reasons.value[0] else f.reason;
      assert r in Atoms(f);
      assert r in AtomsFor(parts, a);
    }
  }

  function Merge(parts: seq<Coverage>): Result<Coverage, CoverageError> {
    if parts == [] then Ok(EmptyCoverage())
    else if !AllValid(parts) then Err(CoverageMismatch)
    else
      var g := GapsOf(parts);
      AtomsExist(parts);
      if |g.asked| != 1 || |g.reasons| > parts[0].asked then Err(CoverageMismatch)
      else Ok(FromGaps(g, parts[0].asked))
  }

  // ------------------------------------------------- merged coverages are valid

  ghost predicate SortedByAccount(failed: seq<Failure>) {
    forall i, j :: 0 <= i < j < |failed| ==> Less(failed[i].account, failed[j].account)
  }

  /** Failures by account, other lists strictly increasing: the form every merge has. */
  ghost predicate Canonical(c: Coverage) {
    SortedByAccount(c.failed) && StrictlySorted(c.truncated) && StrictlySorted(c.skipped)
  }

  lemma DistinctWhenSorted(failed: seq<Failure>)
    requires SortedByAccount(failed)
    ensures DistinctAccounts(failed)
  {
    forall i, j | 0 <= i < j < |failed| ensures failed[i].account != failed[j].account {
      LessTrichotomy(failed[i].account, failed[j].account);
    }
  }

  lemma FailuresAreValid(reasons: map<Text, set<Text>>)
    requires Reasoned(reasons)
    ensures var failed := Failures(reasons, SortedSet(reasons.Keys));
      && |failed| == |reasons| && SortedByAccount(failed) && DistinctAccounts(failed)
      && (forall i :: 0 <= i < |failed| ==>
            ValidFailure(failed[i]) && failed[i].account in reasons && Atoms(failed[i]) == reasons[failed[i].account])
  {
    hide FailureOf, ValidFailure, Atoms, Less, SortedSet, DistinctAccounts, Reasoned;
    var accounts := SortedSet(reasons.Keys);
    var failed := Failures(reasons, accounts);
    forall i | 0 <= i < |failed|
      ensures ValidFailure(failed[i]) && failed[i].account == accounts[i] && Atoms(failed[i]) == reasons[accounts[i]]
    {
      FailureFromReasons(accounts[i], reasons);
    }
    DistinctWhenSorted(failed);
  }

  lemma FailureFromReasons(account: Text, reasons: map<Text, set<Text>>)
    requires Reasoned(reasons) && account in reasons
    ensures reasons[account] != {}
    ensures var f := FailureOf(account, reasons[account]);
      ValidFailure(f) && f.account == account && Atoms(f) == reasons[account]
  {
  }

  lemma EveryAccountFails(reasons: map<Text, set<Text>>, a: Text)
    requires Reasoned(reasons) && a in reasons
    ensures exists i ::
      0 <= i < |Failures(reasons, SortedSet(reasons.Keys))| &&
      Failures(reasons, SortedSet(reasons.Keys))[i].account == a
  {
    hide Less, Reasoned, FailureOf;
    var accounts := SortedSet(reasons.Keys);
    var i :| 0 <= i < |accounts| && accounts[i] == a;
    FailureFromReasons(a, reasons);
    assert Failures(reasons, accounts)[i].account == a;
  }

  ghost predicate WellFormed(g: Gaps) {
    && Reasoned(g.reasons) && g.dropped <= MAX_SAFE_INTEGER
    && (g.complete ==> NothingMissed(g.reasons, g.truncated, g.skipped, g.dropped))
  }

  lemma GapsAreWellFormed(parts: seq<Coverage>)
    requires AllValid(parts)
    ensures WellFormed(GapsOf(parts))
  {
    AtomsExist(parts);
    forall p | p in parts ensures p.dropped <= MAX_SAFE_INTEGER { assert Valid(p); }
  }

  /** A coverage made from gaps is valid, canonical, and has exactly those gaps. */
  lemma FromGapsIsFaithful(g: Gaps, asked: nat)
    requires WellFormed(g) && |g.reasons| <= asked <= MAX_SAFE_INTEGER
    ensures Valid(FromGaps(g, asked)) && Canonical(FromGaps(g, asked))
    ensures GapsOf([FromGaps(g, asked)]) == g.(asked := {asked})
  {
    hide GapsOf, Failures, Canonical, Valid;
    var c := FromGaps(g, asked);
    FromGapsIsValid(g, asked);
    GapsOfOne(c);
    FromGapsReasons(g, asked);
    assert Elements(c.truncated) == g.truncated && Elements(c.skipped) == g.skipped;
  }

  lemma FromGapsIsValid(g: Gaps, asked: nat)
    requires WellFormed(g) && |g.reasons| <= asked <= MAX_SAFE_INTEGER
    ensures Valid(FromGaps(g, asked)) && Canonical(FromGaps(g, asked))
  {
    hide Failures, ValidFailure, Less, DistinctAccounts, Reasoned;
    FailuresAreValid(g.reasons);
    var c := FromGaps(g, asked);
    assert c.complete ==> c.truncated == [] && c.skipped == [];
  }

  lemma FromGapsReasons(g: Gaps, asked: nat)
    requires WellFormed(g) && |g.reasons| <= asked <= MAX_SAFE_INTEGER
    ensures GapsOf([FromGaps(g, asked)]).reasons == g.reasons
  {
    hide GapsOf;
    var r := GapsOf([FromGaps(g, asked)]).reasons;
    forall a ensures a in r <==> a in g.reasons
             ensures a in r && a in g.reasons ==> r[a] == g.reasons[a] { FromGapsReasonAt(g, asked, a); }
  }

  lemma FromGapsReasonAt(g: Gaps, asked: nat, a: Text)
    requires WellFormed(g) && |g.reasons| <= asked <= MAX_SAFE_INTEGER
    ensures var r := GapsOf([FromGaps(g, asked)]).reasons;
      (a in r <==> a in g.reasons) && (a in r ==> r[a] == g.reasons[a])
  {
    hide GapsOf, Failures, ValidFailure, Atoms, Canonical, Valid, SortedByAccount, DistinctAccounts, Reasoned;
    var c := FromGaps(g, asked);
    FromGapsIsValid(g, asked);
    FailuresAreValid(g.reasons);
    GapsOfOne(c);
    if a in g.reasons { EveryAccountFails(g.reasons, a); }
  }

  /** The gaps of a single coverage, field by field. */
  lemma GapsOfOne(c: Coverage)
    requires Valid(c)
    ensures var g := GapsOf([c]);
      && g.asked == {c.asked} && g.dropped == c.dropped && g.complete == c.complete
      && g.truncated == Elements(c.truncated) && g.skipped == Elements(c.skipped)
      && |g.reasons| == |c.failed|
      && (forall a :: a in g.reasons <==> exists i :: 0 <= i < |c.failed| && c.failed[i].account == a)
      && (forall i :: 0 <= i < |c.failed| ==>
          c.failed[i].account in g.reasons && g.reasons[c.failed[i].account] == Atoms(c.failed[i]))
  {
    hide ValidFailure, Atoms;
    assert [c][0] == c;
    assert MaxDropped([c]) == c.dropped;
    CountAccounts(c.failed);
    var g := GapsOf([c]);
    assert g.reasons.Keys == AccountsOf(c.failed);
    forall i | 0 <= i < |c.failed|
      ensures c.failed[i].account in g.reasons && g.reasons[c.failed[i].account] == Atoms(c.failed[i])
    {
      assert c.failed[i] in c.failed;
      AtomsOfOne(c, i);
    }
    assert g.asked == {c.asked};
  }

  function AccountsOf(failed: seq<Failure>): set<Text> { set f | f in failed :: f.account }

  lemma AtomsOfOne(c: Coverage, i: nat)
    requires DistinctAccounts(c.failed) && i < |c.failed|
    ensures AtomsFor([c], c.failed[i].account) == Atoms(c.failed[i])
  {
    hide Atoms;
    var a := c.failed[i].account;
    assert c in [c] && c.failed[i] in c.failed;
    forall r ensures r in AtomsFor([c], a) <==> r in Atoms(c.failed[i]) {
      if r in AtomsFor([c], a) {
        var p, f :| p in [c] && f in p.failed && f.account == a && r in Atoms(f);
        var j :| 0 <= j < |c.failed| && c.failed[j] == f;
        assert j == i;
      }
    }
  }

  lemma {:induction false} CountAccounts(failed: seq<Failure>)
    requires DistinctAccounts(failed)
    ensures |AccountsOf(failed)| == |failed|
    decreases |failed|
  {
    if failed == [] {
      assert AccountsOf(failed) == {};
    } else {
      var front, last := failed[..|failed| - 1], failed[|failed| - 1];
      CountAccounts(front);
      assert failed == front + [last];
      assert AccountsOf(failed) == AccountsOf(front) + {last.account};
      assert last.account !in AccountsOf(front);
    }
  }

  /**
   * Merging valid parts of one scope gives a valid coverage in canonical order, or is
   * refused exactly when more accounts failed than were asked.
   */
  lemma MergeIsValidOrRefused(parts: seq<Coverage>)
    requires parts != [] && AllValid(parts) && forall p :: p in parts ==> p.asked == parts[0].asked
    ensures Merge(parts).Ok? <==> |FailedAccounts(parts)| <= parts[0].asked
    ensures Merge(parts).Ok? ==>
      var c := Merge(parts).value;
      Valid(c) && Canonical(c) && c.asked == parts[0].asked && GapsOf([c]) == GapsOf(parts)
  {
    hide FromGaps, Canonical;
    GapsAreWellFormed(parts);
    var g := GapsOf(parts);
    assert parts[0] in parts && Valid(parts[0]);
    assert g.asked == {parts[0].asked};
    assert g.reasons.Keys == FailedAccounts(parts);
    if |g.reasons| <= parts[0].asked { FromGapsIsFaithful(g, parts[0].asked); }
  }

  // ------------------------------------------------------------- the algebra

  /** Lists with the same gaps and only valid parts merge alike. */
  lemma MergeDependsOnGaps(p: seq<Coverage>, q: seq<Coverage>)
    requires p != [] && q != [] && AllValid(p) == AllValid(q)
    requires AllValid(p) ==> GapsOf(p) == GapsOf(q)
    ensures Merge(p) == Merge(q)
  {
    hide FromGaps, ReasonsOf, TruncatedOf, SkippedOf, MaxDropped, NothingMissed, Valid;
    if AllValid(p) {
      var g := GapsOf(p);
      assert p[0].asked in g.asked && q[0].asked in GapsOf(q).asked;
      if |g.asked| == 1 { OneMember(g.asked, p[0].asked, q[0].asked); }
    }
  }

  lemma OneMember(s: set<nat>, x: nat, y: nat)
    requires |s| == 1 && x in s && y in s
    ensures x == y
  {
    assert |s - {x}| == 0;
    assert y !in s - {x};
  }

  /** Neither the order of the parts nor repeating them matters. */
  lemma MergeIgnoresOrderAndRepetition(p: seq<Coverage>, q: seq<Coverage>)
    requires forall c :: c in p <==> c in q
    ensures Merge(p) == Merge(q)
  {
    hide FromGaps, Valid;
    assert (|p| > 0 ==> p[0] in p) && (|q| > 0 ==> q[0] in q);
    SameMembersSameGaps(p, q);
    if |p| > 0 { MergeDependsOnGaps(p, q); }
  }

  lemma SameMembersSameGaps(p: seq<Coverage>, q: seq<Coverage>)
    requires forall c :: c in p <==> c in q
    ensures GapsOf(p) == GapsOf(q) && AllValid(p) == AllValid(q)
  {
    hide Valid, AtomsFor, FailedAccounts, MaxDropped;
    SameMembersSameReasons(p, q);
  }

  lemma SameMembersSameReasons(p: seq<Coverage>, q: seq<Coverage>)
    requires forall c :: c in p <==> c in q
    ensures ReasonsOf(p) == ReasonsOf(q)
  {
    hide Atoms, MaxDropped;
    assert FailedAccounts(p) == FailedAccounts(q);
    forall a ensures AtomsFor(p, a) == AtomsFor(q, a) {}
  }

  /** The gaps of two lists together. */
  ghost function Union(g: Gaps, k: Gaps): Gaps {
    Gaps(g.asked + k.asked, ReasonUnion(g.reasons, k.reasons),
         g.truncated + k.truncated, g.skipped + k.skipped,
         if g.dropped > k.dropped then g.dropped else k.dropped, g.complete && k.complete)
  }

  lemma GapsOfConcatenation(p: seq<Coverage>, q: seq<Coverage>)
    ensures GapsOf(p + q) == Union(GapsOf(p), GapsOf(q))
    ensures AllValid(p + q) == (AllValid(p) && AllValid(q))
  {
    hide Valid, ReasonsOf, TruncatedOf, SkippedOf, MaxDropped;
    JoinReasonMaps(p, q);
    JoinLists(p, q);
    JoinDropped(p, q);
    JoinFlags(p, q);
  }

  ghost function ReasonUnion(g: map<Text, set<Text>>, k: map<Text, set<Text>>): map<Text, set<Text>> {
    map a | a in g.Keys + k.Keys :: (if a in g then g[a] else {}) + (if a in k then k[a] else {})
  }

  lemma JoinLists(p: seq<Coverage>, q: seq<Coverage>)
    ensures TruncatedOf(p + q) == TruncatedOf(p) + TruncatedOf(q)
    ensures SkippedOf(p + q) == SkippedOf(p) + SkippedOf(q)
    ensures (set c | c in p + q :: c.asked) == (set c | c in p :: c.asked) + (set c | c in q :: c.asked)
  {}

  lemma JoinDropped(p: seq<Coverage>, q: seq<Coverage>)
    ensures MaxDropped(p + q) == if MaxDropped(p) > MaxDropped(q) then MaxDropped(p) else MaxDropped(q)
  {}

  lemma JoinFlags(p: seq<Coverage>, q: seq<Coverage>)
    ensures AllComplete(p + q) == (AllComplete(p) && AllComplete(q))
    ensures AllValid(p + q) == (AllValid(p) && AllValid(q))
  {
    hide Valid;
  }

  lemma JoinReasonMaps(p: seq<Coverage>, q: seq<Coverage>)
    ensures ReasonsOf(p + q) == ReasonUnion(ReasonsOf(p), ReasonsOf(q))
    ensures |ReasonsOf(p + q)| == 0 <==> |ReasonsOf(p)| == 0 && |ReasonsOf(q)| == 0
  {
    hide AtomsFor, FailedAccounts;
    JoinFailedAccounts(p, q);
    JoinedReasonsAre(p, q);
    var r, s, t := ReasonsOf(p), ReasonsOf(q), ReasonsOf(p + q);
    assert t.Keys == r.Keys + s.Keys;
    if |t| == 0 { EmptyUnion(r.Keys, s.Keys); }
  }

  lemma JoinedReasonsAre(p: seq<Coverage>, q: seq<Coverage>)
    requires FailedAccounts(p + q) == FailedAccounts(p) + FailedAccounts(q)
    ensures ReasonsOf(p + q) == ReasonUnion(ReasonsOf(p), ReasonsOf(q))
  {
    hide AtomsFor, FailedAccounts;
    forall a ensures AtomsFor(p + q, a) == AtomsFor(p, a) + AtomsFor(q, a) { JoinAtoms(p, q, a); }
    forall a | a !in FailedAccounts(p) ensures AtomsFor(p, a) == {} { NoAtoms(p, a); }
    forall a | a !in FailedAccounts(q) ensures AtomsFor(q, a) == {} { NoAtoms(q, a); }
  }

  lemma EmptyUnion(s: set<Text>, t: set<Text>)
    requires |s + t| == 0
    ensures |s| == 0 && |t| == 0
  {
    assert s <= s + t && t <= s + t;
  }

  lemma JoinFailedAccounts(p: seq<Coverage>, q: seq<Coverage>)
    ensures FailedAccounts(p + q) == FailedAccounts(p) + FailedAccounts(q)
  {}

  lemma JoinAtoms(p: seq<Coverage>, q: seq<Coverage>, a: Text)
    ensures AtomsFor(p + q, a) == AtomsFor(p, a) + AtomsFor(q, a)
  {
    hide Atoms;
  }

  lemma NoAtoms(p: seq<Coverage>, a: Text)
    requires a !in FailedAccounts(p)
    ensures AtomsFor(p, a) == {}
  {
    hide Atoms;
  }

  /** How merges are nested: a coverage as read, or a merge of at least one nested part. */
  datatype Nest = Leaf(coverage: Coverage) | Node(first: Nest, rest: Nests)
  datatype Nests = Nil | Cons(head: Nest, tail: Nests)

  function Leaves(t: Nest): (r: seq<Coverage>)
    ensures r != []
  {
    match t
    case Leaf(c) => [c]
    case Node(first, rest) => Leaves(first) + AllLeaves(rest)
  }

  function AllLeaves(ts: Nests): seq<Coverage> {
    match ts
    case Nil => []
    case Cons(head, tail) => Leaves(head) + AllLeaves(tail)
  }

  /** A nested merge: every node merges its parts' values, and a refusal anywhere refuses the whole. */
  function Eval(t: Nest): Result<Coverage, CoverageError> {
    match t
    case Leaf(c) => Ok(c)
    case Node(first, rest) =>
      var c, cs := Eval(first), EvalAll(rest);
      if c.Err? || cs.Err? then Err(CoverageMismatch) else Merge([c.value] + cs.value)
  }

  function EvalAll(ts: Nests): Result<seq<Coverage>, CoverageError> {
    match ts
    case Nil => Ok([])
    case Cons(head, tail) =>
      var c, cs := Eval(head), EvalAll(tail);
      if c.Err? || cs.Err? then Err(CoverageMismatch) else Ok([c.value] + cs.value)
  }

  /** Values that may replace the parts they were merged from. */
  ghost predicate StandFor(cs: seq<Coverage>, parts: seq<Coverage>) {
    AllValid(cs) == AllValid(parts) && (AllValid(parts) ==> GapsOf(cs) == GapsOf(parts))
  }

  lemma StandForTogether(cs: seq<Coverage>, parts: seq<Coverage>, ds: seq<Coverage>, rest: seq<Coverage>)
    requires StandFor(cs, parts) && StandFor(ds, rest)
    ensures StandFor(cs + ds, parts + rest)
  {
    hide GapsOf, AllValid, Union;
    GapsOfConcatenation(cs, ds);
    GapsOfConcatenation(parts, rest);
  }

  lemma MergedStandsFor(parts: seq<Coverage>)
    requires parts != [] && Merge(parts).Ok?
    ensures StandFor([Merge(parts).value], parts)
  {
    hide GapsOf, FromGaps, Canonical, Valid;
    SameScope(parts);
    MergeIsValidOrRefused(parts);
  }

  lemma SameScope(parts: seq<Coverage>)
    requires parts != [] && Merge(parts).Ok?
    ensures AllValid(parts) && forall p :: p in parts ==> p.asked == parts[0].asked
  {
    hide FromGaps, ReasonsOf, TruncatedOf, SkippedOf, MaxDropped, NothingMissed, Valid;
    forall p | p in parts ensures p.asked == parts[0].asked {
      assert parts[0].asked in GapsOf(parts).asked && p.asked in GapsOf(parts).asked;
      OneMember(GapsOf(parts).asked, p.asked, parts[0].asked);
    }
  }

  /** A merge is refused exactly for an invalid part, parts of different scopes, or more failed accounts than asked. */
  lemma MergeIsAcceptedExactly(parts: seq<Coverage>)
    ensures Merge(parts).Ok? <==>
      parts == []
      || (AllValid(parts) && (forall p :: p in parts ==> p.asked == parts[0].asked)
          && |FailedAccounts(parts)| <= parts[0].asked)
  {
    hide GapsOf, FromGaps, Valid, AllValid, FailedAccounts;
    if parts != [] && Merge(parts).Ok? { SameScope(parts); }
    if parts != [] && AllValid(parts) && forall p :: p in parts ==> p.asked == parts[0].asked {
      MergeIsValidOrRefused(parts);
    }
  }

  /** What a failure blames: its reasons when it lists them, else its one reason. */
  ghost predicate Blames(f: Failure, reason: Text) {
    if f.reasons.Some? then reason in f.reasons.value else reason == f.reason
  }

  lemma MergeHasTheirGaps(parts: seq<Coverage>)
    requires parts != [] && Merge(parts).Ok?
    ensures var c := Merge(parts).value;
      Valid(c) && c.asked == parts[0].asked && GapsOf([c]) == GapsOf(parts) && AllValid(parts)
  {
    hide FromGaps, Canonical, Valid, GapsOf;
    SameScope(parts);
    MergeIsValidOrRefused(parts);
  }

  /** A merge blames an account for a reason exactly when one of its parts does. */
  lemma MergeBlamesExactly(parts: seq<Coverage>, account: Text, reason: Text)
    requires parts != [] && Merge(parts).Ok?
    ensures (exists f :: f in Merge(parts).value.failed && f.account == account && Blames(f, reason)) <==>
      (exists p, f :: p in parts && f in p.failed && f.account == account && Blames(f, reason))
  {
    hide Merge, Valid, ReasonsOf, Blames;
    MergeHasTheirGaps(parts);
    var c := Merge(parts).value;
    BlamesAreAtoms([c], account, reason);
    BlamesAreAtoms(parts, account, reason);
    assert ReasonsOf([c]) == ReasonsOf(parts);
    if f :| f in c.failed && f.account == account && Blames(f, reason) { assert c in [c]; }
  }

  /** It lists what any of its parts lists, and dropped the most any of them did. */
  lemma MergeListsExactly(parts: seq<Coverage>, x: Text)
    requires parts != [] && Merge(parts).Ok?
    ensures var c := Merge(parts).value;
      && (x in c.truncated <==> exists p :: p in parts && x in p.truncated)
      && (x in c.skipped <==> exists p :: p in parts && x in p.skipped)
      && (forall p :: p in parts ==> p.dropped <= c.dropped) && (exists p :: p in parts && p.dropped == c.dropped)
  {
    hide Merge, Valid, ReasonsOf;
    MergeHasTheirGaps(parts);
    var c := Merge(parts).value;
    ListsOfOne(c);
    assert x in TruncatedOf([c]) <==> x in TruncatedOf(parts);
    assert x in SkippedOf([c]) <==> x in SkippedOf(parts);
    assert parts[0] in parts;
  }

  /** It counts the accounts asked and read, and is complete exactly when all its parts are and nothing is missing. */
  lemma MergeCountsExactly(parts: seq<Coverage>)
    requires parts != [] && Merge(parts).Ok?
    ensures var c := Merge(parts).value;
      && c.asked == parts[0].asked && c.read == c.asked - |c.failed|
      && (c.complete <==> (forall p :: p in parts ==> p.complete) && Whole(c))
  {
    hide Merge, ReasonsOf, TruncatedOf, SkippedOf, MaxDropped, ValidFailure, NothingMissed;
    MergeHasTheirGaps(parts);
    var c := Merge(parts).value;
    GapsOfOne(c);
    WholeIsNothingMissed(c);
  }

  lemma WholeIsNothingMissed(c: Coverage)
    requires Valid(c)
    ensures var g := GapsOf([c]); NothingMissed(g.reasons, g.truncated, g.skipped, g.dropped) <==> Whole(c)
  {
    GapsOfOne(c);
    var g := GapsOf([c]);
    if c.truncated != [] { assert c.truncated[0] in Elements(c.truncated); }
    if c.skipped != [] { assert c.skipped[0] in Elements(c.skipped); }
  }

  lemma ListsOfOne(c: Coverage)
    ensures TruncatedOf([c]) == (set t | t in c.truncated) && SkippedOf([c]) == (set t | t in c.skipped)
    ensures MaxDropped([c]) == c.dropped
  {
    assert c in [c];
  }

  lemma BlamesAreAtoms(parts: seq<Coverage>, account: Text, reason: Text)
    ensures account in ReasonsOf(parts) && reason in ReasonsOf(parts)[account] <==>
      exists p, f :: p in parts && f in p.failed && f.account == account && Blames(f, reason)
  {
    if p, f :| p in parts && f in p.failed && f.account == account && Blames(f, reason) {
      assert reason in Atoms(f);
    }
  }

  /** A list that is refused is refused inside every longer list. */
  lemma RefusalSpreads(p: seq<Coverage>, before: seq<Coverage>, after: seq<Coverage>)
    requires p != [] && Merge(p).Err?
    ensures Merge(before + p + after).Err?
  {
    hide FromGaps, Valid, GapsOf;
    var whole := before + p + after;
    if Merge(whole).Ok? {
      SameScope(whole);
      MergeIsValidOrRefused(whole);
      forall c | c in p ensures c in whole {}
      assert p[0] in whole;
      MergeIsValidOrRefused(p);
      assert FailedAccounts(p) <= FailedAccounts(whole);
      Smaller(FailedAccounts(p), FailedAccounts(whole));
      assert false;
    }
  }

  lemma Smaller(s: set<Text>, t: set<Text>)
    requires s <= t
    ensures |s| <= |t|
  {
    assert t == s + (t - s);
  }

  /**
   * Associativity under any nesting: merging in groups, however deep, gives what merging
   * all the parts at once gives, the exact failure reasons and the refusals included.
   */
  lemma {:induction false} NestingDoesNotMatter(t: Nest)
    ensures t.Node? ==> Eval(t) == Merge(Leaves(t))
    ensures Eval(t).Ok? ==> StandFor([Eval(t).value], Leaves(t))
    ensures Eval(t).Err? ==> Merge(Leaves(t)).Err?
    decreases t
  {
    hide Merge, StandFor;
    match t
    case Leaf(c) => LeafStandsForItself(c);
    case Node(first, rest) =>
      NestingDoesNotMatter(first);
      NestedListStands(rest);
      var c, cs := Eval(first), EvalAll(rest);
      if c.Err? {
        RefusalSpreads(Leaves(first), [], AllLeaves(rest));
        assert [] + Leaves(first) + AllLeaves(rest) == Leaves(t);
      } else if cs.Err? {
        NestedRefusal(Leaves(first), rest);
      } else {
        StandForTogether([c.value], Leaves(first), cs.value, AllLeaves(rest));
        StandingMergesAlike([c.value] + cs.value, Leaves(t));
      }
      if Eval(t).Ok? { MergedStandsFor(Leaves(t)); }
      MergeHasOneError(Leaves(t));
  }

  lemma LeafStandsForItself(c: Coverage)
    ensures StandFor([c], [c])
  {}

  lemma MergeHasOneError(parts: seq<Coverage>)
    ensures Merge(parts).Err? ==> Merge(parts) == Err(CoverageMismatch)
  {}

  lemma StandingMergesAlike(cs: seq<Coverage>, parts: seq<Coverage>)
    requires cs != [] && parts != [] && StandFor(cs, parts)
    ensures Merge(cs) == Merge(parts)
  {
    MergeDependsOnGaps(cs, parts);
  }

  lemma {:induction false} NestedListStands(ts: Nests)
    ensures EvalAll(ts).Ok? ==> StandFor(EvalAll(ts).value, AllLeaves(ts))
    decreases ts
  {
    hide Merge, StandFor;
    match ts
    case Nil => EmptyStands();
    case Cons(head, tail) =>
      NestingDoesNotMatter(head);
      NestedListStands(tail);
      if EvalAll(ts).Ok? {
        StandForTogether([Eval(head).value], Leaves(head), EvalAll(tail).value, AllLeaves(tail));
      }
  }

  lemma EmptyStands()
    ensures StandFor([], [])
  {}

  lemma {:induction false} NestedRefusal(before: seq<Coverage>, ts: Nests)
    requires EvalAll(ts).Err?
    ensures Merge(before + AllLeaves(ts)).Err?
    decreases ts
  {
    hide Merge;
    match ts
    case Cons(head, tail) =>
      NestingDoesNotMatter(head);
      if Eval(head).Err? {
        RefusalSpreads(Leaves(head), before, AllLeaves(tail));
        assert before + Leaves(head) + AllLeaves(tail) == before + AllLeaves(ts);
      } else {
        NestedRefusal(before + Leaves(head), tail);
        assert (before + Leaves(head)) + AllLeaves(tail) == before + AllLeaves(ts);
      }
  }

  // ------------------------------------------------- where the laws end

  /** Merging a lone coverage gives it back exactly when it is already in canonical order. */
  lemma LoneMergeIsIdentityExactlyWhenCanonical(c: Coverage)
    requires Valid(c)
    ensures Merge([c]) == Ok(c) <==> Canonical(c)
  {
    hide GapsOf, FromGaps;
    assert [c][0] == c;
    MergeIsValidOrRefused([c]);
    FailedOfOne(c);
    var m := Merge([c]).value;
    if Canonical(c) { CanonicalIsDetermined(m, c); }
  }

  lemma FailedOfOne(c: Coverage)
    requires Valid(c)
    ensures FailedAccounts([c]) == AccountsOf(c.failed) && |FailedAccounts([c])| == |c.failed|
  {
    CountAccounts(c.failed);
    assert c in [c];
  }

  /** A canonical coverage is determined by its gaps. */
  lemma CanonicalIsDetermined(a: Coverage, b: Coverage)
    requires Valid(a) && Valid(b) && Canonical(a) && Canonical(b) && GapsOf([a]) == GapsOf([b])
    ensures a == b
  {
    hide GapsOf, Atoms, ValidFailure;
    GapsOfOne(a);
    GapsOfOne(b);
    assert a.asked in {a.asked} && a.asked == b.asked;
    StrictlySortedUnique(a.truncated, b.truncated) by {
      forall x ensures x in a.truncated <==> x in b.truncated {
        assert x in Elements(a.truncated) <==> x in Elements(b.truncated);
      }
    }
    StrictlySortedUnique(a.skipped, b.skipped) by {
      forall x ensures x in a.skipped <==> x in b.skipped {
        assert x in Elements(a.skipped) <==> x in Elements(b.skipped);
      }
    }
    SameFailedLists(a.failed, b.failed, GapsOf([a]).reasons);
  }

  lemma SameFailedLists(f: seq<Failure>, g: seq<Failure>, reasons: map<Text, set<Text>>)
    requires SortedByAccount(f) && SortedByAccount(g) && |f| == |g|
    requires forall i :: 0 <= i < |f| ==>
      ValidFailure(f[i]) && f[i].account in reasons && reasons[f[i].account] == Atoms(f[i])
    requires forall i :: 0 <= i < |g| ==>
      ValidFailure(g[i]) && g[i].account in reasons && reasons[g[i].account] == Atoms(g[i])
    requires forall a :: a in reasons ==>
      (exists i :: 0 <= i < |f| && f[i].account == a) && (exists i :: 0 <= i < |g| && g[i].account == a)
    ensures f == g
  {
    hide Atoms, ValidFailure, Less;
    var fs, gs := seq(|f|, i requires 0 <= i < |f| => f[i].account), seq(|g|, i requires 0 <= i < |g| => g[i].account);
    forall x ensures x in fs <==> x in gs {
      if x in fs {
        var i :| 0 <= i < |fs| && fs[i] == x;
        assert f[i].account in reasons;
        var j :| 0 <= j < |g| && g[j].account == x;
        assert gs[j] == x;
      }
      if x in gs {
        var i :| 0 <= i < |gs| && gs[i] == x;
        assert g[i].account in reasons;
        var j :| 0 <= j < |f| && f[j].account == x;
        assert fs[j] == x;
      }
    }
    StrictlySortedUnique(fs, gs);
    forall i | 0 <= i < |f| ensures f[i] == g[i] {
      assert fs[i] == gs[i];
      SameAtomsSameFailure(f[i], g[i]);
    }
  }

  lemma SameAtomsSameFailure(f: Failure, g: Failure)
    requires ValidFailure(f) && ValidFailure(g) && f.account == g.account && Atoms(f) == Atoms(g)
    ensures f == g
  {
    if f.reasons.Some? && g.reasons.Some? {
      forall x ensures x in f.reasons.value <==> x in g.reasons.value {
        assert x in Elements(f.reasons.value) <==> x in Elements(g.reasons.value);
      }
      StrictlySortedUnique(f.reasons.value, g.reasons.value);
    } else if f.reasons.Some? {
      TwoAtoms(f, g.reason);
    } else if g.reasons.Some? {
      TwoAtoms(g, f.reason);
    } else {
      assert f.reason in Atoms(g);
    }
  }

  lemma TwoAtoms(f: Failure, only: Text)
    requires ValidFailure(f) && f.reasons.Some?
    ensures Atoms(f) != {only}
  {
    var rs := f.reasons.value;
    LessTrichotomy(rs[0], rs[1]);
    assert rs[0] in Atoms(f) && rs[1] in Atoms(f);
  }

  /** An empty merge is not neutral: it describes a scope of no accounts, and joins only such scopes. */
  lemma EmptyMergeIsNeutralOnlyForEmptyScopes(c: Coverage)
    requires Valid(c)
    ensures Merge([Merge([]).value, c]) == Merge([c]) <==> c.asked == 0
  {
    hide GapsOf, FromGaps, Canonical;
    var e := EmptyCoverage();
    assert [c][0] == c && [e, c][0] == e && [e, c][1] == c && c in [e, c];
    MergeIsValidOrRefused([c]);
    FailedOfOne(c);
    if c.asked == 0 {
      NeutralGaps(c);
      MergeDependsOnGaps([e, c], [c]);
    } else if Merge([e, c]).Ok? {
      SameScope([e, c]);
      assert false;
    }
  }

  lemma NeutralGaps(c: Coverage)
    requires Valid(c) && c.asked == 0
    ensures GapsOf([EmptyCoverage(), c]) == GapsOf([c]) && AllValid([EmptyCoverage(), c]) == AllValid([c])
  {
    hide GapsOf, Valid, Union, EmptyCoverage;
    var e := EmptyCoverage();
    assert [e] + [c] == [e, c];
    GapsOfConcatenation([e], [c]);
    GapsOfOne(c);
    EmptyGaps();
    NothingAdded(GapsOf([c]));
  }

  lemma NothingAdded(g: Gaps)
    requires g.asked == {0}
    ensures Union(Gaps({0}, map[], {}, {}, 0, true), g) == g
  {
    var u := Union(Gaps({0}, map[], {}, {}, 0, true), g);
    forall a | a in u.reasons ensures u.reasons[a] == g.reasons[a] {
      var none: set<Text> := {};
      assert none + g.reasons[a] == g.reasons[a];
    }
    assert u.reasons == g.reasons;
  }

  lemma EmptyGaps()
    ensures Valid(EmptyCoverage()) && AllValid([EmptyCoverage()])
    ensures GapsOf([EmptyCoverage()]) == Gaps({0}, map[], {}, {}, 0, true)
  {
    hide GapsOf;
    GapsOfOne(EmptyCoverage());
  }

  // ------------------------------------------------- merging step by step

  function Present(parts: seq<Option<Coverage>>): seq<Coverage> {
    if parts == [] then []
    else Present(parts[..|parts| - 1]) + (if parts[|parts| - 1].Some? then [parts[|parts| - 1].value] else [])
  }

  /** Reasons by account as they are being collected: lists without repeats, and the sets they stand for. */
  ghost predicate NoRepeats(table: map<Text, seq<Text>>) {
    forall a :: a in table ==> table[a] != [] && |Elements(table[a])| == |table[a]|
  }

  function SetsOf(table: map<Text, seq<Text>>): map<Text, set<Text>> {
    map a | a in table :: Elements(table[a])
  }

  method AddReasons(reasons: seq<Text>, additions: seq<Text>) returns (all: seq<Text>)
    requires |Elements(reasons)| == |reasons|
    ensures Elements(all) == Elements(reasons) + Elements(additions)
    ensures |Elements(all)| == |all| >= |reasons|
  {
    all := reasons;
    for i := 0 to |additions|
      invariant Elements(all) == Elements(reasons) + Elements(additions[..i])
      invariant |Elements(all)| == |all| >= |reasons|
    {
      assert additions[..i + 1] == additions[..i] + [additions[i]];
      if additions[i] !in all {
        assert Elements(all + [additions[i]]) == Elements(all) + {additions[i]};
        all := all + [additions[i]];
      }
    }
    assert additions[..|additions|] == additions;
  }

  method AddFailure(table: map<Text, seq<Text>>, f: Failure) returns (next: map<Text, seq<Text>>)
    requires NoRepeats(table) && ValidFailure(f)
    ensures NoRepeats(next) && SetsOf(next) == ReasonUnion(SetsOf(table), map[f.account := Atoms(f)])
  {
    var additions := if f.reasons.Some? then f.reasons.value else [f.reason];
    assert Elements(additions) == Atoms(f) && additions != [];
    var before := if f.account in table then table[f.account] else [];
    var reasons := AddReasons(before, additions);
    next := table[f.account := reasons];
    assert additions[0] in Elements(reasons);
    assert reasons != [];
    AddedSets(table, f, reasons);
  }

  lemma AddedSets(table: map<Text, seq<Text>>, f: Failure, reasons: seq<Text>)
    requires Elements(reasons) == (if f.account in table then Elements(table[f.account]) else {}) + Atoms(f)
    ensures SetsOf(table[f.account := reasons]) == ReasonUnion(SetsOf(table), map[f.account := Atoms(f)])
  {
    hide Atoms;
    var l, r := SetsOf(table[f.account := reasons]), ReasonUnion(SetsOf(table), map[f.account := Atoms(f)]);
    forall a | a in l ensures l[a] == r[a] {
      if a != f.account { assert r[a] == SetsOf(table)[a] + {}; }
    }
    assert l.Keys == r.Keys;
  }

  /** A part cut short after its first `j` failures. */
  ghost function Cut(p: Coverage, j: nat): Coverage
    requires j <= |p.failed|
  {
    p.(failed := p.failed[..j])
  }

  lemma NextFailure(done: seq<Coverage>, p: Coverage, j: nat)
    requires j < |p.failed|
    ensures ReasonsOf(done + [Cut(p, j + 1)])
         == ReasonUnion(ReasonsOf(done + [Cut(p, j)]), map[p.failed[j].account := Atoms(p.failed[j])])
  {
    hide Atoms;
    var f := p.failed[j];
    var before, after := done + [Cut(p, j)], done + [Cut(p, j + 1)];
    assert p.failed[..j + 1] == p.failed[..j] + [f];
    var only := Cut(p, 0).(failed := [f]);
    MembersCut(done, p, j);
    JoinReasonMaps(before, [only]);
    LoneFailure(only, f);
  }

  lemma LoneFailure(c: Coverage, f: Failure)
    requires c.failed == [f]
    ensures ReasonsOf([c]) == map[f.account := Atoms(f)]
  {
    hide Atoms;
    assert f in c.failed && c in [c];
    assert FailedAccounts([c]) == {f.account};
    forall r ensures r in AtomsFor([c], f.account) <==> r in Atoms(f) {}
    assert AtomsFor([c], f.account) == Atoms(f);
  }

  lemma MembersCut(done: seq<Coverage>, p: Coverage, j: nat)
    requires j < |p.failed|
    ensures ReasonsOf(done + [Cut(p, j + 1)]) == ReasonsOf(done + [Cut(p, j)] + [Cut(p, 0).(failed := [p.failed[j]])])
  {
    hide Atoms;
    var f := p.failed[j];
    var only := Cut(p, 0).(failed := [f]);
    var l, r := done + [Cut(p, j + 1)], done + [Cut(p, j)] + [only];
    assert p.failed[..j + 1] == p.failed[..j] + [f];
    forall c ensures c in l <==> c in done || c == Cut(p, j + 1) {}
    forall c ensures c in r <==> c in done || c == Cut(p, j) || c == only {}
    forall g ensures g in Cut(p, j + 1).failed <==> g in Cut(p, j).failed || g in only.failed {}
    forall g ensures Names(l, g) <==> Names(r, g) {
      if g in Cut(p, j + 1).failed { assert Cut(p, j) in r && only in r; }
      if g in Cut(p, j).failed || g in only.failed { assert Cut(p, j + 1) in l; }
    }
    SameFailuresSameReasons(l, r);
  }

  ghost predicate Names(parts: seq<Coverage>, g: Failure) { exists c :: c in parts && g in c.failed }

  /** Lists whose parts name the same failures have the same reasons. */
  lemma SameFailuresSameReasons(l: seq<Coverage>, r: seq<Coverage>)
    requires forall g :: Names(l, g) <==> Names(r, g)
    ensures ReasonsOf(l) == ReasonsOf(r)
  {
    hide Atoms;
    forall c, g | c in l && g in c.failed ensures exists d :: d in r && g in d.failed { assert Names(l, g); }
    forall c, g | c in r && g in c.failed ensures exists d :: d in l && g in d.failed { assert Names(r, g); }
    assert FailedAccounts(l) == FailedAccounts(r);
    forall a ensures AtomsFor(l, a) == AtomsFor(r, a) {}
  }

  method CollectReasons(present: seq<Coverage>) returns (table: map<Text, seq<Text>>)
    requires AllValid(present)
    ensures NoRepeats(table) && SetsOf(table) == ReasonsOf(present)
  {
    hide Atoms, FailedAccounts, AtomsFor, ValidFailure, ReasonUnion;
    table := map[];
    assert ReasonsOf([]) == map[] by { NoReasons(); }
    for i := 0 to |present|
      invariant NoRepeats(table) && SetsOf(table) == ReasonsOf(present[..i])
    {
      var part := present[i];
      assert part in present && Valid(part);
      UncutPart(present[..i], part);
      for j := 0 to |part.failed|
        invariant NoRepeats(table) && SetsOf(table) == ReasonsOf(present[..i] + [Cut(part, j)])
      {
        table := AddFailure(table, part.failed[j]);
        NextFailure(present[..i], part, j);
      }
      assert Cut(part, |part.failed|) == part;
      assert present[..i + 1] == present[..i] + [part];
    }
    assert present[..|present|] == present;
  }

  lemma NoReasons()
    ensures ReasonsOf([]) == map[]
  {}

  lemma UncutPart(done: seq<Coverage>, p: Coverage)
    ensures ReasonsOf(done + [Cut(p, 0)]) == ReasonsOf(done)
  {
    hide Atoms;
    var l := done + [Cut(p, 0)];
    forall c ensures c in l <==> c in done || c == Cut(p, 0) {}
    SameFailuresSameReasons(l, done);
  }

  method MergeCoverage(parts: seq<Option<Coverage>>) returns (r: Result<Coverage, CoverageError>)
    ensures r == Merge(Present(parts))
  {
    hide Valid, Merge;
    var present: seq<Coverage> := [];
    for i := 0 to |parts|
      invariant present == Present(parts[..i]) && AllValid(present)
    {
      assert parts[..i + 1][..i] == parts[..i];
      if parts[i].Some? {
        var ok := HasNoProblem(parts[i].value);
        if !ok {
          PresentContains(parts, i);
          return Err(CoverageMismatch);
        }
        present := present + [parts[i].value];
      }
    }
    assert parts[..|parts|] == parts;
    r := MergePresent(present);
  }

  method MergePresent(present: seq<Coverage>) returns (r: Result<Coverage, CoverageError>)
    requires AllValid(present)
    ensures r == Merge(present)
  {
    hide Valid, ReasonsOf, TruncatedOf, SkippedOf, AllComplete, MaxDropped, Merge, SortedSet;
    if |present| == 0 {
      MergeOfNone();
      return Ok(EmptyCoverage());
    }
    var asked := present[0].asked;
    for i := 0 to |present|
      invariant forall k :: 0 <= k < i ==> present[k].asked == asked
    {
      if present[i].asked != asked {
        DifferentScopes(present, i);
        return Err(CoverageMismatch);
      }
    }
    var table := CollectReasons(present);
    var accounts := SortedSet(table.Keys);
    var failed := FailuresFrom(table, accounts);
    MergeOfOneScope(present);
    if |failed| > asked {
      return Err(CoverageMismatch);
    }
    var truncated, skipped, dropped := TruncatedOf(present), SkippedOf(present), MaxDropped(present);
    var complete := AllComplete(present) && NothingMissed(SetsOf(table), truncated, skipped, dropped);
    return Ok(Coverage(asked, asked - |failed|, failed, SortedSet(truncated), dropped, SortedSet(skipped), complete));
  }

  lemma MergeOfNone()
    ensures Merge([]) == Ok(EmptyCoverage())
  {}

  /** A merge of one scope, spelled out field by field. */
  lemma MergeOfOneScope(present: seq<Coverage>)
    requires present != [] && AllValid(present) && forall k :: 0 <= k < |present| ==>
      present[k].asked == present[0].asked
    ensures Reasoned(ReasonsOf(present))
    ensures var reasons, asked := ReasonsOf(present), present[0].asked;
      && |Failures(reasons, SortedSet(reasons.Keys))| == |reasons|
      && (|reasons| > asked ==> Merge(present) == Err(CoverageMismatch))
      && (|reasons| <= asked ==> Merge(present) == Ok(Coverage(
            asked, asked - |reasons|, Failures(reasons, SortedSet(reasons.Keys)), SortedSet(TruncatedOf(present)),
            MaxDropped(present), SortedSet(SkippedOf(present)),
            AllComplete(present) &&
            NothingMissed(reasons, TruncatedOf(present), SkippedOf(present), MaxDropped(present)))))
  {
    hide Valid, ReasonsOf, TruncatedOf, SkippedOf, AllComplete, MaxDropped, NothingMissed, Failures, Merge, SortedSet;
    MergeByGaps(present);
  }

  lemma MergeByGaps(present: seq<Coverage>)
    requires present != [] && AllValid(present) && forall k :: 0 <= k < |present| ==>
      present[k].asked == present[0].asked
    ensures Reasoned(GapsOf(present).reasons)
    ensures var g, asked := GapsOf(present), present[0].asked;
      Merge(present) == if |g.reasons| > asked then Err(CoverageMismatch) else Ok(FromGaps(g, asked))
  {
    hide Valid, ReasonsOf, TruncatedOf, SkippedOf, AllComplete, MaxDropped, NothingMissed, FromGaps;
    AtomsExist(present);
    assert present[0] in present;
    assert GapsOf(present).asked == {present[0].asked};
  }

  method FailuresFrom(table: map<Text, seq<Text>>, accounts: seq<Text>) returns (failed: seq<Failure>)
    requires NoRepeats(table) && accounts == SortedSet(table.Keys)
    ensures Reasoned(SetsOf(table)) && accounts == SortedSet(SetsOf(table).Keys)
    ensures failed == Failures(SetsOf(table), accounts) && |failed| == |SetsOf(table)|
  {
    hide FailureOf, SortedSet, Less, Elements, Failures, Reasoned, StrictlySorted, NoRepeats;
    assert SetsOf(table).Keys == table.Keys;
    ListedReasons(table);
    failed := [];
    for i := 0 to |accounts|
      invariant |failed| == i
      invariant forall k :: 0 <= k < i ==> failed[k] == FailureOf(accounts[k], SetsOf(table)[accounts[k]])
    {
      assert accounts[i] in accounts;
      var failure := SortedFailure(accounts[i], table[accounts[i]]);
      failed := failed + [failure];
    }
  }

  method SortedFailure(account: Text, listed: seq<Text>) returns (f: Failure)
    requires Elements(listed) != {}
    ensures f == FailureOf(account, Elements(listed))
  {
    var reasons := SortedSet(Elements(listed));
    var reason := JoinReasons(reasons);
    f := Failure(account, reason, if |reasons| == 1 then None else Some(reasons));
  }

  lemma ListedReasons(table: map<Text, seq<Text>>)
    requires NoRepeats(table)
    ensures Reasoned(SetsOf(table))
    ensures forall a :: a in table ==> Elements(table[a]) != {}
  {
    forall a | a in table ensures Elements(table[a]) != {} { assert table[a][0] in Elements(table[a]); }
  }

  lemma {:induction false} PresentContains(parts: seq<Option<Coverage>>, i: nat)
    requires i < |parts| && parts[i].Some? && !Valid(parts[i].value)
    ensures Merge(Present(parts)) == Err(CoverageMismatch)
  {
    InPresent(parts, i);
  }

  lemma {:induction false} InPresent(parts: seq<Option<Coverage>>, i: nat)
    requires i < |parts| && parts[i].Some?
    ensures parts[i].value in Present(parts)
    decreases |parts|
  {
    if i < |parts| - 1 { InPresent(parts[..|parts| - 1], i); }
  }

  lemma DifferentScopes(present: seq<Coverage>, i: nat)
    requires i < |present| && present[i].asked != present[0].asked
    ensures Merge(present) == Err(CoverageMismatch)
  {
    MergeHasOneError(present);
    assert present[i] in present;
    if Merge(present).Ok? { SameScope(present); }
  }
}
