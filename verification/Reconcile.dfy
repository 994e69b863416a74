/** packages/market/src/store.ts: two reports of one offer become one row, and the merge is a join. */
module Reconcile {
  import opened Texts
  import opened Outcomes
  import opened Envelopes
  import opened Storage

  const MAX_SOURCES: nat := 32

  // --------------------------------------------------------------- merging

  /** The fields no later report may change. */
  function Immutable(o: Offer): Offer {
    o.(state := Open, acceptedBy := None, settledBy := None, settledAt := None, seenAt := 0,
       sources := [], firstObservedAt := 0, lastObservedAt := 0)
  }

  datatype Settlement = Settlement(state: OfferState, acceptedBy: Option<Text>, settledBy: Option<Text>)

  function SettlementOf(o: Offer): Settlement { Settlement(o.state, o.acceptedBy, o.settledBy) }

  datatype Merge = Conflict | Overflow | Merged(row: Offer, changed: bool)

  function Later(a: Option<Safe>, b: Option<Safe>): Option<Safe> {
    if a.None? then b else if b.None? then a else Some(Max(a.value, b.value))
  }

  function UnionOf(a: seq<Text>, b: seq<Text>): seq<Text> { SortedSet(Elements(a + b)) }

  function ReconcileOffer(previous: Offer, observed: Offer): Merge {
    if Immutable(previous) != Immutable(observed) then Conflict
    else if previous.state != Open && observed.state != Open && SettlementOf(previous) != SettlementOf(observed)
    then Conflict
    else
      var settles := previous.state == Open && observed.state != Open;
      var lifecycle := if settles then observed else previous;
      var sources := UnionOf(previous.sources, observed.sources);
      if |sources| > MAX_SOURCES then Overflow
      else
        var seenAt, settledAt := Max(previous.seenAt, observed.seenAt), Later(previous.settledAt, observed.settledAt);
        Merged(
          lifecycle.(sources := sources, seenAt := seenAt, settledAt := settledAt,
                     firstObservedAt := Min(previous.firstObservedAt, observed.firstObservedAt),
                     lastObservedAt := Max(previous.lastObservedAt, observed.lastObservedAt)),
          settles || |sources| != |previous.sources| || previous.seenAt != seenAt || previous.settledAt != settledAt)
  }

  /** What a report or a stored row may say about a settlement. */
  predicate SettlementFits(o: Offer) {
    match o.state
    case Open => o.acceptedBy.None? && o.settledBy.None? && o.settledAt.None?
    case Accepted => o.acceptedBy.Some? && o.settledBy.Some? && o.settledAt.Some?
    case Cancelled => o.acceptedBy.None? && o.settledBy.Some? && o.settledAt.Some?
  }

  /** One source's report of an offer, as `materialize` accepts it. */
  predicate IsReport(o: Offer) {
    SettlementFits(o) && |o.sources| == 1 && o.firstObservedAt == o.lastObservedAt
  }

  /** A stored row: some sources, in order, within the limit. */
  ghost predicate IsStored(o: Offer) {
    SettlementFits(o) && 0 < |o.sources| <= MAX_SOURCES && StrictlySorted(o.sources)
  }

  lemma ReportIsStored(o: Offer)
    requires IsReport(o)
    ensures IsStored(o)
  {}

  lemma UnionElements(a: seq<Text>, b: seq<Text>)
    ensures Elements(UnionOf(a, b)) == Elements(a) + Elements(b)
    ensures StrictlySorted(UnionOf(a, b)) && |UnionOf(a, b)| == |Elements(a) + Elements(b)|
  {
    assert Elements(a + b) == Elements(a) + Elements(b);
  }

  /** Merging a report keeps a stored row one; a settled row keeps its settlement for good. */
  lemma MergeKeepsStored(previous: Offer, observed: Offer)
    requires IsStored(previous) && IsReport(observed) && ReconcileOffer(previous, observed).Merged?
    ensures var row := ReconcileOffer(previous, observed).row;
      && IsStored(row) && OfferKey(row) == OfferKey(previous)
      && (previous.state != Open ==>
          SettlementOf(row) == SettlementOf(previous) && row.settledAt.value >= previous.settledAt.value)
  {
    hide OfferKey, UnionOf, StrictlySorted;
    UnionElements(previous.sources, observed.sources);
    assert previous.sources[0] in Elements(previous.sources);
    SameImmutableSameKey(previous, observed);
    SameImmutableSameKey(previous, ReconcileOffer(previous, observed).row);
  }

  lemma SameImmutableSameKey(a: Offer, b: Offer)
    requires Immutable(a) == Immutable(b)
    ensures OfferKey(a) == OfferKey(b)
  {}

  /** What an offer is, as opposed to how far it has come and who has seen it. */
  ghost predicate SameTerms(a: Offer, b: Offer) {
    && a.network == b.network && a.hash == b.hash && a.author == b.author
    && a.giveAsset == b.giveAsset && a.giveRaw == b.giveRaw && a.wantAsset == b.wantAsset && a.wantRaw == b.wantRaw
    && a.counterparty == b.counterparty && a.height == b.height
  }

  /** Two settled accounts of one offer that cannot both be right. */
  ghost predicate SettledOtherwise(a: Offer, b: Offer) {
    && a.state != Open && b.state != Open
    && (a.state != b.state || a.acceptedBy != b.acceptedBy || a.settledBy != b.settledBy)
  }

  /**
   * What becomes of a report, for any row: a conflict exactly for other terms or another
   * settlement, an overflow exactly for more than 32 sources in all, and a merge otherwise.
   */
  lemma ReconcilesExactly(previous: Offer, observed: Offer)
    ensures ReconcileOffer(previous, observed) == Conflict
       <==> !SameTerms(previous, observed) || SettledOtherwise(previous, observed)
    ensures ReconcileOffer(previous, observed) == Overflow
       <==> SameTerms(previous, observed) && !SettledOtherwise(previous, observed)
            && |Elements(previous.sources) + Elements(observed.sources)| > 32
  {
    UnionElements(previous.sources, observed.sources);
    hide UnionOf;
  }

  /**
   * The merged row: the terms of both, the settlement of whichever is settled, the sources of
   * both once each in order, and the outermost times.
   */
  lemma MergedRowIsExact(previous: Offer, observed: Offer)
    requires ReconcileOffer(previous, observed).Merged?
    ensures var row := ReconcileOffer(previous, observed).row;
      && SameTerms(row, previous) && SameTerms(row, observed)
      && (previous.state != Open || observed.state == Open ==> SettlementOf(row) == SettlementOf(previous))
      && (observed.state != Open ==> SettlementOf(row) == SettlementOf(observed))
      && StrictlySorted(row.sources)
      && Elements(row.sources) == Elements(previous.sources) + Elements(observed.sources)
      && row.firstObservedAt <= previous.firstObservedAt && row.firstObservedAt <= observed.firstObservedAt
      && row.firstObservedAt in {previous.firstObservedAt, observed.firstObservedAt}
      && row.lastObservedAt >= previous.lastObservedAt && row.lastObservedAt >= observed.lastObservedAt
      && row.lastObservedAt in {previous.lastObservedAt, observed.lastObservedAt}
      && row.seenAt >= previous.seenAt && row.seenAt >= observed.seenAt
      && row.seenAt in {previous.seenAt, observed.seenAt}
      && row.settledAt in {previous.settledAt, observed.settledAt}
      && (previous.settledAt.Some? ==> row.settledAt.Some? && row.settledAt.value >= previous.settledAt.value)
      && (observed.settledAt.Some? ==> row.settledAt.Some? && row.settledAt.value >= observed.settledAt.value)
  {
    UnionElements(previous.sources, observed.sources);
    hide UnionOf, StrictlySorted;
  }

  /** A row without the two observation times, which a merge may move silently. */
  function Timeless(o: Offer): Offer { o.(firstObservedAt := 0, lastObservedAt := 0) }

  lemma SameSizeSameUnion(a: seq<Text>, b: seq<Text>)
    requires StrictlySorted(a)
    ensures |UnionOf(a, b)| == |a| <==> UnionOf(a, b) == a
  {
    SortedSetOfSorted(a);
    UnionElements(a, b);
    if |UnionOf(a, b)| == |a| {
      SubsetOfSameSize(Elements(a), Elements(a) + Elements(b));
      StrictlySortedUnique(UnionOf(a, b), a);
    }
  }

  lemma SubsetOfSameSize(a: set<Text>, b: set<Text>)
    requires a <= b && |a| == |b|
    ensures a == b
  {
    if a != b {
      var x :| x in b && x !in a;
      SizeOfSubset(a + {x}, b);
    }
  }

  lemma {:induction false} SizeOfSubset<T>(a: set<T>, b: set<T>)
    requires a <= b
    ensures |a| <= |b|
    decreases a
  {
    if a != {} {
      var x :| x in a;
      SizeOfSubset(a - {x}, b - {x});
    }
  }

  /** The change flag is exact about everything but the two observation times. */
  lemma ChangedIsExact(previous: Offer, observed: Offer)
    requires IsStored(previous) && IsReport(observed) && ReconcileOffer(previous, observed).Merged?
    ensures ReconcileOffer(previous, observed).changed <==>
      Timeless(ReconcileOffer(previous, observed).row) != Timeless(previous)
  {
    hide UnionOf, StrictlySorted;
    SameSizeSameUnion(previous.sources, observed.sources);
  }

  /**
   * A merge that reports no change leaves the very same row exactly when the report was made
   * inside the row's own observation window; otherwise a shown time moves under an unchanged
   * offer revision.
   */
  lemma SilentMergeIsInvisibleExactlyInsideTheWindow(previous: Offer, observed: Offer)
    requires IsStored(previous) && IsReport(observed)
    requires ReconcileOffer(previous, observed).Merged? && !ReconcileOffer(previous, observed).changed
    ensures ReconcileOffer(previous, observed).row == previous
       <==> previous.firstObservedAt <= observed.firstObservedAt && observed.lastObservedAt <= previous.lastObservedAt
  {
    hide UnionOf, StrictlySorted;
    ChangedIsExact(previous, observed);
  }

  // ------------------------------------------------------------ convergence

  function SourcesOf(seen: set<Offer>): set<Text> { set o, s | o in seen && s in o.sources :: s }

  /** No two reports contradict each other. */
  ghost predicate Compatible(seen: set<Offer>) {
    && (forall o :: o in seen ==> IsReport(o))
    && (forall a, b :: a in seen && b in seen ==> Immutable(a) == Immutable(b))
    && (forall a, b :: a in seen && b in seen && a.state != Open && b.state != Open ==>
        SettlementOf(a) == SettlementOf(b))
  }

  ghost predicate IsLatest(at: Option<Safe>, seen: set<Offer>) {
    && (forall o :: o in seen && o.settledAt.Some? ==> at.Some? && o.settledAt.value <= at.value)
    && (at.Some? ==> exists o :: o in seen && o.settledAt == at)
  }

  ghost predicate TimesFit(row: Offer, seen: set<Offer>) {
    && (forall o :: o in seen ==> row.firstObservedAt <= o.firstObservedAt)
    && (exists o :: o in seen && o.firstObservedAt == row.firstObservedAt)
    && (forall o :: o in seen ==> o.lastObservedAt <= row.lastObservedAt)
    && (exists o :: o in seen && o.lastObservedAt == row.lastObservedAt)
    && (forall o :: o in seen ==> o.seenAt <= row.seenAt) && (exists o :: o in seen && o.seenAt == row.seenAt)
    && IsLatest(row.settledAt, seen)
  }

  ghost predicate LifecycleFits(row: Offer, seen: set<Offer>) {
    && (forall o :: o in seen ==> Immutable(o) == Immutable(row))
    && (forall o :: o in seen && o.state != Open ==> SettlementOf(row) == SettlementOf(o))
    && ((forall o :: o in seen ==> o.state == Open) ==> SettlementOf(row) == Settlement(Open, None, None))
  }

  /**
   * The row a set of reports amounts to: settled if any report is, first and last observation
   * the least and greatest, seen and settled times the greatest, sources listed once each.
   */
  ghost predicate IsJoin(row: Offer, seen: set<Offer>) {
    LifecycleFits(row, seen) && TimesFit(row, seen) && row.sources == SortedSet(SourcesOf(seen))
  }

  /** A set of reports amounts to one row only. */
  lemma JoinIsUnique(a: Offer, b: Offer, seen: set<Offer>)
    requires seen != {} && IsJoin(a, seen) && IsJoin(b, seen)
    ensures a == b
  {
    var o :| o in seen;
    assert a.settledAt == b.settledAt;
    assert Immutable(a) == Immutable(b);
    if exists s :: s in seen && s.state != Open {
      var s :| s in seen && s.state != Open;
      assert SettlementOf(a) == SettlementOf(b);
    }
  }

  lemma JoinOfOne(o: Offer)
    requires IsReport(o)
    ensures IsJoin(o, {o})
  {
    assert SourcesOf({o}) == Elements(o.sources);
    SortedSetOfSorted(o.sources);
  }

  lemma TimesOfOneMore(row: Offer, seen: set<Offer>, o: Offer, merged: Offer)
    requires TimesFit(row, seen)
    requires merged.firstObservedAt == Min(row.firstObservedAt, o.firstObservedAt) &&
      merged.lastObservedAt == Max(row.lastObservedAt, o.lastObservedAt)
    requires merged.seenAt == Max(row.seenAt, o.seenAt) && merged.settledAt == Later(row.settledAt, o.settledAt)
    ensures TimesFit(merged, seen + {o})
  {
    var f :| f in seen && f.firstObservedAt == row.firstObservedAt;
    var l :| l in seen && l.lastObservedAt == row.lastObservedAt;
    var s :| s in seen && s.seenAt == row.seenAt;
    assert f in seen + {o} && l in seen + {o} && s in seen + {o} && o in seen + {o};
    if row.settledAt.Some? {
      var t :| t in seen && t.settledAt == row.settledAt;
      assert t in seen + {o};
    }
  }

  lemma LifecycleOfOneMore(row: Offer, seen: set<Offer>, o: Offer, merged: Offer)
    requires LifecycleFits(row, seen) && Compatible(seen + {o}) && seen != {} && IsReport(o)
    requires Immutable(merged) == Immutable(row)
    requires SettlementOf(merged) == SettlementOf(if row.state == Open && o.state != Open then o else row)
    ensures LifecycleFits(merged, seen + {o})
  {
    hide Immutable;
    var all := seen + {o};
    var any :| any in seen;
    assert any in all && o in all;
    forall x | x in all && x.state != Open ensures SettlementOf(merged) == SettlementOf(x) {
      if x in seen {
        assert SettlementOf(row) == SettlementOf(x);
      }
    }
  }

  /** Merging one more compatible report is the join of one more. */
  lemma MergeIsJoin(row: Offer, seen: set<Offer>, o: Offer)
    requires seen != {} && IsJoin(row, seen) && Compatible(seen + {o})
    requires |SourcesOf(seen + {o})| <= MAX_SOURCES
    ensures ReconcileOffer(row, o).Merged? && IsJoin(ReconcileOffer(row, o).row, seen + {o})
  {
    hide SourcesOf, TimesFit, LifecycleFits, UnionOf, SortedSet;
    NoConflict(row, seen, o);
    SourcesUnion(row, seen, o);
    var merged := ReconcileOffer(row, o).row;
    TimesOfOneMore(row, seen, o, merged);
    assert o in seen + {o};
    LifecycleOfOneMore(row, seen, o, merged);
  }

  lemma NoConflict(row: Offer, seen: set<Offer>, o: Offer)
    requires seen != {} && LifecycleFits(row, seen) && Compatible(seen + {o})
    ensures Immutable(row) == Immutable(o)
    ensures row.state != Open && o.state != Open ==> SettlementOf(row) == SettlementOf(o)
  {
    hide Immutable;
    var any :| any in seen;
    assert any in seen + {o} && o in seen + {o};
    if row.state != Open && o.state != Open {
      var x :| x in seen && x.state != Open;
      assert x in seen + {o};
    }
  }

  lemma SourcesUnion(row: Offer, seen: set<Offer>, o: Offer)
    requires row.sources == SortedSet(SourcesOf(seen))
    ensures UnionOf(row.sources, o.sources) == SortedSet(SourcesOf(seen + {o}))
  {
    hide SortedSet;
    forall s ensures s in Elements(row.sources + o.sources) <==> s in SourcesOf(seen + {o}) {
      assert s in row.sources <==> s in SourcesOf(seen);
      if s in SourcesOf(seen + {o}) {
        var x :| x in seen + {o} && s in x.sources;
      }
      if s in SourcesOf(seen) {
        var x :| x in seen && s in x.sources;
        assert x in seen + {o};
      }
      if s in o.sources { assert o in seen + {o}; }
    }
    assert Elements(row.sources + o.sources) == SourcesOf(seen + {o});
  }

  /** What the row under one key becomes as reports arrive: refused merges leave it alone. */
  function After(row: Option<Offer>, o: Offer): Option<Offer> {
    if row.None? then Some(o)
    else
      var m := ReconcileOffer(row.value, o);
      if m.Merged? then Some(m.row) else row
  }

  function AfterAll(row: Option<Offer>, reports: seq<Offer>): Option<Offer> {
    if reports == [] then row else After(AfterAll(row, reports[..|reports| - 1]), reports[|reports| - 1])
  }

  function SetOf(reports: seq<Offer>): (s: set<Offer>)
    ensures forall o :: o in s <==> o in reports
  {
    set o | o in reports
  }

  lemma {:induction false} AfterAllConcat(row: Option<Offer>, first: seq<Offer>, second: seq<Offer>)
    ensures AfterAll(row, first + second) == AfterAll(AfterAll(row, first), second)
    decreases |second|
  {
    hide After;
    if second == [] {
      assert first + second == first;
    } else {
      var n := |second| - 1;
      AfterAllConcat(row, first, second[..n]);
      assert (first + second)[..|first + second| - 1] == first + second[..n];
    }
  }

  lemma SourcesMonotone(a: set<Offer>, b: set<Offer>)
    requires a <= b
    ensures SourcesOf(a) <= SourcesOf(b) && |SourcesOf(a)| <= |SourcesOf(b)|
  {
    SizeOfSubset(SourcesOf(a), SourcesOf(b));
  }

  /** Compatible reports of at most 32 sources end as their join, in whatever order they came. */
  lemma {:induction false} ReportsJoin(reports: seq<Offer>)
    requires reports != [] && Compatible(SetOf(reports)) && |SourcesOf(SetOf(reports))| <= MAX_SOURCES
    ensures AfterAll(None, reports).Some? && IsJoin(AfterAll(None, reports).value, SetOf(reports))
    decreases |reports|
  {
    hide IsJoin, Compatible, SourcesOf, ReconcileOffer;
    var n := |reports| - 1;
    var front, o := reports[..n], reports[n];
    assert reports == front + [o];
    assert SetOf(reports) == SetOf(front) + {o};
    CompatibleSubset(SetOf(front), SetOf(reports));
    if n == 0 {
      assert SetOf(reports) == {o};
      CompatibleAreReports(SetOf(reports), o);
      JoinOfOne(o);
      assert AfterAll(None, front) == None;
    } else {
      SourcesMonotone(SetOf(front), SetOf(reports));
      ReportsJoin(front);
      assert front[0] in SetOf(front);
      MergeIsJoin(AfterAll(None, front).value, SetOf(front), o);
    }
  }

  lemma CompatibleSubset(a: set<Offer>, b: set<Offer>)
    requires a <= b && Compatible(b)
    ensures Compatible(a)
  {
    hide Immutable, IsReport;
  }

  lemma CompatibleAreReports(seen: set<Offer>, o: Offer)
    requires Compatible(seen) && o in seen
    ensures IsReport(o)
  {}

  /** The sources a row shows all come from its reports, and never pass the limit. */
  lemma {:induction false} RowSources(reports: seq<Offer>)
    requires reports != [] && forall o :: o in reports ==> IsReport(o)
    ensures AfterAll(None, reports).Some?
    ensures var row := AfterAll(None, reports).value;
      |row.sources| <= MAX_SOURCES && StrictlySorted(row.sources) && Elements(row.sources) <= SourcesOf(SetOf(reports))
    decreases |reports|
  {
    hide SourcesOf, UnionOf, StrictlySorted, Immutable;
    var n := |reports| - 1;
    var front, o := reports[..n], reports[n];
    assert o in reports && o in SetOf(reports);
    SourcesOfMember(SetOf(reports), o);
    if n == 0 {
      assert AfterAll(None, front) == None;
      OneSourceIsSorted(o);
    } else {
      forall x | x in front ensures x in reports {}
      RowSources(front);
      assert SetOf(front) <= SetOf(reports);
      SourcesMonotone(SetOf(front), SetOf(reports));
      UnionElements(AfterAll(None, front).value.sources, o.sources);
    }
  }

  lemma OneSourceIsSorted(o: Offer)
    requires |o.sources| == 1
    ensures StrictlySorted(o.sources)
  {}

  lemma SourcesOfMember(seen: set<Offer>, o: Offer)
    requires o in seen
    ensures Elements(o.sources) <= SourcesOf(seen)
  {}

  /** A source once shown stays shown. */
  lemma {:induction false} SourcesStay(row: Offer, reports: seq<Offer>)
    ensures AfterAll(Some(row), reports).Some?
    ensures Elements(row.sources) <= Elements(AfterAll(Some(row), reports).value.sources)
    decreases |reports|
  {
    hide UnionOf, Immutable;
    if reports != [] {
      var n := |reports| - 1;
      SourcesStay(row, reports[..n]);
      UnionElements(AfterAll(Some(row), reports[..n]).value.sources, reports[n].sources);
    }
  }

  /** Beyond 32 sources, hearing one of the reports earlier as well leaves another row. */
  lemma EarlierReportChangesTheRow(reports: seq<Offer>)
    requires reports != [] && Compatible(SetOf(reports)) && |SourcesOf(SetOf(reports))| > MAX_SOURCES
    ensures exists o ::
      o in reports && SetOf([o] + reports) == SetOf(reports) && AfterAll(None, [o] + reports) != AfterAll(None, reports)
  {
    hide Compatible, UnionOf, ReconcileOffer, StrictlySorted, SortedSet, AfterAll;
    forall o | o in reports ensures IsReport(o) { CompatibleAreReports(SetOf(reports), o); }
    RowSources(reports);
    var shown := Elements(AfterAll(None, reports).value.sources);
    DistinctElements(AfterAll(None, reports).value.sources);
    SizeOfSubset(SourcesOf(SetOf(reports)), SourcesOf(SetOf(reports)) + shown);
    assert exists s :: s in SourcesOf(SetOf(reports)) && s !in shown by {
      if forall s :: s in SourcesOf(SetOf(reports)) ==> s in shown { SizeOfSubset(SourcesOf(SetOf(reports)), shown); }
    }
    var s :| s in SourcesOf(SetOf(reports)) && s !in shown;
    var o :| o in SetOf(reports) && s in o.sources;
    AfterAllConcat(None, [o], reports);
    AfterFirst(o);
    SourcesStay(o, reports);
    assert s in Elements(o.sources);
    assert SetOf([o] + reports) == SetOf(reports);
  }

  lemma AfterFirst(o: Offer)
    ensures AfterAll(None, [o]) == Some(o)
  {
    assert [o][..0] == [];
  }

  lemma DistinctElements(s: seq<Text>)
    requires StrictlySorted(s)
    ensures |Elements(s)| == |s|
  {
    SortedSetOfSorted(s);
  }

  /**
   * Convergence, exactly: compatible reports end as the same row in every order, grouping and
   * repetition if and only if they name at most 32 sources.
   */
  lemma ConvergesExactlyWithinTheSourceLimit(reports: seq<Offer>)
    requires reports != [] && Compatible(SetOf(reports))
    ensures (forall other :: SetOf(other) == SetOf(reports) ==> AfterAll(None, other) == AfterAll(None, reports))
       <==> |SourcesOf(SetOf(reports))| <= MAX_SOURCES
  {
    hide Compatible, AfterAll, IsJoin, SourcesOf;
    if |SourcesOf(SetOf(reports))| <= MAX_SOURCES {
      ReportsJoin(reports);
      forall other | SetOf(other) == SetOf(reports) ensures AfterAll(None, other) == AfterAll(None, reports) {
        assert reports[0] in SetOf(reports);
        assert reports[0] in SetOf(other);
        ReportsJoin(other);
        JoinIsUnique(AfterAll(None, other).value, AfterAll(None, reports).value, SetOf(reports));
      }
    } else {
      EarlierReportChangesTheRow(reports);
    }
  }
}
