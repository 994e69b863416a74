/** packages/market/src/store.ts: a source's watermark only ever moves to a greater checkpoint. */
module Watermarks {
  import opened Texts
  import opened Outcomes
  import opened Envelopes
  import opened Json

  function ReasonName(r: StopReason): Text {
    match r
    case Exhausted => Ascii("exhausted")
    case AccountLimit => Ascii("account_limit")
    case RequestLimit => Ascii("request_limit")
    case ResultLimit => Ascii("result_limit")
    case ByteLimit => Ascii("byte_limit")
    case PageLimit => Ascii("page_limit")
    case ScanLimit => Ascii("scan_limit")
    case Deadline => Ascii("deadline")
    case Aborted => Ascii("aborted")
    case ProviderError => Ascii("provider_error")
    case UnsupportedPagination => Ascii("unsupported_pagination")
  }

  lemma ReasonNamesDiffer(a: StopReason, b: StopReason)
    requires ReasonName(a) == ReasonName(b)
    ensures a == b
  {
    assert ReasonName(a)[0] == ReasonName(b)[0];
  }

  /** `JSON.stringify` of the facts that break a tie between two checkpoints. */
  function CheckpointOrder(c: Checkpoint): Text {
    Ascii("{\"newestHash\":") + (NullOr(c.newestHash) + (Ascii(",\"providerCursor\":") + (NullOr(c.providerCursor)
    + (Ascii(",\"exhausted\":")
        + (TrueFalse(c.exhausted) + (Ascii(",\"stopReason\":") + (Quoted(ReasonName(c.stopReason)) + Ascii("}"))))))))
  }

  function CompareCheckpoint(left: Checkpoint, right: Checkpoint): int {
    if left.observedAt != right.observedAt then left.observedAt - right.observedAt
    else if left.generation != right.generation then left.generation - right.generation
    else CompareText(CheckpointOrder(left), CheckpointOrder(right))
  }

  /** The text is that of `JSON.stringify` on the four facts in their order. */
  lemma OrderTextIsJson(c: Checkpoint)
    ensures var hash := if c.newestHash.Some? then Quoted(c.newestHash.value) else Ascii("null");
      var cursor := if c.providerCursor.Some? then Quoted(c.providerCursor.value) else Ascii("null");
      CheckpointOrder(c)
        == Ascii("{\"newestHash\":") + hash + Ascii(",\"providerCursor\":") + cursor
           + (if c.exhausted then Ascii(",\"exhausted\":true") else Ascii(",\"exhausted\":false"))
           + Ascii(",\"stopReason\":") + Quoted(ReasonName(c.stopReason)) + Ascii("}")
  {
    hide Quoted, ReasonName, Ascii;
    var hash, cursor, last := NullOr(c.newestHash), NullOr(c.providerCursor), Quoted(ReasonName(c.stopReason));
    EightInARow(Ascii("{\"newestHash\":"), hash, Ascii(",\"providerCursor\":"), cursor,
                Ascii(",\"exhausted\":"), TrueFalse(c.exhausted), Ascii(",\"stopReason\":"), last + Ascii("}"));
    ExhaustedText(c.exhausted);
    Grouped(Ascii("{\"newestHash\":") + hash + Ascii(",\"providerCursor\":") + cursor,
            Ascii(",\"exhausted\":"), TrueFalse(c.exhausted));
    Grouped(Ascii("{\"newestHash\":") + hash + Ascii(",\"providerCursor\":") + cursor
            + (Ascii(",\"exhausted\":") + TrueFalse(c.exhausted)) + Ascii(",\"stopReason\":"), last, Ascii("}"));
  }

  lemma ExhaustedText(b: bool)
    ensures Ascii(",\"exhausted\":") + TrueFalse(b)
         == if b then Ascii(",\"exhausted\":true") else Ascii(",\"exhausted\":false")
  {}

  lemma Grouped(a: Text, b: Text, c: Text)
    ensures a + (b + c) == a + b + c
  {}

  lemma EightInARow(a: Text, b: Text, c: Text, d: Text, e: Text, f: Text, g: Text, h: Text)
    ensures a + (b + (c + (d + (e + (f + (g + h)))))) == a + b + c + d + e + f + g + h
  {
    Grouped(a, b, c + (d + (e + (f + (g + h)))));
    Grouped(a + b, c, d + (e + (f + (g + h))));
    Grouped(a + b + c, d, e + (f + (g + h)));
    Grouped(a + b + c + d, e, f + (g + h));
    Grouped(a + b + c + d + e, f, g + h);
    Grouped(a + b + c + d + e + f, g, h);
  }

  lemma DropPrefix(p: Text, a: Text, b: Text)
    requires p + a == p + b
    ensures a == b
  {
    assert a == (p + a)[|p|..] && b == (p + b)[|p|..];
  }

  lemma OrderTextIsInjective(a: Checkpoint, b: Checkpoint)
    requires CheckpointOrder(a) == CheckpointOrder(b)
    ensures a.newestHash == b.newestHash && a.providerCursor == b.providerCursor
    ensures a.exhausted == b.exhausted && a.stopReason == b.stopReason
  {
    hide NullOr, TrueFalse, Quoted, ReasonName;
    var a8, b8 := Quoted(ReasonName(a.stopReason)) + Ascii("}"), Quoted(ReasonName(b.stopReason)) + Ascii("}");
    var a7, b7 := Ascii(",\"stopReason\":") + a8, Ascii(",\"stopReason\":") + b8;
    var a6, b6 := TrueFalse(a.exhausted) + a7, TrueFalse(b.exhausted) + b7;
    var a5, b5 := Ascii(",\"exhausted\":") + a6, Ascii(",\"exhausted\":") + b6;
    var a4, b4 := NullOr(a.providerCursor) + a5, NullOr(b.providerCursor) + b5;
    var a3, b3 := Ascii(",\"providerCursor\":") + a4, Ascii(",\"providerCursor\":") + b4;
    var a2, b2 := NullOr(a.newestHash) + a3, NullOr(b.newestHash) + b3;
    DropPrefix(Ascii("{\"newestHash\":"), a2, b2);
    NullOrIsInjective(a.newestHash, b.newestHash, a3, b3);
    DropPrefix(Ascii(",\"providerCursor\":"), a4, b4);
    NullOrIsInjective(a.providerCursor, b.providerCursor, a5, b5);
    DropPrefix(Ascii(",\"exhausted\":"), a6, b6);
    TrueFalseIsInjective(a.exhausted, b.exhausted, a7, b7);
    DropPrefix(Ascii(",\"stopReason\":"), a8, b8);
    QuotedIsInjective(ReasonName(a.stopReason), ReasonName(b.stopReason), Ascii("}"), Ascii("}"));
    ReasonNamesDiffer(a.stopReason, b.stopReason);
  }

  /** Made later; at one time of a later generation; and of one generation with the greater order text. */
  ghost predicate Newer(a: Checkpoint, b: Checkpoint) {
    || b.observedAt < a.observedAt
    || (b.observedAt == a.observedAt && b.generation < a.generation)
    || (b.observedAt == a.observedAt && b.generation == a.generation && Less(CheckpointOrder(b), CheckpointOrder(a)))
  }

  /** The comparison is positive exactly for the newer of two, and totally orders the checkpoints of one scope. */
  lemma CheckpointsAreTotallyOrdered(a: Checkpoint, b: Checkpoint, c: Checkpoint)
    requires CheckpointKey(a) == CheckpointKey(b) == CheckpointKey(c)
    ensures CompareCheckpoint(a, b) > 0 <==> Newer(a, b)
    ensures CompareCheckpoint(a, b) == 0 <==> a == b
    ensures CompareCheckpoint(a, b) > 0 <==> CompareCheckpoint(b, a) < 0
    ensures CompareCheckpoint(a, b) > 0 && CompareCheckpoint(b, c) > 0 ==> CompareCheckpoint(a, c) > 0
  {
    hide CheckpointOrder, CheckpointKey, Less;
    var x, y, z := CheckpointOrder(a), CheckpointOrder(b), CheckpointOrder(c);
    LessTrichotomy(x, y);
    LessTrichotomy(x, z);
    if Less(y, x) && Less(z, y) { LessTransitive(z, y, x); }
    if CompareCheckpoint(a, b) == 0 {
      CheckpointKeyIsInjective(a, b);
      OrderTextIsInjective(a, b);
    }
  }

  /** What a submission leaves under its own key. */
  function Advanced(prior: Option<Checkpoint>, c: Checkpoint): Checkpoint {
    if prior.None? || CompareCheckpoint(c, prior.value) > 0 then c else prior.value
  }

  function AdvancedAll(prior: Option<Checkpoint>, submitted: seq<Checkpoint>): Option<Checkpoint> {
    if submitted == [] then prior
    else Some(Advanced(AdvancedAll(prior, submitted[..|submitted| - 1]), submitted[|submitted| - 1]))
  }

  /** One of those submitted, and newer than every other. */
  ghost predicate IsGreatest(c: Checkpoint, submitted: set<Checkpoint>) {
    c in submitted && forall s :: s in submitted ==> s == c || Newer(c, s)
  }

  function Submitted(submitted: seq<Checkpoint>): (s: set<Checkpoint>)
    ensures forall c :: c in s <==> c in submitted
  {
    set c | c in submitted
  }

  lemma GreatestOfOneMore(prior: Checkpoint, seen: set<Checkpoint>, c: Checkpoint)
    requires IsGreatest(prior, seen) && forall s :: s in seen + {c} ==> CheckpointKey(s) == CheckpointKey(c)
    ensures IsGreatest(Advanced(Some(prior), c), seen + {c})
  {
    hide CompareCheckpoint, CheckpointKey, Newer;
    assert prior in seen + {c};
    var kept := Advanced(Some(prior), c);
    forall s | s in seen + {c} ensures s == kept || Newer(kept, s) {
      CheckpointsAreTotallyOrdered(c, prior, s);
      CheckpointsAreTotallyOrdered(prior, c, s);
      CheckpointsAreTotallyOrdered(prior, s, s);
      CheckpointsAreTotallyOrdered(s, prior, s);
      CheckpointsAreTotallyOrdered(c, s, s);
      CheckpointsAreTotallyOrdered(s, c, prior);
    }
  }

  /** After any submissions of one scope, the watermark is the greatest of them. */
  lemma {:induction false} WatermarkIsGreatest(submitted: seq<Checkpoint>)
    requires submitted != [] && forall s :: s in submitted ==> CheckpointKey(s) == CheckpointKey(submitted[0])
    ensures AdvancedAll(None, submitted).Some? && IsGreatest(AdvancedAll(None, submitted).value, Submitted(submitted))
    decreases |submitted|
  {
    hide CompareCheckpoint, CheckpointKey, Newer;
    var n := |submitted| - 1;
    var front, c := submitted[..n], submitted[n];
    assert submitted == front + [c];
    assert Submitted(submitted) == Submitted(front) + {c};
    assert c in submitted;
    if n == 0 {
      assert AdvancedAll(None, front) == None;
      CheckpointsAreTotallyOrdered(c, c, c);
      assert Submitted(submitted) == {c};
    } else {
      forall s | s in front ensures s in submitted {}
      WatermarkIsGreatest(front);
      GreatestOfOneMore(AdvancedAll(None, front).value, Submitted(front), c);
    }
  }

  /** The same submissions in any order, grouping or repetition leave the same watermark. */
  lemma WatermarksConverge(a: seq<Checkpoint>, b: seq<Checkpoint>)
    requires a != [] && Submitted(a) == Submitted(b) && forall s :: s in a ==> CheckpointKey(s) == CheckpointKey(a[0])
    ensures AdvancedAll(None, a) == AdvancedAll(None, b)
  {
    hide CompareCheckpoint, CheckpointKey, AdvancedAll, Submitted, Newer;
    assert a[0] in Submitted(a);
    assert forall s :: s in b ==> s in Submitted(b) && s in a;
    assert a[0] in b && b[0] in b;
    WatermarkIsGreatest(a);
    WatermarkIsGreatest(b);
    var x, y := AdvancedAll(None, a).value, AdvancedAll(None, b).value;
    assert x in Submitted(a) && y in Submitted(a);
    CheckpointsAreTotallyOrdered(x, y, x);
    CheckpointsAreTotallyOrdered(y, x, y);
  }
}
