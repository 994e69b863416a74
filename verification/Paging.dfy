/** The page loops of packages/market/src/catalog.ts and store.ts: rows after a key, within two budgets. */
module Paging {
  import opened Texts
  import opened Outcomes
  import opened Ordering

  /** `direction * compareText(a, b) < 0`. */
  predicate Comes(descending: bool, a: Text, b: Text) { if descending then Less(b, a) else Less(a, b) }

  ghost predicate InOrder<T>(rows: seq<T>, keyOf: T -> Text, descending: bool) {
    forall i, j :: 0 <= i < j < |rows| ==> Comes(descending, keyOf(rows[i]), keyOf(rows[j]))
  }

  datatype Paged<T> = Page(rows: seq<T>, bytes: nat, next: Option<Text>) | TooLarge

  /** What a reader asks of a page. */
  datatype Budget = Budget(limit: nat, maxBytes: nat)

  predicate Passed(descending: bool, key: Text, after: Option<Text>) {
    after.Some? && !Comes(descending, after.value, key)
  }

  /** The rows a cursor has not passed yet. */
  function Rest<T>(rows: seq<T>, keyOf: T -> Text, descending: bool, after: Option<Text>): seq<T> {
    if rows == [] then []
    else
      var n := |rows| - 1;
      Rest(rows[..n], keyOf, descending, after) + (if Passed(descending, keyOf(rows[n]), after) then [] else [rows[n]])
  }

  /** How many of the first rows fit the limit and what room is left. */
  function Fit<T>(rows: seq<T>, sizeOf: T -> nat, limit: nat, room: int): (n: nat)
    ensures n <= |rows| && n <= limit
  {
    if rows == [] || limit == 0 || sizeOf(rows[0]) > room then 0
    else 1 + Fit(rows[1..], sizeOf, limit - 1, room - sizeOf(rows[0]))
  }

  function Size<T>(rows: seq<T>, sizeOf: T -> nat): nat {
    if rows == [] then 0 else Size(rows[..|rows| - 1], sizeOf) + sizeOf(rows[|rows| - 1])
  }

  /** The page after a key: the longest run of remaining rows within both budgets. */
  function PageAfter<T>(
      rows: seq<T>, keyOf: T -> Text, sizeOf: T -> nat, descending: bool, after: Option<Text>,
      budget: Budget): Paged<T> {
    var rest := Rest(rows, keyOf, descending, after);
    var n := Fit(rest, sizeOf, budget.limit, budget.maxBytes - 2);
    if n == |rest| then Page(rest, 2 + Size(rest, sizeOf), None)
    else if n == 0 then TooLarge
    else Page(rest[..n], 2 + Size(rest[..n], sizeOf), Some(keyOf(rest[n - 1])))
  }

  lemma {:induction false} FitIsLongest<T>(rows: seq<T>, sizeOf: T -> nat, limit: nat, room: int, k: nat)
    requires k <= |rows|
    ensures k < Fit(rows, sizeOf, limit, room) ==> Size(rows[..k + 1], sizeOf) <= room && k < limit
    ensures k == Fit(rows, sizeOf, limit, room) && k < |rows| ==> k == limit || Size(rows[..k + 1], sizeOf) > room
    decreases |rows|
  {
    if rows != [] && limit > 0 && sizeOf(rows[0]) <= room {
      if k > 0 {
        FitIsLongest(rows[1..], sizeOf, limit - 1, room - sizeOf(rows[0]), k - 1);
        if k < |rows| { SizeFromFirst(rows[..k + 1], sizeOf); assert rows[..k + 1][1..] == rows[1..][..k]; }
      } else {
        assert rows[..1] == [rows[0]] && [rows[0]][..0] == [];
        OneSize(rows[0], sizeOf);
      }
    } else if rows != [] {
      OneSize(rows[0], sizeOf);
      assert rows[..1] == [rows[0]];
    }
  }

  lemma OneSize<T>(row: T, sizeOf: T -> nat)
    ensures Size([row], sizeOf) == sizeOf(row)
  {
    assert [row][..0] == [];
  }

  lemma SizeAppend<T>(rows: seq<T>, row: T, sizeOf: T -> nat)
    ensures Size(rows + [row], sizeOf) == Size(rows, sizeOf) + sizeOf(row)
  {
    assert (rows + [row])[..|rows|] == rows;
  }

  lemma {:induction false} SizeFromFirst<T>(rows: seq<T>, sizeOf: T -> nat)
    requires rows != []
    ensures Size(rows, sizeOf) == sizeOf(rows[0]) + Size(rows[1..], sizeOf)
    decreases |rows|
  {
    var n := |rows| - 1;
    if n == 0 {
      assert rows[1..] == [] && rows[..0] == [];
    } else {
      SizeFromFirst(rows[..n], sizeOf);
      assert rows[..n][1..] == rows[1..][..n - 1];
    }
  }

  lemma {:induction false} SizeGrows<T>(rows: seq<T>, sizeOf: T -> nat, k: nat)
    requires k <= |rows|
    ensures Size(rows[..k], sizeOf) <= Size(rows, sizeOf)
    decreases |rows|
  {
    if k < |rows| {
      SizeGrows(rows[..|rows| - 1], sizeOf, k);
      assert rows[..|rows| - 1][..k] == rows[..k];
    } else {
      assert rows[..k] == rows;
    }
  }

  lemma {:induction false} RestPrefix<T>(rows: seq<T>, keyOf: T -> Text, descending: bool, after: Option<Text>, n: nat)
    requires n <= |rows|
    ensures Rest(rows[..n], keyOf, descending, after) <= Rest(rows, keyOf, descending, after)
    decreases |rows|
  {
    hide Passed;
    if n == |rows| {
      assert rows[..n] == rows;
    } else {
      RestPrefix(rows[..|rows| - 1], keyOf, descending, after, n);
      assert rows[..|rows| - 1][..n] == rows[..n];
    }
  }

  /** Where a run of rows within the budgets cannot go on, the page ends. */
  lemma FitEndsAt<T>(rest: seq<T>, sizeOf: T -> nat, budget: Budget, k: nat)
    requires k <= |rest| && k <= budget.limit
    requires k > 0 ==> 2 + Size(rest[..k], sizeOf) <= budget.maxBytes
    requires k == |rest| || k == budget.limit || 2 + Size(rest[..k + 1], sizeOf) > budget.maxBytes
    ensures Fit(rest, sizeOf, budget.limit, budget.maxBytes - 2) == k
  {
    hide Fit;
    var n := Fit(rest, sizeOf, budget.limit, budget.maxBytes - 2);
    FitIsLongest(rest, sizeOf, budget.limit, budget.maxBytes - 2, n);
    FitIsLongest(rest, sizeOf, budget.limit, budget.maxBytes - 2, k);
    if n < k {
      assert rest[..k][..n + 1] == rest[..n + 1];
      SizeGrows(rest[..k], sizeOf, n + 1);
    }
  }

  /** The loop itself. */
  method ReadPage<T>(
      rows: seq<T>, keyOf: T -> Text, sizeOf: T -> nat, descending: bool, after: Option<Text>, budget: Budget)
    returns (r: Paged<T>)
    requires budget.limit >= 1
    ensures r == PageAfter(rows, keyOf, sizeOf, descending, after, budget)
  {
    hide *;
    var output: seq<T> := [];
    var bytes := 2;
    var last: Option<Text> := None;
    ghost var rest := Rest(rows, keyOf, descending, after);
    NoRows(keyOf, sizeOf, descending, after);
    assert rows[..0] == [];
    for n := 0 to |rows|
      invariant output == Rest(rows[..n], keyOf, descending, after)
      invariant bytes == 2 + Size(output, sizeOf)
      invariant output != [] ==>
        last == Some(keyOf(output[|output| - 1])) && |output| <= budget.limit && bytes <= budget.maxBytes
    {
      var row := rows[n];
      RestStep(rows, keyOf, descending, after, n);
      if Passed(descending, keyOf(row), after) { continue; }
      RestPrefix(rows, keyOf, descending, after, n + 1);
      SizeAppend(output, row, sizeOf);
      assert rest[..|output| + 1] == output + [row];
      assert rest[..|output|] == rest[..|output| + 1][..|output|] == output;
      if |output| >= budget.limit {
        PageEndsBefore(rows, keyOf, sizeOf, descending, after, budget, |output|);
        return Page(output, bytes, last);
      }
      if bytes + sizeOf(row) > budget.maxBytes {
        PageEndsBefore(rows, keyOf, sizeOf, descending, after, budget, |output|);
        if output == [] { return TooLarge; }
        return Page(output, bytes, last);
      }
      output := output + [row];
      bytes := bytes + sizeOf(row);
      last := Some(keyOf(row));
    }
    assert rows[..|rows|] == rows;
    PageIsLast(rows, keyOf, sizeOf, descending, after, budget);
    return Page(output, bytes, None);
  }

  lemma NoRows<T>(keyOf: T -> Text, sizeOf: T -> nat, descending: bool, after: Option<Text>)
    ensures Rest([], keyOf, descending, after) == [] && Size([], sizeOf) == 0
  {}

  lemma RestStep<T>(rows: seq<T>, keyOf: T -> Text, descending: bool, after: Option<Text>, n: nat)
    requires n < |rows|
    ensures Rest(rows[..n + 1], keyOf, descending, after)
         == Rest(rows[..n], keyOf, descending, after)
             + (if Passed(descending, keyOf(rows[n]), after) then [] else [rows[n]])
  {
    hide Passed;
    assert rows[..n + 1][..n] == rows[..n];
  }

  /** The page when the next row breaks a budget. */
  lemma PageEndsBefore<T>(
      rows: seq<T>, keyOf: T -> Text, sizeOf: T -> nat, descending: bool, after: Option<Text>, budget: Budget,
      k: nat)
    requires var rest := Rest(rows, keyOf, descending, after);
      && k < |rest| && k <= budget.limit
      && (k > 0 ==> 2 + Size(rest[..k], sizeOf) <= budget.maxBytes)
      && (k == budget.limit || 2 + Size(rest[..k + 1], sizeOf) > budget.maxBytes)
    ensures var rest := Rest(rows, keyOf, descending, after);
      PageAfter(rows, keyOf, sizeOf, descending, after, budget)
      == if k == 0 then TooLarge else Page(rest[..k], 2 + Size(rest[..k], sizeOf), Some(keyOf(rest[k - 1])))
  {
    hide *;
    FitEndsAt(Rest(rows, keyOf, descending, after), sizeOf, budget, k);
    PageOfFit(rows, keyOf, sizeOf, descending, after, budget, k);
  }

  lemma PageOfFit<T>(
      rows: seq<T>, keyOf: T -> Text, sizeOf: T -> nat, descending: bool, after: Option<Text>, budget: Budget,
      k: nat)
    requires var rest := Rest(rows, keyOf, descending, after);
      k < |rest| && Fit(rest, sizeOf, budget.limit, budget.maxBytes - 2) == k
    ensures var rest := Rest(rows, keyOf, descending, after);
      PageAfter(rows, keyOf, sizeOf, descending, after, budget)
      == if k == 0 then TooLarge else Page(rest[..k], 2 + Size(rest[..k], sizeOf), Some(keyOf(rest[k - 1])))
  {
    hide Fit, Size, Rest;
  }

  /** The page when every remaining row fits. */
  lemma PageIsLast<T>(
      rows: seq<T>, keyOf: T -> Text, sizeOf: T -> nat, descending: bool, after: Option<Text>, budget: Budget)
    requires var rest := Rest(rows, keyOf, descending, after);
      |rest| <= budget.limit && (rest != [] ==> 2 + Size(rest, sizeOf) <= budget.maxBytes)
    ensures var rest := Rest(rows, keyOf, descending, after);
      PageAfter(rows, keyOf, sizeOf, descending, after, budget) == Page(rest, 2 + Size(rest, sizeOf), None)
  {
    hide Fit, Size, Rest;
    var rest := Rest(rows, keyOf, descending, after);
    assert rest[..|rest|] == rest;
    FitEndsAt(rest, sizeOf, budget, |rest|);
  }

  // --------------------------------------------------- reading to the end

  lemma {:induction false} RestMembers<T>(rows: seq<T>, keyOf: T -> Text, descending: bool, after: Option<Text>)
    ensures |Rest(rows, keyOf, descending, after)| <= |rows|
    ensures after.None? ==> Rest(rows, keyOf, descending, after) == rows
    decreases |rows|
  {
    hide Comes;
    if rows != [] {
      RestMembers(rows[..|rows| - 1], keyOf, descending, after);
      assert rows == rows[..|rows| - 1] + [rows[|rows| - 1]];
    }
  }

  lemma ComesIsStrictOrder(descending: bool, a: Text, b: Text)
    ensures !Comes(descending, a, a)
    ensures !(Comes(descending, a, b) && Comes(descending, b, a))
  {
    hide Less;
    LessTrichotomy(a, a);
    LessTrichotomy(a, b);
  }

  /** Following a key that stands at place `m - 1` leaves exactly the rows from `m` on. */
  lemma {:induction false} RestFromPlace<T>(rows: seq<T>, keyOf: T -> Text, descending: bool, key: Text, m: nat)
    requires InOrder(rows, keyOf, descending) && 0 < m <= |rows| && keyOf(rows[m - 1]) == key
    ensures Rest(rows, keyOf, descending, Some(key)) == rows[m..]
    decreases |rows|
  {
    hide Comes;
    var n := |rows| - 1;
    ComesIsStrictOrder(descending, key, key);
    if m <= n {
      RestFromPlace(rows[..n], keyOf, descending, key, m);
      assert rows[m..] == rows[..n][m..] + [rows[n]];
    } else {
      AllPassed(rows[..n], keyOf, descending, key, rows[n]);
    }
  }

  lemma {:induction false} AllPassed<T>(rows: seq<T>, keyOf: T -> Text, descending: bool, key: Text, last: T)
    requires forall i :: 0 <= i < |rows| ==> Comes(descending, keyOf(rows[i]), key)
    ensures Rest(rows, keyOf, descending, Some(key)) == []
    decreases |rows|
  {
    hide Comes;
    if rows != [] {
      var n := |rows| - 1;
      AllPassed(rows[..n], keyOf, descending, key, last);
      ComesIsStrictOrder(descending, key, keyOf(rows[n]));
    }
  }

  /** The place up to which a reader holding this cursor has read. */
  ghost predicate At<T>(rows: seq<T>, keyOf: T -> Text, after: Option<Text>, m: nat) {
    m <= |rows| && if after.None? then m == 0 else m > 0 && keyOf(rows[m - 1]) == after.value
  }

  /** A page starts where the last one ended and leaves a cursor for where it ends. */
  lemma PageMovesOn<T>(
      rows: seq<T>, keyOf: T -> Text, sizeOf: T -> nat, descending: bool, after: Option<Text>, budget: Budget,
      m: nat)
    requires InOrder(rows, keyOf, descending) && At(rows, keyOf, after, m) && budget.limit >= 1
    ensures var p := PageAfter(rows, keyOf, sizeOf, descending, after, budget);
      p.Page? ==>
        && m + |p.rows| <= |rows| && p.rows == rows[m..m + |p.rows|]
        && (p.next.None? <==> m + |p.rows| == |rows|)
        && (p.next.Some? ==> |p.rows| > 0 && At(rows, keyOf, p.next, m + |p.rows|))
        && |p.rows| <= budget.limit && (p.rows != [] ==> p.bytes <= budget.maxBytes)
        && p.bytes == 2 + Size(p.rows, sizeOf)
    ensures PageAfter(rows, keyOf, sizeOf, descending, after, budget).TooLarge? <==>
      m < |rows| && sizeOf(rows[m]) + 2 > budget.maxBytes
  {
    hide InOrder, Rest, Fit, Size;
    RestMembers(rows, keyOf, descending, after);
    if after.Some? { RestFromPlace(rows, keyOf, descending, after.value, m); }
    var rest := Rest(rows, keyOf, descending, after);
    assert rest == rows[m..];
    var n := Fit(rest, sizeOf, budget.limit, budget.maxBytes - 2);
    if n > 0 {
      FitIsLongest(rest, sizeOf, budget.limit, budget.maxBytes - 2, n - 1);
      assert rest[..n - 1 + 1] == rest[..n];
    }
    if n == |rest| { assert rest[..n] == rest; }
    if m < |rows| {
      assert rest[..1] == [rows[m]];
      OneSize(rows[m], sizeOf);
      FitIsLongest(rest, sizeOf, budget.limit, budget.maxBytes - 2, 0);
    }
  }

  /** Reading on from a cursor until no page follows. */
  function ReadOn<T>(
      rows: seq<T>, keyOf: T -> Text, sizeOf: T -> nat, descending: bool, after: Option<Text>,
      budget: Budget): Option<seq<T>>
    decreases |Rest(rows, keyOf, descending, after)|
  {
    match PageAfter(rows, keyOf, sizeOf, descending, after, budget)
    case TooLarge => None
    case Page(page, _, next) =>
      if next.None? then Some(page)
      else if |Rest(rows, keyOf, descending, next)| < |Rest(rows, keyOf, descending, after)| then
        var more := ReadOn(rows, keyOf, sizeOf, descending, next, budget);
        if more.None? then None else Some(page + more.value)
      else None
  }

  lemma RestShrinks<T>(rows: seq<T>, keyOf: T -> Text, descending: bool, after: Option<Text>, m: nat)
    requires InOrder(rows, keyOf, descending) && At(rows, keyOf, after, m)
    ensures Rest(rows, keyOf, descending, after) == rows[m..]
  {
    hide InOrder, Rest;
    RestMembers(rows, keyOf, descending, after);
    if after.Some? { RestFromPlace(rows, keyOf, descending, after.value, m); }
  }

  lemma {:induction false} ReadingOnIsExact<T>(
      rows: seq<T>, keyOf: T -> Text, sizeOf: T -> nat, descending: bool, after: Option<Text>, budget: Budget,
      m: nat)
    requires InOrder(rows, keyOf, descending) && At(rows, keyOf, after, m) && budget.limit >= 1
    ensures var read := ReadOn(rows, keyOf, sizeOf, descending, after, budget);
      && (read.Some? ==> read.value == rows[m..])
      && (read.Some? <==> forall i :: m <= i < |rows| ==> sizeOf(rows[i]) + 2 <= budget.maxBytes)
    decreases |rows| - m
  {
    hide InOrder, Rest, PageAfter, At, Size;
    PageMovesOn(rows, keyOf, sizeOf, descending, after, budget, m);
    var p := PageAfter(rows, keyOf, sizeOf, descending, after, budget);
    if p.Page? {
      var n := m + |p.rows|;
      forall i | m <= i < n ensures sizeOf(rows[i]) + 2 <= budget.maxBytes {
        assert p.rows[i - m] == rows[i];
        OneRowFits(p.rows, sizeOf, i - m);
      }
      if p.next.Some? {
        RestShrinks(rows, keyOf, descending, after, m);
        RestShrinks(rows, keyOf, descending, p.next, n);
        ReadingOnIsExact(rows, keyOf, sizeOf, descending, p.next, budget, n);
        assert rows[m..] == rows[m..n] + rows[n..];
      }
    }
  }

  lemma {:induction false} OneRowFits<T>(rows: seq<T>, sizeOf: T -> nat, i: nat)
    requires i < |rows|
    ensures sizeOf(rows[i]) <= Size(rows, sizeOf)
    decreases |rows|
  {
    if i < |rows| - 1 { OneRowFits(rows[..|rows| - 1], sizeOf, i); }
  }

  /**
   * On one snapshot, following the cursors from the first page ends, and the pages laid end to
   * end are the rows, each once and in order, exactly when no single row is above the budget.
   */
  lemma PagesEnumerateExactly<T>(rows: seq<T>, keyOf: T -> Text, sizeOf: T -> nat, descending: bool, budget: Budget)
    requires InOrder(rows, keyOf, descending) && budget.limit >= 1
    ensures ReadOn(rows, keyOf, sizeOf, descending, None, budget) == Some(rows)
       <==> forall i :: 0 <= i < |rows| ==> sizeOf(rows[i]) + 2 <= budget.maxBytes
    ensures ReadOn(rows, keyOf, sizeOf, descending, None, budget).Some?
        ==> ReadOn(rows, keyOf, sizeOf, descending, None, budget) == Some(rows)
  {
    hide InOrder, ReadOn;
    ReadingOnIsExact(rows, keyOf, sizeOf, descending, None, budget, 0);
    assert rows[0..] == rows;
  }

  // ------------------------------------------- reading while others write

  /** Page `i` was read from snapshot `i` with the cursor page `i - 1` left, under its own budget. */
  ghost predicate IsReading<T>(
      snapshots: seq<seq<T>>, pages: seq<Paged<T>>, budgets: seq<Budget>, keyOf: T -> Text, sizeOf: T -> nat,
      descending: bool) {
    && |snapshots| == |pages| == |budgets|
    && (forall i :: 0 <= i < |pages| ==>
          && budgets[i].limit >= 1 && pages[i].Page?
          && pages[i] == PageAfter(snapshots[i], keyOf, sizeOf, descending, CursorBefore(pages, i), budgets[i]))
    && (forall i :: 0 <= i < |pages| - 1 ==> pages[i].Page? && pages[i].next.Some?)
  }

  function CursorBefore<T>(pages: seq<Paged<T>>, i: nat): Option<Text>
    requires i <= |pages|
  {
    if i == 0 || pages[i - 1].TooLarge? then None else pages[i - 1].next
  }

  /** The keys of the rows read in the first `n` pages. */
  function KeysRead<T>(pages: seq<Paged<T>>, keyOf: T -> Text, n: nat): seq<Text>
    requires n <= |pages|
  {
    if n == 0 then []
    else KeysRead(pages, keyOf, n - 1) + (if pages[n - 1].Page? then KeyList(pages[n - 1].rows, keyOf) else [])
  }

  ghost predicate AtKey(keys: seq<Text>, after: Option<Text>, m: nat) {
    m <= |keys| && if after.None? then m == 0 else m > 0 && keys[m - 1] == after.value
  }

  lemma PageMovesOnByKey<T>(
      rows: seq<T>, keys: seq<Text>, keyOf: T -> Text, sizeOf: T -> nat, descending: bool, after: Option<Text>,
      budget: Budget, m: nat)
    requires InOrder(rows, keyOf, descending) && KeyList(rows, keyOf) == keys && AtKey(keys, after, m) &&
      budget.limit >= 1
    requires PageAfter(rows, keyOf, sizeOf, descending, after, budget).Page?
    ensures var p := PageAfter(rows, keyOf, sizeOf, descending, after, budget);
      && m + |p.rows| <= |keys| && KeyList(p.rows, keyOf) == keys[m..m + |p.rows|]
      && (p.next.None? <==> m + |p.rows| == |keys|)
      && (p.next.Some? ==> |p.rows| > 0 && AtKey(keys, p.next, m + |p.rows|))
  {
    hide InOrder, PageAfter, Size;
    assert forall i :: 0 <= i < |rows| ==> keys[i] == keyOf(rows[i]);
    PageMovesOn(rows, keyOf, sizeOf, descending, after, budget, m);
  }

  /** After `n` pages a reader has read some first stretch of the keys, and holds its end. */
  lemma {:induction false} ReadingIsAPrefix<T>(
      snapshots: seq<seq<T>>, pages: seq<Paged<T>>, budgets: seq<Budget>, keys: seq<Text>, keyOf: T -> Text,
      sizeOf: T -> nat, descending: bool, n: nat)
    requires IsReading(snapshots, pages, budgets, keyOf, sizeOf, descending) && 0 < n <= |pages|
    requires forall i :: 0 <= i < |snapshots| ==>
      InOrder(snapshots[i], keyOf, descending) && KeyList(snapshots[i], keyOf) == keys
    ensures var read := KeysRead(pages, keyOf, n);
      && n - 1 <= |read| <= |keys| && read == keys[..|read|]
      && (pages[n - 1].next.None? <==> |read| == |keys|)
      && (pages[n - 1].next.Some? ==> n <= |read| && AtKey(keys, pages[n - 1].next, |read|))
    decreases n
  {
    hide InOrder, PageAfter, KeyList;
    var before := KeysRead(pages, keyOf, n - 1);
    if n > 1 { ReadingIsAPrefix(snapshots, pages, budgets, keys, keyOf, sizeOf, descending, n - 1); }
    PageMovesOnByKey(snapshots[n - 1], keys, keyOf, sizeOf, descending, CursorBefore(pages, n - 1), budgets[n - 1],
        |before|);
    assert keys[..|before|] + keys[|before|..|before| + |pages[n - 1].rows|] == keys[..|before| + |pages[n - 1].rows|];
  }

  /**
   * A reading that went through reads every key of the snapshot once and in order, in at most
   * as many pages as there are keys (or one), even if each page came from another snapshot
   * with the same keys.
   */
  lemma ReadingIsExact<T>(
      snapshots: seq<seq<T>>, pages: seq<Paged<T>>, budgets: seq<Budget>, keys: seq<Text>, keyOf: T -> Text,
      sizeOf: T -> nat, descending: bool)
    requires IsReading(snapshots, pages, budgets, keyOf, sizeOf, descending) && pages != []
    requires forall i :: 0 <= i < |snapshots| ==>
      InOrder(snapshots[i], keyOf, descending) && KeyList(snapshots[i], keyOf) == keys
    ensures pages[|pages| - 1].next.None? <==> KeysRead(pages, keyOf, |pages|) == keys
    ensures KeysRead(pages, keyOf, |pages|) <= keys && |pages| <= |keys| + 1
  {
    hide InOrder, PageAfter, KeyList, IsReading, KeysRead;
    ReadingIsAPrefix(snapshots, pages, budgets, keys, keyOf, sizeOf, descending, |pages|);
    assert keys[..|keys|] == keys;
  }
}
