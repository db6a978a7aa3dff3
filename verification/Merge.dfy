/**
 * The read-back loop of `DumpDigested` (ParseUserLog/Program.cs): rows of
 * the DIGESTED table arrive in query order; of every maximal run of
 * consecutive rows sharing `AllCards`, only the first row with the greatest
 * average rank is written.
 */
module Merge {
  import opened Wrappers
  import opened Digests
  import Ordinal

  /* ---------------- Runs ---------------- */

  /** End (exclusive) of the maximal run of rows sharing `rows[i].AllCards()`; see `RunEndSpec`. */
  function RunEnd(rows: seq<Digested>, i: nat): (j: nat)
    requires i < |rows|
    ensures i < j <= |rows|
    decreases |rows| - i
  {
    if i + 1 == |rows| || rows[i + 1].AllCards() != rows[i].AllCards() then i + 1
    else RunEnd(rows, i + 1)
  }

  /** The run from `i` to `RunEnd(rows, i)` shares one `AllCards` and cannot be extended. */
  lemma RunEndSpec(rows: seq<Digested>, i: nat)
    requires i < |rows|
    ensures forall k :: i <= k < RunEnd(rows, i) ==> rows[k].AllCards() == rows[i].AllCards()
    ensures RunEnd(rows, i) < |rows| ==> rows[RunEnd(rows, i)].AllCards() != rows[i].AllCards()
  {
    forall k | i <= k < RunEnd(rows, i) {
      WithinRun(rows, i, k);
    }
    RunBreaks(rows, i);
  }

  /** A row before `RunEnd(rows, i)` has the `AllCards` of `rows[i]`. */
  lemma {:induction false} WithinRun(rows: seq<Digested>, i: nat, k: nat)
    requires i <= k < |rows|
    ensures k < RunEnd(rows, i) ==> rows[k].AllCards() == rows[i].AllCards()
    decreases k - i
  {
    if i < k < RunEnd(rows, i) {
      WithinRun(rows, i + 1, k);
    }
  }

  /** The row at `RunEnd(rows, i)`, if any, has another `AllCards` than `rows[i]`. */
  lemma {:induction false} RunBreaks(rows: seq<Digested>, i: nat)
    requires i < |rows|
    ensures RunEnd(rows, i) < |rows| ==> rows[RunEnd(rows, i)].AllCards() != rows[i].AllCards()
    decreases |rows| - i
  {
    if !(i + 1 == |rows| || rows[i + 1].AllCards() != rows[i].AllCards()) {
      RunBreaks(rows, i + 1);
    }
  }

  /** Number of places after `i` where `AllCards` changes from one row to the next. */
  function Changes(rows: seq<Digested>, i: nat): nat
    decreases |rows| - i
  {
    if i + 1 >= |rows| then 0
    else (if rows[i + 1].AllCards() != rows[i].AllCards() then 1 else 0) + Changes(rows, i + 1)
  }

  /** The changes after `i` are the one closing the run of `rows[i]`, if any, and those after it. */
  lemma {:induction false} ChangesAfterRun(rows: seq<Digested>, i: nat)
    requires i < |rows|
    ensures Changes(rows, i) == if RunEnd(rows, i) < |rows| then 1 + Changes(rows, RunEnd(rows, i)) else 0
    decreases |rows| - i
  {
    if !(i + 1 == |rows| || rows[i + 1].AllCards() != rows[i].AllCards()) {
      ChangesAfterRun(rows, i + 1);
    }
  }

  /* ---------------- Best row of a range ---------------- */

  /** `rows[b]` has the greatest average rank of `rows[lo..hi]`, and every earlier row there is strictly lower. */
  predicate IsBest(rows: seq<Digested>, lo: nat, hi: nat, b: nat)
  {
    && lo <= b < hi <= |rows|
    && (forall k :: lo <= k < hi ==> rows[k].averageRank <= rows[b].averageRank)
    && (forall k :: lo <= k < b ==> rows[k].averageRank < rows[b].averageRank)
  }

  /** Index of the first row of `rows[lo..hi]` with the greatest average rank; see `BestSpec`. */
  function Best(rows: seq<Digested>, lo: nat, hi: nat): (b: nat)
    requires lo < hi <= |rows|
    ensures lo <= b < hi
    decreases hi - lo
  {
    if hi == lo + 1 then lo
    else
      var b := Best(rows, lo, hi - 1);
      if rows[b].averageRank < rows[hi - 1].averageRank then hi - 1 else b
  }

  /** `Best` is the first row with the greatest average rank. */
  lemma {:induction false} BestSpec(rows: seq<Digested>, lo: nat, hi: nat)
    requires lo < hi <= |rows|
    ensures IsBest(rows, lo, hi, Best(rows, lo, hi))
    decreases hi - lo
  {
    if hi > lo + 1 {
      BestSpec(rows, lo, hi - 1);
    }
  }

  /** A range has only one first best row. */
  lemma IsBestUnique(rows: seq<Digested>, lo: nat, hi: nat, b1: nat, b2: nat)
    requires IsBest(rows, lo, hi, b1) && IsBest(rows, lo, hi, b2)
    ensures b1 == b2
  {
    assert rows[b1].averageRank <= rows[b2].averageRank && rows[b2].averageRank <= rows[b1].averageRank;
  }

  /** Reading one more row keeps the first best row unless the new row is strictly better. */
  lemma ExtendBest(rows: seq<Digested>, lo: nat, hi: nat, b: nat)
    requires hi < |rows| && IsBest(rows, lo, hi, b)
    ensures IsBest(rows, lo, hi + 1, if rows[b].averageRank < rows[hi].averageRank then hi else b)
  {
  }

  /* ---------------- What the merge writes ---------------- */

  /** The rows the merge writes for `rows[i..]`: one per maximal run, the run's first best row. */
  function Collapse(rows: seq<Digested>, i: nat): (r: seq<Digested>)
    requires i <= |rows|
    ensures |r| <= |rows| - i
    ensures |r| == 0 <==> i == |rows|
    decreases |rows| - i
  {
    if i == |rows| then []
    else [rows[Best(rows, i, RunEnd(rows, i))]] + Collapse(rows, RunEnd(rows, i))
  }

  /**
   * What the merge holds after reading `rows[..i]`: `written` followed by
   * the rows due from the current run on is the whole output, and `last`
   * is the best row read so far of the current run, which starts at
   * `start`.
   */
  ghost predicate Reading(rows: seq<Digested>, i: nat, last: Option<Digested>, written: seq<Digested>, start: nat, best: nat)
  {
    && start <= i <= |rows|
    && (last.None? <==> i == 0)
    && written + Collapse(rows, start) == Collapse(rows, 0)
    && (last.Some? ==> start < i <= RunEnd(rows, start) && IsBest(rows, start, i, best) && last.value == rows[best])
  }

  /**
   * `DumpDigested`: `last` holds the row to write for the current run; it
   * is written when a row with another `AllCards` arrives and once more
   * after the last row.
   */
  method DumpDigested(rows: seq<Digested>) returns (written: seq<Digested>)
    ensures written == Collapse(rows, 0)
  {
    written := [];
    var last: Option<Digested> := None;
    ghost var start: nat := 0;
    ghost var best: nat := 0;
    for i := 0 to |rows|
      invariant Reading(rows, i, last, written, start, best)
    {
      last, written, start, best := Consider(rows, i, last, written, start, best);
    }
    if last.Some? {
      LastRun(rows, start, best);
      written := written + [last.value];
    } else {
      assert Collapse(rows, start) == [];
    }
  }

  /** One pass of the loop of `DumpDigested`, reading `rows[i]`. */
  method Consider(rows: seq<Digested>, i: nat, last: Option<Digested>, written: seq<Digested>, ghost start: nat, ghost best: nat)
    returns (last': Option<Digested>, written': seq<Digested>, ghost start': nat, ghost best': nat)
    requires i < |rows| && Reading(rows, i, last, written, start, best)
    ensures Reading(rows, i + 1, last', written', start', best')
  {
    var digested := rows[i];
    last', written', start', best' := last, written, start, best;
    if last.None? {
      FirstRow(rows, written, start, best);
      last', best' := Some(digested), i;
    } else if last.value.AllCards() != digested.AllCards() {
      CloseRun(rows, i, last, written, start, best);
      written' := written + [last.value];
      start' := i;
      last', best' := Some(digested), i;
    } else {
      ExtendRun(rows, i, last, written, start, best);
      if last.value.averageRank < digested.averageRank {
        last', best' := Some(digested), i;
      }
    }
  }

  /** Every row of a run, in particular its best row, carries the run's `AllCards`. */
  lemma BestInRun(rows: seq<Digested>, start: nat, i: nat, best: nat)
    requires start < i <= |rows| && i <= RunEnd(rows, start) && IsBest(rows, start, i, best)
    ensures rows[best].AllCards() == rows[start].AllCards()
  {
    WithinRun(rows, start, best);
  }

  /** The first row read opens the first run. */
  lemma FirstRow(rows: seq<Digested>, written: seq<Digested>, start: nat, best: nat)
    requires 0 < |rows| && Reading(rows, 0, None, written, start, best)
    ensures Reading(rows, 1, Some(rows[0]), written, start, 0)
  {
  }

  /** A row with another `AllCards` than the run's best row ends the run: the best row is written and a new run starts. */
  lemma CloseRun(rows: seq<Digested>, i: nat, last: Option<Digested>, written: seq<Digested>, start: nat, best: nat)
    requires i < |rows| && Reading(rows, i, last, written, start, best)
    requires last.Some? && last.value.AllCards() != rows[i].AllCards()
    ensures Reading(rows, i + 1, Some(rows[i]), written + [last.value], i, i)
  {
    BestInRun(rows, start, i, best);
    WithinRun(rows, start, i);
    BestSpec(rows, start, i);
    IsBestUnique(rows, start, i, best, Best(rows, start, i));
    assert Collapse(rows, start) == [rows[best]] + Collapse(rows, i);
    assert written + [last.value] + Collapse(rows, i) == written + Collapse(rows, start);
  }

  /** A row with the run's `AllCards` extends the run and replaces the best row only when strictly better. */
  lemma ExtendRun(rows: seq<Digested>, i: nat, last: Option<Digested>, written: seq<Digested>, start: nat, best: nat)
    requires i < |rows| && Reading(rows, i, last, written, start, best)
    requires last.Some? && last.value.AllCards() == rows[i].AllCards()
    ensures last.value.averageRank < rows[i].averageRank ==> Reading(rows, i + 1, Some(rows[i]), written, start, i)
    ensures !(last.value.averageRank < rows[i].averageRank) ==> Reading(rows, i + 1, last, written, start, best)
  {
    BestInRun(rows, start, i, best);
    RunBreaks(rows, start);
    ExtendBest(rows, start, i, best);
  }

  /** The run that reaches the last row is written as the final row. */
  lemma LastRun(rows: seq<Digested>, start: nat, best: nat)
    requires start < |rows| == RunEnd(rows, start) && IsBest(rows, start, |rows|, best)
    ensures Collapse(rows, start) == [rows[best]]
  {
    BestSpec(rows, start, |rows|);
    IsBestUnique(rows, start, |rows|, best, Best(rows, start, |rows|));
  }

  /* ---------------- Properties of the output ---------------- */

  /** The first row written for `rows[i..]` carries the `AllCards` of `rows[i]`. */
  lemma CollapseHead(rows: seq<Digested>, i: nat)
    requires i < |rows|
    ensures Collapse(rows, i)[0].AllCards() == rows[i].AllCards()
  {
    WithinRun(rows, i, Best(rows, i, RunEnd(rows, i)));
  }

  /** Exactly one row is written per maximal run: one more than the number of changes of `AllCards`. */
  lemma {:induction false} CollapseCountsRuns(rows: seq<Digested>, i: nat)
    requires i < |rows|
    ensures |Collapse(rows, i)| == 1 + Changes(rows, i)
    decreases |rows| - i
  {
    ChangesAfterRun(rows, i);
    if RunEnd(rows, i) < |rows| {
      CollapseCountsRuns(rows, RunEnd(rows, i));
    }
  }

  /** Every written row is an input row, and no input row is written twice. */
  lemma {:induction false} CollapseFromInput(rows: seq<Digested>, i: nat)
    requires i <= |rows|
    ensures multiset(Collapse(rows, i)) <= multiset(rows[i..])
    decreases |rows| - i
  {
    if i < |rows| {
      var e := RunEnd(rows, i);
      var b := Best(rows, i, e);
      CollapseFromInput(rows, e);
      PickOne(rows[b], Collapse(rows, e), rows, i, b, e);
    }
  }

  /** An element of `s[lo..m]` in front of a sub-multiset of `s[m..]` gives a sub-multiset of `s[lo..]`. */
  lemma PickOne<T>(x: T, c: seq<T>, s: seq<T>, lo: nat, j: nat, m: nat)
    requires lo <= j < m <= |s| && s[j] == x && multiset(c) <= multiset(s[m..])
    ensures multiset([x] + c) <= multiset(s[lo..])
  {
    assert s[lo..] == s[lo..m] + s[m..];
    assert s[lo..m][j - lo] == x;
    assert x in multiset(s[lo..m]);
    assert multiset([x] + c) == multiset{x} + multiset(c);
  }

  /** Two consecutive written rows never share `AllCards`. */
  lemma {:induction false} CollapseNeighboursDiffer(rows: seq<Digested>, i: nat)
    requires i <= |rows|
    ensures forall p :: 0 <= p < |Collapse(rows, i)| - 1 ==> Collapse(rows, i)[p + 1].AllCards() != Collapse(rows, i)[p].AllCards()
    decreases |rows| - i
  {
    if i < |rows| {
      var e := RunEnd(rows, i);
      var c := Collapse(rows, i);
      CollapseNeighboursDiffer(rows, e);
      CollapseHead(rows, i);
      if e < |rows| {
        CollapseHead(rows, e);
        RunBreaks(rows, i);
      }
      assert forall p :: 1 <= p < |c| ==> c[p] == Collapse(rows, e)[p - 1];
    }
  }

  /** Some row of `written` has the `AllCards` of `d` and an average rank at least as high. */
  ghost predicate Covers(written: seq<Digested>, d: Digested)
  {
    exists p :: 0 <= p < |written| && written[p].AllCards() == d.AllCards() && d.averageRank <= written[p].averageRank
  }

  /**
   * Nothing read is lost to a better row of another situation: every input
   * row has a written row with the same `AllCards` and an average rank at
   * least as high.
   */
  lemma CollapseDominates(rows: seq<Digested>, i: nat)
    requires i <= |rows|
    ensures forall k :: i <= k < |rows| ==> Covers(Collapse(rows, i), rows[k])
  {
    forall k | i <= k < |rows| {
      DominatedAt(rows, i, k);
    }
  }

  /** The written row dominating `rows[k]`, found run by run. */
  lemma {:induction false} DominatedAt(rows: seq<Digested>, i: nat, k: nat)
    requires i <= k < |rows|
    ensures Covers(Collapse(rows, i), rows[k])
    decreases |rows| - i
  {
    var e := RunEnd(rows, i);
    var c := Collapse(rows, i);
    if k < e {
      WithinRun(rows, i, k);
      CollapseHead(rows, i);
      BestSpec(rows, i, e);
      assert c[0].AllCards() == rows[k].AllCards() && rows[k].averageRank <= c[0].averageRank;
    } else {
      DominatedAt(rows, e, k);
      var p :| 0 <= p < |Collapse(rows, e)| && Collapse(rows, e)[p].AllCards() == rows[k].AllCards() &&
               rows[k].averageRank <= Collapse(rows, e)[p].averageRank;
      assert c[p + 1] == Collapse(rows, e)[p];
    }
  }

  /* ---------------- Query order ---------------- */

  /** The `AllCards` of the `n`-th row. */
  function Key(rows: seq<Digested>, n: nat): string
    requires n < |rows|
  {
    rows[n].AllCards()
  }

  /** Rows sharing `AllCards` are consecutive. */
  ghost predicate Grouped(rows: seq<Digested>)
  {
    forall i, j, k :: 0 <= i < j < k < |rows| && Key(rows, k) == Key(rows, i) ==> Key(rows, j) == Key(rows, i)
  }

  /** `ORDER BY LEN([BOARD]) ASC, [CARDS] ASC, [BOARD] ASC`, with strings in ordinal order. */
  predicate QueryLe(a: Digested, b: Digested)
  {
    || |a.board| < |b.board|
    || (|a.board| == |b.board| && a.cards != b.cards && Ordinal.Le(a.cards, b.cards))
    || (|a.board| == |b.board| && a.cards == b.cards && Ordinal.Le(a.board, b.board))
  }

  /** The rows come in query order. */
  ghost predicate QueryOrdered(rows: seq<Digested>)
  {
    forall i, j :: 0 <= i < j < |rows| ==> QueryLe(rows[i], rows[j])
  }

  /** A row between two rows with the same `;`-free hole cards and board, in query order, has them too. */
  lemma QueryBetween(a: Digested, b: Digested, c: Digested)
    requires ';' !in a.cards && ';' !in c.cards
    requires c.AllCards() == a.AllCards()
    requires QueryLe(a, b) && QueryLe(b, c)
    ensures b.AllCards() == a.AllCards()
  {
    AllCardsEqualIff(a, c);
    if Ordinal.Le(a.cards, b.cards) && Ordinal.Le(b.cards, a.cards) {
      Ordinal.LeAntisymmetric(a.cards, b.cards);
    }
    if Ordinal.Le(a.board, b.board) && Ordinal.Le(b.board, a.board) {
      Ordinal.LeAntisymmetric(a.board, b.board);
    }
  }

  /** The query's order keeps rows sharing `AllCards` together, so every situation is one run. */
  lemma QueryOrderGroups(rows: seq<Digested>)
    requires forall k :: 0 <= k < |rows| ==> ';' !in rows[k].cards
    requires QueryOrdered(rows)
    ensures Grouped(rows)
  {
    forall i, j, k | 0 <= i < j < k < |rows| && Key(rows, k) == Key(rows, i)
      ensures Key(rows, j) == Key(rows, i)
    {
      QueryBetween(rows[i], rows[j], rows[k]);
    }
  }

  /** The `p`-th row written for `rows[i..]` is an input row at or after `i`. */
  lemma {:induction false} WrittenFrom(rows: seq<Digested>, i: nat, p: nat)
    requires i <= |rows| && p < |Collapse(rows, i)|
    ensures exists k :: i <= k < |rows| && Collapse(rows, i)[p] == rows[k]
    decreases |rows| - i
  {
    var e := RunEnd(rows, i);
    if p == 0 {
      assert Collapse(rows, i)[0] == rows[Best(rows, i, e)];
    } else {
      WrittenFrom(rows, e, p - 1);
      assert Collapse(rows, i)[p] == Collapse(rows, e)[p - 1];
    }
  }

  /** `Grouped` at one triple of rows. */
  lemma GroupedAt(rows: seq<Digested>, i: nat, j: nat, k: nat)
    requires Grouped(rows) && i < j < k < |rows|
    ensures rows[k].AllCards() == rows[i].AllCards() ==> rows[j].AllCards() == rows[i].AllCards()
  {
    assert Key(rows, k) == Key(rows, i) ==> Key(rows, j) == Key(rows, i);
  }

  /** On grouped rows no two written rows share `AllCards`: one row per situation. */
  lemma {:induction false} CollapseDistinctWhenGrouped(rows: seq<Digested>, i: nat)
    requires Grouped(rows) && i <= |rows|
    ensures forall p, q :: 0 <= p < q < |Collapse(rows, i)| ==> Collapse(rows, i)[q].AllCards() != Collapse(rows, i)[p].AllCards()
    decreases |rows| - i
  {
    if i < |rows| {
      var e := RunEnd(rows, i);
      var c := Collapse(rows, i);
      CollapseDistinctWhenGrouped(rows, e);
      CollapseHead(rows, i);
      RunBreaks(rows, i);
      forall q | 1 <= q < |c|
        ensures c[q].AllCards() != c[0].AllCards()
      {
        WrittenFrom(rows, e, q - 1);
        var k :| e <= k < |rows| && Collapse(rows, e)[q - 1] == rows[k];
        assert c[q] == rows[k];
        if e < k {
          GroupedAt(rows, i, e, k);
        }
      }
      assert forall p :: 1 <= p < |c| ==> c[p] == Collapse(rows, e)[p - 1];
    }
  }
}
