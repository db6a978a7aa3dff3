/**
 * ParseUserLog/LoadParsedCSV.py: the decision table built from the dumped
 * rows, keyed by `Cards;Board`, and its lookup.
 */
module Decisions {
  import opened Wrappers
  import opened CardKeys
  import CardSort
  import opened Digests
  import Merge

  /** One parsed CSV row; only the three columns the table uses. */
  datatype ParsedRow = ParsedRow(cards: string, board: string, action: string)

  /** `row['Cards'] + ';' + row['Board']`. */
  function RowKey(row: ParsedRow): string
  {
    AllCardsKey(row.cards, row.board)
  }

  /**
   * `decision_from_parsed`: the comprehension visits the rows in order, so
   * a later row with the same key overwrites an earlier one.
   */
  function DecisionFromParsed(parsed: seq<ParsedRow>): map<string, string>
  {
    if parsed == [] then map[]
    else DecisionFromParsed(parsed[..|parsed| - 1])[RowKey(parsed[|parsed| - 1]) := parsed[|parsed| - 1].action]
  }

  /** Index of the last row with key `k`, if any. */
  function LastRowWith(parsed: seq<ParsedRow>, k: string): (r: Option<nat>)
    ensures r.Some? ==> r.value < |parsed| && RowKey(parsed[r.value]) == k
    ensures r.Some? ==> forall j :: r.value < j < |parsed| ==> RowKey(parsed[j]) != k
    ensures r.None? ==> forall j :: 0 <= j < |parsed| ==> RowKey(parsed[j]) != k
  {
    if parsed == [] then None
    else if RowKey(parsed[|parsed| - 1]) == k then Some(|parsed| - 1)
    else
      var n := |parsed| - 1;
      assert forall j :: 0 <= j < n ==> parsed[..n][j] == parsed[j];
      LastRowWith(parsed[..n], k)
  }

  /** The table holds exactly the keys of the rows, each with the action of its last row. */
  lemma {:induction false} DecisionFromParsedSpec(parsed: seq<ParsedRow>, k: string)
    ensures k in DecisionFromParsed(parsed) <==> LastRowWith(parsed, k).Some?
    ensures k in DecisionFromParsed(parsed) ==> DecisionFromParsed(parsed)[k] == parsed[LastRowWith(parsed, k).value].action
  {
    if parsed != [] {
      var n := |parsed| - 1;
      DecisionFromParsedSpec(parsed[..n], k);
      if RowKey(parsed[n]) != k && LastRowWith(parsed[..n], k).Some? {
        assert parsed[..n][LastRowWith(parsed[..n], k).value] == parsed[LastRowWith(parsed, k).value];
      }
    }
  }

  /** A row is the last with its key exactly when `LastRowWith` finds it. */
  lemma LastRowWithFinds(parsed: seq<ParsedRow>, i: nat)
    requires i < |parsed|
    requires forall j :: i < j < |parsed| ==> RowKey(parsed[j]) != RowKey(parsed[i])
    ensures LastRowWith(parsed, RowKey(parsed[i])) == Some(i)
  {
  }

  /** Every row's key is in the table; a row no later row shares its key with gives its action. */
  lemma EveryRowKeyed(parsed: seq<ParsedRow>, i: nat)
    requires i < |parsed|
    ensures RowKey(parsed[i]) in DecisionFromParsed(parsed)
    ensures (forall j :: i < j < |parsed| ==> RowKey(parsed[j]) != RowKey(parsed[i])) ==>
              DecisionFromParsed(parsed)[RowKey(parsed[i])] == parsed[i].action
  {
    DecisionFromParsedSpec(parsed, RowKey(parsed[i]));
    if forall j :: i < j < |parsed| ==> RowKey(parsed[j]) != RowKey(parsed[i]) {
      LastRowWithFinds(parsed, i);
    }
  }

  /** `get_parsed_decision`: the action stored under `cards + ';' + board`, or `None`. */
  function GetParsedDecision(decisions: map<string, string>, cards: string, board: string): Option<string>
  {
    var k := AllCardsKey(cards, board);
    if k in decisions then Some(decisions[k]) else None
  }

  /**
   * With `;`-free hole cards, looking up `(cards, board)` in the table of
   * `parsed` answers the action of the last row with exactly those hole
   * cards and that board, and `None` when no row has them.
   */
  lemma LookupFindsLastRow(parsed: seq<ParsedRow>, cards: string, board: string)
    requires forall i :: 0 <= i < |parsed| ==> ';' !in parsed[i].cards
    requires ';' !in cards
    ensures GetParsedDecision(DecisionFromParsed(parsed), cards, board).None? <==>
              forall i :: 0 <= i < |parsed| ==> !(parsed[i].cards == cards && parsed[i].board == board)
    ensures GetParsedDecision(DecisionFromParsed(parsed), cards, board).Some? ==>
              exists i :: 0 <= i < |parsed| && parsed[i].cards == cards && parsed[i].board == board &&
                          GetParsedDecision(DecisionFromParsed(parsed), cards, board).value == parsed[i].action &&
                          forall j :: i < j < |parsed| ==> !(parsed[j].cards == cards && parsed[j].board == board)
  {
    var k := AllCardsKey(cards, board);
    DecisionFromParsedSpec(parsed, k);
    forall i | 0 <= i < |parsed|
      ensures RowKey(parsed[i]) == k <==> parsed[i].cards == cards && parsed[i].board == board
    {
      AllCardsKeyEqualIff(parsed[i].cards, parsed[i].board, cards, board);
    }
  }

  /** The lookup compares strings exactly: hole cards out of order miss the entry stored in order. */
  lemma UnsortedCardsMiss()
    ensures GetParsedDecision(DecisionFromParsed([ParsedRow("2D,3C", "", "fold")]), "2D,3C", "") == Some("fold")
    ensures GetParsedDecision(DecisionFromParsed([ParsedRow("2D,3C", "", "fold")]), "3C,2D", "") == None
  {
    assert AllCardsKey("3C,2D", "")[0] != AllCardsKey("2D,3C", "")[0];
  }

  /** Once the caller sorts the hole cards, the answer depends only on which cards are held. */
  lemma SortedLookupIgnoresOrder(decisions: map<string, string>, q1: seq<string>, q2: seq<string>, board: string)
    requires multiset(q1) == multiset(q2)
    ensures GetParsedDecision(decisions, CardSort.CanonicalCards(Some(q1)), board) ==
            GetParsedDecision(decisions, CardSort.CanonicalCards(Some(q2)), board)
  {
    CardSort.CanonicalCardsPermutation(q1, q2);
  }

  /* ---------------- The dump read back ---------------- */

  /** The `Cards`, `Board` and `Action` columns of the rows `DumpDigested` writes. */
  function ParsedFrom(written: seq<Digested>): (parsed: seq<ParsedRow>)
    ensures |parsed| == |written|
    ensures forall j :: 0 <= j < |written| ==> RowKey(parsed[j]) == written[j].AllCards() && parsed[j].action == written[j].action
  {
    seq(|written|, j requires 0 <= j < |written| => ParsedRow(written[j].cards, written[j].board, written[j].action))
  }

  /**
   * When the digested rows come grouped (as the dump's query order makes
   * them), looking up the hole cards and board of any written row in the
   * table built from the dump answers exactly that row's action.
   */
  lemma DumpedDecisionsFound(rows: seq<Digested>, p: nat)
    requires Merge.Grouped(rows) && p < |Merge.Collapse(rows, 0)|
    ensures GetParsedDecision(DecisionFromParsed(ParsedFrom(Merge.Collapse(rows, 0))), Merge.Collapse(rows, 0)[p].cards, Merge.Collapse(rows, 0)[p].board)
            == Some(Merge.Collapse(rows, 0)[p].action)
  {
    var written := Merge.Collapse(rows, 0);
    var parsed := ParsedFrom(written);
    Merge.CollapseDistinctWhenGrouped(rows, 0);
    EveryRowKeyed(parsed, p);
  }
}
