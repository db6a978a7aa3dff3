/**
 * The local `FindWinner` of `TraverseAndSaveDigested`
 * (ParseUserLog/Program.cs): for an action at `time`, take the GAME_OVER
 * records in ascending time order, keep those strictly later whose table
 * has the same seating and whose players include the acting player, take
 * the first, and look the player up among that settlement's winners.
 */
module Correlator {
  import opened Wrappers
  import opened Tables
  import opened Records
  import opened EventStore

  /** Every stored record carries a table (`data.table.Same(...)` dereferences it). */
  predicate TablesPresent(m: map<int, Data>)
  {
    forall t :: t in m ==> m[t].table.Some?
  }

  /** The `where` clause without the time test: same seating, and the acting player is seated. In the model a missing name qualifies nowhere; `RowFor` never passes one. */
  predicate Qualifies(settlement: Data, table: Table, name: Option<string>)
  {
    && settlement.table.Some?
    && settlement.table.value.Same(table)
    && name.Some?
    && settlement.FindPlayer(name.value).Some?
  }

  /** The first of `keys`, in the given order, later than `time` whose settlement qualifies. */
  function FirstSettlement(settlements: map<int, Data>, keys: seq<int>, time: int, table: Table, name: Option<string>): (r: Option<int>)
    requires forall k :: k in keys ==> k in settlements
    requires forall i, j :: 0 <= i < j < |keys| ==> keys[i] < keys[j]
    ensures r.Some? ==> r.value in keys && r.value > time && Qualifies(settlements[r.value], table, name)
    ensures r.Some? ==> forall k :: k in keys && time < k < r.value ==> !Qualifies(settlements[k], table, name)
    ensures r.None? ==> forall k :: k in keys && k > time ==> !Qualifies(settlements[k], table, name)
  {
    if keys == [] then None
    else if keys[0] > time && Qualifies(settlements[keys[0]], table, name) then Some(keys[0])
    else FirstSettlement(settlements, keys[1..], time, table, name)
  }

  /** The settlement `FindWinner` selects: the earliest qualifying GAME_OVER record strictly after `time`. */
  function SelectSettlement(settlements: map<int, Data>, time: int, table: Table, name: Option<string>): (r: Option<int>)
    ensures r.Some? ==> r.value in settlements && r.value > time && Qualifies(settlements[r.value], table, name)
    ensures r.Some? ==> forall k :: k in settlements && time < k < r.value ==> !Qualifies(settlements[k], table, name)
    ensures r.None? ==> forall k :: k in settlements && k > time ==> !Qualifies(settlements[k], table, name)
  {
    FirstSettlement(settlements, SortedKeys(settlements.Keys), time, table, name)
  }

  /** The local `FindWinner`: the named player's entry among the winners of the selected settlement only. */
  function FindWinner(settlements: map<int, Data>, time: int, table: Table, name: Option<string>): (r: Option<Winner>)
    ensures r.Some? ==> name.Some? && r.value.playerName == name.value
    ensures (forall k :: k in settlements && k > time ==> !Qualifies(settlements[k], table, name)) ==> r.None?
  {
    match SelectSettlement(settlements, time, table, name)
    case None => None
    case Some(k) => settlements[k].FindWinner(name.value)
  }

  /**
   * A winner entry found comes from the earliest qualifying GAME_OVER
   * record strictly after `time`, and is listed among its winners.
   */
  lemma FindWinnerFromEarliest(settlements: map<int, Data>, time: int, table: Table, name: Option<string>)
    ensures FindWinner(settlements, time, table, name).Some? ==>
      exists k :: k in settlements && k > time && Qualifies(settlements[k], table, name) &&
        (forall k' :: k' in settlements && time < k' < k ==> !Qualifies(settlements[k'], table, name)) &&
        settlements[k].winners.Some? && FindWinner(settlements, time, table, name).value in settlements[k].winners.value
  {
    if FindWinner(settlements, time, table, name).Some? {
      var k := SelectSettlement(settlements, time, table, name).value;
      assert FindWinner(settlements, time, table, name).value == settlements[k].FindWinner(name.value).value;
    }
  }

  /** The earliest qualifying settlement after `time` is the one selected: the selection is characterised by its contract. */
  lemma SelectionIsEarliest(settlements: map<int, Data>, time: int, table: Table, name: Option<string>, s: int)
    requires s in settlements && s > time && Qualifies(settlements[s], table, name)
    requires forall k :: k in settlements && time < k < s ==> !Qualifies(settlements[k], table, name)
    ensures SelectSettlement(settlements, time, table, name) == Some(s)
  {
    var r := SelectSettlement(settlements, time, table, name);
    assert r.Some?;
    assert !(r.value < s);
    assert !(s < r.value);
  }

  /**
   * Conversely, once the earliest qualifying settlement after `time` is
   * known, the winner found is exactly the player's first entry among
   * that settlement's winners, and none when it lists no such entry.
   */
  lemma FindWinnerAtEarliest(settlements: map<int, Data>, time: int, table: Table, name: Option<string>, k: int)
    requires k in settlements && k > time && Qualifies(settlements[k], table, name)
    requires forall k' :: k' in settlements && time < k' < k ==> !Qualifies(settlements[k'], table, name)
    ensures FindWinner(settlements, time, table, name) == settlements[k].FindWinner(name.value)
  {
    SelectionIsEarliest(settlements, time, table, name, k);
  }

  /** A GAME_OVER map that agrees with `s1` from just after `time` up to `s1`'s selection selects the same settlement. */
  lemma SelectionAgreesUpTo(s1: map<int, Data>, s2: map<int, Data>, time: int, table: Table, name: Option<string>)
    requires SelectSettlement(s1, time, table, name).Some?
    requires forall k :: time < k <= SelectSettlement(s1, time, table, name).value ==> (k in s1 <==> k in s2)
    requires forall k :: time < k <= SelectSettlement(s1, time, table, name).value && k in s1 ==> s1[k] == s2[k]
    ensures SelectSettlement(s2, time, table, name) == SelectSettlement(s1, time, table, name)
  {
    var r := SelectSettlement(s1, time, table, name).value;
    forall k | k in s2 && time < k < r
      ensures !Qualifies(s2[k], table, name)
    {
      assert k in s1;
    }
    SelectionIsEarliest(s2, time, table, name, r);
  }

  /** Changing or adding a settlement later than the selected one leaves the selection as it is. */
  lemma LaterSettlementsIgnored(settlements: map<int, Data>, time: int, table: Table, name: Option<string>, k: int, d: Data)
    requires SelectSettlement(settlements, time, table, name).Some?
    requires k > SelectSettlement(settlements, time, table, name).value
    ensures SelectSettlement(settlements[k := d], time, table, name) == SelectSettlement(settlements, time, table, name)
  {
    SelectionAgreesUpTo(settlements, settlements[k := d], time, table, name);
  }

  /** Hence no later settlement is consulted, even one that lists the player among its winners. */
  lemma LaterWinnersIgnored(settlements: map<int, Data>, time: int, table: Table, name: Option<string>, k: int, d: Data)
    requires SelectSettlement(settlements, time, table, name).Some?
    requires k > SelectSettlement(settlements, time, table, name).value
    ensures FindWinner(settlements[k := d], time, table, name) == FindWinner(settlements, time, table, name)
  {
    LaterSettlementsIgnored(settlements, time, table, name, k, d);
  }

  /** Two GAME_OVER maps that agree after `time`: a selection in the first is the selection in the second. */
  lemma SelectionCarriesOver(s1: map<int, Data>, s2: map<int, Data>, time: int, table: Table, name: Option<string>)
    requires forall k :: k > time ==> (k in s1 <==> k in s2)
    requires forall k :: k > time && k in s1 ==> s1[k] == s2[k]
    ensures SelectSettlement(s1, time, table, name).Some? ==>
      SelectSettlement(s2, time, table, name) == SelectSettlement(s1, time, table, name)
  {
    if SelectSettlement(s1, time, table, name).Some? {
      SelectionAgreesUpTo(s1, s2, time, table, name);
    }
  }

  /** Only the GAME_OVER records after the action's time matter: maps that agree there select the same settlement and find the same winner. */
  lemma OnlyLaterSettlementsMatter(s1: map<int, Data>, s2: map<int, Data>, time: int, table: Table, name: Option<string>)
    requires forall k :: k > time ==> (k in s1 <==> k in s2)
    requires forall k :: k > time && k in s1 ==> s1[k] == s2[k]
    ensures SelectSettlement(s1, time, table, name) == SelectSettlement(s2, time, table, name)
    ensures FindWinner(s1, time, table, name) == FindWinner(s2, time, table, name)
  {
    SelectionCarriesOver(s1, s2, time, table, name);
    SelectionCarriesOver(s2, s1, time, table, name);
  }

  /** Settlements at or before the action's time are never consulted. */
  lemma EarlierSettlementsIgnored(settlements: map<int, Data>, time: int, table: Table, name: Option<string>, k: int, d: Data)
    requires k <= time
    ensures SelectSettlement(settlements[k := d], time, table, name) == SelectSettlement(settlements, time, table, name)
    ensures FindWinner(settlements[k := d], time, table, name) == FindWinner(settlements, time, table, name)
  {
    OnlyLaterSettlementsMatter(settlements[k := d], settlements, time, table, name);
  }
}
