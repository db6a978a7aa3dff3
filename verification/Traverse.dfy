/**
 * `TraverseAndSaveDigested` (ParseUserLog/Program.cs): walks the stored
 * SHOW_ACTION records in ascending time order, finds each action's
 * winner entry in the settlement that follows it, and inserts one DIGESTED
 * row per action that has one, unless a row with that time already exists.
 * The DIGESTED table is a map from time to row; the progress percentages
 * written to the error stream are returned as a sequence.
 */
module Traverse {
  import opened Wrappers
  import opened CardSort
  import opened Tables
  import opened Records
  import opened EventStore
  import opened Correlator

  /** A row of the DIGESTED table, keyed by the action's time. */
  datatype Row = Row(cards: string, board: string, action: string, rank: real)

  /**
   * The row stored for the action record `data` at `time`: none unless
   * the acting player's winner entry is found; otherwise the player's
   * cached `Cards`, the table's cached `Board`, the action label and the
   * winner's hand rank.
   */
  function RowFor(time: int, data: Data, settlements: map<int, Data>): Option<Row>
    requires data.table.Some? && data.Cached()
    reads data.Repr()
  {
    match data.CurrentPlayer()
    case None => None
    case Some(player) =>
      match FindWinner(settlements, time, data.table.value, Some(player.playerName))
      case None => None
      case Some(winner) =>
        Some(Row(player.Cards.value, data.table.value.Board.value, data.action.value.action, winner.hand.rank))
  }

  /**
   * A row exists exactly when the record names a seated acting player and
   * that player has a winner entry in the selected settlement; it carries
   * the action label and the hand rank of the acting player's first entry
   * among the winners of the earliest qualifying GAME_OVER record later
   * than the action.
   */
  lemma RowForSpec(time: int, data: Data, settlements: map<int, Data>)
    requires data.table.Some? && data.Cached()
    ensures RowFor(time, data, settlements).Some? <==>
      (data.CurrentPlayer().Some? && FindWinner(settlements, time, data.table.value, Some(data.CurrentPlayer().value.playerName)).Some?)
    ensures RowFor(time, data, settlements).Some? ==> data.action.Some? && RowFor(time, data, settlements).value.action == data.action.value.action
    ensures RowFor(time, data, settlements).Some? ==>
      exists k :: k in settlements && k > time && Earliest(settlements, time, data.table.value, data.action.value.playerName, k) &&
        settlements[k].FindWinner(data.action.value.playerName).Some? &&
        settlements[k].FindWinner(data.action.value.playerName).value.hand.rank == RowFor(time, data, settlements).value.rank
  {
    if RowFor(time, data, settlements).Some? {
      var name := data.CurrentPlayer().value.playerName;
      var k := SelectSettlement(settlements, time, data.table.value, Some(name)).value;
      assert Earliest(settlements, time, data.table.value, name, k);
    }
  }

  /** `k` is the earliest GAME_OVER time after `time` at the same seating whose players include `name`. */
  ghost predicate Earliest(settlements: map<int, Data>, time: int, table: Table, name: string, k: int)
    requires k in settlements
  {
    && k > time
    && Qualifies(settlements[k], table, Some(name))
    && forall k' :: k' in settlements && time < k' < k ==> !Qualifies(settlements[k'], table, Some(name))
  }

  /**
   * Conversely, given the acting player and the earliest qualifying
   * settlement after the action, the row is determined: none when the
   * player has no entry among that settlement's winners, otherwise the
   * cached cards and board, the action label and the rank of the
   * player's first winner entry there.
   */
  lemma RowForAtEarliest(time: int, data: Data, settlements: map<int, Data>, k: int)
    requires data.table.Some? && data.Cached() && data.CurrentPlayer().Some?
    requires k in settlements && Earliest(settlements, time, data.table.value, data.CurrentPlayer().value.playerName, k)
    ensures settlements[k].FindWinner(data.CurrentPlayer().value.playerName).None? ==> RowFor(time, data, settlements).None?
    ensures settlements[k].FindWinner(data.CurrentPlayer().value.playerName).Some? ==>
      RowFor(time, data, settlements) == Some(Row(data.CurrentPlayer().value.Cards.value, data.table.value.Board.value, data.action.value.action,
                                                   settlements[k].FindWinner(data.CurrentPlayer().value.playerName).value.hand.rank))
  {
    FindWinnerAtEarliest(settlements, time, data.table.value, Some(data.CurrentPlayer().value.playerName), k);
  }

  /** With no acting player, or no qualifying settlement after the action, there is no row. */
  lemma RowForWithoutSettlement(time: int, data: Data, settlements: map<int, Data>)
    requires data.table.Some? && data.Cached()
    requires data.CurrentPlayer().Some? ==>
      forall k :: k in settlements && k > time ==> !Qualifies(settlements[k], data.table.value, Some(data.CurrentPlayer().value.playerName))
    ensures RowFor(time, data, settlements).None?
  {
  }

  /** For a canonicalised record, a stored row carries the canonical hole cards, five characters long when every hand is valid, and the canonical board. */
  lemma RowForCanonical(time: int, data: Data, settlements: map<int, Data>)
    requires data.table.Some? && data.Canonicalised()
    ensures RowFor(time, data, settlements).Some? ==>
      && RowFor(time, data, settlements).value.cards == CanonicalCards(data.CurrentPlayer().value.cards)
      && RowFor(time, data, settlements).value.board == CanonicalCards(data.table.value.board)
    ensures RowFor(time, data, settlements).Some? && data.AllHandsValid() ==> |RowFor(time, data, settlements).value.cards| == 5
  {
    if RowFor(time, data, settlements).Some? {
      var player := data.CurrentPlayer().value;
      assert player in data.players.value;
    }
  }

  /** Integer division by a positive divisor is monotone in the dividend. */
  lemma DivMonotone(a: nat, b: nat, d: nat)
    requires 0 < d && a <= b
    ensures a / d <= b / d
  {
    var q, q' := a / d, b / d;
    assert q * d <= a;
    assert b < (q' + 1) * d;
    MulCancel(q, q' + 1, d);
  }

  /** Cancelling a positive factor preserves a strict inequality. */
  lemma MulCancel(x: int, y: int, d: int)
    requires 0 < d && x * d < y * d
    ensures x < y
  {
  }

  /** The percentage after `i` of `total` actions starts at 0, lies between 0 and 100 and reaches 100 at the end. */
  lemma PercentBounds(i: nat, total: nat)
    requires 0 < total && i <= total
    ensures i == 0 ==> i * 100 / total == 0
    ensures i * 100 / total <= 100
    ensures i == total ==> i * 100 / total == 100
  {
    DivMonotone(i * 100, total * 100, total);
    assert total * 100 / total == 100;
  }

  /** `IF NOT EXISTS (... WHERE [TIME] = @time) INSERT ...`: a row for a time already present is dropped. */
  function InsertIfAbsent(saved: map<int, Row>, time: int, row: Option<Row>): map<int, Row>
  {
    if row.Some? && time !in saved then saved[time := row.value] else saved
  }

  /** Every object of the stored action records. */
  ghost function RecordsRepr(actions: map<int, Data>): set<object>
  {
    set t, o | t in actions && o in actions[t].Repr() :: o
  }

  /** Every stored action record has a table and its cached strings set. */
  predicate ActionsCached(actions: map<int, Data>)
    reads RecordsRepr(actions)
  {
    forall t :: t in actions ==> actions[t].table.Some? && actions[t].Cached()
  }

  /** The DIGESTED table after visiting the actions at `keys` in order, starting from `digested`. */
  function SaveAll(actions: map<int, Data>, settlements: map<int, Data>, digested: map<int, Row>, keys: seq<int>): map<int, Row>
    requires ActionsCached(actions)
    requires forall k :: k in keys ==> k in actions
    reads RecordsRepr(actions)
  {
    if keys == [] then digested
    else
      var last := keys[|keys| - 1];
      InsertIfAbsent(SaveAll(actions, settlements, digested, keys[..|keys| - 1]), last, RowFor(last, actions[last], settlements))
  }

  /**
   * For one time `t`, after visiting distinct times: a row already present
   * is kept; otherwise there is a row exactly when `t` was visited and
   * `RowFor` gives one, and it is that row.
   */
  lemma {:induction false} SaveAllAt(actions: map<int, Data>, settlements: map<int, Data>, digested: map<int, Row>, keys: seq<int>, t: int)
    requires ActionsCached(actions)
    requires forall k :: k in keys ==> k in actions
    requires forall i, j :: 0 <= i < j < |keys| ==> keys[i] != keys[j]
    ensures t in SaveAll(actions, settlements, digested, keys) <==> t in digested || (t in keys && RowFor(t, actions[t], settlements).Some?)
    ensures t in digested ==> SaveAll(actions, settlements, digested, keys)[t] == digested[t]
    ensures t in SaveAll(actions, settlements, digested, keys) && t !in digested ==>
      SaveAll(actions, settlements, digested, keys)[t] == RowFor(t, actions[t], settlements).value
  {
    if keys != [] {
      var n := |keys| - 1;
      var prefix := keys[..n];
      SaveAllAt(actions, settlements, digested, prefix, t);
      assert t in keys <==> t in prefix || t == keys[n];
      assert keys[n] !in prefix;
    }
  }

  /**
   * Visiting distinct times keeps every row already present, and adds a
   * row for exactly the visited actions that have a winner, namely the
   * row `RowFor` describes.
   */
  lemma SaveAllSpec(actions: map<int, Data>, settlements: map<int, Data>, digested: map<int, Row>, keys: seq<int>)
    requires ActionsCached(actions)
    requires forall k :: k in keys ==> k in actions
    requires forall i, j :: 0 <= i < j < |keys| ==> keys[i] != keys[j]
    ensures forall t :: t in SaveAll(actions, settlements, digested, keys) <==>
      t in digested || (t in keys && RowFor(t, actions[t], settlements).Some?)
    ensures forall t :: t in digested ==> SaveAll(actions, settlements, digested, keys)[t] == digested[t]
    ensures forall t :: t in SaveAll(actions, settlements, digested, keys) && t !in digested ==>
      SaveAll(actions, settlements, digested, keys)[t] == RowFor(t, actions[t], settlements).value
  {
    forall t {
      SaveAllAt(actions, settlements, digested, keys, t);
    }
  }

  /**
   * `saved` is the DIGESTED table after visiting every action: it keeps
   * every row of `digested`, and the other rows are exactly those
   * `RowFor` gives for the actions.
   */
  ghost predicate DigestedFrom(actions: map<int, Data>, settlements: map<int, Data>, digested: map<int, Row>, saved: map<int, Row>)
    requires ActionsCached(actions)
    reads RecordsRepr(actions)
  {
    && (forall t :: t in saved <==> t in digested || (t in actions && RowFor(t, actions[t], settlements).Some?))
    && (forall t :: t in digested ==> saved[t] == digested[t])
    && (forall t :: t in saved && t !in digested ==> saved[t] == RowFor(t, actions[t], settlements).value)
  }

  /** Visiting every action in ascending time order adds exactly the rows `RowFor` gives, keeping the existing ones. */
  lemma SaveAllInTimeOrder(actions: map<int, Data>, settlements: map<int, Data>, digested: map<int, Row>)
    requires ActionsCached(actions)
    ensures DigestedFrom(actions, settlements, digested, SaveAll(actions, settlements, digested, SortedKeys(actions.Keys)))
  {
    SaveAllSpec(actions, settlements, digested, SortedKeys(actions.Keys));
  }

  /** Without any SHOW_ACTION or any GAME_OVER record no action has a row, so returning early loses nothing. */
  lemma NothingToVisit(actions: map<int, Data>, settlements: map<int, Data>, digested: map<int, Row>)
    requires ActionsCached(actions) && (actions == map[] || settlements == map[])
    ensures DigestedFrom(actions, settlements, digested, digested)
  {
    forall t | t in actions
      ensures RowFor(t, actions[t], settlements).None?
    {
      var data := actions[t];
      if data.CurrentPlayer().Some? {
        assert FindWinner(settlements, t, data.table.value, Some(data.CurrentPlayer().value.playerName)).None?;
      }
    }
  }

  /** Visiting one more key is one more `InsertIfAbsent`. */
  lemma SaveAllStep(actions: map<int, Data>, settlements: map<int, Data>, digested: map<int, Row>, keys: seq<int>, i: nat)
    requires ActionsCached(actions)
    requires forall k :: k in keys ==> k in actions
    requires i < |keys|
    ensures SaveAll(actions, settlements, digested, keys[..i + 1]) ==
      InsertIfAbsent(SaveAll(actions, settlements, digested, keys[..i]), keys[i], RowFor(keys[i], actions[keys[i]], settlements))
  {
    assert keys[..i + 1][..i] == keys[..i];
  }

  /** The percentages written so far: strictly increasing, positive, the last one being `percent`; none while it is 0. */
  predicate Reported(progress: seq<int>, percent: int)
  {
    && (progress == [] <==> percent == 0)
    && (progress != [] ==> progress[|progress| - 1] == percent)
    && (forall a, b :: 0 <= a < b < |progress| ==> progress[a] < progress[b])
    && (forall a :: 0 <= a < |progress| ==> 1 <= progress[a] <= percent)
  }

  /**
   * The progress step once one more action is visited, `done + 1` of
   * `total`: the new percentage, and the percentages written, which grow
   * by it only when it exceeds the previous one.
   */
  function Advance(done: nat, total: nat, percent: int, progress: seq<int>): (r: (int, seq<int>))
    requires done < total && percent == done * 100 / total
    requires Reported(progress, percent)
    ensures r.0 == (done + 1) * 100 / total
    ensures percent <= r.0 <= 100
    ensures done + 1 == total ==> r.0 == 100
    ensures r.0 > percent ==> r.1 == progress + [r.0]
    ensures r.0 == percent ==> r.1 == progress
    ensures Reported(r.1, r.0)
  {
    DivMonotone(done * 100, (done + 1) * 100, total);
    PercentBounds(done + 1, total);
    var p := (done + 1) * 100 / total;
    if p > percent then (p, progress + [p]) else (percent, progress)
  }

  /**
   * The `foreach` over the actions in the order of `keys`: the DIGESTED
   * table after it is `SaveAll` over `keys`, and the percentages written
   * climb to 100.
   */
  method Walk(actions: map<int, Data>, settlements: map<int, Data>, digested: map<int, Row>, keys: seq<int>)
    returns (saved: map<int, Row>, progress: seq<int>)
    requires ActionsCached(actions)
    requires forall k :: k in keys ==> k in actions
    requires keys != []
    ensures saved == SaveAll(actions, settlements, digested, keys)
    ensures Reported(progress, 100)
  {
    saved, progress := digested, [];
    var total := |keys|;
    var i := 0;
    var percent := 0;
    PercentBounds(0, total);
    while i < total
      invariant 0 <= i <= total
      invariant saved == SaveAll(actions, settlements, digested, keys[..i])
      invariant percent == i * 100 / total
      invariant i == total ==> percent == 100
      invariant Reported(progress, percent)
    {
      var time := keys[i];
      SaveAllStep(actions, settlements, digested, keys, i);
      saved := InsertIfAbsent(saved, time, RowFor(time, actions[time], settlements));
      var next := Advance(i, total, percent, progress);
      percent, progress := next.0, next.1;
      i := i + 1;
    }
    assert keys[..i] == keys;
  }

  /** The whole walk: every stored action, in ascending time order, with the progress counter. */
  method TraverseAndSaveDigested(actions: map<int, Data>, settlements: map<int, Data>, digested: map<int, Row>)
    returns (saved: map<int, Row>, progress: seq<int>)
    requires ActionsCached(actions) && TablesPresent(settlements)
    ensures DigestedFrom(actions, settlements, digested, saved)
    ensures actions == map[] || settlements == map[] ==> saved == digested && progress == []
    ensures forall i, j :: 0 <= i < j < |progress| ==> progress[i] < progress[j]
    ensures forall i :: 0 <= i < |progress| ==> 1 <= progress[i] <= 100
    ensures actions != map[] && settlements != map[] ==> progress != [] && progress[|progress| - 1] == 100
  {
    if actions == map[] || settlements == map[] {
      NothingToVisit(actions, settlements, digested);
      return digested, [];
    }
    var keys := SortedKeys(actions.Keys);
    saved, progress := Walk(actions, settlements, digested, keys);
    SaveAllInTimeOrder(actions, settlements, digested);
  }
}
