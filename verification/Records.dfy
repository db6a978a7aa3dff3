/**
 * ParseUserLog/Data.cs and the field-only records it holds (Action.cs,
 * Hand.cs, Winner.cs): the decoded payload of one SHOW_ACTION or GAME_OVER
 * event, its canonicalisation, and its first-match lookups.
 */
module Records {
  import opened Wrappers
  import opened CardSort
  import opened Players
  import opened Tables

  /** ParseUserLog/Action.cs: the action taken and who took it. */
  datatype Action = Action(action: string, playerName: string, amount: int, chips: int)

  /** ParseUserLog/Hand.cs: only the hand-strength score is used. */
  datatype Hand = Hand(rank: real)

  /** ParseUserLog/Winner.cs */
  datatype Winner = Winner(playerName: string, hand: Hand, chips: int)

  /** LINQ `FirstOrDefault(pred)`, as the index of the first element that matches. */
  function FirstMatch<T>(xs: seq<T>, matches: T -> bool): (r: Option<nat>)
    ensures r.Some? ==> r.value < |xs| && matches(xs[r.value])
    ensures r.Some? ==> forall j :: 0 <= j < r.value ==> !matches(xs[j])
    ensures r.None? ==> forall j :: 0 <= j < |xs| ==> !matches(xs[j])
  {
    if xs == [] then None
    else if matches(xs[0]) then Some(0)
    else
      match FirstMatch(xs[1..], matches)
      case None => None
      case Some(i) => Some(i + 1)
  }

  /** The position of the first player whose hand is invalid; the length when every hand is valid. */
  function FirstInvalidHand(ps: seq<Player>): (r: nat)
    ensures r <= |ps|
    ensures forall j :: 0 <= j < r ==> HoleCardsValid(ps[j].cards)
    ensures r < |ps| ==> !HoleCardsValid(ps[r].cards)
  {
    if ps == [] || !HoleCardsValid(ps[0].cards) then 0 else 1 + FirstInvalidHand(ps[1..])
  }

  /** `players.All(player => player.Canonicalize())`: canonicalises in order, stopping at the first invalid hand. */
  method CanonicalizeAll(ps: seq<Player>) returns (ok: bool)
    modifies set p | p in ps
    decreases |ps|
    ensures ok == (FirstInvalidHand(ps) == |ps|)
    ensures forall j :: 0 <= j < |ps| && j <= FirstInvalidHand(ps) ==> ps[j].Cards == Some(CanonicalCards(ps[j].cards))
    ensures forall j :: FirstInvalidHand(ps) < j < |ps| && ps[j] !in ps[..FirstInvalidHand(ps) + 1] ==> ps[j].Cards == old(ps[j].Cards)
  {
    if ps == [] {
      return true;
    }
    var valid := ps[0].Canonicalize();
    if !valid {
      return false;
    }
    ok := CanonicalizeAll(ps[1..]);
  }

  class Data {
    const players: Option<seq<Player>>
    const table: Option<Table>
    const action: Option<Action>
    const winners: Option<seq<Winner>>

    constructor (players: Option<seq<Player>>, table: Option<Table>, action: Option<Action>, winners: Option<seq<Winner>>)
      ensures this.players == players && this.table == table
      ensures this.action == action && this.winners == winners
    {
      this.players := players;
      this.table := table;
      this.action := action;
      this.winners := winners;
    }

    /** The objects `Canonicalize` may write: the table and the players. */
    ghost function Repr(): set<object>
    {
      var tables: set<object> := if table.Some? then {table.value} else {};
      var seats: set<object> := if players.Some? then set p: Player | p in players.value else {};
      tables + seats
    }

    /** What `Canonicalize` returns: a player list is present and every hand in it is valid. */
    predicate AllHandsValid()
    {
      players.Some? && forall p :: p in players.value ==> HoleCardsValid(p.cards)
    }

    /** How many players `All` evaluates: up to and including the first invalid hand. */
    function Visited(): (n: nat)
      ensures players.Some? ==> n <= |players.value|
    {
      if players.None? then 0
      else
        var i := FirstInvalidHand(players.value);
        if i < |players.value| then i + 1 else i
    }

    /** Every cached canonical string the record carries is in place. */
    ghost predicate Canonicalised()
      reads Repr()
    {
      && (table.Some? ==> table.value.Board == Some(CanonicalCards(table.value.board)))
      && players.Some?
      && forall p :: p in players.value ==> p.Cards == Some(CanonicalCards(p.cards))
    }

    /** The cached strings `TraverseAndSaveDigested` reads are set: the table's `Board` and every player's `Cards`. */
    predicate Cached()
      reads Repr()
    {
      && (table.Some? ==> table.value.Board.Some?)
      && players.Some?
      && forall p :: p in players.value ==> p.Cards.Some?
    }

    /**
     * Canonicalises the table's board when there is a table, then the
     * players' hands in order, stopping at the first invalid one; the
     * result says whether a player list is present and every hand is valid.
     */
    method Canonicalize() returns (ok: bool)
      modifies Repr()
      ensures ok == AllHandsValid()
      ensures ok ==> Canonicalised()
      ensures table.Some? ==> table.value.Board == Some(CanonicalCards(table.value.board))
      ensures players.Some? ==> forall j :: 0 <= j < Visited() ==>
        players.value[j].Cards == Some(CanonicalCards(players.value[j].cards))
      ensures players.Some? ==> forall j :: Visited() <= j < |players.value| && players.value[j] !in players.value[..Visited()] ==>
        players.value[j].Cards == old(players.value[j].Cards)
      ensures players.Some? ==> forall p :: p in players.value ==>
        p.Cards == old(p.Cards) || p.Cards == Some(CanonicalCards(p.cards))
    {
      if table.Some? {
        table.value.Canonicalize();
      }
      if players.None? {
        return false;
      }
      ok := CanonicalizeAll(players.value);
    }

    /** `FindPlayer`: the first player with that name, if any. */
    function FindPlayer(name: string): (r: Option<Player>)
      ensures r.Some? ==> players.Some? && r.value in players.value && r.value.playerName == name
      ensures r.Some? ==> exists i :: (0 <= i < |players.value| && players.value[i] == r.value
                                       && forall j :: 0 <= j < i ==> players.value[j].playerName != name)
      ensures r.None? ==> players.None? || forall p :: p in players.value ==> p.playerName != name
    {
      if players.None? then None
      else
        match FirstMatch(players.value, (p: Player) => p.playerName == name)
        case None => None
        case Some(i) => Some(players.value[i])
    }

    /** `FindWinner`: the first winner entry with that name, if any. */
    function FindWinner(name: string): (r: Option<Winner>)
      ensures r.Some? ==> winners.Some? && r.value in winners.value && r.value.playerName == name
      ensures r.Some? ==> exists i :: (0 <= i < |winners.value| && winners.value[i] == r.value
                                       && forall j :: 0 <= j < i ==> winners.value[j].playerName != name)
      ensures r.None? ==> winners.None? || forall w :: w in winners.value ==> w.playerName != name
    {
      if winners.None? then None
      else
        match FirstMatch(winners.value, (w: Winner) => w.playerName == name)
        case None => None
        case Some(i) => Some(winners.value[i])
    }

    /** `CurrentPlayer`: the player the action names; none without an action. */
    function CurrentPlayer(): (r: Option<Player>)
      ensures r.Some? ==> action.Some? && r.value.playerName == action.value.playerName
      ensures r.Some? ==> players.Some? && r.value in players.value
      ensures action.Some? ==> r == FindPlayer(action.value.playerName)
      ensures action.None? ==> r.None?
    {
      if action.None? then None else FindPlayer(action.value.playerName)
    }
  }
}
