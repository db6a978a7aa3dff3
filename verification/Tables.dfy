/**
 * ParseUserLog/Table.cs: a table snapshot, its cached canonical `Board`, and
 * the seating identity `Same`.
 */
module Tables {
  import opened Wrappers
  import opened CardSort

  /** ParseUserLog/Blind.cs: only the name of the player paying the blind matters here. */
  datatype Blind = Blind(playerName: string, amount: int)

  class Table {
    const tableNumber: int
    /** The community cards: absent, or 3, 4 or 5 tokens. */
    const board: Option<seq<string>>
    const smallBlind: Blind
    const bigBlind: Blind
    /** The canonical board; `None` (C# null) until `Canonicalize` runs. */
    var Board: Option<string>

    constructor (tableNumber: int, board: Option<seq<string>>, smallBlind: Blind, bigBlind: Blind)
      ensures this.tableNumber == tableNumber && this.board == board
      ensures this.smallBlind == smallBlind && this.bigBlind == bigBlind
      ensures Board == None
    {
      this.tableNumber := tableNumber;
      this.board := board;
      this.smallBlind := smallBlind;
      this.bigBlind := bigBlind;
      Board := None;
    }

    /** Caches the canonical board; calling it again changes nothing, since `board` is fixed. */
    method Canonicalize()
      modifies this
      ensures Board == Some(CanonicalCards(board))
    {
      Board := Some(Join(",", SortCards(board)));
    }

    /** The same seating: same table number and the same two blind-paying players. */
    predicate Same(other: Table)
    {
      tableNumber == other.tableNumber
      && smallBlind.playerName == other.smallBlind.playerName
      && bigBlind.playerName == other.bigBlind.playerName
    }
  }

  /** The triple that decides seating identity. */
  function Seating(t: Table): (int, string, string)
  {
    (t.tableNumber, t.smallBlind.playerName, t.bigBlind.playerName)
  }

  /** `Same` compares exactly the seating triple, so it is an equivalence relation. */
  lemma SameIsSeatingEquality(a: Table, b: Table)
    ensures a.Same(b) <==> Seating(a) == Seating(b)
    ensures a.Same(a)
    ensures a.Same(b) ==> b.Same(a)
  {
  }

  lemma SameTransitive(a: Table, b: Table, c: Table)
    requires a.Same(b) && b.Same(c)
    ensures a.Same(c)
  {
  }

  /** A reused table number with a different blind player is a different seating. */
  lemma TableNumberReuseIsNotSame(a: Table, b: Table)
    requires a.tableNumber == b.tableNumber
    requires a.smallBlind.playerName != b.smallBlind.playerName || a.bigBlind.playerName != b.bigBlind.playerName
    ensures !a.Same(b)
  {
  }
}
