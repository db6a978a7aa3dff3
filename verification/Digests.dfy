/**
 * ParseUserLog/Digested.cs: one aggregated row read back from the DIGESTED
 * table, with its grouping key `AllCards`.
 */
module Digests {
  import opened CardKeys

  /** A grouped row: canonical hole cards, canonical board, action label, average rank and row count. */
  datatype Digested = Digested(cards: string, board: string, action: string, averageRank: real, count: int)
  {
    /** `cards + ";" + board`. */
    function AllCards(): string
    {
      AllCardsKey(cards, board)
    }
  }

  /** For `;`-free hole cards, two rows share `AllCards` exactly when they share hole cards and board. */
  lemma AllCardsEqualIff(d1: Digested, d2: Digested)
    requires ';' !in d1.cards && ';' !in d2.cards
    ensures d1.AllCards() == d2.AllCards() <==> d1.cards == d2.cards && d1.board == d2.board
  {
    AllCardsKeyEqualIff(d1.cards, d1.board, d2.cards, d2.board);
  }
}
