/**
 * The `AllCards` key shared by ParseUserLog/Digested.cs, ParseUserLog/Stage.cs
 * and the decision map of ParseUserLog/LoadParsedCSV.py: the canonical hole
 * cards and the canonical board joined by `;`.
 */
module CardKeys {

  /** `cards + ";" + board`; `AllCardsKeyParts` takes it apart. */
  function AllCardsKey(cards: string, board: string): string
  {
    cards + ";" + board
  }

  /** The key is the hole cards, then `;` at index `|cards|`, then the board. */
  lemma AllCardsKeyParts(cards: string, board: string)
    ensures |AllCardsKey(cards, board)| == |cards| + |board| + 1
    ensures AllCardsKey(cards, board)[..|cards|] == cards && AllCardsKey(cards, board)[|cards|] == ';'
    ensures AllCardsKey(cards, board)[|cards| + 1..] == board
  {
    var k := AllCardsKey(cards, board);
    assert k[..|cards|] == cards;
    assert k[|cards| + 1..] == board;
  }

  /** When the hole cards hold no `;`, the key determines both halves. */
  lemma {:induction false} AllCardsInjective(c1: string, b1: string, c2: string, b2: string)
    requires ';' !in c1 && ';' !in c2
    requires AllCardsKey(c1, b1) == AllCardsKey(c2, b2)
    ensures c1 == c2 && b1 == b2
  {
    AllCardsKeyParts(c1, b1);
    AllCardsKeyParts(c2, b2);
    assert AllCardsKey(c1, b1)[|c1|] == ';' && AllCardsKey(c2, b2)[|c2|] == ';';
  }

  /** Equal keys for `;`-free hole cards exactly when hole cards and board are both equal. */
  lemma AllCardsKeyEqualIff(c1: string, b1: string, c2: string, b2: string)
    requires ';' !in c1 && ';' !in c2
    ensures AllCardsKey(c1, b1) == AllCardsKey(c2, b2) <==> c1 == c2 && b1 == b2
  {
    if AllCardsKey(c1, b1) == AllCardsKey(c2, b2) {
      AllCardsInjective(c1, b1, c2, b2);
    }
  }
}
