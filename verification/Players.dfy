/**
 * ParseUserLog/Player.cs: a seat's hole cards, and the cached canonical
 * `Cards` string that `Canonicalize` fills in and checks.
 */
module Players {
  import opened Wrappers
  import opened CardSort

  /** What `Player.Canonicalize` accepts: the canonical hole-card string is five characters long. */
  predicate HoleCardsValid(cards: Option<seq<string>>)
  {
    |CanonicalCards(cards)| == 5
  }

  class Player {
    const playerName: string
    const cards: Option<seq<string>>
    /** The canonical hole cards; `None` (C# null) until `Canonicalize` runs. */
    var Cards: Option<string>

    constructor (playerName: string, cards: Option<seq<string>>)
      ensures this.playerName == playerName && this.cards == cards
      ensures Cards == None
    {
      this.playerName := playerName;
      this.cards := cards;
      Cards := None;
    }

    /** Caches the canonical hole cards (even when they are rejected) and reports whether they are valid. */
    method Canonicalize() returns (ok: bool)
      modifies this
      ensures Cards == Some(CanonicalCards(cards))
      ensures ok == HoleCardsValid(cards)
    {
      var joined := Join(",", SortCards(cards));
      Cards := Some(joined);
      ok := |joined| == 5;
    }
  }

  /** The check looks at length only: any tokens whose widths plus separators make five characters pass. */
  lemma HoleCardsValidWidth(tokens: seq<string>)
    ensures HoleCardsValid(Some(tokens)) <==> tokens != [] && TotalWidth(tokens) + |tokens| == 6
  {
    CanonicalCardsLength(tokens);
  }

  lemma {:induction false} UniformWidth(tokens: seq<string>, w: nat)
    requires forall k :: 0 <= k < |tokens| ==> |tokens[k]| == w
    ensures TotalWidth(tokens) == w * |tokens|
  {
    if tokens != [] {
      UniformWidth(tokens[1..], w);
    }
  }

  /** With two-character card tokens, a hand is accepted exactly when it holds two cards ("XX,YY"). */
  lemma HoleCardsValidTwoCards(tokens: seq<string>)
    requires forall k :: 0 <= k < |tokens| ==> |tokens[k]| == 2
    ensures HoleCardsValid(Some(tokens)) <==> |tokens| == 2
  {
    HoleCardsValidWidth(tokens);
    UniformWidth(tokens, 2);
  }

  /** One card ("XX") or three cards ("XX,YY,ZZ", eight characters) are rejected. */
  lemma HoleCardsRejectOneOrThree(tokens: seq<string>)
    requires forall k :: 0 <= k < |tokens| ==> |tokens[k]| == 2
    requires |tokens| == 1 || |tokens| == 3
    ensures !HoleCardsValid(Some(tokens))
    ensures |CanonicalCards(Some(tokens))| == 3 * |tokens| - 1
  {
    HoleCardsValidTwoCards(tokens);
    CanonicalCardsLength(tokens);
    UniformWidth(tokens, 2);
  }

  /** A player without cards gets the empty string, so it is rejected. */
  lemma HoleCardsAbsent()
    ensures !HoleCardsValid(None)
  {
    CanonicalCardsAbsent();
  }

  /** Validity does not depend on the order in which the two cards arrive. */
  lemma HoleCardsValidPermutation(a: seq<string>, b: seq<string>)
    requires multiset(a) == multiset(b)
    ensures HoleCardsValid(Some(a)) == HoleCardsValid(Some(b))
  {
    CanonicalCardsPermutation(a, b);
  }
}
