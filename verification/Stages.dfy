/**
 * ParseUserLog/Stage.cs: one aggregated (cards, board, action) situation,
 * with its grouping key `AllCards`, its sort key `Order` and its average
 * rank.
 */
module Stages {
  import opened CardKeys
  import Ordinal

  datatype Stage = Stage(cards: string, board: string, action: string, rank: real, count: int)
  {
    /** `cards + ";" + board`. */
    function AllCards(): string
    {
      AllCardsKey(cards, board)
    }

    /** `AllCards + ";" + action`. */
    function Order(): string
    {
      AllCardsKey(AllCards(), action)
    }

    /** `rank / count`, as exact division for a positive count. */
    function AverageRank(): (r: real)
      requires count >= 1
      ensures r * count as real == rank
      ensures rank >= 0.0 ==> 0.0 <= r <= rank
    {
      rank / count as real
    }
  }

  /** `Order` starts with `AllCards` followed by `;`. */
  lemma OrderExtendsAllCards(s: Stage)
    ensures |s.AllCards()| < |s.Order()|
    ensures s.Order()[..|s.AllCards()| + 1] == s.AllCards() + ";"
  {
    assert s.Order() == s.AllCards() + ";" + s.action;
  }

  /** With `;`-free cards and board, `Order` determines cards, board and action. */
  lemma OrderInjective(s1: Stage, s2: Stage)
    requires ';' !in s1.cards && ';' !in s1.board
    requires ';' !in s2.cards && ';' !in s2.board
    requires s1.Order() == s2.Order()
    ensures s1.cards == s2.cards && s1.board == s2.board && s1.action == s2.action
  {
    SplitTwice(s1.cards, s1.board, s1.action, s2.cards, s2.board, s2.action);
  }

  /** In ordinal order, a string between two strings that share a prefix shares it too. */
  lemma {:induction false} BetweenKeepsPrefix(p: string, x: string, y: string, z: string)
    requires |p| <= |x| && x[..|p|] == p
    requires |p| <= |z| && z[..|p|] == p
    requires Ordinal.Le(x, y) && Ordinal.Le(y, z)
    ensures |p| <= |y| && y[..|p|] == p
  {
    if p != [] {
      assert x[0] == p[0] && z[0] == p[0];
      BetweenKeepsPrefix(p[1..], x[1..], y[1..], z[1..]);
      assert y == [y[0]] + y[1..];
    }
  }

  /** Splitting at the first two `;` recovers three parts when the first two are `;`-free. */
  lemma SplitTwice(c1: string, b1: string, a1: string, c2: string, b2: string, a2: string)
    requires ';' !in c1 && ';' !in b1 && ';' !in c2 && ';' !in b2
    requires c1 + ";" + b1 + ";" + a1 == c2 + ";" + b2 + ";" + a2
    ensures c1 == c2 && b1 == b2 && a1 == a2
  {
    Regroup(c1, b1, a1);
    Regroup(c2, b2, a2);
    AllCardsInjective(c1, AllCardsKey(b1, a1), c2, AllCardsKey(b2, a2));
    AllCardsInjective(b1, a1, b2, a2);
  }

  /** Three parts joined by `;`, read as the first part keyed to the other two. */
  lemma Regroup(c: string, b: string, a: string)
    ensures c + ";" + b + ";" + a == AllCardsKey(c, AllCardsKey(b, a))
  {
    assert c + ";" + b + ";" + a == c + ";" + (b + ";" + a);
  }

  /** A stage whose `Order` starts with `c + ";" + b + ";"`, all `;`-free, has exactly that `AllCards`. */
  lemma OrderPrefixDeterminesAllCards(c: string, b: string, s: Stage)
    requires ';' !in c && ';' !in b && ';' !in s.cards && ';' !in s.board
    requires |c + ";" + b + ";"| <= |s.Order()| && s.Order()[..|c + ";" + b + ";"|] == c + ";" + b + ";"
    ensures s.AllCards() == AllCardsKey(c, b)
  {
    var y := s.Order();
    var rest := y[|c + ";" + b + ";"|..];
    assert y == c + ";" + b + ";" + rest;
    assert y == s.cards + ";" + s.board + ";" + s.action;
    SplitTwice(c, b, rest, s.cards, s.board, s.action);
  }

  /**
   * Sorting by `Order` keeps equal `AllCards` together: a stage whose
   * `Order` lies between two stages with the same `AllCards` has that
   * `AllCards` as well.
   */
  lemma OrderGroupsAllCards(s1: Stage, s2: Stage, s3: Stage)
    requires ';' !in s1.cards && ';' !in s1.board
    requires ';' !in s2.cards && ';' !in s2.board
    requires s1.AllCards() == s3.AllCards()
    requires Ordinal.Le(s1.Order(), s2.Order()) && Ordinal.Le(s2.Order(), s3.Order())
    ensures s2.AllCards() == s1.AllCards()
  {
    OrderExtendsAllCards(s1);
    OrderExtendsAllCards(s3);
    assert s1.AllCards() + ";" == s1.cards + ";" + s1.board + ";";
    BetweenKeepsPrefix(s1.AllCards() + ";", s1.Order(), s2.Order(), s3.Order());
    OrderPrefixDeterminesAllCards(s1.cards, s1.board, s2);
  }
}
