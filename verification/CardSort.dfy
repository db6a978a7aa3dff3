/**
 * Card-token canonicalisation: `SortCards` (ParseUserLog/Program.cs) sorts
 * the tokens ascending, and `String.Join(",", ...)` glues them; together they
 * give the order-independent normal form that `Player.Cards` and
 * `Table.Board` cache.
 */
module CardSort {
  import opened Wrappers
  import Ordinal

  predicate Sorted(s: seq<string>)
  {
    forall i, j :: 0 <= i < j < |s| ==> Ordinal.Le(s[i], s[j])
  }

  /** Inserts `x` into the sorted `s` before the first token it sorts at or before. */
  function Insert(x: string, s: seq<string>): seq<string>
  {
    if s == [] then [x]
    else if Ordinal.Le(x, s[0]) then [x] + s
    else [s[0]] + Insert(x, s[1..])
  }

  lemma {:induction false} InsertSpec(x: string, s: seq<string>)
    requires Sorted(s)
    ensures Sorted(Insert(x, s))
    ensures multiset(Insert(x, s)) == multiset(s) + multiset{x}
  {
    if s == [] {
    } else if Ordinal.Le(x, s[0]) {
      assert forall j :: 0 <= j < |s| ==> Ordinal.Le(x, s[j]) by {
        forall j | 0 <= j < |s| ensures Ordinal.Le(x, s[j]) {
          if j > 0 { Ordinal.LeTransitive(x, s[0], s[j]); }
        }
      }
    } else {
      Ordinal.LeTotal(x, s[0]);
      InsertSpec(x, s[1..]);
      assert s == [s[0]] + s[1..];
      LowerBoundKept(s[0], Insert(x, s[1..]), x, s[1..]);
    }
  }

  /** A lower bound of `x` and of every token of `s` bounds every token of a sequence holding exactly those. */
  lemma LowerBoundKept(y: string, xs: seq<string>, x: string, s: seq<string>)
    requires multiset(xs) == multiset(s) + multiset{x}
    requires Ordinal.Le(y, x) && forall j :: 0 <= j < |s| ==> Ordinal.Le(y, s[j])
    ensures forall k :: 0 <= k < |xs| ==> Ordinal.Le(y, xs[k])
  {
    forall k | 0 <= k < |xs| ensures Ordinal.Le(y, xs[k]) {
      assert xs[k] in multiset(xs);
      if xs[k] != x {
        assert xs[k] in multiset(s);
        var j :| 0 <= j < |s| && s[j] == xs[k];
      }
    }
  }

  /** Ordinal sort of a token sequence (insertion sort; any sort gives the same result, see SortedUnique). */
  function Sort(s: seq<string>): (r: seq<string>)
  {
    if s == [] then []
    else
      Insert(s[0], Sort(s[1..]))
  }

  lemma {:induction false} SortSpec(s: seq<string>)
    ensures Sorted(Sort(s)) && multiset(Sort(s)) == multiset(s)
  {
    if s != [] {
      SortSpec(s[1..]);
      InsertSpec(s[0], Sort(s[1..]));
      assert s == [s[0]] + s[1..];
    }
  }

  /** `SortCards`: the tokens in ascending order; an absent (null) array gives no tokens. */
  function SortCards(cards: Option<seq<string>>): seq<string>
  {
    match cards
    case None => []
    case Some(tokens) => Sort(tokens)
  }

  /** `SortCards` yields the tokens in ascending order, and nothing for an absent array. */
  lemma SortCardsSpec(cards: Option<seq<string>>)
    ensures cards.None? ==> SortCards(cards) == []
    ensures cards.Some? ==> Sorted(SortCards(cards)) && multiset(SortCards(cards)) == multiset(cards.value)
  {
    if cards.Some? {
      SortSpec(cards.value);
    }
  }

  /** `String.Join(sep, xs)`: the tokens with `sep` between neighbours. */
  function Join(sep: string, xs: seq<string>): string
  {
    if |xs| == 0 then ""
    else if |xs| == 1 then xs[0]
    else xs[0] + sep + Join(sep, xs[1..])
  }

  /** The canonical form of a card array: sorted tokens joined by ','. */
  function CanonicalCards(cards: Option<seq<string>>): string
  {
    Join(",", SortCards(cards))
  }

  /** Sum of the token widths. */
  function TotalWidth(xs: seq<string>): nat
  {
    if xs == [] then 0 else |xs[0]| + TotalWidth(xs[1..])
  }

  /** The head of a sorted sequence sorts at or before each of its tokens. */
  lemma SortedHeadLeast(a: seq<string>, x: string)
    requires Sorted(a) && x in a
    ensures Ordinal.Le(a[0], x)
  {
    var i :| 0 <= i < |a| && a[i] == x;
    if i == 0 {
      Ordinal.LeReflexive(x);
    }
  }

  /** Taking off the head takes one copy of it out of the multiset. */
  lemma TailMultiset(a: seq<string>)
    requires a != []
    ensures multiset(a[1..]) == multiset(a) - multiset{a[0]}
  {
    assert a == [a[0]] + a[1..];
  }

  /** Two sorted sequences holding the same tokens are equal: the sort result is unique. */
  lemma {:induction false} SortedUnique(a: seq<string>, b: seq<string>)
    requires Sorted(a) && Sorted(b)
    requires multiset(a) == multiset(b)
    ensures a == b
  {
    assert |a| == |multiset(a)| == |multiset(b)| == |b|;
    if a != [] {
      assert a[0] in multiset(b) && b[0] in multiset(a);
      SortedHeadLeast(b, a[0]);
      SortedHeadLeast(a, b[0]);
      Ordinal.LeAntisymmetric(a[0], b[0]);
      TailMultiset(a);
      TailMultiset(b);
      SortedUnique(a[1..], b[1..]);
      assert a == [a[0]] + a[1..] && b == [b[0]] + b[1..];
    }
  }

  /** The canonical form does not depend on the order in which the tokens arrive. */
  lemma CanonicalCardsPermutation(a: seq<string>, b: seq<string>)
    requires multiset(a) == multiset(b)
    ensures CanonicalCards(Some(a)) == CanonicalCards(Some(b))
  {
    SortCardsSpec(Some(a));
    SortCardsSpec(Some(b));
    SortedUnique(SortCards(Some(a)), SortCards(Some(b)));
  }

  /** Sorting tokens that are already in order leaves them as they are. */
  lemma SortIdempotent(s: seq<string>)
    requires Sorted(s)
    ensures Sort(s) == s
  {
    SortSpec(s);
    SortedUnique(Sort(s), s);
  }

  /** Re-canonicalising the sorted tokens yields the same string. */
  lemma CanonicalCardsIdempotent(cards: Option<seq<string>>)
    ensures CanonicalCards(Some(SortCards(cards))) == CanonicalCards(cards)
  {
    SortCardsSpec(cards);
    SortIdempotent(SortCards(cards));
  }

  /** Joined length: the token widths plus one separator between each pair of neighbours. */
  lemma {:induction false} JoinLength(sep: string, xs: seq<string>)
    ensures |xs| == 0 ==> |Join(sep, xs)| == 0
    ensures |xs| > 0 ==> |Join(sep, xs)| == TotalWidth(xs) + (|xs| - 1) * |sep|
  {
    if |xs| > 1 {
      JoinLength(sep, xs[1..]);
      assert xs[1..][1..] == xs[2..];
    }
  }

  lemma {:induction false} InsertWidth(x: string, s: seq<string>)
    requires Sorted(s)
    ensures TotalWidth(Insert(x, s)) == TotalWidth(s) + |x|
  {
    if s != [] && !Ordinal.Le(x, s[0]) {
      InsertWidth(x, s[1..]);
      assert ([s[0]] + Insert(x, s[1..]))[1..] == Insert(x, s[1..]);
    }
  }

  /** Sorting keeps the total width of the tokens. */
  lemma {:induction false} SortWidth(s: seq<string>)
    ensures TotalWidth(Sort(s)) == TotalWidth(s)
  {
    if s != [] {
      SortWidth(s[1..]);
      SortSpec(s[1..]);
      InsertWidth(s[0], Sort(s[1..]));
    }
  }

  /** Width and count of the canonical form: the sum of the token widths plus the separators. */
  lemma CanonicalCardsLength(tokens: seq<string>)
    ensures |CanonicalCards(Some(tokens))| == if tokens == [] then 0 else TotalWidth(tokens) + |tokens| - 1
  {
    var sorted := SortCards(Some(tokens));
    SortCardsSpec(Some(tokens));
    assert |sorted| == |multiset(sorted)| == |multiset(tokens)| == |tokens|;
    JoinLength(",", sorted);
    SortWidth(tokens);
  }

  /** An absent token array canonicalises to the empty string (the pre-flop board). */
  lemma CanonicalCardsAbsent()
    ensures CanonicalCards(None) == ""
  {
  }
}
