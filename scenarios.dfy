/** The listing on the three items of the repository's price and keyword
    scenarios (`tests/utils.py`, `create_test_items`). */
module Scenarios {
  import opened Outcomes
  import opened Search
  import opened ItemsLogic

  function ThreeItems(userId: int): seq<Item>
  {
    [ Item(1, "test Item 1", Some("Description 1"), 10.0, userId),
      Item(2, "test Item 2", Some("Description 2"), 20.0, userId),
      Item(3, "very very expensive Item", Some("ouch"), 1000.0, userId) ]
  }

  /** A stage every row passes keeps the whole table. */
  lemma {:induction false} WhereKeepsAll(rows: seq<Item>, c: Criterion)
    requires forall k :: 0 <= k < |rows| ==> Holds(c, rows[k])
    ensures Where(rows, c) == rows
  {
    if rows != [] {
      WhereKeepsAll(rows[1..], c);
    }
  }

  lemma ThreeItemsOwned(userId: int)
    ensures Where(ThreeItems(userId), OwnedBy(userId)) == ThreeItems(userId)
  {
    WhereKeepsAll(ThreeItems(userId), OwnedBy(userId));
  }

  /** Bounds 10 and 20 keep exactly the two items priced at the bounds. */
  lemma PriceRangeIsInclusive(userId: int)
    ensures var rows := ThreeItems(userId);
            GetItems(rows, userId, 0, 10, Some(10.0), Some(20.0), None) == rows[..2]
  {
    var rows := ThreeItems(userId);
    var cs := Criteria(userId, Some(10.0), Some(20.0), None);
    assert cs == [OwnedBy(userId), PriceAtLeast(10.0), PriceAtMost(20.0)];
    WhereKeepsAll(rows, OwnedBy(userId));
    WhereKeepsAll(rows, PriceAtLeast(10.0));
    WhereKeepsAll(rows[..2], PriceAtMost(20.0));
    WhereIgnoresAppend(rows[..2], rows[2], PriceAtMost(20.0));
    assert rows == rows[..2] + [rows[2]];
    assert Chain(rows, cs) == Chain(rows, cs[1..]) == Chain(rows, cs[2..]);
    assert Chain(rows[..2], cs[3..]) == rows[..2];
  }

  /** "expensive" does not occur in a string with no letter 'x'. */
  lemma NoOccurrence(s: string, lq: string)
    requires lq == "expensive"
    requires forall k :: 0 <= k < |s| ==> s[k] != 'x' && s[k] != 'X'
    ensures forall i :: !OccursAt(Lower(s), lq, i)
  {
    var ls := Lower(s);
    forall i ensures !OccursAt(ls, lq, i) {
      if 0 <= i && i + |lq| <= |ls| {
        assert ls[i..i + |lq|][1] == ls[i + 1] != 'x';
      }
    }
  }

  /** Lower-casing commutes with taking a slice. */
  lemma LowerSlice(s: string, i: nat, j: nat)
    requires i <= j <= |s|
    ensures Lower(s)[i..j] == Lower(s[i..j])
  {
  }

  lemma ExpensiveMatches(userId: int)
    ensures Holds(Mentions("Expensive"), ThreeItems(userId)[2])
  {
    var name := ThreeItems(userId)[2].name;
    assert name[10..19] == "expensive";
    assert Lower("Expensive") == "expensive" == Lower("expensive");
    LowerSlice(name, 10, 19);
    assert OccursAt(Lower(name), Lower("Expensive"), 10);
  }

  lemma OthersDoNotMatch(userId: int, k: nat)
    requires k < 2
    ensures !Holds(Mentions("Expensive"), ThreeItems(userId)[k])
  {
    var it := ThreeItems(userId)[k];
    assert Lower("Expensive") == "expensive";
    NoOccurrence(it.name, Lower("Expensive"));
    NoOccurrence(it.description.value, Lower("Expensive"));
  }

  /** A stage that rejects the first two of three rows and keeps the third. */
  lemma WhereKeepsOnlyLast(rows: seq<Item>, c: Criterion)
    requires |rows| == 3 && !Holds(c, rows[0]) && !Holds(c, rows[1]) && Holds(c, rows[2])
    ensures Where(rows, c) == rows[2..]
  {
    assert rows[1..][1..] == rows[2..];
    assert Where(rows[2..][1..], c) == [];
  }

  /** A listing with only a keyword, over rows that are all the caller's. */
  lemma KeywordOnlyListing(rows: seq<Item>, userId: int, q: string)
    requires q != "" && Where(rows, OwnedBy(userId)) == rows
    ensures GetItems(rows, userId, 0, 10, None, None, Some(q)) == Page(Where(rows, Mentions(q)), 0, 10)
  {
    var cs := Criteria(userId, None, None, Some(q));
    assert cs == [OwnedBy(userId), Mentions(q)];
    assert Chain(rows, cs) == Chain(rows, cs[1..]) == Chain(Where(rows, Mentions(q)), cs[2..]);
  }

  /** The query "Expensive" matches only the item named
      "very very expensive Item", whatever the case. */
  lemma KeywordSearchIgnoresCase(userId: int)
    ensures var rows := ThreeItems(userId);
            GetItems(rows, userId, 0, 10, None, None, Some("Expensive")) == rows[2..]
  {
    var rows := ThreeItems(userId);
    ExpensiveMatches(userId);
    OthersDoNotMatch(userId, 0);
    OthersDoNotMatch(userId, 1);
    WhereKeepsOnlyLast(rows, Mentions("Expensive"));
    ThreeItemsOwned(userId);
    KeywordOnlyListing(rows, userId, "Expensive");
  }
}
