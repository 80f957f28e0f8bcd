/**
 * The category summary: a snapshot of records is grouped by exact category,
 * and each group yields its total, its size and its average rounded half-up
 * to hundredths. Amounts are in hundredths, so the rounded average is
 * RoundHalfUp(total, count) hundredths.
 *
 * Groups come out in order of the first record of each category; the store's
 * iteration order is unspecified anyway, and SummarizeOrderIndependent shows
 * that the set of entries does not depend on the order of the snapshot.
 */
module Aggregation {
  import opened Wrappers
  import opened ExpenseModel
  import opened Rounding

  /** The statistics of one category. */
  datatype CategorySummary = CategorySummary(
    category: string,
    totalAmount: int,
    count: nat,
    averageAmount: int)

  /** The exact sum of the amounts, folded from zero left to right. */
  function SumAmounts(s: seq<Expense>): (r: int)
    ensures s == [] ==> r == 0
    ensures |s| == 1 ==> r == s[0].amount
    ensures (forall i :: 0 <= i < |s| ==> s[i].amount >= 0) ==> r >= 0
    ensures (forall i :: 0 <= i < |s| ==> s[i].amount <= 0) ==> r <= 0
  {
    if s == [] then 0 else SumAmounts(s[..|s| - 1]) + s[|s| - 1].amount
  }

  /** The distinct categories of `s`, in order of first occurrence. */
  function Categories(s: seq<Expense>): (r: seq<string>)
    ensures forall c :: c in r <==> ByCategory(s, c) != []
    ensures forall i, j :: 0 <= i < j < |r| ==> r[i] != r[j]
  {
    if s == [] then []
    else
      var cs, last := Categories(s[..|s| - 1]), s[|s| - 1];
      if last.category in cs then cs else cs + [last.category]
  }

  /** Grouping by category: each present category maps to its records, in order. */
  function Group(s: seq<Expense>): (g: map<string, seq<Expense>>)
    ensures forall c :: c in g <==> ByCategory(s, c) != []
    ensures forall c :: c in g ==> g[c] == ByCategory(s, c)
  {
    if s == [] then map[]
    else
      var g, last := Group(s[..|s| - 1]), s[|s| - 1];
      var c := last.category;
      g[c := (if c in g then g[c] else []) + [last]]
  }

  /** The summary of one group; a group can be empty only in theory, and then averages 0. */
  function SummaryOf(category: string, expenses: seq<Expense>): (r: CategorySummary)
    ensures r.category == category && r.count == |expenses|
    ensures r.totalAmount == SumAmounts(expenses)
    ensures r.count == 0 ==> r.averageAmount == 0
    ensures r.count > 0 ==> -(r.count as int) <= 2 * (r.totalAmount - r.averageAmount * r.count) <= r.count
    ensures r.count > 0 ==> r.averageAmount == RoundHalfUp(r.totalAmount, r.count)
  {
    var total := SumAmounts(expenses);
    var count := |expenses|;
    var average := if count > 0 then RoundHalfUp(total, count) else 0;
    CategorySummary(category, total, count, average)
  }

  /** The category summary of a snapshot: one entry per group, in the order of Categories. */
  function Summarize(s: seq<Expense>): (r: seq<CategorySummary>)
    ensures |r| == |Categories(s)|
    ensures forall i :: 0 <= i < |r| ==> r[i] == SummaryOf(Categories(s)[i], ByCategory(s, Categories(s)[i]))
  {
    var groups, cats := Group(s), Categories(s);
    seq(|cats|, i requires 0 <= i < |cats| => SummaryOf(cats[i], groups[cats[i]]))
  }

  /** The summary has exactly one entry per category present in the snapshot. */
  lemma SummarizeCategories(s: seq<Expense>)
    ensures forall c :: ByCategory(s, c) != [] <==> exists i :: 0 <= i < |Summarize(s)| && Summarize(s)[i].category == c
    ensures forall i, j :: 0 <= i < j < |Summarize(s)| ==> Summarize(s)[i].category != Summarize(s)[j].category
  {
    var r, cats := Summarize(s), Categories(s);
    assert forall i :: 0 <= i < |r| ==> r[i].category == cats[i];
    forall c
      ensures ByCategory(s, c) != [] <==> exists i :: 0 <= i < |r| && r[i].category == c
    {
      if ByCategory(s, c) != [] {
        var i :| 0 <= i < |cats| && cats[i] == c;
        assert r[i].category == c;
      }
    }
  }

  /**
   * Each entry holds the size of its category's group (never zero), the exact
   * sum of the group's amounts, and that sum divided by the size, rounded half-up.
   */
  lemma SummarizeEntries(s: seq<Expense>)
    ensures forall x :: x in Summarize(s) ==> x.count == |ByCategory(s, x.category)| > 0
    ensures forall x :: x in Summarize(s) ==> x.totalAmount == SumAmounts(ByCategory(s, x.category))
    ensures forall x :: x in Summarize(s) ==> x.averageAmount == RoundHalfUp(x.totalAmount, x.count)
  {
    var r, cats := Summarize(s), Categories(s);
    forall x | x in r
      ensures x.count == |ByCategory(s, x.category)| > 0
      ensures x.averageAmount == RoundHalfUp(x.totalAmount, x.count)
    {
      var i :| 0 <= i < |r| && r[i] == x;
      assert cats[i] in cats;
    }
  }

  /** An empty snapshot has an empty summary, and only an empty one. */
  lemma SummarizeEmpty(s: seq<Expense>)
    ensures Summarize(s) == [] <==> s == []
  {
    if s != [] {
      assert ByCategory(s, s[0].category) != [] by {
        assert s[0] in s;
      }
      SummarizeCategories(s);
    }
  }

  /** The sum of the entries' counts. */
  function TotalCount(r: seq<CategorySummary>): int {
    if r == [] then 0 else TotalCount(r[..|r| - 1]) + r[|r| - 1].count
  }

  /** The sum of the sizes of the groups of the categories `cs`. */
  function GroupSizes(s: seq<Expense>, cs: seq<string>): int {
    if cs == [] then 0 else GroupSizes(s, cs[..|cs| - 1]) + |ByCategory(s, cs[|cs| - 1])|
  }

  lemma {:induction false} TotalCountIsGroupSizes(s: seq<Expense>, r: seq<CategorySummary>, cs: seq<string>)
    requires |r| == |cs|
    requires forall i :: 0 <= i < |r| ==> r[i].count == |ByCategory(s, cs[i])|
    ensures TotalCount(r) == GroupSizes(s, cs)
  {
    if r != [] {
      TotalCountIsGroupSizes(s, r[..|r| - 1], cs[..|cs| - 1]);
    }
  }

  /** Appending one record grows exactly one of the groups of distinct categories `cs`, if any. */
  lemma {:induction false} GroupSizesAppend(s: seq<Expense>, e: Expense, cs: seq<string>)
    requires forall i, j :: 0 <= i < j < |cs| ==> cs[i] != cs[j]
    ensures GroupSizes(s + [e], cs) == GroupSizes(s, cs) + if e.category in cs then 1 else 0
  {
    assert (s + [e])[..|s|] == s;
    if cs != [] {
      var init := cs[..|cs| - 1];
      GroupSizesAppend(s, e, init);
      assert cs == init + [cs[|cs| - 1]];
    }
  }

  /** The groups of all categories together hold every record of the snapshot. */
  lemma {:induction false} GroupSizesCoverAll(s: seq<Expense>)
    ensures GroupSizes(s, Categories(s)) == |s|
  {
    if s != [] {
      var init, e := s[..|s| - 1], s[|s| - 1];
      assert s == init + [e];
      var cs := Categories(init);
      GroupSizesCoverAll(init);
      GroupSizesAppend(init, e, cs);
      if e.category !in cs {
        assert ByCategory(init, e.category) == [];
        assert (cs + [e.category])[..|cs|] == cs;
      }
    }
  }

  /** The counts of the summary add up to the number of records in the snapshot. */
  lemma SummaryCountsCoverAll(s: seq<Expense>)
    ensures TotalCount(Summarize(s)) == |s|
  {
    TotalCountIsGroupSizes(s, Summarize(s), Categories(s));
    GroupSizesCoverAll(s);
  }

  lemma {:induction false} SumAmountsAppend(a: seq<Expense>, b: seq<Expense>)
    ensures SumAmounts(a + b) == SumAmounts(a) + SumAmounts(b)
  {
    if b == [] {
      assert a + b == a;
    } else {
      var init := b[..|b| - 1];
      SumAmountsAppend(a, init);
      assert (a + b)[..|a + b| - 1] == a + init;
    }
  }

  /** The sum of the amounts does not depend on the order of the records. */
  lemma {:induction false} SumAmountsPermutation(a: seq<Expense>, b: seq<Expense>)
    requires multiset(a) == multiset(b)
    ensures SumAmounts(a) == SumAmounts(b)
    decreases |a|
  {
    if a != [] {
      var init, x := a[..|a| - 1], a[|a| - 1];
      assert a == init + [x];
      assert x in multiset(b);
      var j :| 0 <= j < |b| && b[j] == x;
      var rest := b[..j] + b[j + 1..];
      assert b == b[..j] + [x] + b[j + 1..];
      assert multiset(b) == multiset(b[..j]) + multiset{x} + multiset(b[j + 1..]);
      assert multiset(a) == multiset(init) + multiset{x};
      assert multiset(rest) == multiset(b[..j]) + multiset(b[j + 1..]);
      assert multiset(rest) == multiset(b) - multiset{x};
      assert multiset(init) == multiset(a) - multiset{x};
      SumAmountsPermutation(init, rest);
      SumAmountsAppend(b[..j] + [x], b[j + 1..]);
      SumAmountsAppend(b[..j], [x]);
      SumAmountsAppend(b[..j], b[j + 1..]);
      assert [x][..0] == [];
    }
  }

  /** A category's group holds each record of that category as often as the snapshot does. */
  lemma {:induction false} ByCategoryMultiset(s: seq<Expense>, c: string)
    ensures forall e :: multiset(ByCategory(s, c))[e] == if e.category == c then multiset(s)[e] else 0
  {
    if s != [] {
      var init, x := s[..|s| - 1], s[|s| - 1];
      assert s == init + [x];
      ByCategoryMultiset(init, c);
    }
  }

  /** A user's records are kept as often as the snapshot holds them; others are dropped. */
  lemma {:induction false} ByUserIdMultiset(s: seq<Expense>, u: string)
    ensures forall e :: multiset(ByUserId(s, u))[e] == if e.userId == u then multiset(s)[e] else 0
  {
    if s != [] {
      var init, x := s[..|s| - 1], s[|s| - 1];
      assert s == init + [x];
      ByUserIdMultiset(init, u);
    }
  }

  /** A category's group has the same size and total in any ordering of the snapshot. */
  lemma GroupPermutation(s: seq<Expense>, t: seq<Expense>, c: string)
    requires multiset(s) == multiset(t)
    ensures multiset(ByCategory(s, c)) == multiset(ByCategory(t, c))
    ensures SummaryOf(c, ByCategory(s, c)) == SummaryOf(c, ByCategory(t, c))
  {
    ByCategoryMultiset(s, c);
    ByCategoryMultiset(t, c);
    assert multiset(ByCategory(s, c)) == multiset(ByCategory(t, c));
    SumAmountsPermutation(ByCategory(s, c), ByCategory(t, c));
    assert |ByCategory(s, c)| == |multiset(ByCategory(s, c))|;
    assert |ByCategory(t, c)| == |multiset(ByCategory(t, c))|;
  }

  /**
   * The summary does not depend on the order of the snapshot: two snapshots
   * holding the same records, in any order, have the same set of entries.
   */
  lemma SummarizeOrderIndependent(s: seq<Expense>, t: seq<Expense>)
    requires multiset(s) == multiset(t)
    ensures forall x :: x in Summarize(s) <==> x in Summarize(t)
  {
    SummaryMembership(s);
    SummaryMembership(t);
    forall x: CategorySummary
      ensures x in Summarize(s) <==> x in Summarize(t)
    {
      GroupPermutation(s, t, x.category);
      assert ByCategory(s, x.category) == [] <==> multiset(ByCategory(s, x.category)) == multiset{};
      assert ByCategory(t, x.category) == [] <==> multiset(ByCategory(t, x.category)) == multiset{};
    }
  }

  /** An entry belongs to the summary exactly when it is the summary of a present category. */
  lemma SummaryMembership(s: seq<Expense>)
    ensures forall x :: x in Summarize(s) <==>
      ByCategory(s, x.category) != [] && x == SummaryOf(x.category, ByCategory(s, x.category))
  {
    var r, cats := Summarize(s), Categories(s);
    forall x: CategorySummary | ByCategory(s, x.category) != [] && x == SummaryOf(x.category, ByCategory(s, x.category))
      ensures x in r
    {
      var i :| 0 <= i < |cats| && cats[i] == x.category;
      assert r[i] == x;
    }
  }

  /** Half-up rounding at the cent: 30.01 / 3 is 10.00, and 0.01 / 2 = 0.005 rounds up to 0.01. */
  lemma RoundingExamples()
    ensures RoundHalfUp(3001, 3) == 1000
    ensures RoundHalfUp(1, 2) == 1 && RoundHalfUp(-1, 2) == -1
    ensures RoundHalfUp(2500, 2) == 1250
  {
  }

  /** Two food records of 10.00 and 15.00 and one transport record of 7.50. */
  function ExampleSnapshot(date: Timestamp): seq<Expense> {
    [ Expense(Some(1), "lunch", 1000, "food", date, "default-user"),
      Expense(Some(2), "dinner", 1500, "food", date, "default-user"),
      Expense(Some(3), "bus", 750, "transport", date, "default-user") ]
  }

  lemma {:induction false} ExampleCategories(date: Timestamp)
    ensures Categories(ExampleSnapshot(date)) == ["food", "transport"]
  {
    var s := ExampleSnapshot(date);
    assert Categories(s[..1]) == ["food"] by {
      assert s[..1][..0] == [];
      assert Categories(s[..1][..0]) == [];
    }
    assert Categories(s[..2]) == ["food"] by {
      assert s[..2][..1] == s[..1];
    }
    assert "transport" !in ["food"];
    assert s[..3] == s;
  }

  lemma {:induction false} ExampleFood(date: Timestamp)
    ensures var s := ExampleSnapshot(date);
      ByCategory(s, "food") == s[..2] && SumAmounts(s[..2]) == 2500
  {
    var s := ExampleSnapshot(date);
    assert ByCategory(s[..2], "food") == s[..2] by {
      assert s[..1][..0] == [];
      assert s[..2][..1] == s[..1];
    }
    assert SumAmounts(s[..2]) == 2500 by {
      assert s[..1][..0] == [];
      assert SumAmounts(s[..1]) == 1000;
      assert s[..2][..1] == s[..1];
    }
    assert s[..3] == s;
  }

  lemma {:induction false} ExampleTransport(date: Timestamp)
    ensures var s := ExampleSnapshot(date);
      ByCategory(s, "transport") == [s[2]] && SumAmounts([s[2]]) == 750
  {
    var s := ExampleSnapshot(date);
    assert ByCategory(s[..2], "transport") == [] by {
      assert s[..1][..0] == [];
      assert s[..2][..1] == s[..1];
    }
    assert SumAmounts([s[2]]) == 750 by {
      assert [s[2]][..0] == [];
    }
    assert s[..3] == s;
  }

  lemma {:induction false} ExampleEntries(date: Timestamp)
    ensures var s := ExampleSnapshot(date);
      && SummaryOf("food", s[..2]) == CategorySummary("food", 2500, 2, 1250)
      && SummaryOf("transport", [s[2]]) == CategorySummary("transport", 750, 1, 750)
  {
    ExampleFood(date);
    ExampleTransport(date);
    RoundingExamples();
    assert RoundHalfUp(750, 1) == 750;
  }

  /** The summary of the example snapshot: food totals 25.00 over 2, transport 7.50 over 1. */
  lemma {:induction false} SummaryExample(date: Timestamp)
    ensures Summarize(ExampleSnapshot(date)) ==
      [CategorySummary("food", 2500, 2, 1250), CategorySummary("transport", 750, 1, 750)]
  {
    var s := ExampleSnapshot(date);
    ExampleCategories(date);
    ExampleFood(date);
    ExampleTransport(date);
    ExampleEntries(date);
    var r := Summarize(s);
    assert |r| == 2;
    assert r[0] == SummaryOf("food", s[..2]);
    assert r[1] == SummaryOf("transport", [s[2]]);
  }
}
