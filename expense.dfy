/**
 * The stored entity of the expense service, and the order-preserving filters
 * that the repository's finders and the category summary are built from.
 *
 * Amounts are exact fixed-point values in hundredths of the currency unit
 * (cents); dates are an abstract timestamp supplied by the caller.
 */
module ExpenseModel {
  import opened Wrappers

  /** A creation time; the clock itself is outside the model. */
  type Timestamp = int

  /** One expense record. `id` is `None` until the store assigns one. */
  datatype Expense = Expense(
    id: Option<int>,
    description: string,
    amount: int,
    category: string,
    date: Timestamp,
    userId: string)

  /** No two records of `s` carry the same id. */
  ghost predicate DistinctIds(s: seq<Expense>) {
    forall i, j :: 0 <= i < j < |s| ==> s[i].id != s[j].id
  }

  /**
   * `r` lists the records of `store` as a hash-map iteration would: every element
   * is the record stored under its own id, every stored record occurs, and no
   * id occurs twice. The order is left open.
   */
  ghost predicate IsSnapshotOf(r: seq<Expense>, store: map<int, Expense>) {
    && (forall i :: 0 <= i < |r| ==> r[i].id.Some? && r[i].id.value in store && store[r[i].id.value] == r[i])
    && (forall k :: k in store ==> store[k] in r)
    && DistinctIds(r)
  }

  /** The records of `s` whose category is exactly `c`, in their order in `s`. */
  function ByCategory(s: seq<Expense>, c: string): (r: seq<Expense>)
    ensures |r| <= |s|
    ensures forall e :: e in r <==> e in s && e.category == c
  {
    if s == [] then []
    else
      var init, last := s[..|s| - 1], s[|s| - 1];
      assert s == init + [last];
      ByCategory(init, c) + if last.category == c then [last] else []
  }

  /** The records of `s` whose user id is exactly `u`, in their order in `s`. */
  function ByUserId(s: seq<Expense>, u: string): (r: seq<Expense>)
    ensures |r| <= |s|
    ensures forall e :: e in r <==> e in s && e.userId == u
  {
    if s == [] then []
    else
      var init, last := s[..|s| - 1], s[|s| - 1];
      assert s == init + [last];
      ByUserId(init, u) + if last.userId == u then [last] else []
  }

  /** Filtering keeps ids distinct: it only drops records. */
  lemma {:induction false} ByCategoryDistinct(s: seq<Expense>, c: string)
    requires DistinctIds(s)
    ensures DistinctIds(ByCategory(s, c))
  {
    if s != [] {
      var init, last := s[..|s| - 1], s[|s| - 1];
      assert s == init + [last];
      ByCategoryDistinct(init, c);
      var ri := ByCategory(init, c);
      forall i | 0 <= i < |ri| ensures ri[i].id != last.id {
        assert ri[i] in init;
      }
    }
  }

  lemma {:induction false} ByUserIdDistinct(s: seq<Expense>, u: string)
    requires DistinctIds(s)
    ensures DistinctIds(ByUserId(s, u))
  {
    if s != [] {
      var init, last := s[..|s| - 1], s[|s| - 1];
      assert s == init + [last];
      ByUserIdDistinct(init, u);
      var ri := ByUserId(init, u);
      forall i | 0 <= i < |ri| ensures ri[i].id != last.id {
        assert ri[i] in init;
      }
    }
  }

  /** The part of `store` whose records have category `c`. */
  function StoreByCategory(store: map<int, Expense>, c: string): map<int, Expense> {
    map k | k in store && store[k].category == c :: store[k]
  }

  /** The part of `store` whose records belong to user `u`. */
  function StoreByUserId(store: map<int, Expense>, u: string): map<int, Expense> {
    map k | k in store && store[k].userId == u :: store[k]
  }

  /** A filter of a snapshot is a snapshot of the correspondingly filtered store. */
  lemma ByCategoryOfSnapshot(r: seq<Expense>, store: map<int, Expense>, c: string)
    requires IsSnapshotOf(r, store)
    ensures IsSnapshotOf(ByCategory(r, c), StoreByCategory(store, c))
  {
    ByCategoryDistinct(r, c);
  }

  lemma ByUserIdOfSnapshot(r: seq<Expense>, store: map<int, Expense>, u: string)
    requires IsSnapshotOf(r, store)
    ensures IsSnapshotOf(ByUserId(r, u), StoreByUserId(store, u))
  {
    ByUserIdDistinct(r, u);
  }
}
