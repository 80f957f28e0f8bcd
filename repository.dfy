/**
 * The in-memory expense store: a map from id to record plus an id counter that
 * starts at 1. Concurrency is not modelled: each operation is one sequential step.
 */
module Repository {
  import opened Wrappers
  import opened ExpenseModel

  /** The entries of `store` whose keys lie in `keys`. */
  function Restrict(store: map<int, Expense>, keys: set<int>): map<int, Expense> {
    map k | k in store && k in keys :: store[k]
  }

  /** Appending the record of one more key extends a snapshot of the keys seen so far. */
  lemma SnapshotStep(r: seq<Expense>, store: map<int, Expense>, done: set<int>, k: int)
    requires forall j :: j in store ==> store[j].id == Some(j)
    requires IsSnapshotOf(r, Restrict(store, done))
    requires k in store && k !in done
    ensures IsSnapshotOf(r + [store[k]], Restrict(store, done + {k}))
  {
    var r' := r + [store[k]];
    forall i | 0 <= i < |r|
      ensures r'[i].id != store[k].id
    {
      assert r[i].id.value in done;
    }
    assert r'[|r|] == store[k];
    forall j | j in Restrict(store, done + {k})
      ensures Restrict(store, done + {k})[j] in r'
    {
      if j != k {
        assert j in Restrict(store, done);
      }
    }
  }

  /** A non-empty key set has a member to pick next. */
  lemma NonEmptyHasMember(s: set<int>)
    requires s != {}
    ensures exists k :: k in s
  {
    assert (forall k :: k !in s) ==> s == {};
  }

  class ExpenseRepository {
    /** The map from id to stored record. */
    var store: map<int, Expense>
    /** The next id `save` hands out; it only ever grows. */
    var nextId: int
    /** Every id the counter has handed out so far, including deleted ones. */
    ghost var issued: set<int>

    /**
     * Every record is stored under its own id, and every id handed out lies
     * between 1 and the counter.
     */
    ghost predicate Valid()
      reads this
    {
      && 1 <= nextId
      && (forall k :: k in store ==> store[k].id == Some(k))
      && (forall i :: i in issued ==> 1 <= i < nextId)
    }

    /** Every stored id was handed out by the counter (no caller chose its own id). */
    ghost predicate OnlyIssuedIds()
      reads this
    {
      store.Keys <= issued
    }

    constructor ()
      ensures Valid() && OnlyIssuedIds()
      ensures store == map[] && nextId == 1 && issued == {}
    {
      store := map[];
      nextId := 1;
      issued := {};
    }

    /**
     * Saves a record: one without an id gets the counter's value as its id and
     * the counter moves on by one; a record with an id keeps it. Either way the
     * record is put under its id, replacing whatever was there.
     */
    method Save(e: Expense) returns (r: Expense)
      requires Valid()
      modifies this
      ensures Valid()
      ensures r.id.Some?
      ensures e.id.None? ==> r == e.(id := Some(old(nextId))) && nextId == old(nextId) + 1
      ensures e.id.None? ==> forall i :: i in old(issued) ==> i < r.id.value
      ensures e.id.None? ==> issued == old(issued) + {r.id.value}
      ensures e.id.Some? ==> r == e && nextId == old(nextId) && issued == old(issued)
      ensures store == old(store)[r.id.value := r]
      ensures FindById(r.id.value) == Some(r)
      ensures e.id.None? && old(OnlyIssuedIds()) ==> r.id.value !in old(store)
    {
      r := e;
      if e.id.None? {
        r := e.(id := Some(nextId));
        issued := issued + {nextId};
        nextId := nextId + 1;
      }
      store := store[r.id.value := r];
    }

    /** The record stored under `id`, if any. */
    function FindById(id: int): (r: Option<Expense>)
      reads this
      ensures r.Some? <==> id in store
      ensures r.Some? ==> r.value == store[id]
    {
      if id in store then Some(store[id]) else None
    }

    /** A copy of all stored records, in an unspecified order. */
    method FindAll() returns (r: seq<Expense>)
      requires Valid()
      ensures IsSnapshotOf(r, store)
      ensures |r| == Count()
    {
      var todo := store.Keys;
      ghost var done: set<int> := {};
      r := [];
      while todo != {}
        invariant todo !! done && todo + done == store.Keys
        invariant IsSnapshotOf(r, Restrict(store, done))
        invariant |r| == |done|
        decreases todo
      {
        NonEmptyHasMember(todo);
        var k :| k in todo;
        SnapshotStep(r, store, done, k);
        r := r + [store[k]];
        todo, done := todo - {k}, done + {k};
      }
      assert Restrict(store, done) == store;
    }

    /** The stored records whose user id is exactly `userId`. */
    method FindByUserId(userId: string) returns (r: seq<Expense>)
      requires Valid()
      ensures IsSnapshotOf(r, StoreByUserId(store, userId))
      ensures r == [] <==> forall k :: k in store ==> store[k].userId != userId
    {
      var all := FindAll();
      r := ByUserId(all, userId);
      ByUserIdOfSnapshot(all, store, userId);
      forall k | k in store && store[k].userId == userId
        ensures store[k] in r
      {
        assert k in StoreByUserId(store, userId);
      }
      if r != [] {
        var k := r[0].id.value;
        assert k in StoreByUserId(store, userId);
        assert k in store && store[k].userId == userId;
      }
    }

    /** The stored records whose category is exactly `category`. */
    method FindByCategory(category: string) returns (r: seq<Expense>)
      requires Valid()
      ensures IsSnapshotOf(r, StoreByCategory(store, category))
      ensures r == [] <==> forall k :: k in store ==> store[k].category != category
    {
      var all := FindAll();
      r := ByCategory(all, category);
      ByCategoryOfSnapshot(all, store, category);
      forall k | k in store && store[k].category == category
        ensures store[k] in r
      {
        assert k in StoreByCategory(store, category);
      }
      if r != [] {
        var k := r[0].id.value;
        assert k in StoreByCategory(store, category);
        assert k in store && store[k].category == category;
      }
    }

    /** Removes the record under `id`; reports whether there was one. */
    method DeleteById(id: int) returns (removed: bool)
      requires Valid()
      modifies this
      ensures Valid()
      ensures removed <==> id in old(store)
      ensures store == old(store) - {id}
      ensures nextId == old(nextId) && issued == old(issued)
    {
      removed := id in store;
      store := store - {id};
    }

    /** Removes every record; the counter is left where it is. */
    method DeleteAll()
      requires Valid()
      modifies this
      ensures Valid()
      ensures store == map[] && Count() == 0
      ensures nextId == old(nextId) && issued == old(issued)
    {
      store := map[];
    }

    /** The number of stored records. */
    function Count(): (n: nat)
      reads this
      ensures n == 0 <==> store == map[]
    {
      |store|
    }

    /** Whether a record is stored under `id`. */
    function ExistsById(id: int): (b: bool)
      reads this
      ensures b <==> FindById(id).Some?
    {
      id in store
    }
  }
}
