/**
 * The service layer over the repository: creation stamps the default user and
 * the creation time, update and delete report an absent id as not-found, and
 * the category summary is computed from a snapshot of the store.
 *
 * The service's own invariant (on top of the repository's) is that every stored
 * id was handed out by the counter: the service never saves a record under an
 * id of its own choosing, so a freshly created record never lands on an
 * existing one.
 */
module Service {
  import opened Wrappers
  import opened ExpenseModel
  import opened Repository
  import opened Aggregation

  /** The user every new expense is attributed to. */
  const DefaultUser: string := "default-user"

  /** The fields a caller supplies when creating an expense. */
  datatype CreateRequest = CreateRequest(description: string, amount: int, category: string)

  /** The fields a caller may replace on an existing expense. */
  datatype UpdateRequest = UpdateRequest(description: string, amount: int, category: string)

  /** What the service hands back for one expense. */
  datatype ExpenseResponse = ExpenseResponse(
    id: Option<int>,
    description: string,
    amount: int,
    category: string,
    date: Timestamp,
    userId: string)

  /** The not-found error, carrying the requested id. */
  datatype ServiceError = NotFound(id: int)

  /** The confirmation returned by the changing operations, carrying the id concerned. */
  datatype Message = Created(id: int) | Updated(id: int) | Deleted(id: int)

  /** The field-by-field copy of a record into a response. */
  function ToResponse(e: Expense): (r: ExpenseResponse)
    ensures r.id == e.id && r.date == e.date && r.userId == e.userId
    ensures r.description == e.description && r.amount == e.amount && r.category == e.category
  {
    ExpenseResponse(e.id, e.description, e.amount, e.category, e.date, e.userId)
  }

  /** A response determines its record: the copy loses nothing. */
  lemma ToResponseLossless(a: Expense, b: Expense)
    ensures ToResponse(a) == ToResponse(b) <==> a == b
  {
  }

  /** The responses for a list of records, in the same order. */
  function ToResponses(s: seq<Expense>): (r: seq<ExpenseResponse>)
    ensures |r| == |s| && forall i :: 0 <= i < |s| ==> r[i] == ToResponse(s[i])
  {
    if s == [] then [] else ToResponses(s[..|s| - 1]) + [ToResponse(s[|s| - 1])]
  }

  class ExpenseService {
    const repository: ExpenseRepository

    /** The repository is consistent and holds only ids its counter handed out. */
    ghost predicate Valid()
      reads this, repository
    {
      repository.Valid() && repository.OnlyIssuedIds()
    }

    constructor (repository: ExpenseRepository)
      requires repository.Valid() && repository.OnlyIssuedIds()
      ensures Valid() && this.repository == repository
    {
      this.repository := repository;
    }

    /**
     * Stores a new record with the request's fields, the default user and the
     * creation time `now`, under a fresh id larger than every id handed out before.
     */
    method CreateExpense(request: CreateRequest, now: Timestamp) returns (m: Message)
      requires Valid()
      modifies repository
      ensures Valid()
      ensures m == Created(old(repository.nextId))
      ensures repository.nextId == old(repository.nextId) + 1
      ensures repository.issued == old(repository.issued) + {m.id}
      ensures m.id !in old(repository.store)
      ensures forall i :: i in old(repository.issued) ==> i < m.id
      ensures repository.store == old(repository.store)[m.id :=
        Expense(Some(m.id), request.description, request.amount, request.category, now, DefaultUser)]
      ensures repository.Count() == old(repository.Count()) + 1
    {
      var e := Expense(None, request.description, request.amount, request.category, now, DefaultUser);
      var saved := repository.Save(e);
      m := Created(saved.id.value);
    }

    /** Every stored record, as responses, in the store's unspecified order. */
    method GetAllExpenses() returns (r: seq<ExpenseResponse>, ghost snapshot: seq<Expense>)
      requires Valid()
      ensures IsSnapshotOf(snapshot, repository.store)
      ensures r == ToResponses(snapshot)
      ensures |r| == repository.Count()
    {
      var all := repository.FindAll();
      r, snapshot := ToResponses(all), all;
    }

    /** The record stored under `id`, or not-found. */
    method GetExpenseById(id: int) returns (r: Result<ExpenseResponse, ServiceError>)
      requires Valid()
      ensures r.Err? <==> id !in repository.store
      ensures r.Err? ==> r.error == NotFound(id)
      ensures r.Ok? ==> r.value == ToResponse(repository.store[id]) && r.value.id == Some(id)
    {
      var found := repository.FindById(id);
      if found.None? {
        return Err(NotFound(id));
      }
      r := Ok(ToResponse(found.value));
    }

    /** The records of user `userId`, as responses. */
    method GetExpensesByUserId(userId: string) returns (r: seq<ExpenseResponse>, ghost found: seq<Expense>)
      requires Valid()
      ensures IsSnapshotOf(found, StoreByUserId(repository.store, userId))
      ensures r == ToResponses(found)
      ensures forall i :: 0 <= i < |r| ==> r[i].userId == userId
      ensures r == [] <==> forall k :: k in repository.store ==> repository.store[k].userId != userId
    {
      var matching := repository.FindByUserId(userId);
      r, found := ToResponses(matching), matching;
    }

    /** The records of category `category`, as responses. */
    method GetExpensesByCategory(category: string) returns (r: seq<ExpenseResponse>, ghost found: seq<Expense>)
      requires Valid()
      ensures IsSnapshotOf(found, StoreByCategory(repository.store, category))
      ensures r == ToResponses(found)
      ensures forall i :: 0 <= i < |r| ==> r[i].category == category
      ensures r == [] <==> forall k :: k in repository.store ==> repository.store[k].category != category
    {
      var matching := repository.FindByCategory(category);
      r, found := ToResponses(matching), matching;
    }

    /**
     * Replaces description, amount and category of the record under `id`,
     * keeping its id, date and user; an absent id is not-found and changes nothing.
     */
    method UpdateExpense(id: int, request: UpdateRequest) returns (r: Result<Message, ServiceError>)
      requires Valid()
      modifies repository
      ensures Valid()
      ensures id !in old(repository.store) ==> r == Err(NotFound(id)) && repository.store == old(repository.store)
      ensures id in old(repository.store) ==> r == Ok(Updated(id)) && repository.store == old(repository.store)[id :=
        old(repository.store)[id].(description := request.description, amount := request.amount, category := request.category)]
      ensures id in old(repository.store) ==>
        && repository.store[id].id == Some(id)
        && repository.store[id].date == old(repository.store)[id].date
        && repository.store[id].userId == old(repository.store)[id].userId
      ensures repository.nextId == old(repository.nextId) && repository.issued == old(repository.issued)
      ensures repository.Count() == old(repository.Count())
    {
      var found := repository.FindById(id);
      if found.None? {
        return Err(NotFound(id));
      }
      var e := found.value.(description := request.description, amount := request.amount, category := request.category);
      var saved := repository.Save(e);
      r := Ok(Updated(id));
    }

    /** Removes the record under `id`; an absent id is not-found and changes nothing. */
    method DeleteExpense(id: int) returns (r: Result<Message, ServiceError>)
      requires Valid()
      modifies repository
      ensures Valid()
      ensures id !in old(repository.store) ==> r == Err(NotFound(id)) && repository.store == old(repository.store)
      ensures id in old(repository.store) ==>
        && r == Ok(Deleted(id))
        && repository.store == old(repository.store) - {id}
        && repository.Count() == old(repository.Count()) - 1
      ensures repository.nextId == old(repository.nextId) && repository.issued == old(repository.issued)
    {
      if !repository.ExistsById(id) {
        return Err(NotFound(id));
      }
      var removed := repository.DeleteById(id);
      r := Ok(Deleted(id));
    }

    /** The number of stored records. */
    method GetTotalExpenseCount() returns (n: nat)
      requires Valid()
      ensures n == |repository.store|
    {
      n := repository.Count();
    }

    /**
     * The category summary of a snapshot of the store: its counts add up to the
     * number of stored records, and it is empty exactly when the store is.
     */
    method GetCategorySummary() returns (r: seq<CategorySummary>, ghost snapshot: seq<Expense>)
      requires Valid()
      ensures IsSnapshotOf(snapshot, repository.store)
      ensures r == Summarize(snapshot)
      ensures TotalCount(r) == repository.Count()
      ensures r == [] <==> repository.store == map[]
    {
      var all := repository.FindAll();
      r, snapshot := Summarize(all), all;
      SummaryCountsCoverAll(snapshot);
      SummarizeEmpty(snapshot);
    }
  }

  /** Creating and then reading back yields the request's fields, the default user and the stamp. */
  method CreateThenGet(service: ExpenseService, request: CreateRequest, now: Timestamp)
    returns (m: Message, r: Result<ExpenseResponse, ServiceError>)
    requires service.Valid()
    modifies service.repository
    ensures service.Valid()
    ensures r == Ok(ExpenseResponse(Some(m.id), request.description, request.amount, request.category, now, DefaultUser))
  {
    m := service.CreateExpense(request, now);
    r := service.GetExpenseById(m.id);
  }

  /** An id freed by a delete is not handed out again: the next record gets a larger one. */
  method CreateDeleteCreate(service: ExpenseService, first: CreateRequest, second: CreateRequest, now: Timestamp)
    returns (m1: Message, m2: Message)
    requires service.Valid()
    modifies service.repository
    ensures service.Valid()
    ensures m1.id < m2.id
    ensures m1.id !in service.repository.store && m2.id in service.repository.store
  {
    m1 := service.CreateExpense(first, now);
    var d := service.DeleteExpense(m1.id);
    m2 := service.CreateExpense(second, now);
  }

  /** Two creates in a row get consecutive ids: the counter has no gaps. */
  method CreateTwice(service: ExpenseService, first: CreateRequest, second: CreateRequest, now: Timestamp)
    returns (m1: Message, m2: Message)
    requires service.Valid()
    modifies service.repository
    ensures service.Valid()
    ensures m2.id == m1.id + 1
    ensures m1.id in service.repository.store && m2.id in service.repository.store
    ensures service.repository.Count() == old(service.repository.Count()) + 2
  {
    m1 := service.CreateExpense(first, now);
    m2 := service.CreateExpense(second, now);
  }
}
