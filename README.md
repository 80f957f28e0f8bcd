# Expense store and category summary, in Dafny

This project models the core of a small expense-tracking backend: the
in-memory expense repository and the service operations built on it,
including the per-category summary.

- **Repository** (`repository.dfy`, class `ExpenseRepository`). A map from id
  to expense record, plus an id counter that starts at 1. `Save` gives a record
  without an id the counter's value and then advances the counter. It then puts
  the record under its id, replacing any earlier entry. The repository also
  offers lookup by id, a snapshot of all records, exact-match filters on user
  and on category, delete by id (reporting whether anything was removed), clear,
  count and exists. A ghost set `issued` records every id the counter has
  handed out. This is how the model states that ids are never reused, even
  after deletes.
- **Record** (`expense.dfy`). `Expense` has an optional id, a description, an
  amount, a category, a date and a user id. `ByCategory` and `ByUserId` are the
  order-preserving filters. `IsSnapshotOf` states what a listing of the store
  is: each stored record exactly once, in any order.
- **Service** (`service.dfy`, class `ExpenseService`). Create stamps the user
  `"default-user"` and the creation time. Update replaces description, amount
  and category and keeps id, date and user. Update, delete and get-by-id report
  an absent id as `NotFound(id)`. The listing operations copy records field by
  field into responses. The service keeps one invariant beyond the
  repository's: every stored id came from the counter.
- **Category summary** (`aggregation.dfy`, `rounding.dfy`). The summary groups
  a snapshot by exact category. For each group it gives the exact total, the
  count, and the average rounded to hundredths with the HALF_UP rule: to the
  nearest value, and away from zero on a tie.

Amounts are integers counted in hundredths (cents), so the rounded average is
`RoundHalfUp(total, count)` cents. Timestamps are plain integers, passed in by
the caller.

## Model

| member | source | states |
|---|---|---|
| Repository.ExpenseRepository.constructor | src/main/java/com/example/expense_ai_backend/repository/ExpenseRepository.java:15-18 | a new store is empty, its counter is 1, and no id has been issued yet |
| Repository.ExpenseRepository.Save | src/main/java/com/example/expense_ai_backend/repository/ExpenseRepository.java:23-29 | a record without an id gets the old counter value as id. That id is larger than every id issued before, and the counter grows by exactly one. A record with an id keeps it, and the counter stays put. The record replaces only the entry under its own id. Afterwards FindById of the returned id gives the returned record, which always has an id. When every stored id was issued, a new id hits no existing entry. |
| Repository.ExpenseRepository.FindById | src/main/java/com/example/expense_ai_backend/repository/ExpenseRepository.java:34-36 | present exactly when the id is stored, and then it is the stored record |
| Repository.ExpenseRepository.FindAll | src/main/java/com/example/expense_ai_backend/repository/ExpenseRepository.java:41-43 | the result is a snapshot of the store: each stored record once, under its own id, order unspecified. Its length equals Count(). |
| Repository.ExpenseRepository.FindByUserId | src/main/java/com/example/expense_ai_backend/repository/ExpenseRepository.java:48-52 | returns exactly the stored records whose user id equals the argument, each once. The result is empty exactly when no record matches. |
| Repository.ExpenseRepository.FindByCategory | src/main/java/com/example/expense_ai_backend/repository/ExpenseRepository.java:57-61 | returns exactly the stored records whose category equals the argument, each once. The result is empty exactly when no record matches. |
| Repository.ExpenseRepository.DeleteById | src/main/java/com/example/expense_ai_backend/repository/ExpenseRepository.java:66-68 | returns true iff the id was present. The id is absent afterwards, every other entry is unchanged, and the counter does not move. |
| Repository.ExpenseRepository.DeleteAll | src/main/java/com/example/expense_ai_backend/repository/ExpenseRepository.java:73-75 | the store becomes empty and Count() becomes 0. The counter and the issued ids are kept. |
| Repository.ExpenseRepository.Count | src/main/java/com/example/expense_ai_backend/repository/ExpenseRepository.java:80-82 | the count is zero exactly when the store is empty |
| Repository.ExpenseRepository.ExistsById | src/main/java/com/example/expense_ai_backend/repository/ExpenseRepository.java:87-89 | holds iff FindById of the same id is present |
| ExpenseModel.ByUserId | src/main/java/com/example/expense_ai_backend/repository/ExpenseRepository.java:49-51 | an element is in the result iff it is in the input and has that user id; the result is no longer than the input |
| ExpenseModel.ByCategory | src/main/java/com/example/expense_ai_backend/repository/ExpenseRepository.java:58-60 | an element is in the result iff it is in the input and has that category; the result is no longer than the input |
| ExpenseModel.ByUserIdDistinct | src/main/java/com/example/expense_ai_backend/repository/ExpenseRepository.java:49-51 | filtering a list with distinct ids keeps the ids distinct |
| ExpenseModel.ByCategoryDistinct | src/main/java/com/example/expense_ai_backend/repository/ExpenseRepository.java:58-60 | filtering a list with distinct ids keeps the ids distinct |
| ExpenseModel.ByUserIdOfSnapshot | src/main/java/com/example/expense_ai_backend/repository/ExpenseRepository.java:48-52 | filtering a snapshot by user gives a snapshot of the part of the store belonging to that user |
| ExpenseModel.ByCategoryOfSnapshot | src/main/java/com/example/expense_ai_backend/repository/ExpenseRepository.java:57-61 | filtering a snapshot by category gives a snapshot of the part of the store with that category |
| Rounding.RoundHalfUp | src/main/java/com/example/expense_ai_backend/service/Impl/ExpenseServiceImpl.java:116-118 | the result is within half a unit of `n / d`. On a tie the result is away from zero: it rounds down only for negative `n` and up only for positive `n`. |
| Rounding.RoundHalfUpUnique | src/main/java/com/example/expense_ai_backend/service/Impl/ExpenseServiceImpl.java:117 | any integer meeting RoundHalfUp's nearest-value and tie conditions equals RoundHalfUp, so that contract defines half-up rounding completely |
| Aggregation.SumAmounts | src/main/java/com/example/expense_ai_backend/service/Impl/ExpenseServiceImpl.java:111-113 | the sum of no records is 0, and the sum of one record is its amount. The sum is never negative when no amount is, and never positive when no amount is positive. |
| Aggregation.Categories | src/main/java/com/example/expense_ai_backend/service/Impl/ExpenseServiceImpl.java:103-106 | lists each category present in the snapshot exactly once, and no other |
| Aggregation.Group | src/main/java/com/example/expense_ai_backend/service/Impl/ExpenseServiceImpl.java:103-104 | the grouping map, built in one pass, has a key for exactly the present categories. Each key maps to that category's records, in snapshot order. |
| Aggregation.SummaryOf | src/main/java/com/example/expense_ai_backend/service/Impl/ExpenseServiceImpl.java:107-120 | an entry carries its group's size and exact total. An empty group averages 0. Otherwise the average is within half a cent of total / count, and it is exactly RoundHalfUp(total, count). |
| Aggregation.Summarize | src/main/java/com/example/expense_ai_backend/service/Impl/ExpenseServiceImpl.java:102-123 | one entry per category, built from the grouping map. Each entry equals the summary of that category's filter of the snapshot. |
| Aggregation.SummarizeCategories | src/main/java/com/example/expense_ai_backend/service/Impl/ExpenseServiceImpl.java:103-106 | a category has an entry iff some record of the snapshot has it, and no two entries share a category |
| Aggregation.SummarizeEntries | src/main/java/com/example/expense_ai_backend/service/Impl/ExpenseServiceImpl.java:111-118 | for every entry: the count is the number of records in its category and is never zero; the total is the exact sum of their amounts; the average is RoundHalfUp(total, count) |
| Aggregation.SummarizeEmpty | src/main/java/com/example/expense_ai_backend/service/Impl/ExpenseServiceImpl.java:103-106 | the summary is empty iff the snapshot is empty |
| Aggregation.SummaryCountsCoverAll | src/main/java/com/example/expense_ai_backend/service/Impl/ExpenseServiceImpl.java:115 | the entries' counts add up to the number of records in the snapshot |
| Aggregation.SummaryMembership | src/main/java/com/example/expense_ai_backend/service/Impl/ExpenseServiceImpl.java:106-122 | a value is an entry iff its category is present and it is the summary of that category's records |
| Aggregation.SumAmountsPermutation | src/main/java/com/example/expense_ai_backend/service/Impl/ExpenseServiceImpl.java:111-113 | the exact sum of amounts is the same for any ordering of the same records |
| Aggregation.ByCategoryMultiset | src/main/java/com/example/expense_ai_backend/repository/ExpenseRepository.java:58-60 | the category filter keeps each record of that category exactly as often as the input holds it, and drops all others |
| Aggregation.ByUserIdMultiset | src/main/java/com/example/expense_ai_backend/repository/ExpenseRepository.java:49-51 | the user filter keeps each record of that user exactly as often as the input holds it, and drops all others |
| Aggregation.GroupPermutation | src/main/java/com/example/expense_ai_backend/service/Impl/ExpenseServiceImpl.java:103-118 | reordering the snapshot leaves each category's group the same as a multiset, and leaves its summary the same |
| Aggregation.SummarizeOrderIndependent | src/main/java/com/example/expense_ai_backend/service/Impl/ExpenseServiceImpl.java:102-123 | two snapshots with the same records in any order have the same set of entries, so the unspecified iteration order does not matter |
| Aggregation.RoundingExamples | src/main/java/com/example/expense_ai_backend/service/Impl/ExpenseServiceImpl.java:117 | 30.01 / 3 rounds to 10.00. 0.01 / 2 (0.005) rounds up to 0.01, and -0.005 rounds to -0.01. |
| Aggregation.SummaryExample | src/main/java/com/example/expense_ai_backend/service/Impl/ExpenseServiceImpl.java:102-123 | food records of 10.00 and 15.00 plus transport 7.50 summarize to food (25.00, 2, 12.50) and transport (7.50, 1, 7.50) |
| Service.ToResponse | src/main/java/com/example/expense_ai_backend/service/Impl/ExpenseServiceImpl.java:128-137 | the response carries each of the record's six fields unchanged |
| Service.ToResponseLossless | src/main/java/com/example/expense_ai_backend/service/Impl/ExpenseServiceImpl.java:128-137 | the field copy into a response is injective: two responses are equal iff their records are |
| Service.ToResponses | src/main/java/com/example/expense_ai_backend/service/Impl/ExpenseServiceImpl.java:45-48 | the responses match the records one for one, in order |
| Service.ExpenseService.constructor | src/main/java/com/example/expense_ai_backend/service/Impl/ExpenseServiceImpl.java:26-28 | the service works on the repository it is given |
| Service.ExpenseService.CreateExpense | src/main/java/com/example/expense_ai_backend/service/Impl/ExpenseServiceImpl.java:31-41 | stores the request's fields under a fresh id, with user "default-user" and the given creation time. The id is the old counter value, was not stored before, and is larger than every id issued before. The counter grows by exactly one and the id joins the issued ids, so no id is skipped. The count grows by one. |
| Service.ExpenseService.GetAllExpenses | src/main/java/com/example/expense_ai_backend/service/Impl/ExpenseServiceImpl.java:44-49 | the responses of a snapshot of the store, one per stored record |
| Service.ExpenseService.GetExpenseById | src/main/java/com/example/expense_ai_backend/service/Impl/ExpenseServiceImpl.java:52-56 | an absent id gives NotFound(id). A present id gives the stored record's fields unchanged. |
| Service.ExpenseService.GetExpensesByUserId | src/main/java/com/example/expense_ai_backend/service/Impl/ExpenseServiceImpl.java:59-64 | the responses of exactly the stored records of that user, each once. Every response carries that user id. The list is empty iff no stored record has it. |
| Service.ExpenseService.GetExpensesByCategory | src/main/java/com/example/expense_ai_backend/service/Impl/ExpenseServiceImpl.java:67-72 | the responses of exactly the stored records of that category, each once. Every response carries that category. The list is empty iff no stored record has it. |
| Service.ExpenseService.UpdateExpense | src/main/java/com/example/expense_ai_backend/service/Impl/ExpenseServiceImpl.java:75-85 | an absent id gives NotFound(id) and leaves the store unchanged. A present id gets the request's description, amount and category and keeps its id, date and user. No other record changes, and the count and counter stay the same. |
| Service.ExpenseService.DeleteExpense | src/main/java/com/example/expense_ai_backend/service/Impl/ExpenseServiceImpl.java:88-94 | an absent id gives NotFound(id) and leaves the store unchanged. A present id removes exactly that record, and the count drops by one. |
| Service.ExpenseService.GetTotalExpenseCount | src/main/java/com/example/expense_ai_backend/service/Impl/ExpenseServiceImpl.java:97-99 | the number of stored records |
| Service.ExpenseService.GetCategorySummary | src/main/java/com/example/expense_ai_backend/service/Impl/ExpenseServiceImpl.java:102-123 | the summary of a snapshot of the store. Its counts add up to the number of stored records, and it is empty iff the store is empty. |
| Service.CreateThenGet | src/main/java/com/example/expense_ai_backend/service/Impl/ExpenseServiceImpl.java:31-56 | reading back a created id gives the request's fields, the default user and the creation time |
| Service.CreateTwice | src/main/java/com/example/expense_ai_backend/service/Impl/ExpenseServiceImpl.java:31-41 | two creates in a row get consecutive ids, both records are stored, and the count grows by two |
| Service.CreateDeleteCreate | src/main/java/com/example/expense_ai_backend/service/Impl/ExpenseServiceImpl.java:31-94 | after a create and a delete, the next create gets a larger id, so a deleted id is never handed out again |

## Left out

- Concurrency is not modelled. The code uses a concurrent map and an atomic
  counter. In the model each operation is one sequential step, and the atomic
  get-and-increment is a plain increment.
- Integer widths are not modelled. Ids, the counter and all counts are
  unbounded integers. So the model does not capture:
  - the wrap-around of the 64-bit counter after 2^63 - 1;
  - the record count saturating at 2^31 - 1 (`count()` returns the map's
    `int` size);
  - a category's `int` group size, which limits `CategorySummary.count`.
  `Repository.ExpenseRepository.Count`, `GetTotalExpenseCount` and
  `SummaryOf` are exact past those limits.
- The clock is not modelled. The creation time is a `now` parameter of
  `CreateExpense`.
- Amounts are fixed-point integers at scale 2, not `BigDecimal` values of any
  scale. An amount with more than two decimals cannot be expressed, and neither
  can the rounding of such a total.
- Java `null` is not modelled. Strings, amounts and dates are never null. The
  null-pointer failures are therefore out of scope: a null category in the
  grouping, and a null filter argument.
- Result order: the code iterates a hash map, so its order is unspecified.
  `FindAll` picks keys in an arbitrary order. `Summarize` lists categories in
  first-occurrence order, and `SummarizeOrderIndependent` shows that the set of
  entries does not depend on that choice.
- Records are values in the model. In the code, a snapshot holds the same
  objects as the store, and `updateExpense` mutates the stored object in place
  before saving it. So in the code a list obtained earlier sees a later update;
  a snapshot is a copy of the list, not of the records. The model captures the
  map contents after each operation, not this sharing.
- The message strings are replaced by tags: `Created(id)`, `Updated(id)`,
  `Deleted(id)` and `NotFound(id)` carry the id that the code appends to its
  message text.
- The HTTP layer is outside this model: the controllers, the exception-to-status
  mapping, request validation and the invalid-input errors it raises.
  `ExpenseController.java`, `HealthController.java` and
  `GlobalExceptionHandler.java` are not part of this model.
- The service interface `ExpenseService.java` does not declare
  `getCategorySummary`, although the implementation marks it `@Override`. The
  model treats it as an ordinary operation of the service class.
- Repository.ExpenseRepository.Save: the code lets a caller save a record under
  an id of its own choosing that the counter has not reached yet. A later
  counter-assigned id can then land on that record and replace it. So `Save`
  promises a fresh id only while every stored id was issued by the counter
  (`OnlyIssuedIds`). The service never saves under an unissued id, so
  `ExpenseService.Valid` keeps that condition.
