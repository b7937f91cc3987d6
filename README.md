# LibrasJá users and interpreters API — a Dafny model

This project models the request handlers of the LibrasJá minimal API
(`Program.cs`). It covers two listing endpoints and the user CRUD endpoints.

- **Users listing** (`GET /api/users`). The optional `search` filter keeps users whose `Nome` or `Email`
  contains it. The optional `tipo` filter keeps users whose `Tipo` equals it. A filter that is null or
  white space is ignored. `orderBy` is lower-cased and chooses the order: `email` ascending,
  `createdat` newest first, anything else (null included) `Nome` ascending. The handler then counts the
  rows, skips `(page - 1) * pageSize` of them, takes `pageSize`, and builds `self`, `next` and `prev` links.
- **Interpreter search** (`GET /api/interpreters/search`). The optional `especialidade` filter keeps
  profiles whose `Especialidades` contains it. The optional `dia` filter keeps profiles whose `Disponivel`
  is non-null and contains `dia` upper-cased. The order is `Especialidades`, or by default the owning
  user's `Nome`. Count, page and links are as for users, and each row is projected to
  `{ Id, UserId, Nome, Email, Especialidades, Disponivel }`.
- **User CRUD** (`GET`/`POST`/`PUT`/`DELETE /api/users[/{id}]`). This is a class `UserStore.Store`
  holding the table as a `map<int, User>`. Create rejects a blank `Nome`, `Email` or `Tipo` with
  BadRequest. Otherwise it inserts under an unused id with `Tipo` upper-cased. Update and delete answer
  NotFound for an absent id. Otherwise update overwrites the three fields and delete removes the row.
  Update does not check for blank fields; the model keeps that.

Modules: `Wrappers` (Option), `Text` (white space, `Contains`, case mapping, text ordering), `Query`
(`Where`, `OrderBy`, `Skip`, `Take` on sequences), `Paging` (window, count and links shared by both
listings), `Users`, `Interpreters`, `UserStore`.

The listings are pure functions over the table given as a sequence of rows. The filters are stated twice:
once as the handler's chained `Where` steps, and once as a single reference predicate (`UserMatches`,
`ProfileMatches`). Lemmas prove the two select the same rows. `OrderBy` is an insertion sort under a
comparison. It is proved sorted and a permutation whenever the comparison is a total preorder, and each
handler's comparison is proved to be one.

Four facts about `Program.cs` that a reader might expect otherwise:

- Neither listing takes an `orderDir` parameter: every order has a fixed direction, and no sort is promised to be stable.
- Without `orderBy=especialidades`, interpreters are ordered by the owning user's `Nome`, not by id.
- The interpreter search has no `search` parameter.
- Only the `dia` argument is upper-cased. The stored `Disponivel` is compared as it is, so the match is
  not case-insensitive.

## Model

| member | source | states |
|---|---|---|
| `Text.ContainsIffOccurs` | Program.cs:27 | `Contains(s, sub)` holds exactly when `sub` occurs in `s` at some offset |
| `Text.ContainsInfix` | Program.cs:27 | a string is found wherever it sits inside a longer one |
| `Text.ToUpper` | Program.cs:61 | the result has the input's length, no lower-case ASCII letter, and the same letters up to case |
| `Text.ToUpperIdempotent` | Program.cs:74 | upper-casing an already upper-cased `Tipo` changes nothing |
| `Text.ToLower` | Program.cs:32 | the result has the input's length, no upper-case ASCII letter, and the same letters up to case |
| `Text.ToLowerIgnoresCase` | Program.cs:101 | any two strings that differ only in the case of their letters have the same lower-case form |
| `Text.CaseMappingsKeepLetters` | Program.cs:32 | upper- and lower-casing a string change it only in letter case |
| `Text.LexLeTotal` | Program.cs:34 | any two text keys are ordered one way or the other |
| `Text.LexLeTransitive` | Program.cs:36 | the text-key ordering is transitive |
| `Text.LexLeAntisymmetric` | Program.cs:103 | two text keys that sort no later than each other are equal |
| `Query.Where` | Program.cs:27 | the result keeps exactly the rows of the input that satisfy the predicate and is no longer than the input |
| `Query.WhereCounts` | Program.cs:30 | each matching row keeps its multiplicity and every other row is dropped |
| `Query.WhereWhere` | Program.cs:26-30 | two chained `Where` steps select what one `Where` on their conjunction selects |
| `Query.OrderBy` | Program.cs:32-37 | the ordered rows are a permutation of the input |
| `Query.OrderBySorted` | Program.cs:32-37 | under a total preorder the result is sorted, a permutation of the input, and of the same length |
| `Query.TakeSkip` | Program.cs:40 | for every count `n`, the rows `Take(n)` keeps followed by the rows `Skip(n)` keeps are the whole sequence: no row is lost or repeated at the split |
| `Paging.Offset` | Program.cs:40 | the skip count is non-negative and is `page * pageSize` minus one page |
| `Paging.Window` | Program.cs:108 | the page holds at most `pageSize` rows, exactly `min(pageSize, max(0, total - skip))`, and they are the rows that follow the skipped ones |
| `Paging.Paginate` | Program.cs:39-50 | `total` is the row count before paging; the page holds `min(pageSize, max(0, total - skip))` rows that follow the skipped ones; `self` always, `next` to page + 1 exactly when `page * pageSize < total`, `prev` to page - 1 exactly when `page > 1`, other parameters unchanged |
| `Paging.NextLinkIffNextPageNonEmpty` | Program.cs:46 | the `next` link is present exactly when the page it points to holds a row |
| `Paging.PrevLinkIsAValidPage` | Program.cs:47 | the first page has no `prev` link and a `prev` link never points below page 1 |
| `Paging.OnePageHasNoNeighbours` | Program.cs:45-47 | rows that fit in one page are listed whole with neither `next` nor `prev` |
| `Paging.SecondPageOfFive` | Program.cs:39-47 | page 2 of size 2 over five rows holds the third and fourth rows, with total 5 and both links |
| `Paging.EveryRowOnItsPage` | Program.cs:40 | row `k` of one fixed row order is item `k % pageSize` of page `k / pageSize + 1` cut from that same order |
| `Paging.Wrap32` | Program.cs:46 | the result is a 32-bit value congruent to the input modulo 2^32, and equal to it when it fits |
| `Paging.AsWrittenAgreesWhenProductFits` | Program.cs:116 | while `page * pageSize` fits in 32 bits, the 32-bit `next` guard equals the exact one |
| `Paging.AsWrittenNextLinkOnEmptyCollection` | Program.cs:46 | with the 32-bit guard, page 65536 of size 32768 over no rows gets a `next` link to an empty page |
| `Users.SelectUserOrderIgnoresCase` | Program.cs:32 | two `orderBy` values that differ only in letter case choose the same order |
| `Users.SelectUserOrderFallsBackToNome` | Program.cs:32-37 | `email` and `createdat` (any case) pick their orders; null and every other value pick `Nome` |
| `Users.UserLeIsTotalPreorder` | Program.cs:34-36 | each of the three user orderings is a total preorder |
| `Users.FilterUsersIsConjunction` | Program.cs:26-30 | the two conditional filters select exactly the rows satisfying every active filter, in table order |
| `Users.ListUsersTotal` | Program.cs:39 | `total` is the number of matching rows whatever the page, and the ordered rows hold each matching row as often as the table |
| `Users.SortedUsersCorrect` | Program.cs:32-37 | the ordered rows are a permutation of the matching rows, sorted by the selected key |
| `Users.ListUsersItems` | Program.cs:40 | the page size formula, the page as the window of the ordered rows, each item a matching table row, the page sorted |
| `Users.ListUsersFilters` | Program.cs:26-30 | every listed user has `search` inside `Nome` or `Email` when given, and `Tipo == tipo` when given |
| `Users.ListUsersOrder` | Program.cs:32-37 | the page is ascending by `Email`, newest first by `CreatedAt`, or ascending by `Nome`, as `orderBy` selects |
| `Interpreters.SelectProfileOrderIgnoresCase` | Program.cs:101-105 | two `orderBy` values that differ only in letter case choose the same order |
| `Interpreters.ProfileLeIsTotalPreorder` | Program.cs:103-104 | both profile orderings are total preorders |
| `Interpreters.FilterProfilesIsConjunction` | Program.cs:95-99 | the two conditional filters select exactly the profiles satisfying every active filter, in table order |
| `Interpreters.ProjectWindow` | Program.cs:108-109 | projecting the rows of a page gives the same page as paging the projected rows: the `Select` keeps each item at its row's position |
| `Interpreters.SortedProfilesCorrect` | Program.cs:101-105 | the ordered profiles are a permutation of the matching ones, sorted by the selected key |
| `Interpreters.SearchInterpretersPage` | Program.cs:107-118 | `total` counts the matching profiles; the page is the projected window of at most `pageSize` rows; links as for any listing |
| `Interpreters.SearchInterpretersFilters` | Program.cs:95-99 | every listed profile contains `especialidade` when given, and has a non-null `Disponivel` containing `dia` upper-cased when given |
| `Interpreters.SearchInterpretersOrder` | Program.cs:101-105 | the page is ascending by `Especialidades` or by the user's `Nome`, as `orderBy` selects |
| `UserStore.Store.Find` | Program.cs:53-54 | Ok with the stored row when the id is present, NotFound otherwise |
| `UserStore.Store.Create` | Program.cs:56-65 | blank field: BadRequest, nothing changes; otherwise exactly one new row under an unused id, with the given `Nome`/`Email`, upper-cased `Tipo`, returned as Created; stored `Tipo`s stay upper-case |
| `UserStore.Store.Update` | Program.cs:67-77 | absent id: NotFound, nothing changes; otherwise only that row's three fields are overwritten, `Tipo` upper-cased, NoContent |
| `UserStore.Store.Delete` | Program.cs:79-86 | absent id: NotFound, nothing changes; otherwise exactly that id is removed, NoContent |
| `UserStore.CreateThenFind` | Program.cs:53-64 | reading back a created user gives its `Nome`, `Email` and upper-cased `Tipo` |
| `UserStore.DeleteTwice` | Program.cs:81-85 | deleting an id twice gives NoContent and then NotFound, and removes only that id |

## Findings

| source | as written | input that shows it | evidently intended | confidence | as-written member | corrected member |
|---|---|---|---|---|---|---|
| Program.cs:46 | `page * pageSize < total` is computed on 32-bit `int` and wraps when the product exceeds 2^31 - 1 (the same at Program.cs:116) | `page=65536, pageSize=32768` over an empty table: the product wraps to -2^31 < 0, so `next` points to an empty page | `next` only when a row lies beyond this page, e.g. with the product computed in 64 bits | medium (C# `int` arithmetic is unchecked by default; the build settings are not part of this model), not executed | `Paging.AsWrittenNextLinkOnEmptyCollection` | `Paging.NextLinkIffNextPageNonEmpty` |

The listings in this model use the corrected guard `Paging.HasNext`, which uses exact arithmetic.

## Left out

- Host and service wiring (`WebApplication.CreateBuilder`, the Oracle `AddDbContext`, Swagger, HTTPS redirection, `app.Run`) has no logic to model.
- `async`/`await`, `SaveChangesAsync`, `CountAsync` and `ToListAsync` are treated as immediate, synchronous steps on an in-memory table. There is no concurrency.
- Translation to SQL is not modelled. `Contains` and equality are ordinal, and text keys are ordered code point by code point. The Oracle collation and case rules are not modelled.
- `Query.OrderBy` does not promise any order among rows with equal keys, because the database does not.
- `Paging.EveryRowOnItsPage`: the model orders the table by one function, so every request sees the same order among rows with equal keys. In the source each page is a separate `OrderBy … Skip … Take` query (Program.cs:32-40, 101-108) on keys that can tie (`Nome`, `Email`, `CreatedAt`, `Especialidades`). The database does not promise the same tie order between two queries, so a tied row can appear on two pages or on none. That effect is not modelled.
- `Text.ToUpper` and `Text.ToLower` map ASCII letters only. .NET maps all of Unicode, so `intérprete` becomes `INTÉRPRETE` there but `INTéRPRETE` here. The parameterless `ToUpper()`/`ToLower()` also follow the current culture; the model assumes the invariant culture. Under a Turkish culture, for example, `"EMAIL".ToLower()` is not `"email"`, so the `orderBy` switch at Program.cs:32 would fall back to the `Nome` order.
- `Text.IsWhiteSpace` covers the Latin-1 white-space characters only, not the other Unicode space separators.
- `page < 1` or `pageSize < 1` is excluded by a precondition. The code would compute a negative skip, whose effect depends on the database provider.
- 32-bit overflow of the skip count `(page - 1) * pageSize` is not modelled. Like a negative skip, its effect depends on the provider.
- The query-string text of the links and the JSON shape of responses are not modelled. A link is modelled as its page, page size and other parameters.
- Binding of query-string parameters and their defaults (`page=1`, `pageSize=10`, `orderBy="nome"`) is not modelled. The default `orderBy` and a null one select the same order.
- Id assignment by the database is modelled as a counter kept by the store. `Create` promises only that the new id was not in use.
- `Program.cs` does not set `CreatedAt`. Whatever sets it outside `Program.cs` is replaced by a clock parameter passed to `Create`.
- The `Include` join is replaced by profile rows that carry their owning user's `Nome` and `Email`.
- A JSON body with a null `Tipo` on update, which makes `dto.Tipo.ToUpper()` throw, is not modelled. `UserDto` fields are non-null strings, as declared.
- Database constraints on `Users` (column lengths, uniqueness) live in `LibrasJa.Infrastructure.Data`, which is not part of this model. The store is also not linked to the `InterpreterProfiles` table. Whether deleting a user (Program.cs:83) cascades to that user's profile or is refused by the foreign key depends on that database configuration, so `UserStore.Store.Delete` always succeeds for a present id.
