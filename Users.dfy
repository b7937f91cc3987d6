/**
  The users listing handler, `GET /api/users`: optional `search` (text in
  `Nome` or `Email`) and `tipo` (exact `Tipo`) filters, an `orderBy` chosen
  case-insensitively, then count, page and links.

  The table is given as the sequence of its rows; the user record and the
  create/update payload are shared with the user store.
*/
module Users {
  import opened Wrappers
  import opened Text
  import opened Query
  import opened Paging

  /** A `User` row. `CreatedAt` is a timestamp, as an integer tick count. */
  datatype User = User(id: int, nome: string, email: string, tipo: string, createdAt: int)

  /** The `UserDto(Nome, Email, Tipo)` payload of create and update. */
  datatype UserDto = UserDto(nome: string, email: string, tipo: string)

  /** The query parameters other than paging; links carry them unchanged. */
  datatype UserParams = UserParams(search: Option<string>, tipo: Option<string>, orderBy: Option<string>)

  datatype UserOrder = ByEmail | ByCreatedAtDesc | ByNome

  /** The `orderBy?.ToLower() switch`: "email", "createdat", anything else (null included) by `Nome`. */
  function SelectUserOrder(orderBy: Option<string>): (o: UserOrder)
  {
    if orderBy.None? then ByNome
    else
      var key := ToLower(orderBy.value);
      if key == "email" then ByEmail
      else if key == "createdat" then ByCreatedAtDesc
      else ByNome
  }

  /** The choice of order ignores the letter case of `orderBy`. */
  lemma SelectUserOrderIgnoresCase(orderBy: string, other: string)
    requires SameUpToCase(orderBy, other)
    ensures SelectUserOrder(Some(orderBy)) == SelectUserOrder(Some(other))
  {
    ToLowerIgnoresCase(orderBy, other);
  }

  /** Only the two recognised names, in any letter case, move away from the `Nome` order. */
  lemma SelectUserOrderFallsBackToNome(orderBy: Option<string>)
    ensures SelectUserOrder(orderBy) == ByEmail <==> orderBy.Some? && ToLower(orderBy.value) == "email"
    ensures SelectUserOrder(orderBy) == ByCreatedAtDesc <==> orderBy.Some? && ToLower(orderBy.value) == "createdat"
    ensures SelectUserOrder(orderBy) == ByNome <==>
      orderBy.None? || (ToLower(orderBy.value) != "email" && ToLower(orderBy.value) != "createdat")
  {
  }

  /** "`a` sorts no later than `b`" under each order: `Email` and `Nome` ascending,
      `CreatedAt` descending. */
  function UserLe(o: UserOrder): (User, User) -> bool
  {
    match o
    case ByEmail => (a: User, b: User) => LexLe(a.email, b.email)
    case ByCreatedAtDesc => (a: User, b: User) => a.createdAt >= b.createdAt
    case ByNome => (a: User, b: User) => LexLe(a.nome, b.nome)
  }

  lemma UserLeIsTotalPreorder(o: UserOrder)
    ensures TotalPreorder(UserLe(o))
  {
    var le := UserLe(o);
    forall a: User, b: User ensures le(a, b) || le(b, a) {
      LexLeTotal(a.email, b.email);
      LexLeTotal(a.nome, b.nome);
    }
    forall a: User, b: User, c: User | le(a, b) && le(b, c) ensures le(a, c) {
      if o == ByEmail {
        LexLeTransitive(a.email, b.email, c.email);
      } else if o == ByNome {
        LexLeTransitive(a.nome, b.nome, c.nome);
      }
    }
  }

  predicate MatchesSearch(u: User, search: string)
  {
    Contains(u.nome, search) || Contains(u.email, search)
  }

  /** The reference filter: each active filter holds; an inactive one is ignored. */
  predicate UserMatches(u: User, p: UserParams)
  {
    && (IsActive(p.search) ==> MatchesSearch(u, p.search.value))
    && (IsActive(p.tipo) ==> u.tipo == p.tipo.value)
  }

  /** The two conditional `Where` steps, in the handler's order. */
  function FilterUsers(all: seq<User>, p: UserParams): seq<User>
  {
    var bySearch :=
      if IsActive(p.search) then
        var search := p.search.value;
        Where(all, (u: User) => MatchesSearch(u, search))
      else all;
    if IsActive(p.tipo) then
      var tipo := p.tipo.value;
      Where(bySearch, (u: User) => u.tipo == tipo)
    else bySearch
  }

  /** The staged filters select exactly the rows the reference filter does, in table order. */
  lemma FilterUsersIsConjunction(all: seq<User>, p: UserParams)
    ensures FilterUsers(all, p) == Where(all, (u: User) => UserMatches(u, p))
  {
    var matches := (u: User) => UserMatches(u, p);
    if IsActive(p.search) {
      var search := p.search.value;
      var bySearch := (u: User) => MatchesSearch(u, search);
      if IsActive(p.tipo) {
        var tipo := p.tipo.value;
        var byTipo := (u: User) => u.tipo == tipo;
        WhereWhere(all, bySearch, byTipo, matches);
      } else {
        WhereExtensional(all, bySearch, matches);
      }
    } else if IsActive(p.tipo) {
      var tipo := p.tipo.value;
      WhereExtensional(all, (u: User) => u.tipo == tipo, matches);
    } else {
      WhereAll(all, matches);
    }
  }

  /** The filtered rows in the selected order. */
  function SortedUsers(all: seq<User>, p: UserParams): seq<User>
  {
    OrderBy(FilterUsers(all, p), UserLe(SelectUserOrder(p.orderBy)))
  }

  /** The whole handler body: filter, order, count, page, links. */
  function ListUsers(all: seq<User>, page: int, pageSize: int, p: UserParams): (r: PageResult<User, UserParams>)
    requires page >= 1 && pageSize >= 1
  {
    Paginate(SortedUsers(all, p), page, pageSize, p)
  }

  /** `total` counts every matching row, with its multiplicity, whatever page is asked for. */
  lemma ListUsersTotal(all: seq<User>, page: int, pageSize: int, p: UserParams)
    requires page >= 1 && pageSize >= 1
    ensures ListUsers(all, page, pageSize, p).total == |Where(all, (u: User) => UserMatches(u, p))|
    ensures forall u :: multiset(SortedUsers(all, p))[u] == if UserMatches(u, p) then multiset(all)[u] else 0
  {
    FilterUsersIsConjunction(all, p);
    var matches := (u: User) => UserMatches(u, p);
    forall u ensures multiset(SortedUsers(all, p))[u] == if UserMatches(u, p) then multiset(all)[u] else 0 {
      WhereCounts(all, matches, u);
    }
  }

  /** The ordered rows are a permutation of the matching rows, sorted by the selected key. */
  lemma SortedUsersCorrect(all: seq<User>, p: UserParams)
    ensures multiset(SortedUsers(all, p)) == multiset(Where(all, (u: User) => UserMatches(u, p)))
    ensures forall u :: u in SortedUsers(all, p) ==> u in all && UserMatches(u, p)
    ensures SortedBy(UserLe(SelectUserOrder(p.orderBy)), SortedUsers(all, p))
  {
    var le := UserLe(SelectUserOrder(p.orderBy));
    UserLeIsTotalPreorder(SelectUserOrder(p.orderBy));
    OrderBySorted(FilterUsers(all, p), le);
    FilterUsersIsConjunction(all, p);
    forall u | u in SortedUsers(all, p) ensures u in all && UserMatches(u, p) {
      assert u in multiset(SortedUsers(all, p));
    }
  }

  /** Every listed user passes every active filter, the page is sorted by the selected key,
      and it is the window of the sorted rows that starts after the earlier pages. */
  lemma ListUsersItems(all: seq<User>, page: int, pageSize: int, p: UserParams)
    requires page >= 1 && pageSize >= 1
    ensures var r := ListUsers(all, page, pageSize, p);
      && |r.items| == Min(pageSize, Max(0, r.total - Offset(page, pageSize)))
      && (forall i :: 0 <= i < |r.items| ==> r.items[i] == SortedUsers(all, p)[Offset(page, pageSize) + i])
      && (forall u :: u in r.items ==> u in all && UserMatches(u, p))
      && SortedBy(UserLe(SelectUserOrder(p.orderBy)), r.items)
  {
    var r := ListUsers(all, page, pageSize, p);
    var sorted := SortedUsers(all, p);
    SortedUsersCorrect(all, p);
    PageSorted(UserLe(SelectUserOrder(p.orderBy)), sorted, page, pageSize, p);
    PageItemsAreRows(sorted, page, pageSize, p);
  }

  /** With a `search` filter, each listed user has it inside `Nome` or `Email`; with
      a `tipo` filter, each listed user has exactly that `Tipo`. */
  lemma ListUsersFilters(all: seq<User>, page: int, pageSize: int, p: UserParams)
    requires page >= 1 && pageSize >= 1
    ensures forall u :: u in ListUsers(all, page, pageSize, p).items ==>
      && (IsActive(p.search) ==> exists i :: OccursAt(u.nome, p.search.value, i) || OccursAt(u.email, p.search.value, i))
      && (IsActive(p.tipo) ==> u.tipo == p.tipo.value)
  {
    ListUsersItems(all, page, pageSize, p);
    forall u | u in ListUsers(all, page, pageSize, p).items && IsActive(p.search)
      ensures exists i :: OccursAt(u.nome, p.search.value, i) || OccursAt(u.email, p.search.value, i)
    {
      ContainsIffOccurs(u.nome, p.search.value);
      ContainsIffOccurs(u.email, p.search.value);
    }
  }

  /** Under `orderBy=email` (any letter case) the page is in ascending `Email` order;
      under `createdat`, newest first; otherwise in ascending `Nome` order. */
  lemma ListUsersOrder(all: seq<User>, page: int, pageSize: int, p: UserParams)
    requires page >= 1 && pageSize >= 1
    ensures var items := ListUsers(all, page, pageSize, p).items;
      SelectUserOrder(p.orderBy) == ByEmail ==>
        forall i, j :: 0 <= i < j < |items| ==> LexLe(items[i].email, items[j].email)
    ensures var items := ListUsers(all, page, pageSize, p).items;
      SelectUserOrder(p.orderBy) == ByCreatedAtDesc ==>
        forall i, j :: 0 <= i < j < |items| ==> items[i].createdAt >= items[j].createdAt
    ensures var items := ListUsers(all, page, pageSize, p).items;
      SelectUserOrder(p.orderBy) == ByNome ==>
        forall i, j :: 0 <= i < j < |items| ==> LexLe(items[i].nome, items[j].nome)
  {
    ListUsersItems(all, page, pageSize, p);
  }
}
