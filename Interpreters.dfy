/**
  The interpreter search handler, `GET /api/interpreters/search`: optional
  `especialidade` (text in `Especialidades`) and `dia` (its upper-case form in
  a non-null `Disponivel`) filters, an order by `Especialidades` or by the
  owning user's `Nome`, then count, page, projection and links.

  Each profile row carries the `Nome` and `Email` of its owning user, which
  the handler reads through its join on `User`.
*/
module Interpreters {
  import opened Wrappers
  import opened Text
  import opened Query
  import opened Paging

  /** The owning user's columns that the join exposes. */
  datatype Owner = Owner(nome: string, email: string)

  /** An `InterpreterProfile` row joined with its user. */
  datatype Profile = Profile(
    id: int, userId: int, user: Owner,
    especialidades: string, descricao: Option<string>, disponivel: Option<string>)

  /** One element of `items`: `{ Id, UserId, Nome, Email, Especialidades, Disponivel }`. */
  datatype SearchItem = SearchItem(
    id: int, userId: int, nome: string, email: string,
    especialidades: string, disponivel: Option<string>)

  /** The query parameters other than paging; links carry them unchanged. */
  datatype SearchParams = SearchParams(especialidade: Option<string>, dia: Option<string>, orderBy: Option<string>)

  datatype ProfileOrder = ByEspecialidades | ByUserNome

  /** The `orderBy?.ToLower() switch`: "especialidades", or anything else (null included) by `User.Nome`. */
  function SelectProfileOrder(orderBy: Option<string>): ProfileOrder
  {
    if orderBy.Some? && ToLower(orderBy.value) == "especialidades" then ByEspecialidades else ByUserNome
  }

  /** The choice of order ignores the letter case of `orderBy`. */
  lemma SelectProfileOrderIgnoresCase(orderBy: string, other: string)
    requires SameUpToCase(orderBy, other)
    ensures SelectProfileOrder(Some(orderBy)) == SelectProfileOrder(Some(other))
  {
    ToLowerIgnoresCase(orderBy, other);
  }

  /** Both orders are ascending on a text key. */
  function ProfileLe(o: ProfileOrder): (Profile, Profile) -> bool
  {
    match o
    case ByEspecialidades => (a: Profile, b: Profile) => LexLe(a.especialidades, b.especialidades)
    case ByUserNome => (a: Profile, b: Profile) => LexLe(a.user.nome, b.user.nome)
  }

  lemma ProfileLeIsTotalPreorder(o: ProfileOrder)
    ensures TotalPreorder(ProfileLe(o))
  {
    var le := ProfileLe(o);
    forall a: Profile, b: Profile ensures le(a, b) || le(b, a) {
      LexLeTotal(a.especialidades, b.especialidades);
      LexLeTotal(a.user.nome, b.user.nome);
    }
    forall a: Profile, b: Profile, c: Profile | le(a, b) && le(b, c) ensures le(a, c) {
      if o == ByEspecialidades {
        LexLeTransitive(a.especialidades, b.especialidades, c.especialidades);
      } else {
        LexLeTransitive(a.user.nome, b.user.nome, c.user.nome);
      }
    }
  }

  /** `i.Disponivel != null && i.Disponivel.Contains(dia.ToUpper())`. */
  predicate AvailableOn(i: Profile, dia: string)
  {
    i.disponivel.Some? && Contains(i.disponivel.value, ToUpper(dia))
  }

  /** The reference filter: each active filter holds; an inactive one is ignored. */
  predicate ProfileMatches(i: Profile, p: SearchParams)
  {
    && (IsActive(p.especialidade) ==> Contains(i.especialidades, p.especialidade.value))
    && (IsActive(p.dia) ==> AvailableOn(i, p.dia.value))
  }

  /** The two conditional `Where` steps, in the handler's order. */
  function FilterProfiles(all: seq<Profile>, p: SearchParams): seq<Profile>
  {
    var bySpecialty :=
      if IsActive(p.especialidade) then
        var especialidade := p.especialidade.value;
        Where(all, (i: Profile) => Contains(i.especialidades, especialidade))
      else all;
    if IsActive(p.dia) then
      var dia := p.dia.value;
      Where(bySpecialty, (i: Profile) => AvailableOn(i, dia))
    else bySpecialty
  }

  /** The staged filters select exactly the rows the reference filter does, in table order. */
  lemma FilterProfilesIsConjunction(all: seq<Profile>, p: SearchParams)
    ensures FilterProfiles(all, p) == Where(all, (i: Profile) => ProfileMatches(i, p))
  {
    var matches := (i: Profile) => ProfileMatches(i, p);
    if IsActive(p.especialidade) {
      var especialidade := p.especialidade.value;
      var bySpecialty := (i: Profile) => Contains(i.especialidades, especialidade);
      if IsActive(p.dia) {
        var dia := p.dia.value;
        WhereWhere(all, bySpecialty, (i: Profile) => AvailableOn(i, dia), matches);
      } else {
        WhereExtensional(all, bySpecialty, matches);
      }
    } else if IsActive(p.dia) {
      var dia := p.dia.value;
      WhereExtensional(all, (i: Profile) => AvailableOn(i, dia), matches);
    } else {
      WhereAll(all, matches);
    }
  }

  /** The filtered rows in the selected order. */
  function SortedProfiles(all: seq<Profile>, p: SearchParams): seq<Profile>
  {
    OrderBy(FilterProfiles(all, p), ProfileLe(SelectProfileOrder(p.orderBy)))
  }

  /** The `Select` projection applied to the page. */
  function Project(i: Profile): SearchItem
  {
    SearchItem(i.id, i.userId, i.user.nome, i.user.email, i.especialidades, i.disponivel)
  }

  function ProjectAll(s: seq<Profile>): seq<SearchItem>
  {
    seq(|s|, k requires 0 <= k < |s| => Project(s[k]))
  }

  /** Projecting the page's rows gives the page of the projected rows: the `Select`
      after `Skip`/`Take` keeps each item at its row's position. */
  lemma ProjectWindow(s: seq<Profile>, page: int, pageSize: int)
    requires page >= 1 && pageSize >= 1
    ensures ProjectAll(Window(s, page, pageSize)) == Window(ProjectAll(s), page, pageSize)
  {
  }

  /** The whole handler body: filter, order, count, page, project, links. */
  function SearchInterpreters(all: seq<Profile>, page: int, pageSize: int, p: SearchParams)
    : (r: PageResult<SearchItem, SearchParams>)
    requires page >= 1 && pageSize >= 1
  {
    var rows := Paginate(SortedProfiles(all, p), page, pageSize, p);
    PageResult(rows.total, rows.page, rows.pageSize, ProjectAll(rows.items), rows.links)
  }

  /** The ordered rows are a permutation of the matching rows, sorted by the selected key. */
  lemma SortedProfilesCorrect(all: seq<Profile>, p: SearchParams)
    ensures multiset(SortedProfiles(all, p)) == multiset(Where(all, (i: Profile) => ProfileMatches(i, p)))
    ensures forall i :: i in SortedProfiles(all, p) ==> i in all && ProfileMatches(i, p)
    ensures SortedBy(ProfileLe(SelectProfileOrder(p.orderBy)), SortedProfiles(all, p))
  {
    var le := ProfileLe(SelectProfileOrder(p.orderBy));
    ProfileLeIsTotalPreorder(SelectProfileOrder(p.orderBy));
    OrderBySorted(FilterProfiles(all, p), le);
    FilterProfilesIsConjunction(all, p);
    forall i | i in SortedProfiles(all, p) ensures i in all && ProfileMatches(i, p) {
      assert i in multiset(SortedProfiles(all, p));
    }
  }

  /** `total` is the number of matching profiles, and the page is the projection of the
      window of the sorted rows that starts after the earlier pages; links as for any listing. */
  lemma SearchInterpretersPage(all: seq<Profile>, page: int, pageSize: int, p: SearchParams)
    requires page >= 1 && pageSize >= 1
    ensures var r := SearchInterpreters(all, page, pageSize, p);
      && r.total == |Where(all, (i: Profile) => ProfileMatches(i, p))|
      && |r.items| <= pageSize
      && |r.items| == Min(pageSize, Max(0, r.total - Offset(page, pageSize)))
      && (forall k :: 0 <= k < |r.items| ==>
            r.items[k] == Project(SortedProfiles(all, p)[Offset(page, pageSize) + k]))
      && r.links == PageLinks(page, pageSize, r.total, p)
  {
    var sorted := SortedProfiles(all, p);
    FilterProfilesIsConjunction(all, p);
    assert |sorted| == |FilterProfiles(all, p)| by {
      assert |multiset(sorted)| == |multiset(FilterProfiles(all, p))|;
    }
    var rows := Paginate(sorted, page, pageSize, p);
    var r := SearchInterpreters(all, page, pageSize, p);
    assert r.items == ProjectAll(rows.items) && r.total == rows.total && r.links == rows.links;
  }

  /** Every listed profile matches the active filters: its `Especialidades` contains
      `especialidade`, and its `Disponivel` is non-null and contains `dia` upper-cased. */
  lemma SearchInterpretersFilters(all: seq<Profile>, page: int, pageSize: int, p: SearchParams)
    requires page >= 1 && pageSize >= 1
    ensures forall item :: item in SearchInterpreters(all, page, pageSize, p).items ==>
      && (IsActive(p.especialidade) ==> Contains(item.especialidades, p.especialidade.value))
      && (IsActive(p.dia) ==> item.disponivel.Some? && Contains(item.disponivel.value, ToUpper(p.dia.value)))
  {
    var items := SearchInterpreters(all, page, pageSize, p).items;
    var sorted := SortedProfiles(all, p);
    var window := Paginate(sorted, page, pageSize, p).items;
    assert items == ProjectAll(window);
    SortedProfilesCorrect(all, p);
    PageItemsAreRows(sorted, page, pageSize, p);
    forall item | item in items
      ensures IsActive(p.especialidade) ==> Contains(item.especialidades, p.especialidade.value)
      ensures IsActive(p.dia) ==> item.disponivel.Some? && Contains(item.disponivel.value, ToUpper(p.dia.value))
    {
      var k :| 0 <= k < |items| && items[k] == item;
      assert window[k] in window;
    }
  }

  /** The page is ascending by `Especialidades` under `orderBy=especialidades` (any letter
      case), and ascending by the user's `Nome` otherwise. */
  lemma SearchInterpretersOrder(all: seq<Profile>, page: int, pageSize: int, p: SearchParams)
    requires page >= 1 && pageSize >= 1
    ensures var items := SearchInterpreters(all, page, pageSize, p).items;
      SelectProfileOrder(p.orderBy) == ByEspecialidades ==>
        forall j, k :: 0 <= j < k < |items| ==> LexLe(items[j].especialidades, items[k].especialidades)
    ensures var items := SearchInterpreters(all, page, pageSize, p).items;
      SelectProfileOrder(p.orderBy) == ByUserNome ==>
        forall j, k :: 0 <= j < k < |items| ==> LexLe(items[j].nome, items[k].nome)
  {
    var o := SelectProfileOrder(p.orderBy);
    var window := Paginate(SortedProfiles(all, p), page, pageSize, p).items;
    WindowSorted(all, page, pageSize, p);
    var items := SearchInterpreters(all, page, pageSize, p).items;
    assert items == ProjectAll(window);
    if o == ByEspecialidades {
      forall j, k | 0 <= j < k < |items| ensures LexLe(items[j].especialidades, items[k].especialidades) {
        assert ProfileLe(o)(window[j], window[k]);
      }
    } else {
      forall j, k | 0 <= j < k < |items| ensures LexLe(items[j].nome, items[k].nome) {
        assert ProfileLe(o)(window[j], window[k]);
      }
    }
  }

  lemma WindowSorted(all: seq<Profile>, page: int, pageSize: int, p: SearchParams)
    requires page >= 1 && pageSize >= 1
    ensures SortedBy(ProfileLe(SelectProfileOrder(p.orderBy)), Paginate(SortedProfiles(all, p), page, pageSize, p).items)
  {
    var sorted := SortedProfiles(all, p);
    ProfileLeIsTotalPreorder(SelectProfileOrder(p.orderBy));
    OrderBySorted(FilterProfiles(all, p), ProfileLe(SelectProfileOrder(p.orderBy)));
    PageSorted(ProfileLe(SelectProfileOrder(p.orderBy)), sorted, page, pageSize, p);
  }
}
