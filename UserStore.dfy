/**
  The user CRUD handlers: `GET /api/users/{id}`, `POST /api/users`,
  `PUT /api/users/{id}` and `DELETE /api/users/{id}`, over the `Users` table
  held as a map from id to row.

  Each handler's `SaveChangesAsync` is taken to commit at once; the id the
  database assigns is the store's next unused counter value, and the clock
  that stamps `CreatedAt` is a parameter.
*/
module UserStore {
  import opened Text
  import opened Users

  /** The handler results: `Results.Ok`, `Created`, `NoContent`, `NotFound`, `BadRequest`. */
  datatype Response =
    | Ok(user: User)
    | Created(location: int, user: User)
    | NoContent
    | NotFound
    | BadRequest(message: string)

  const RequiredFieldsMessage: string := "Nome, Email e Tipo são obrigatórios."

  /** The create guard: none of `Nome`, `Email`, `Tipo` is null, empty or white space. */
  predicate IsCompleteDto(dto: UserDto)
  {
    !IsBlank(dto.nome) && !IsBlank(dto.email) && !IsBlank(dto.tipo)
  }

  /** `Tipo` as the handlers store it: upper-cased. */
  predicate HasNormalizedTipo(u: User)
  {
    ToUpper(u.tipo) == u.tipo
  }

  class Store {
    var users: map<int, User>
    var nextId: int

    /** Each row is filed under its own id, ids stay below the next one to hand
        out, and every stored `Tipo` is upper-case. */
    ghost predicate Valid()
      reads this
    {
      && nextId >= 1
      && (forall id :: id in users ==> users[id].id == id && 1 <= id < nextId)
      && (forall id :: id in users ==> HasNormalizedTipo(users[id]))
    }

    constructor ()
      ensures Valid() && users == map[]
    {
      users := map[];
      nextId := 1;
    }

    /** `GET /api/users/{id}`: the row, or NotFound. */
    method Find(id: int) returns (r: Response)
      requires Valid()
      ensures id in users ==> r == Ok(users[id])
      ensures id !in users ==> r == NotFound
    {
      if id in users {
        r := Ok(users[id]);
      } else {
        r := NotFound;
      }
    }

    /** `POST /api/users`: BadRequest and no change when a field is blank; otherwise one new
        row under an id not in use, with `Tipo` upper-cased, returned as Created. */
    method Create(dto: UserDto, now: int) returns (r: Response)
      requires Valid()
      modifies this
      ensures Valid()
      ensures !IsCompleteDto(dto) ==> r == BadRequest(RequiredFieldsMessage) && users == old(users)
      ensures IsCompleteDto(dto) ==>
        && r.Created?
        && r.location == r.user.id
        && r.user.id !in old(users)
        && users == old(users)[r.user.id := r.user]
        && r.user == User(r.user.id, dto.nome, dto.email, ToUpper(dto.tipo), now)
    {
      if IsBlank(dto.nome) || IsBlank(dto.email) || IsBlank(dto.tipo) {
        return BadRequest(RequiredFieldsMessage);
      }
      var user := User(nextId, dto.nome, dto.email, ToUpper(dto.tipo), now);
      ToUpperIdempotent(dto.tipo);
      users := users[nextId := user];
      nextId := nextId + 1;
      r := Created(user.id, user);
    }

    /** `PUT /api/users/{id}`: NotFound and no change for an absent id; otherwise that row's
        `Nome`, `Email` and `Tipo` (upper-cased) are overwritten and nothing else changes. */
    method Update(id: int, dto: UserDto) returns (r: Response)
      requires Valid()
      modifies this
      ensures Valid()
      ensures id !in old(users) ==> r == NotFound && users == old(users)
      ensures id in old(users) ==>
        && r == NoContent
        && users == old(users)[id := old(users)[id].(nome := dto.nome, email := dto.email, tipo := ToUpper(dto.tipo))]
    {
      if id !in users {
        return NotFound;
      }
      var user := users[id];
      ToUpperIdempotent(dto.tipo);
      users := users[id := user.(nome := dto.nome, email := dto.email, tipo := ToUpper(dto.tipo))];
      r := NoContent;
    }

    /** `DELETE /api/users/{id}`: NotFound and no change for an absent id; otherwise exactly
        that row is removed. */
    method Delete(id: int) returns (r: Response)
      requires Valid()
      modifies this
      ensures Valid()
      ensures id !in old(users) ==> r == NotFound && users == old(users)
      ensures id in old(users) ==> r == NoContent && users == old(users) - {id}
    {
      if id !in users {
        return NotFound;
      }
      users := users - {id};
      r := NoContent;
    }
  }

  /** Creating a user and then reading it back by the returned id yields the given
      `Nome` and `Email` and the upper-cased `Tipo`. */
  method CreateThenFind(store: Store, dto: UserDto, now: int) returns (created: Response, found: Response)
    requires store.Valid() && IsCompleteDto(dto)
    modifies store
    ensures store.Valid()
    ensures created.Created?
    ensures found == Ok(created.user)
    ensures found.user.nome == dto.nome && found.user.email == dto.email && found.user.tipo == ToUpper(dto.tipo)
  {
    created := store.Create(dto, now);
    found := store.Find(created.location);
  }

  /** Deleting the same id twice: NoContent, then NotFound, and only that id is gone. */
  method DeleteTwice(store: Store, id: int) returns (first: Response, second: Response)
    requires store.Valid() && id in store.users
    modifies store
    ensures store.Valid()
    ensures first == NoContent && second == NotFound
    ensures store.users == old(store.users) - {id}
  {
    first := store.Delete(id);
    second := store.Delete(id);
  }
}
