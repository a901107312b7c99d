/**
 * AuthorService: validation and not-found rules around the AUTHOR table.
 * Each method answers with a Response; a rejected call changes nothing.
 */
module AuthorService {
  import opened Wrappers
  import opened Entities
  import opened AuthorRepo
  import Table

  class AuthorService {
    const authRepo: AuthorRepository

    ghost predicate Valid()
      reads authRepo
    {
      authRepo.Valid()
    }

    constructor (repo: AuthorRepository)
      ensures authRepo == repo
    {
      authRepo := repo;
    }

    /**
     * `createAuthorService`: both names must be non-null (an empty name is
     * accepted). The store assigns the id of the new row; `assignedId` is
     * that id.
     */
    method CreateAuthor(athr: Author, assignedId: int) returns (r: Response<Author>)
      requires Valid()
      modifies authRepo
      ensures Valid()
      ensures athr.firstName.None? || athr.lastName.None? ==>
                r == BadRequest(MissingNames) && authRepo.rows == old(authRepo.rows)
      ensures athr.firstName.Some? && athr.lastName.Some? ==>
                var saved := athr.(authorId := assignedId);
                && r == Ok(saved)
                && authRepo.rows == Table.Upsert(old(authRepo.rows), AuthorKey, saved)
                && authRepo.FindById(assignedId) == Some(saved)
    {
      if athr.firstName.None? || athr.lastName.None? {
        return BadRequest(MissingNames);
      }
      var saved := athr.(authorId := assignedId);
      authRepo.Save(saved);
      Table.UpsertFind(old(authRepo.rows), AuthorKey, saved, assignedId);
      r := Ok(saved);
    }

    /** `getAuthorByIdService`: an id <= 0 is a bad request, an absent id is not found, otherwise the stored author. */
    method GetAuthorById(id: int) returns (r: Response<Author>)
      requires Valid()
      ensures id <= 0 ==> r == BadRequest(InvalidId)
      ensures id > 0 && !authRepo.ExistsById(id) ==> r == NotFound
      ensures id > 0 && authRepo.ExistsById(id) ==>
                r.Ok? && r.value in authRepo.rows && r.value.authorId == id
    {
      if id <= 0 {
        return BadRequest(InvalidId);
      }
      var found := authRepo.FindById(id);
      if found.Some? {
        r := Ok(found.value);
      } else {
        r := NotFound;
      }
    }

    /** `getAllAuthorsService`: every stored author, in store order. */
    method GetAllAuthors() returns (r: Response<seq<Author>>)
      ensures r.Ok? && r.value == authRepo.rows
    {
      r := Ok(authRepo.FindAll());
    }

    /**
     * `getByNamesService`: both terms must be non-null and non-empty;
     * otherwise the answer is the `findByNames` search.
     */
    method GetByNames(firstName: Option<string>, lastName: Option<string>) returns (r: Response<seq<Author>>)
      ensures firstName in {None, Some("")} || lastName in {None, Some("")} ==>
                r == BadRequest(InvalidSearchTerms)
      ensures firstName !in {None, Some("")} && lastName !in {None, Some("")} ==>
                && r.Ok?
                && (forall a :: a in r.value <==> a in authRepo.rows && MatchesNames(a, firstName.value, lastName.value))
                && r.value == FindByNames(authRepo.rows, firstName.value, lastName.value)
    {
      if firstName.None? || firstName.value == "" || lastName.None? || lastName.value == "" {
        return BadRequest(InvalidSearchTerms);
      }
      r := Ok(FindByNames(authRepo.FindAll(), firstName.value, lastName.value));
    }

    /**
     * `deleteAuthorByIdService`: there is no `id <= 0` guard; an absent id is
     * not found and changes nothing, a present one is removed and every
     * other author stays as it was.
     */
    method DeleteAuthorById(id: int) returns (r: Response<()>)
      requires Valid()
      modifies authRepo
      ensures Valid()
      ensures !old(authRepo.ExistsById(id)) ==> r == NotFound && authRepo.rows == old(authRepo.rows)
      ensures old(authRepo.ExistsById(id)) ==>
                && r == Ok(())
                && authRepo.rows == Table.Remove(old(authRepo.rows), AuthorKey, id)
                && !authRepo.ExistsById(id)
                && forall k :: k != id ==> authRepo.FindById(k) == old(authRepo.FindById(k))
    {
      if authRepo.ExistsById(id) {
        authRepo.DeleteById(id);
        forall k | k != id ensures authRepo.FindById(k) == old(authRepo.FindById(k)) {
          Table.RemoveFind(old(authRepo.rows), AuthorKey, id, k);
        }
        r := Ok(());
      } else {
        r := NotFound;
      }
    }

    /** `deleteAllService`: always succeeds and empties the table. */
    method DeleteAll() returns (r: Response<()>)
      modifies authRepo
      ensures Valid()
      ensures r == Ok(()) && authRepo.rows == []
    {
      authRepo.DeleteAll();
      r := Ok(());
    }

    /**
     * `updateFirstNameService`: the new name is not validated; an absent id
     * is not found and changes nothing, otherwise only the first name of
     * that row changes.
     */
    method UpdateFirstName(id: int, firstName: Option<string>) returns (r: Response<Author>)
      requires Valid()
      modifies authRepo
      ensures Valid()
      ensures old(authRepo.FindById(id)).None? ==> r == NotFound && authRepo.rows == old(authRepo.rows)
      ensures old(authRepo.FindById(id)).Some? ==>
                var before := old(authRepo.FindById(id)).value;
                var after := Author(before.authorId, firstName, before.lastName);
                && r == Ok(after)
                && authRepo.rows == Table.Upsert(old(authRepo.rows), AuthorKey, after)
                && authRepo.FindById(id) == Some(after)
                && (forall k :: k != id ==> authRepo.FindById(k) == old(authRepo.FindById(k)))
    {
      var found := authRepo.FindById(id);
      if found.None? {
        return NotFound;
      }
      var result := found.value.(firstName := firstName);
      authRepo.Save(result);
      forall k ensures authRepo.FindById(k) == if k == id then Some(result) else old(authRepo.FindById(k)) {
        Table.UpsertFind(old(authRepo.rows), AuthorKey, result, k);
      }
      r := Ok(result);
    }

    /** `updateLastNameService`: as `updateFirstNameService`, for the last name. */
    method UpdateLastName(id: int, lastName: Option<string>) returns (r: Response<Author>)
      requires Valid()
      modifies authRepo
      ensures Valid()
      ensures old(authRepo.FindById(id)).None? ==> r == NotFound && authRepo.rows == old(authRepo.rows)
      ensures old(authRepo.FindById(id)).Some? ==>
                var before := old(authRepo.FindById(id)).value;
                var after := Author(before.authorId, before.firstName, lastName);
                && r == Ok(after)
                && authRepo.rows == Table.Upsert(old(authRepo.rows), AuthorKey, after)
                && authRepo.FindById(id) == Some(after)
                && (forall k :: k != id ==> authRepo.FindById(k) == old(authRepo.FindById(k)))
    {
      var found := authRepo.FindById(id);
      if found.None? {
        return NotFound;
      }
      var result := found.value.(lastName := lastName);
      authRepo.Save(result);
      forall k ensures authRepo.FindById(k) == if k == id then Some(result) else old(authRepo.FindById(k)) {
        Table.UpsertFind(old(authRepo.rows), AuthorKey, result, k);
      }
      r := Ok(result);
    }
  }
}
