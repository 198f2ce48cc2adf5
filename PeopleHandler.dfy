/**
  `PeopleHandler`: the `/api/people` endpoints of the handler-class style.
  Each handler validates its body itself and answers with a validation
  problem whose error map groups the failures by property.

  The write handlers check, in this order: the body's validity, then (for an
  update) that the path key equals the body's key, then that the row exists;
  only then do they change the table. Every early answer leaves both tables
  as they were.
 */
module PeopleHandler {
  import opened Wrappers
  import opened Text
  import opened Queries
  import opened Models
  import opened Results
  import Entities
  import opened ModelExtensions
  import opened Validations
  import PersonValidator
  import opened DataAccessLayer

  /** The search filter: a blank `q` keeps every person; any other keeps those
      whose first or last name contains it. */
  predicate MatchesSearch(searchText: Option<string>, person: Entities.Person) {
    IsNullOrWhiteSpace(searchText)
    || Contains(person.firstName, searchText.value)
    || Contains(person.lastName, searchText.value)
  }

  /** `GET /api/people?q=`: the matching people, as bodies, by first then last name. */
  function GetList(db: DataContext, searchText: Option<string>): (r: Response<seq<Models.Person>>)
    reads db
    requires db.Valid()
    ensures r.Ok?
    ensures SortedBy(r.value, DtoNameKey)
    ensures forall d :: d in r.value <==>
              d.id in db.people && MatchesSearch(searchText, db.people[d.id]) && d == ToDto(db.people[d.id])
    ensures forall i, j :: 0 <= i < j < |r.value| ==> r.value[i].id != r.value[j].id
    ensures IsNullOrWhiteSpace(searchText) ==> |r.value| == |db.people|
  {
    var p := (e: Entities.Person) => MatchesSearch(searchText, e);
    var id := (e: Entities.Person) => e.id;
    var dtoId := (d: Models.Person) => d.id;
    QueryProjectionSorted(db.people, p, NameKey, ToDto, DtoNameKey);
    QueryProjectionMembers(db.people, p, NameKey, id, ToDto, dtoId);
    QueryProjectionKeysDistinct(db.people, p, NameKey, id, ToDto, dtoId);
    assert IsNullOrWhiteSpace(searchText) ==> |Query(db.people, p, NameKey)| == |db.people| by {
      if IsNullOrWhiteSpace(searchText) {
        QueryKeepsAll(db.people, p, NameKey);
      }
    }
    Ok(Select(Query(db.people, p, NameKey), ToDto))
  }

  /** `GET /api/people/{id}`: 404 exactly when no row has the key, otherwise the row as a body. */
  function Get(db: DataContext, id: Id): (r: Response<Models.Person>)
    reads db
    ensures r.NotFound? <==> id !in db.people
    ensures id in db.people ==> r.Ok? && r.value == ToDto(db.people[id])
  {
    if id !in db.people then NotFound else Ok(ToDto(db.people[id]))
  }

  /** `POST /api/people`: an invalid body gets its validation problem and the
      store stays as it was; a valid one is stored as a new row under a fresh
      key (the body's own key is not used) with no photo, and 201 names the new key. */
  method Insert(db: DataContext, person: Models.Person) returns (r: Response<Models.Person>)
    requires db.Valid()
    modifies db
    ensures db.Valid()
    ensures db.products == old(db.products) && db.issuedProductIds == old(db.issuedProductIds)
    ensures !PersonValidator.IsValid(person) ==>
              r == ValidationProblem(GroupByProperty(PersonValidator.Validate(person)))
              && db.people == old(db.people) && db.issuedPeopleIds == old(db.issuedPeopleIds)
    ensures PersonValidator.IsValid(person) ==>
              && r.CreatedAtRoute? && r.routeName == "GetPerson"
              && r.routeId != EmptyId && r.routeId !in old(db.issuedPeopleIds) && r.routeId !in old(db.people)
              && db.people == old(db.people)[r.routeId := Entities.Person(r.routeId, person.firstName, person.lastName, person.city, None)]
              && db.issuedPeopleIds == old(db.issuedPeopleIds) + {r.routeId}
              && r.value == person.(id := r.routeId)
  {
    var failures := PersonValidator.Validate(person);
    if failures != [] {
      return ValidationProblem(GroupByProperty(failures));
    }
    var id := db.AddPerson(NewPerson(person));
    NewPersonRoundTrip(person, id);
    r := CreatedAtRoute("GetPerson", id, ToDto(db.people[id]));
  }

  /** `PUT /api/people/{id}`: validation first (even when the keys differ), then
      the key match (400), then the lookup (404); only then are the first name,
      last name and city of that row replaced, its key and photo and every
      other row kept. */
  method Update(db: DataContext, id: Id, person: Models.Person) returns (r: Response<Models.Person>)
    requires db.Valid()
    modifies db
    ensures db.Valid()
    ensures db.products == old(db.products) && db.issuedProductIds == old(db.issuedProductIds)
    ensures db.issuedPeopleIds == old(db.issuedPeopleIds)
    ensures !PersonValidator.IsValid(person) ==>
              r == ValidationProblem(GroupByProperty(PersonValidator.Validate(person)))
    ensures PersonValidator.IsValid(person) && id != person.id ==> r == BadRequest
    ensures PersonValidator.IsValid(person) && id == person.id && id !in old(db.people) ==> r == NotFound
    ensures !r.NoContent? ==> db.people == old(db.people)
    ensures r.NoContent? <==> PersonValidator.IsValid(person) && id == person.id && id in old(db.people)
    ensures r.NoContent? ==>
              db.people == old(db.people)[id := old(db.people)[id].(firstName := person.firstName, lastName := person.lastName, city := person.city)]
  {
    var failures := PersonValidator.Validate(person);
    if failures != [] {
      return ValidationProblem(GroupByProperty(failures));
    }
    if id != person.id {
      return BadRequest;
    }
    if id !in db.people {
      return NotFound;
    }
    var dbPerson := db.people[id];
    db.people := db.people[id := dbPerson.(firstName := person.firstName, lastName := person.lastName, city := person.city)];
    r := NoContent;
  }

  /** `DELETE /api/people/{id}`: 404 with no change for an unknown key; otherwise
      that row, and only it, is gone. */
  method Delete(db: DataContext, id: Id) returns (r: Response<Models.Person>)
    requires db.Valid()
    modifies db
    ensures db.Valid()
    ensures db.products == old(db.products) && db.issuedProductIds == old(db.issuedProductIds)
    ensures db.issuedPeopleIds == old(db.issuedPeopleIds)
    ensures r.NotFound? <==> id !in old(db.people)
    ensures r.NotFound? ==> db.people == old(db.people)
    ensures !r.NotFound? ==> r == NoContent && db.people == old(db.people) - {id}
  {
    if id !in db.people {
      return NotFound;
    }
    db.people := db.people - {id};
    r := NoContent;
  }
}
