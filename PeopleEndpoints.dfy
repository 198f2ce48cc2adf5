/**
  `PeopleEndpoints`: the `/api/people` endpoints of the typed-results style.
  Here the handlers do not validate: `POST` and `PUT` run behind
  `ValidatorFilter<Person>`, which validates the body before the handler is
  called. The list takes three optional filters, combined with AND.
 */
module PeopleEndpoints {
  import opened Wrappers
  import opened Text
  import opened Queries
  import opened Models
  import opened Results
  import Entities
  import opened ModelExtensions
  import opened Validations
  import PersonValidator
  import ValidatorFilter
  import opened DataAccessLayer

  /** The query string of the list: each filter may be absent. */
  datatype SearchPeopleRequest = SearchPeopleRequest(firstName: Option<string>, lastName: Option<string>, city: Option<string>)

  /** The arguments an endpoint receives: route values, the body and services. */
  datatype Argument = GuidArgument(id: Id) | PersonArgument(person: Models.Person) | DataContextArgument

  /** `a.GetType() == typeof(Person)`, and the cast. */
  function AsPerson(argument: Argument): Option<Models.Person> {
    if argument.PersonArgument? then Some(argument.person) else None
  }

  /** The three `Where` clauses; each one is applied only when its filter is not blank. */
  function FirstNameClause(request: SearchPeopleRequest): Entities.Person -> bool {
    (p: Entities.Person) => IsNullOrWhiteSpace(request.firstName) || Contains(p.firstName, request.firstName.value)
  }

  function LastNameClause(request: SearchPeopleRequest): Entities.Person -> bool {
    (p: Entities.Person) => IsNullOrWhiteSpace(request.lastName) || Contains(p.lastName, request.lastName.value)
  }

  /** A person without a city never matches a city filter (a null column fails `LIKE`). */
  function CityClause(request: SearchPeopleRequest): Entities.Person -> bool {
    (p: Entities.Person) => IsNullOrWhiteSpace(request.city) || (p.city.Some? && Contains(p.city.value, request.city.value))
  }

  /** The three clauses together: every filter given is contained in its field. */
  predicate MatchesAll(request: SearchPeopleRequest, person: Entities.Person) {
    FirstNameClause(request)(person) && LastNameClause(request)(person) && CityClause(request)(person)
  }

  function Matches(request: SearchPeopleRequest): Entities.Person -> bool {
    (p: Entities.Person) => MatchesAll(request, p)
  }

  /** `if (!string.IsNullOrWhiteSpace(filter)) query = query.Where(clause)`. */
  function WhereIfGiven(rows: seq<Entities.Person>, filter: Option<string>, clause: Entities.Person -> bool): (r: seq<Entities.Person>)
    requires IsNullOrWhiteSpace(filter) ==> forall p :: clause(p)
    ensures r == Where(rows, clause)
  {
    if !IsNullOrWhiteSpace(filter) then Where(rows, clause) else rows
  }

  /** The three conditional `Where` clauses keep exactly the rows the combined filter keeps. */
  lemma ChainedWhere(rows: seq<Entities.Person>, request: SearchPeopleRequest)
    ensures WhereIfGiven(WhereIfGiven(WhereIfGiven(rows, request.firstName, FirstNameClause(request)),
                                      request.lastName, LastNameClause(request)),
                         request.city, CityClause(request))
         == Where(rows, Matches(request))
  {
    var both := (p: Entities.Person) => FirstNameClause(request)(p) && LastNameClause(request)(p);
    WhereWhere(rows, FirstNameClause(request), LastNameClause(request), both);
    WhereWhere(rows, both, CityClause(request), Matches(request));
  }

  /** With no filter given, the list holds every person. */
  lemma NoFilterKeepsAll(people: map<Id, Entities.Person>, request: SearchPeopleRequest)
    requires IsNullOrWhiteSpace(request.firstName) && IsNullOrWhiteSpace(request.lastName) && IsNullOrWhiteSpace(request.city)
    ensures |Query(people, Matches(request), NameKey)| == |people|
  {
    assert forall e :: Matches(request)(e);
    QueryKeepsAll(people, Matches(request), NameKey);
  }

  /** The list holds exactly the bodies of the stored people matching the filters. */
  lemma ListMembers(people: map<Id, Entities.Person>, request: SearchPeopleRequest)
    requires PeopleValid(people)
    ensures forall d :: d in Select(Query(people, Matches(request), NameKey), ToDto) <==>
              d.id in people && MatchesAll(request, people[d.id]) && d == ToDto(people[d.id])
  {
    QueryProjectionMembers(people, Matches(request), NameKey, (e: Entities.Person) => e.id, ToDto, (d: Models.Person) => d.id);
  }

  /** `GET /api/people?firstName=&lastName=&city=`: the people matching every given
      filter, as bodies, by first then last name. */
  function GetList(db: DataContext, request: SearchPeopleRequest): (r: Response<seq<Models.Person>>)
    reads db
    requires db.Valid()
    ensures r.Ok?
    ensures SortedBy(r.value, DtoNameKey)
    ensures forall d :: d in r.value <==>
              d.id in db.people && MatchesAll(request, db.people[d.id]) && d == ToDto(db.people[d.id])
    ensures forall i, j :: 0 <= i < j < |r.value| ==> r.value[i].id != r.value[j].id
    ensures IsNullOrWhiteSpace(request.firstName) && IsNullOrWhiteSpace(request.lastName) && IsNullOrWhiteSpace(request.city)
            ==> |r.value| == |db.people|
  {
    var rows := Rows(db.people);
    var byFirstName := WhereIfGiven(rows, request.firstName, FirstNameClause(request));
    var byLastName := WhereIfGiven(byFirstName, request.lastName, LastNameClause(request));
    var byCity := WhereIfGiven(byLastName, request.city, CityClause(request));
    ChainedWhere(rows, request);
    var p := Matches(request);
    var id := (e: Entities.Person) => e.id;
    var dtoId := (d: Models.Person) => d.id;
    QueryProjectionSorted(db.people, p, NameKey, ToDto, DtoNameKey);
    ListMembers(db.people, request);
    QueryProjectionKeysDistinct(db.people, p, NameKey, id, ToDto, dtoId);
    assert IsNullOrWhiteSpace(request.firstName) && IsNullOrWhiteSpace(request.lastName) && IsNullOrWhiteSpace(request.city)
           ==> |Query(db.people, p, NameKey)| == |db.people| by {
      if IsNullOrWhiteSpace(request.firstName) && IsNullOrWhiteSpace(request.lastName) && IsNullOrWhiteSpace(request.city) {
        NoFilterKeepsAll(db.people, request);
      }
    }
    Ok(Select(OrderBy(byCity, NameKey), ToDto))
  }

  /** `GET /api/people/{id}`: 404 exactly when no row has the key, otherwise the row as a body. */
  function Get(db: DataContext, id: Id): (r: Response<Models.Person>)
    reads db
    ensures r.NotFound? <==> id !in db.people
    ensures id in db.people ==> r.Ok? && r.value == ToDto(db.people[id])
  {
    if id !in db.people then NotFound else Ok(ToDto(db.people[id]))
  }

  /** The handler of `POST`, reached only through the filter, so with a valid body:
      the row is stored under a fresh key and its body returned with 201. */
  method Insert(db: DataContext, person: Models.Person) returns (r: Response<Models.Person>)
    requires db.Valid() && PersonValidator.IsValid(person)
    modifies db
    ensures db.Valid()
    ensures db.products == old(db.products) && db.issuedProductIds == old(db.issuedProductIds)
    ensures && r.CreatedAtRoute? && r.routeName == "GetPerson"
            && r.routeId != EmptyId && r.routeId !in old(db.issuedPeopleIds) && r.routeId !in old(db.people)
            && db.people == old(db.people)[r.routeId := Entities.Person(r.routeId, person.firstName, person.lastName, person.city, None)]
            && db.issuedPeopleIds == old(db.issuedPeopleIds) + {r.routeId}
            && r.value == person.(id := r.routeId)
  {
    var id := db.AddPerson(NewPerson(person));
    NewPersonRoundTrip(person, id);
    r := CreatedAtRoute("GetPerson", id, ToDto(db.people[id]));
  }

  /** The handler of `PUT`, reached only through the filter: key match (400), then
      lookup (404), then the first name, last name and city replaced. */
  method Update(db: DataContext, id: Id, person: Models.Person) returns (r: Response<Models.Person>)
    requires db.Valid() && PersonValidator.IsValid(person)
    modifies db
    ensures db.Valid()
    ensures db.products == old(db.products) && db.issuedProductIds == old(db.issuedProductIds)
    ensures db.issuedPeopleIds == old(db.issuedPeopleIds)
    ensures id != person.id ==> r == BadRequest
    ensures id == person.id && id !in old(db.people) ==> r == NotFound
    ensures r.NoContent? <==> id == person.id && id in old(db.people)
    ensures !r.NoContent? ==> db.people == old(db.people)
    ensures r.NoContent? ==>
              db.people == old(db.people)[id := old(db.people)[id].(firstName := person.firstName, lastName := person.lastName, city := person.city)]
  {
    if id != person.id {
      return BadRequest;
    }
    if id !in db.people {
      return NotFound;
    }
    var dbPerson := db.people[id];
    db.people := db.people[id := dbPerson.(firstName := person.firstName, lastName := person.lastName, city := person.city)];
    r := NoContent;
  }

  /** `DELETE /api/people/{id}`: 404 with no change for an unknown key; otherwise that row is gone. */
  method Delete(db: DataContext, id: Id) returns (r: Response<Models.Person>)
    requires db.Valid()
    modifies db
    ensures db.Valid()
    ensures db.products == old(db.products) && db.issuedProductIds == old(db.issuedProductIds)
    ensures db.issuedPeopleIds == old(db.issuedPeopleIds)
    ensures r.NotFound? <==> id !in old(db.people)
    ensures r.NotFound? ==> db.people == old(db.people)
    ensures !r.NotFound? ==> r == NoContent && db.people == old(db.people) - {id}
  {
    if id !in db.people {
      return NotFound;
    }
    db.people := db.people - {id};
    r := NoContent;
  }

  /** `POST /api/people` as routed: the filter, then the handler. An invalid body
      never reaches the handler and the store is unchanged. */
  method InsertEndpoint(db: DataContext, person: Models.Person) returns (r: Response<Models.Person>)
    requires db.Valid()
    modifies db
    ensures db.Valid()
    ensures db.products == old(db.products) && db.issuedProductIds == old(db.issuedProductIds)
    ensures !PersonValidator.IsValid(person) ==>
              r == ValidationProblem(GroupByProperty(PersonValidator.Validate(person)))
              && db.people == old(db.people) && db.issuedPeopleIds == old(db.issuedPeopleIds)
    ensures PersonValidator.IsValid(person) ==>
              && r.CreatedAtRoute? && r.routeName == "GetPerson"
              && r.routeId != EmptyId && r.routeId !in old(db.issuedPeopleIds) && r.routeId !in old(db.people)
              && db.people == old(db.people)[r.routeId := Entities.Person(r.routeId, person.firstName, person.lastName, person.city, None)]
              && db.issuedPeopleIds == old(db.issuedPeopleIds) + {r.routeId}
              && r.value == person.(id := r.routeId)
  {
    var arguments := [PersonArgument(person), DataContextArgument];
    assert ValidatorFilter.IsFirstOfType(arguments, AsPerson, 0);
    var decision := ValidatorFilter.InvokeAsync<Argument, Models.Person, Models.Person>(arguments, AsPerson, PersonValidator.Validate);
    if decision.ShortCircuit? {
      return decision.response;
    }
    r := Insert(db, person);
  }

  /** `PUT /api/people/{id}` as routed: validation (by the filter) comes before
      the key match, so an invalid body with a mismatched key gets its
      validation problem, not 400. */
  method UpdateEndpoint(db: DataContext, id: Id, person: Models.Person) returns (r: Response<Models.Person>)
    requires db.Valid()
    modifies db
    ensures db.Valid()
    ensures db.products == old(db.products) && db.issuedProductIds == old(db.issuedProductIds)
    ensures db.issuedPeopleIds == old(db.issuedPeopleIds)
    ensures !PersonValidator.IsValid(person) ==>
              r == ValidationProblem(GroupByProperty(PersonValidator.Validate(person)))
    ensures PersonValidator.IsValid(person) && id != person.id ==> r == BadRequest
    ensures PersonValidator.IsValid(person) && id == person.id && id !in old(db.people) ==> r == NotFound
    ensures !r.NoContent? ==> db.people == old(db.people)
    ensures r.NoContent? <==> PersonValidator.IsValid(person) && id == person.id && id in old(db.people)
    ensures r.NoContent? ==>
              db.people == old(db.people)[id := old(db.people)[id].(firstName := person.firstName, lastName := person.lastName, city := person.city)]
  {
    var arguments := [GuidArgument(id), PersonArgument(person), DataContextArgument];
    assert ValidatorFilter.IsFirstOfType(arguments, AsPerson, 1);
    var decision := ValidatorFilter.InvokeAsync<Argument, Models.Person, Models.Person>(arguments, AsPerson, PersonValidator.Validate);
    if decision.ShortCircuit? {
      return decision.response;
    }
    r := Update(db, id, person);
  }
}
