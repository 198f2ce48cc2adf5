/**
  Request sequences against one store: what a client observes when it calls
  the endpoints one after another.
 */
module Scenarios {
  import opened Wrappers
  import opened Models
  import opened Results
  import Entities
  import Binding
  import Text
  import Validations
  import PersonValidator
  import ProductValidator
  import opened DataAccessLayer
  import PeopleHandler
  import ProductsHandler
  import PeopleEndpoints
  import PeoplePhotoHandler
  import PhotoEndpoints

  /** Creating a valid person and fetching it by the returned key gives back the
      body sent, with the generated key. */
  method CreateThenGet(db: DataContext, person: Models.Person) returns (created: Response<Models.Person>, fetched: Response<Models.Person>)
    requires db.Valid() && PersonValidator.IsValid(person)
    modifies db
    ensures created.CreatedAtRoute? && created.routeId != EmptyId
    ensures fetched == Ok(person.(id := created.routeId))
  {
    created := PeopleHandler.Insert(db, person);
    fetched := PeopleHandler.Get(db, created.routeId);
  }

  /** The same for products. */
  method CreateProductThenGet(db: DataContext, product: Models.Product) returns (created: Response<Models.Product>, fetched: Response<Models.Product>)
    requires db.Valid() && ProductValidator.IsValid(product)
    modifies db
    ensures created.CreatedAtRoute? && created.routeId != EmptyId
    ensures fetched == Ok(product.(id := created.routeId))
  {
    created := ProductsHandler.Insert(db, product);
    fetched := ProductsHandler.Get(db, created.routeId);
  }

  /** A successful update is what a later fetch returns. */
  method UpdateThenGet(db: DataContext, person: Models.Person) returns (updated: Response<Models.Person>, fetched: Response<Models.Person>)
    requires db.Valid() && PersonValidator.IsValid(person) && person.id in db.people
    modifies db
    ensures updated == NoContent
    ensures fetched == Ok(person)
  {
    updated := PeopleHandler.Update(db, person.id, person);
    fetched := PeopleHandler.Get(db, person.id);
  }

  /** An invalid body is refused and a fetch afterwards sees the row as it was. */
  method InvalidUpdateThenGet(db: DataContext, id: Id, person: Models.Person) returns (updated: Response<Models.Person>, fetched: Response<Models.Person>)
    requires db.Valid() && !PersonValidator.IsValid(person)
    modifies db
    ensures updated.ValidationProblem? && updated.errors != map[]
    ensures fetched == old(PeopleHandler.Get(db, id))
    ensures db.people == old(db.people)
  {
    Validations.GroupByPropertyEmpty(PersonValidator.Validate(person));
    updated := PeopleHandler.Update(db, id, person);
    fetched := PeopleHandler.Get(db, id);
  }

  /** Deleting twice: the second delete always finds nothing. */
  method DeleteTwice(db: DataContext, id: Id) returns (first: Response<Models.Person>, second: Response<Models.Person>)
    requires db.Valid()
    modifies db
    ensures first == (if id in old(db.people) then NoContent else NotFound)
    ensures second == NotFound
    ensures id !in db.people
  {
    first := PeopleHandler.Delete(db, id);
    second := PeopleHandler.Delete(db, id);
  }

  /** Create, delete, create again: the second person never gets the key the
      first one had, though that key is free again after the delete. */
  method DeleteThenCreateGetsNewKey(db: DataContext, first: Models.Person, second: Models.Person)
      returns (created: Response<Models.Person>, deleted: Response<Models.Person>, recreated: Response<Models.Person>)
    requires db.Valid() && PersonValidator.IsValid(first) && PersonValidator.IsValid(second)
    modifies db
    ensures created.CreatedAtRoute? && deleted == NoContent && recreated.CreatedAtRoute?
    ensures recreated.routeId != created.routeId
    ensures created.routeId !in db.people && recreated.routeId in db.people
  {
    created := PeopleHandler.Insert(db, first);
    deleted := PeopleHandler.Delete(db, created.routeId);
    recreated := PeopleHandler.Insert(db, second);
  }

  /** A photo uploaded is the photo served, byte for byte; once deleted, it is not found. */
  method PhotoRoundTrip(db: DataContext, id: Id, file: Binding.FormFile)
      returns (put: Response<()>, got: Response<()>, deleted: Response<()>, gotAfterDelete: Response<()>)
    requires db.Valid() && id in db.people
    modifies db
    ensures put == NoContent && got == Bytes(file.content, ImageJpeg)
    ensures deleted == NoContent && gotAfterDelete == NotFound
  {
    put := PeoplePhotoHandler.UpdatePhoto(db, id, Some(Binding.FormFileContent(file)));
    got := PeoplePhotoHandler.GetPhoto(db, id);
    deleted := PeoplePhotoHandler.DeletePhoto(db, id);
    gotAfterDelete := PeoplePhotoHandler.GetPhoto(db, id);
  }

  /** Deleting a photo twice is accepted both times and the photo stays null. */
  method DeletePhotoTwice(db: DataContext, id: Id) returns (first: Response<()>, second: Response<()>)
    requires db.Valid() && id in db.people
    modifies db
    ensures first == NoContent && second == NoContent
    ensures id in db.people && db.people[id].photo.None?
  {
    first := PhotoEndpoints.Delete(db, id);
    second := PhotoEndpoints.Delete(db, id);
  }

  /** An upload that is not multipart gets 415; a multipart form without a file
      binds to null, and the handler then answers 404 for an unknown person and
      fails (500) for a known one. In every case the photo served stays as it was. */
  method RejectedUploadKeepsPhoto(db: DataContext, id: Id, request: Binding.Request) returns (put: Response<()>)
    requires db.Valid()
    requires request.contentType != Binding.MultipartFormData || request.files.None? || request.files.value == []
    modifies db
    ensures put == if request.contentType != Binding.MultipartFormData then UnsupportedMediaType
                   else if id in old(db.people) then InternalServerError
                   else NotFound
    ensures PhotoEndpoints.Get(db, id) == old(PhotoEndpoints.Get(db, id))
  {
    put := PeoplePhotoHandler.PutPhoto(db, id, request);
  }

  /** Create Ann Lee of NY, fetch her, give her a photo, fetch it, delete it, and fetch it again. */
  method AnnLee(db: DataContext, jpeg: seq<byte>)
      returns (created: Response<Models.Person>, fetched: Response<Models.Person>,
               put: Response<()>, photo: Response<()>, deleted: Response<()>, photoAfterDelete: Response<()>)
    requires db.Valid()
    modifies db
    ensures created.CreatedAtRoute? && created.routeId != EmptyId
    ensures fetched == Ok(Models.Person(created.routeId, "Ann", "Lee", Some("NY")))
    ensures put == NoContent && photo == Bytes(jpeg, ImageJpeg)
    ensures deleted == NoContent && photoAfterDelete == NotFound
  {
    var ann := Models.Person(EmptyId, "Ann", "Lee", Some("NY"));
    assert !Text.IsBlank(ann.firstName) by { assert !Text.IsWhiteSpace(ann.firstName[0]); }
    assert !Text.IsBlank(ann.lastName) by { assert !Text.IsWhiteSpace(ann.lastName[0]); }
    created := PeopleEndpoints.InsertEndpoint(db, ann);
    var id := created.routeId;
    fetched := PeopleEndpoints.Get(db, id);
    var upload := Binding.Request(Binding.MultipartFormData, Some([Binding.FormFile("file", "ann.jpg", jpeg)]));
    put := PeoplePhotoHandler.PutPhoto(db, id, upload);
    photo := PhotoEndpoints.Get(db, id);
    deleted := PhotoEndpoints.Delete(db, id);
    photoAfterDelete := PhotoEndpoints.Get(db, id);
  }
}
