/**
  `PeoplePhotoHandler`: the photo of a person, a binary attachment of the
  person row rather than a resource of its own. It is read, replaced and
  cleared through `/api/people/{id}/photo`.

  The `PUT` route accepts only `multipart/form-data`; routing answers any other
  media type with 415 before binding. An accepted upload arrives through
  `FormFileContent.BindAsync`. The project is read with nullable reference types
  disabled, so the handler's `FormFileContent` parameter is optional: when
  binding gives null, the handler still runs with a null argument. `PutPhoto`
  models that composition.
 */
module PeoplePhotoHandler {
  import opened Wrappers
  import opened Models
  import opened Results
  import Entities
  import Binding
  import opened DataAccessLayer

  /** `GET /api/people/{id}/photo`: 404 when there is no such person or the
      person has no photo; otherwise exactly the stored bytes, as JPEG. */
  function GetPhoto(db: DataContext, id: Id): (r: Response<()>)
    reads db
    ensures r.NotFound? <==> id !in db.people || db.people[id].photo.None?
    ensures !r.NotFound? ==> r == Bytes(db.people[id].photo.value, ImageJpeg)
  {
    if id !in db.people || db.people[id].photo.None? then NotFound
    else Bytes(db.people[id].photo.value, ImageJpeg)
  }

  /** The handler of `PUT`: 404 with no change for an unknown person. For a
      known one, a null upload is dereferenced (an unhandled exception, so 500
      and no change); otherwise the photo becomes exactly the uploaded bytes,
      whatever it was before, and nothing else changes. */
  method UpdatePhoto(db: DataContext, id: Id, fileContent: Option<Binding.FormFileContent>) returns (r: Response<()>)
    requires db.Valid()
    modifies db
    ensures db.Valid()
    ensures db.products == old(db.products) && db.issuedProductIds == old(db.issuedProductIds)
    ensures db.issuedPeopleIds == old(db.issuedPeopleIds)
    ensures r.NotFound? <==> id !in old(db.people)
    ensures r == InternalServerError <==> id in old(db.people) && fileContent.None?
    ensures !r.NoContent? ==> db.people == old(db.people)
    ensures r.NoContent? <==> id in old(db.people) && fileContent.Some?
    ensures r.NoContent? ==>
              db.people == old(db.people)[id := old(db.people)[id].(photo := Some(fileContent.value.content.content))]
  {
    if id !in db.people {
      return NotFound;
    }
    if fileContent.None? {
      return InternalServerError;
    }
    var dbPerson := db.people[id];
    db.people := db.people[id := dbPerson.(photo := Some(fileContent.value.content.content))];
    r := NoContent;
  }

  /** `PUT /api/people/{id}/photo` as routed: the media type check, the binding,
      then the handler. A request that is not `multipart/form-data` gets 415; a
      multipart form without a file binds to null, which never changes the store:
      404 for an unknown person, 500 for a known one. */
  method PutPhoto(db: DataContext, id: Id, request: Binding.Request) returns (r: Response<()>)
    requires db.Valid()
    modifies db
    ensures db.Valid()
    ensures db.products == old(db.products) && db.issuedProductIds == old(db.issuedProductIds)
    ensures db.issuedPeopleIds == old(db.issuedPeopleIds)
    ensures request.contentType != Binding.MultipartFormData ==> r == UnsupportedMediaType && db.people == old(db.people)
    ensures request.contentType == Binding.MultipartFormData && id !in old(db.people) ==> r == NotFound && db.people == old(db.people)
    ensures request.contentType == Binding.MultipartFormData && id in old(db.people) && Binding.BindAsync(request).None? ==>
              r == InternalServerError && db.people == old(db.people)
    ensures request.contentType == Binding.MultipartFormData && id in old(db.people) && Binding.BindAsync(request).Some? ==>
              r == NoContent && db.people == old(db.people)[id := old(db.people)[id].(photo := Some(request.files.value[0].content))]
  {
    if request.contentType != Binding.MultipartFormData {
      return UnsupportedMediaType;
    }
    var fileContent := Binding.BindAsync(request);
    r := UpdatePhoto(db, id, fileContent);
  }

  /** `DELETE /api/people/{id}/photo`: 404 with no change for an unknown person;
      otherwise the photo becomes null and nothing else changes. */
  method DeletePhoto(db: DataContext, id: Id) returns (r: Response<()>)
    requires db.Valid()
    modifies db
    ensures db.Valid()
    ensures db.products == old(db.products) && db.issuedProductIds == old(db.issuedProductIds)
    ensures db.issuedPeopleIds == old(db.issuedPeopleIds)
    ensures r.NotFound? <==> id !in old(db.people)
    ensures r.NotFound? ==> db.people == old(db.people)
    ensures !r.NotFound? ==> r == NoContent && db.people == old(db.people)[id := old(db.people)[id].(photo := None)]
  {
    if id !in db.people {
      return NotFound;
    }
    var dbPerson := db.people[id];
    db.people := db.people[id := dbPerson.(photo := None)];
    r := NoContent;
  }
}
