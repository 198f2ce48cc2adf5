/**
  `PhotoEndpoints`: the photo endpoints of the typed-results style. They take
  the upload as a plain form file, bound by the framework.
 */
module PhotoEndpoints {
  import opened Wrappers
  import opened Models
  import opened Results
  import Entities
  import Binding
  import opened DataAccessLayer

  /** `GET /api/people/{id}/photo`: 404 when there is no such person or no photo;
      otherwise exactly the stored bytes, as JPEG. */
  function Get(db: DataContext, id: Id): (r: Response<()>)
    reads db
    ensures r.NotFound? <==> id !in db.people || db.people[id].photo.None?
    ensures !r.NotFound? ==> r == Bytes(db.people[id].photo.value, ImageJpeg)
  {
    if id !in db.people || db.people[id].photo.None? then NotFound
    else Bytes(db.people[id].photo.value, ImageJpeg)
  }

  /** `PUT /api/people/{id}/photo`: 404 with no change for an unknown person. For
      a known one, a form without the file leaves the optional `file` null, which
      is dereferenced (an unhandled exception, so 500 and no change); otherwise the
      photo becomes exactly the file's bytes. */
  method Save(db: DataContext, id: Id, file: Option<Binding.FormFile>) returns (r: Response<()>)
    requires db.Valid()
    modifies db
    ensures db.Valid()
    ensures db.products == old(db.products) && db.issuedProductIds == old(db.issuedProductIds)
    ensures db.issuedPeopleIds == old(db.issuedPeopleIds)
    ensures r.NotFound? <==> id !in old(db.people)
    ensures r == InternalServerError <==> id in old(db.people) && file.None?
    ensures !r.NoContent? ==> db.people == old(db.people)
    ensures r.NoContent? <==> id in old(db.people) && file.Some?
    ensures r.NoContent? ==>
              db.people == old(db.people)[id := old(db.people)[id].(photo := Some(file.value.content))]
  {
    if id !in db.people {
      return NotFound;
    }
    if file.None? {
      return InternalServerError;
    }
    var dbPerson := db.people[id];
    db.people := db.people[id := dbPerson.(photo := Some(file.value.content))];
    r := NoContent;
  }

  /** `DELETE /api/people/{id}/photo`: 404 with no change for an unknown person;
      otherwise the photo becomes null. */
  method Delete(db: DataContext, id: Id) returns (r: Response<()>)
    requires db.Valid()
    modifies db
    ensures db.Valid()
    ensures db.products == old(db.products) && db.issuedProductIds == old(db.issuedProductIds)
    ensures db.issuedPeopleIds == old(db.issuedPeopleIds)
    ensures r.NotFound? <==> id !in old(db.people)
    ensures r.NotFound? ==> db.people == old(db.people)
    ensures !r.NotFound? ==> r == NoContent && db.people == old(db.people)[id := old(db.people)[id].(photo := None)]
  {
    if id !in db.people {
      return NotFound;
    }
    var dbPerson := db.people[id];
    db.people := db.people[id := dbPerson.(photo := None)];
    r := NoContent;
  }
}
