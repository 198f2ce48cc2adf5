/**
  Mapping between persisted rows and exposed shapes. `ToDto` is the
  extension method of the source; `NewPerson` and `NewProduct` are the rows the
  insert handlers build from a request body before the store assigns the key.
 */
module ModelExtensions {
  import opened Wrappers
  import Models
  import Entities

  /** The exposed shape of a person row: every field but the photo. */
  function ToDto(person: Entities.Person): (dto: Models.Person)
    ensures dto.id == person.id
    ensures dto.firstName == person.firstName && dto.lastName == person.lastName && dto.city == person.city
  {
    Models.Person(person.id, person.firstName, person.lastName, person.city)
  }

  /** The exposed shape of a product row (a copy of its three fields). */
  function ProductToDto(product: Entities.Product): (dto: Models.Product)
    ensures dto.id == product.id && dto.name == product.name && dto.price == product.price
  {
    Models.Product(product.id, product.name, product.price)
  }

  /** `OrderBy(p => p.FirstName).ThenBy(p => p.LastName)`, on rows and on bodies. */
  function NameKey(person: Entities.Person): seq<string> {
    [person.firstName, person.lastName]
  }

  function DtoNameKey(person: Models.Person): seq<string> {
    [person.firstName, person.lastName]
  }

  /** The row an insert builds from a body: names and city copied, no photo,
      and the key left at its default for the store to generate. */
  function NewPerson(body: Models.Person): Entities.Person {
    Entities.Person(Models.EmptyId, body.firstName, body.lastName, body.city, None)
  }

  /** The row an insert builds from a product body: name and price copied. */
  function NewProduct(body: Models.Product): Entities.Product {
    Entities.Product(Models.EmptyId, body.name, body.price)
  }

  /** The photo never shows in the exposed shape. */
  lemma ToDtoIgnoresPhoto(person: Entities.Person, photo: Option<seq<Models.byte>>)
    ensures ToDto(person.(photo := photo)) == ToDto(person)
  {
  }

  /** Two rows have the same exposed shape exactly when they differ at most in their photo. */
  lemma ToDtoDeterminesAllButPhoto(a: Entities.Person, b: Entities.Person)
    ensures ToDto(a) == ToDto(b) <==> a.(photo := None) == b.(photo := None)
  {
  }

  /** A person inserted from a body and keyed `id` shows the body again, with that key. */
  lemma NewPersonRoundTrip(body: Models.Person, id: Models.Id)
    ensures ToDto(NewPerson(body).(id := id)) == body.(id := id)
    ensures NewPerson(body).photo == None
  {
  }

  /** A product inserted from a body and keyed `id` shows the body again, with that key. */
  lemma NewProductRoundTrip(body: Models.Product, id: Models.Id)
    ensures ProductToDto(NewProduct(body).(id := id)) == body.(id := id)
  {
  }
}
