/**
  The exposed shapes of the two resources (the request and response bodies).
  A Guid identifier is modelled as a natural number; `EmptyId` stands for
  `Guid.Empty`, the value an omitted identifier takes.

  A first name, last name or product name that the body leaves out (null) is
  modelled as the empty string: the validators treat the two alike and neither
  reaches the store. The city keeps its null, because a null city and an empty
  one are stored differently.
 */
module Models {
  import opened Wrappers

  type Id = nat

  const EmptyId: Id := 0

  /** Binary content: a sequence of bytes. */
  newtype byte = x: int | 0 <= x < 256

  datatype Person = Person(id: Id, firstName: string, lastName: string, city: Option<string>)

  /** A product; its price is a decimal amount, never computed with. */
  datatype Product = Product(id: Id, name: string, price: real)
}

/** The persisted rows of the `People` and `Products` tables. */
module Entities {
  import opened Wrappers
  import Models

  /** A person row; unlike the exposed shape it carries the optional photo. */
  datatype Person = Person(id: Models.Id, firstName: string, lastName: string, city: Option<string>,
                           photo: Option<seq<Models.byte>>)

  datatype Product = Product(id: Models.Id, name: string, price: real)
}

/** The HTTP results the handlers return. */
module Results {
  import opened Models

  datatype Response<T> =
    | Ok(value: T)
    | NotFound
    | BadRequest
    | ValidationProblem(errors: map<string, seq<string>>)
      /** 201, with the route that fetches the new record again and its identifier */
    | CreatedAtRoute(routeName: string, routeId: Id, value: T)
    | NoContent
      /** 200 with a binary body */
    | Bytes(contents: seq<byte>, contentType: string)
      /** 500: an exception the handler does not catch, answered by the host */
    | InternalServerError
      /** 415: the request's media type is not one the route accepts */
    | UnsupportedMediaType

  const ImageJpeg := "image/jpeg"
}
