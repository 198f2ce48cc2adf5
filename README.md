# MinimalApiSample in Dafny

This is a model of the request handlers of MinimalApiSample, a small ASP.NET Core
minimal API that keeps people and products. A person has a first name, a last
name, an optional city and an optional photo. A product has a name and a price.
The database is a `DataContext` object holding two tables, each a map from key
to row. The handlers read and change those maps.

The repository exposes the same people operations in two styles, and both are modelled:

- `PeopleHandler` and `ProductsHandler` validate the body inside the handler.
- `PeopleEndpoints` leaves validation to `ValidatorFilter<Person>`, an endpoint
  filter that runs before `POST` and `PUT`. `InsertEndpoint` and `UpdateEndpoint`
  are the filter and the handler composed.

The photo is served, replaced and cleared by `PeoplePhotoHandler`, whose upload
arrives through the `FormFileContent.BindAsync` binding, and by `PhotoEndpoints`.

Module by module:

- `Text`: `string.IsNullOrWhiteSpace`, `string.Contains`, and the ordinal order on strings.
- `Queries`: the query pipeline (rows, `Where`, `OrderBy(...).ThenBy(...)`, `Select`).
- `Models`, `Entities`, `Results`: the exposed shapes, the stored rows and the HTTP results.
- `ModelExtensions`: the row-to-body mapping.
- `Validations`, `PersonValidator`, `ProductValidator`: the two rule sets and the
  grouping of their failures by property.
- `ValidatorFilter`, `Binding`: the filter and the upload binding.
- `DataAccessLayer`: the store class with its invariant and key generation.
- `PeopleHandler`, `ProductsHandler`, `PeopleEndpoints`, `PeoplePhotoHandler`,
  `PhotoEndpoints`: the endpoints.
- `Scenarios`: sequences of requests against one store.

The store invariant is `DataContext.Valid()`. Every row sits under its own key,
no key is `Guid.Empty`, and every row passes its validator. The validators'
limits equal the column limits. Every write method keeps the invariant.

Modelling choices:

- Keys (`Guid`) are natural numbers, and `Guid.Empty` is 0. The store remembers
  every key it has generated for a table and picks a non-zero key outside that
  set, so a key freed by a delete is never handed out again.
- The project is read with nullable reference types disabled: reference-type
  parameters of the handlers are optional. A missing `q` is null and lists
  everyone; an upload that binds to null, and a form without the `file` part,
  still reach the photo handlers.
- The store lists its rows in ascending key order. Nothing depends on that order
  beyond each row appearing once, because the result is sorted.
- A null first name, last name or product name is the empty string. The
  validators treat null and empty alike, so neither kind of row reaches the store.
- A null city stays distinct from an empty one.
- A person with no city does not match a non-blank city filter, because the
  column is null and `LIKE` fails on it.
- `Contains` is exact, case-sensitive substring containment.
- `OrderBy` on strings is ordinal order, comparing character codes.
- Validation messages are FluentValidation's default English texts. The display
  name splits the property name into words ("First Name").

Three behaviours of the code a reader might not expect:

- An update validates the body first. A body that is invalid and also has a
  mismatched key gets the validation problem, not 400.
- An upload of a file with zero bytes is bound and stored. A later `GET` of
  the photo returns 200 with an empty body, not 400 at upload time.
- A photo upload that is not `multipart/form-data` gets 415 from routing. A
  multipart form without a file binds to null and the handler still runs: 404
  for an unknown person, and for a known one the null upload is dereferenced, an
  unhandled exception the host answers with 500.

## Model

| member | source | states |
|---|---|---|
| Text.ContainsAt | MinimalApiSample/Handlers/PeopleHandler.cs:46-48 | the recursive `Contains` used by every search filter holds exactly when the searched text occurs at some position of the field |
| Text.LessOrEqualTotal | MinimalApiSample/Handlers/PeopleHandler.cs:51 | any two names are comparable in the order `OrderBy` sorts by |
| Text.LessOrEqualAntisymmetric | MinimalApiSample/Handlers/PeopleHandler.cs:51 | two names ordered both ways are equal |
| Text.LessOrEqualTransitive | MinimalApiSample/Handlers/PeopleHandler.cs:51 | the name order is transitive |
| Queries.KeyLessOrEqualTotal | MinimalApiSample/Handlers/PeopleHandler.cs:51 | `OrderBy(first).ThenBy(last)` compares any two rows |
| Queries.KeyLessOrEqualTransitive | MinimalApiSample/Handlers/PeopleHandler.cs:51 | the `OrderBy(...).ThenBy(...)` order is transitive |
| Queries.SortedKeys | MinimalApiSample/Handlers/PeopleHandler.cs:44 | the table's keys listed once each, strictly increasing |
| Queries.Rows | MinimalApiSample/Handlers/PeopleHandler.cs:44 | enumerating a table yields each stored row, exactly as many rows as keys |
| Queries.RowsDistinct | MinimalApiSample/Handlers/PeopleHandler.cs:44 | rows that carry their own key are enumerated without repeats |
| Queries.Where | MinimalApiSample/Handlers/PeopleHandler.cs:48 | `Where` keeps exactly the elements satisfying the clause, never adds one, and keeps everything when every element satisfies it |
| Queries.WhereWhere | MinimalApiSample/Endpoints/PeopleEndpoints.cs:56-69 | two successive `Where` clauses keep what their conjunction keeps |
| Queries.OrderBy | MinimalApiSample/Handlers/PeopleHandler.cs:51 | the sorted result is a permutation of its input and is ordered by the key |
| Queries.InsertByKey | MinimalApiSample/Handlers/PeopleHandler.cs:51 | inserting one row adds exactly that row and keeps a sorted list sorted |
| Queries.Query | MinimalApiSample/Handlers/PeopleHandler.cs:44-51 | the filtered, sorted query is ordered by the key, holds exactly the stored rows satisfying the filter, and takes each row at most as often as the table lists it |
| Queries.QueryKeepsAll | MinimalApiSample/Handlers/PeopleHandler.cs:46-51 | with no filter applied, the query returns as many rows as the table holds |
| Queries.QueryRowsStored | MinimalApiSample/Handlers/PeopleHandler.cs:44-51 | each row the query returns is the row stored under its key |
| Queries.QueryProjectionSorted | MinimalApiSample/Handlers/PeopleHandler.cs:51-52 | projecting to bodies after the sort keeps the result ordered by the bodies' names |
| Queries.QueryProjectionKeysDistinct | MinimalApiSample/Handlers/PeopleHandler.cs:51-52 | no key appears twice in the projected list |
| Queries.QueryProjectionMembers | MinimalApiSample/Handlers/PeopleHandler.cs:44-52 | the projected list holds exactly the bodies of the stored rows satisfying the filter |
| ModelExtensions.ToDto | MinimalApiSample/Extensions/ModelExtensions.cs:8-15 | the body carries the row's key, first name, last name and city |
| ModelExtensions.ToDtoIgnoresPhoto | MinimalApiSample/Extensions/ModelExtensions.cs:8-15 | the body does not depend on the photo |
| ModelExtensions.ToDtoDeterminesAllButPhoto | MinimalApiSample/Extensions/ModelExtensions.cs:8-15 | two rows have the same body exactly when they differ at most in their photo |
| ModelExtensions.NewPersonRoundTrip | MinimalApiSample/Handlers/PeopleHandler.cs:85-95 | the row built from a body and keyed by the store shows that body again with the new key, and has no photo |
| ModelExtensions.ProductToDto | MinimalApiSample/Handlers/ProductsHandler.cs:52 | the product body carries the row's key, name and price |
| ModelExtensions.NewProductRoundTrip | MinimalApiSample/Handlers/ProductsHandler.cs:85-94 | the product row built from a body and keyed by the store shows that body again with the new key |
| Validations.NotEmpty | MinimalApiSample/Validations/PersonValidator.cs:10 | `NotEmpty` fails exactly on a value that is empty or white space only, and reports the property it checks |
| Validations.MaximumLength | MinimalApiSample/Validations/PersonValidator.cs:12 | `MaximumLength` fails exactly on a present value longer than the limit; null passes |
| Validations.RequiredWithMaximumLength | MinimalApiSample/Validations/PersonValidator.cs:10-11 | `NotEmpty().MaximumLength(n)` passes exactly on a non-blank value of at most n characters and otherwise names only its property |
| Validations.OptionalWithMaximumLength | MinimalApiSample/Validations/PersonValidator.cs:12 | `MaximumLength(n)` on an optional value passes exactly when it is absent or at most n long |
| Validations.MessagesForConcat | MinimalApiSample/Validations/PersonValidator.cs:10-12 | the failures of consecutive rules are concatenated, and selecting one property's messages keeps their order across the concatenation |
| Validations.MessagesForNames | MinimalApiSample/Handlers/PeopleHandler.cs:79-80 | a property has messages exactly when some failure names it |
| Validations.GroupByProperty | MinimalApiSample/Handlers/PeopleHandler.cs:79-80 | the error map's keys are exactly the failing properties, and each holds that property's messages in the order reported, never none |
| Validations.GroupStep | MinimalApiSample/Handlers/PeopleHandler.cs:79-80 | putting one failure in front of a correct grouping of the later ones puts its message first under its property and keeps the other entries |
| Validations.GroupByPropertyEmpty | MinimalApiSample/Handlers/PeopleHandler.cs:77-82 | the error map is empty exactly when there are no failures, so a validation problem always names a property |
| PersonValidator.Validate | MinimalApiSample/Validations/PersonValidator.cs:10-12 | a person passes exactly when both names are non-blank and at most 30 long and the city is absent or at most 50 long; the failing properties are exactly those whose rule fails |
| PersonValidator.ValidateIgnoresId | MinimalApiSample/Validations/PersonValidator.cs:10-12 | the key is not validated |
| ProductValidator.Validate | MinimalApiSample/Validations/ProductValidator.cs:10 | a product passes exactly when its name is non-blank and at most 50 long; otherwise only `Name` fails |
| ProductValidator.PriceUnconstrained | MinimalApiSample/Validations/ProductValidator.cs:10 | the price never affects validation |
| ValidatorFilter.FirstOfType | MinimalApiSample/Filters/ValidatorFilter.cs:16 | finds the first argument of type T, or none when no argument has that type |
| ValidatorFilter.InvokeAsync | MinimalApiSample/Filters/ValidatorFilter.cs:14-33 | no argument of type T gives 400; otherwise the first one is validated, and a failure gives the grouped validation problem while a pass hands over to the endpoint |
| ValidatorFilter.LaterArgumentsIgnored | MinimalApiSample/Filters/ValidatorFilter.cs:16 | arguments after the first T do not change the filter's decision |
| ValidatorFilter.NextIffFirstValid | MinimalApiSample/Filters/ValidatorFilter.cs:16-29 | the endpoint runs exactly when a T is present and the first one is valid |
| Binding.BindAsync | MinimalApiSample/Binding/FormFileContent.cs:12-30 | a request whose media type is not a form one, or a form without files, binds to null; otherwise the wrapper holds the first file |
| Binding.LaterFilesIgnored | MinimalApiSample/Binding/FormFileContent.cs:21 | files after the first do not change the binding |
| DataAccessLayer.FreshIdExists | MinimalApiSample/DataAccessLayer/Configurations/PersonConfiguration.cs:13 | a finite set of keys always leaves a non-empty key outside it for the store to generate |
| DataAccessLayer.DataContext.constructor | MinimalApiSample/DataAccessLayer/DataContext.cs:8-10 | a new context over an empty database satisfies the store invariant |
| DataAccessLayer.DataContext.AddPerson | MinimalApiSample/DataAccessLayer/Configurations/PersonConfiguration.cs:12-13 | adding a valid person keeps the store invariant and stores it under a non-empty key never generated before, records that key, changes no other row and leaves products alone |
| DataAccessLayer.DataContext.AddProduct | MinimalApiSample/DataAccessLayer/Configurations/ProductConfiguration.cs:12-13 | adding a valid product keeps the store invariant and stores it under a non-empty key never generated before, records that key, changes no other row and leaves people alone |
| PeopleHandler.GetList | MinimalApiSample/Handlers/PeopleHandler.cs:42-55 | the list holds exactly the bodies of the people whose first or last name contains a non-blank `q` (everyone for a blank one), sorted by first then last name, with no key twice |
| PeopleHandler.Get | MinimalApiSample/Handlers/PeopleHandler.cs:57-67 | 404 exactly when the key is absent; otherwise the stored row's body |
| PeopleHandler.Insert | MinimalApiSample/Handlers/PeopleHandler.cs:69-96 | an invalid body gets the grouped validation problem and no change; a valid one adds exactly one row under a key never generated before, with the body's names and city and no photo, and 201 names that key and returns the body with it |
| PeopleHandler.Update | MinimalApiSample/Handlers/PeopleHandler.cs:98-132 | checks run in the order validation, key match (400), lookup (404); every refusal changes nothing; success replaces only that row's names and city |
| PeopleHandler.Delete | MinimalApiSample/Handlers/PeopleHandler.cs:134-146 | 404 and no change for an absent key; otherwise exactly that row is removed |
| ProductsHandler.GetList | MinimalApiSample/Handlers/ProductsHandler.cs:42-55 | the list holds exactly the bodies of the products whose name contains a non-blank `q` (all for a blank one), sorted by name, with no key twice |
| ProductsHandler.Get | MinimalApiSample/Handlers/ProductsHandler.cs:57-67 | 404 exactly when the key is absent; otherwise the stored row's body |
| ProductsHandler.Insert | MinimalApiSample/Handlers/ProductsHandler.cs:69-95 | an invalid body gets the grouped validation problem and no change; a valid one adds one row under a key never generated before, with the body's name and price |
| ProductsHandler.Update | MinimalApiSample/Handlers/ProductsHandler.cs:97-130 | validation, then key match (400), then lookup (404), each refusal changing nothing; success replaces only that row's name and price |
| ProductsHandler.Delete | MinimalApiSample/Handlers/ProductsHandler.cs:132-144 | 404 and no change for an absent key; otherwise exactly that row is removed |
| PeopleEndpoints.WhereIfGiven | MinimalApiSample/Endpoints/PeopleEndpoints.cs:56-59 | skipping a clause for a blank filter keeps what applying the clause would keep |
| PeopleEndpoints.ChainedWhere | MinimalApiSample/Endpoints/PeopleEndpoints.cs:56-69 | the three conditional clauses together keep exactly the rows that match every given filter |
| PeopleEndpoints.ListMembers | MinimalApiSample/Endpoints/PeopleEndpoints.cs:56-72 | the list holds exactly the bodies of the stored people matching all filters |
| PeopleEndpoints.NoFilterKeepsAll | MinimalApiSample/Endpoints/PeopleEndpoints.cs:56-69 | with all three filters blank, every person is listed |
| PeopleEndpoints.GetList | MinimalApiSample/Endpoints/PeopleEndpoints.cs:52-75 | the list holds exactly the people whose first name, last name and city contain every non-blank filter, sorted by first then last name, with no key twice |
| PeopleEndpoints.Get | MinimalApiSample/Endpoints/PeopleEndpoints.cs:77-87 | 404 exactly when the key is absent; otherwise the stored row's body |
| PeopleEndpoints.Insert | MinimalApiSample/Endpoints/PeopleEndpoints.cs:89-102 | with a valid body, one row is added under a key never generated before, and the body with that key is returned with 201 |
| PeopleEndpoints.Update | MinimalApiSample/Endpoints/PeopleEndpoints.cs:104-124 | key mismatch gives 400 before any lookup, an absent key 404, both with no change; success replaces only the names and city |
| PeopleEndpoints.Delete | MinimalApiSample/Endpoints/PeopleEndpoints.cs:126-138 | 404 and no change for an absent key; otherwise exactly that row is removed |
| PeopleEndpoints.InsertEndpoint | MinimalApiSample/Endpoints/PeopleEndpoints.cs:40-42 | behind the filter, an invalid body never reaches the handler: grouped validation problem and no change |
| PeopleEndpoints.UpdateEndpoint | MinimalApiSample/Endpoints/PeopleEndpoints.cs:44-46 | behind the filter, validation comes before the key match and the lookup; refusals change nothing |
| PeoplePhotoHandler.GetPhoto | MinimalApiSample/Handlers/PeoplePhotoHandler.cs:31-40 | 404 when the person is absent or has no photo; otherwise exactly the stored bytes as `image/jpeg` |
| PeoplePhotoHandler.UpdatePhoto | MinimalApiSample/Handlers/PeoplePhotoHandler.cs:42-58 | 404 and no change for an absent person; for a known one a null upload gives 500 and no change, any other upload makes the photo exactly its bytes and changes nothing else |
| PeoplePhotoHandler.PutPhoto | MinimalApiSample/Handlers/PeoplePhotoHandler.cs:18-50 | a request that is not `multipart/form-data` gets 415 (the route's `Accepts`) and no change; otherwise the binding's result, null or not, is passed to the handler: 404 and no change for an unknown person; for a known one a null binding gives 500 and no change, otherwise the photo becomes the first file's bytes |
| PeoplePhotoHandler.DeletePhoto | MinimalApiSample/Handlers/PeoplePhotoHandler.cs:60-72 | 404 and no change for an absent person; otherwise the photo becomes null and nothing else changes |
| PhotoEndpoints.Get | MinimalApiSample/Endpoints/PhotoEndpoints.cs:26-35 | 404 when the person is absent or has no photo; otherwise exactly the stored bytes as `image/jpeg` |
| PhotoEndpoints.Save | MinimalApiSample/Endpoints/PhotoEndpoints.cs:37-53 | 404 and no change for an absent person; for a known one a null file gives 500 and no change, otherwise the photo becomes exactly the file's bytes, replacing any earlier one |
| PhotoEndpoints.Delete | MinimalApiSample/Endpoints/PhotoEndpoints.cs:55-67 | 404 and no change for an absent person; otherwise the photo becomes null |
| Scenarios.CreateThenGet | MinimalApiSample/Handlers/PeopleHandler.cs:57-96 | fetching a created person by the returned key gives back the body sent, with that key |
| Scenarios.CreateProductThenGet | MinimalApiSample/Handlers/ProductsHandler.cs:57-95 | the same for products |
| Scenarios.UpdateThenGet | MinimalApiSample/Handlers/PeopleHandler.cs:98-132 | after a successful update, a fetch returns the body sent |
| Scenarios.InvalidUpdateThenGet | MinimalApiSample/Handlers/PeopleHandler.cs:105-112 | an invalid body gets a non-empty error map and a later fetch sees the row unchanged |
| Scenarios.DeleteTwice | MinimalApiSample/Handlers/PeopleHandler.cs:134-146 | a second delete of the same key always gets 404 |
| Scenarios.PhotoRoundTrip | MinimalApiSample/Handlers/PeoplePhotoHandler.cs:31-72 | the uploaded bytes are the bytes served; after a delete the photo is not found |
| Scenarios.DeletePhotoTwice | MinimalApiSample/Endpoints/PhotoEndpoints.cs:55-67 | deleting a photo twice succeeds both times and leaves it null |
| Scenarios.RejectedUploadKeepsPhoto | MinimalApiSample/Handlers/PeoplePhotoHandler.cs:18-50 | an upload that is not multipart gets 415; a multipart form without a file binds to null and the handler answers 404 for an unknown person and 500 for a known one; in every case the photo served stays the same |
| Scenarios.DeleteThenCreateGetsNewKey | MinimalApiSample/DataAccessLayer/Configurations/PersonConfiguration.cs:13 | create, delete, create again: the second person never gets the first one's key, though the delete freed it |
| Scenarios.AnnLee | MinimalApiSample/Endpoints/PeopleEndpoints.cs:77-102 | create Ann Lee of NY (201 with a new key), fetch her (same fields), upload a photo (204), fetch it (the same bytes), delete it (204), fetch it (404) |

## Left out

- Asynchrony, `SaveChangesAsync` and Entity Framework change tracking. Every change is applied to the maps at once, as a single unit of work.
- Concurrent requests and last-write-wins races between them.
- Host startup, dependency injection, migrations, OpenAPI metadata and route registration.
- The logging filter on the people list, which only writes to the console.
- The stream copy of an upload. The uploaded bytes are handed over intact.
- Text semantics of the database. `Contains` case sensitivity and `OrderBy`
  collation are decided by SQL Server. The model uses exact containment and
  ordinal order.
- Lengths are counted in Unicode scalar values (`|s|`), while .NET `Length` counts UTF-16 code units; the two differ for characters outside the Basic Multilingual Plane. The columns are single-byte (`AreUnicode(false)`); the encoding of characters outside that code page is not modelled.
- Null arguments reaching the filter. `GetType()` on a null argument throws; the model's arguments are never null.
- A missing or `null` JSON body. With nullable reference types disabled the body parameter is optional, so the handler or filter would receive null and fail on it; the model's bodies are never null.
- Malformed route keys, which do not match the `{id:guid}` route constraint and never reach a handler.
- The product-to-body mapping is not part of this model's sources. `ProductToDto` copies the key, name and price and claims nothing more.
- FluentValidation's own machinery (rule chaining, cascade modes, localisation). Only the two rule sets and the default English messages are modelled.
- `Binding.FormFileContent`: the constructor is the datatype constructor, so `Content` is the file given by construction.
- PhotoEndpoints.Save: the framework's own binding of `IFormFile` is not modelled. The method receives the result of that binding, the `file` form part or null when the form has none. A request that is not a form is answered by the framework (415) before the handler, and that answer is not modelled.
- A failing database write (an unhandled fault) is outside the model.
- Models.Product: the C# `decimal` price is a Dafny `real`. Its range and the column's precision and scale are not modelled: `ProductConfiguration` sets none, so SQL Server's default `decimal(18,2)` applies unless the entity says otherwise, and a price with more than two decimals is rounded on save.
- Scenarios.CreateProductThenGet: the exact price round trip holds for prices the column stores exactly (at most two decimals, within range); rounding by the column is not modelled.
- PeoplePhotoHandler.PutPhoto: assumes nullable reference types are disabled in the project file, which is not part of this model; with them enabled the framework would answer 400 on a null binding without calling the handler. The media type check is reduced to the three kinds of `Binding.ContentType`; media-type parameters and wildcards are not modelled.
- PeopleHandler.GetList: assumes the same setting, so a missing `q` is null and lists everyone; with nullable reference types enabled a missing `q` would be answered 400.
- ProductsHandler.GetList: the same assumption and the same difference as `PeopleHandler.GetList`.
