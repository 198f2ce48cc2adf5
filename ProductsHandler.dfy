/**
  `ProductsHandler`: the `/api/products` endpoints. The same pattern as the
  people handlers: validate the body, then (for an update) match the keys,
  then look the row up, and only then change the table.
 */
module ProductsHandler {
  import opened Wrappers
  import opened Text
  import opened Queries
  import opened Models
  import opened Results
  import Entities
  import opened ModelExtensions
  import opened Validations
  import ProductValidator
  import opened DataAccessLayer

  /** `OrderBy(p => p.Name)`, on rows and on bodies. */
  function NameKey(product: Entities.Product): seq<string> {
    [product.name]
  }

  function DtoNameKey(product: Models.Product): seq<string> {
    [product.name]
  }

  /** The search filter: a blank `q` keeps every product; any other keeps those whose name contains it. */
  predicate MatchesSearch(searchText: Option<string>, product: Entities.Product) {
    IsNullOrWhiteSpace(searchText) || Contains(product.name, searchText.value)
  }

  /** `GET /api/products?q=`: the matching products, as bodies, by name. */
  function GetList(db: DataContext, searchText: Option<string>): (r: Response<seq<Models.Product>>)
    reads db
    requires db.Valid()
    ensures r.Ok?
    ensures SortedBy(r.value, DtoNameKey)
    ensures forall d :: d in r.value <==>
              d.id in db.products && MatchesSearch(searchText, db.products[d.id]) && d == ProductToDto(db.products[d.id])
    ensures forall i, j :: 0 <= i < j < |r.value| ==> r.value[i].id != r.value[j].id
    ensures IsNullOrWhiteSpace(searchText) ==> |r.value| == |db.products|
  {
    var p := (e: Entities.Product) => MatchesSearch(searchText, e);
    var id := (e: Entities.Product) => e.id;
    var dtoId := (d: Models.Product) => d.id;
    QueryProjectionSorted(db.products, p, NameKey, ProductToDto, DtoNameKey);
    QueryProjectionMembers(db.products, p, NameKey, id, ProductToDto, dtoId);
    QueryProjectionKeysDistinct(db.products, p, NameKey, id, ProductToDto, dtoId);
    assert IsNullOrWhiteSpace(searchText) ==> |Query(db.products, p, NameKey)| == |db.products| by {
      if IsNullOrWhiteSpace(searchText) {
        QueryKeepsAll(db.products, p, NameKey);
      }
    }
    Ok(Select(Query(db.products, p, NameKey), ProductToDto))
  }

  /** `GET /api/products/{id}`: 404 exactly when no row has the key, otherwise the row as a body. */
  function Get(db: DataContext, id: Id): (r: Response<Models.Product>)
    reads db
    ensures r.NotFound? <==> id !in db.products
    ensures id in db.products ==> r.Ok? && r.value == ProductToDto(db.products[id])
  {
    if id !in db.products then NotFound else Ok(ProductToDto(db.products[id]))
  }

  /** `POST /api/products`: an invalid body gets its validation problem and no
      change; a valid one is stored under a fresh key with its name and price. */
  method Insert(db: DataContext, product: Models.Product) returns (r: Response<Models.Product>)
    requires db.Valid()
    modifies db
    ensures db.Valid()
    ensures db.people == old(db.people) && db.issuedPeopleIds == old(db.issuedPeopleIds)
    ensures !ProductValidator.IsValid(product) ==>
              r == ValidationProblem(GroupByProperty(ProductValidator.Validate(product)))
              && db.products == old(db.products) && db.issuedProductIds == old(db.issuedProductIds)
    ensures ProductValidator.IsValid(product) ==>
              && r.CreatedAtRoute? && r.routeName == "GetProduct"
              && r.routeId != EmptyId && r.routeId !in old(db.issuedProductIds) && r.routeId !in old(db.products)
              && db.products == old(db.products)[r.routeId := Entities.Product(r.routeId, product.name, product.price)]
              && db.issuedProductIds == old(db.issuedProductIds) + {r.routeId}
              && r.value == product.(id := r.routeId)
  {
    var failures := ProductValidator.Validate(product);
    if failures != [] {
      return ValidationProblem(GroupByProperty(failures));
    }
    var id := db.AddProduct(NewProduct(product));
    NewProductRoundTrip(product, id);
    r := CreatedAtRoute("GetProduct", id, ProductToDto(db.products[id]));
  }

  /** `PUT /api/products/{id}`: validation, then the key match (400), then the
      lookup (404); only then are the row's name and price replaced. */
  method Update(db: DataContext, id: Id, product: Models.Product) returns (r: Response<Models.Product>)
    requires db.Valid()
    modifies db
    ensures db.Valid()
    ensures db.people == old(db.people) && db.issuedPeopleIds == old(db.issuedPeopleIds)
    ensures db.issuedProductIds == old(db.issuedProductIds)
    ensures !ProductValidator.IsValid(product) ==>
              r == ValidationProblem(GroupByProperty(ProductValidator.Validate(product)))
    ensures ProductValidator.IsValid(product) && id != product.id ==> r == BadRequest
    ensures ProductValidator.IsValid(product) && id == product.id && id !in old(db.products) ==> r == NotFound
    ensures !r.NoContent? ==> db.products == old(db.products)
    ensures r.NoContent? <==> ProductValidator.IsValid(product) && id == product.id && id in old(db.products)
    ensures r.NoContent? ==>
              db.products == old(db.products)[id := old(db.products)[id].(name := product.name, price := product.price)]
  {
    var failures := ProductValidator.Validate(product);
    if failures != [] {
      return ValidationProblem(GroupByProperty(failures));
    }
    if id != product.id {
      return BadRequest;
    }
    if id !in db.products {
      return NotFound;
    }
    var dbProduct := db.products[id];
    db.products := db.products[id := dbProduct.(name := product.name, price := product.price)];
    r := NoContent;
  }

  /** `DELETE /api/products/{id}`: 404 with no change for an unknown key; otherwise that row is gone. */
  method Delete(db: DataContext, id: Id) returns (r: Response<Models.Product>)
    requires db.Valid()
    modifies db
    ensures db.Valid()
    ensures db.people == old(db.people) && db.issuedPeopleIds == old(db.issuedPeopleIds)
    ensures db.issuedProductIds == old(db.issuedProductIds)
    ensures r.NotFound? <==> id !in old(db.products)
    ensures r.NotFound? ==> db.products == old(db.products)
    ensures !r.NotFound? ==> r == NoContent && db.products == old(db.products) - {id}
  {
    if id !in db.products {
      return NotFound;
    }
    db.products := db.products - {id};
    r := NoContent;
  }
}
