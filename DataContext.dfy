/**
  The database context: the `People` and `Products` tables, each a map from
  key to row. Saving changes is immediate; change tracking is not modelled, so
  an update to a tracked row is a replacement of the row under its key.

  The store keeps two facts about every row: it sits under its own key (the
  key is generated on add and never `Guid.Empty`), and it satisfies its
  validator, whose limits are the columns' maximum lengths (`People.FirstName`
  and `People.LastName` 30, `People.City` 50, `Products.Name` 50).
 */
module DataAccessLayer {
  import opened Models
  import Entities
  import ModelExtensions
  import PersonValidator
  import ProductValidator
  import Queries

  /** Every person row sits under its own non-empty key and passes the person rules. */
  predicate PeopleValid(people: map<Id, Entities.Person>) {
    forall id :: id in people ==>
      people[id].id == id && id != EmptyId && PersonValidator.IsValid(ModelExtensions.ToDto(people[id]))
  }

  /** Every product row sits under its own non-empty key and passes the product rule. */
  predicate ProductsValid(products: map<Id, Entities.Product>) {
    forall id :: id in products ==>
      products[id].id == id && id != EmptyId && ProductValidator.IsValid(ModelExtensions.ProductToDto(products[id]))
  }

  /** A finite set of keys always leaves a key free: one past the largest in it. */
  lemma {:induction false} FreshIdExists(used: set<Id>)
    ensures exists id: Id :: id != EmptyId && id !in used
  {
    var keys := Queries.SortedKeys(used);
    var id := if keys == [] then 1 else keys[|keys| - 1] + 1;
    forall k | k in used ensures k < id {
      assert k in keys;
      var i :| 0 <= i < |keys| && keys[i] == k;
      assert i == |keys| - 1 || keys[i] < keys[|keys| - 1];
    }
    assert id != EmptyId && id !in used;
  }

  /**
    The store. Besides the two tables it remembers every key
    it has ever generated for each table, so that a key freed by a delete is
    never generated again.
   */
  class DataContext {
    var people: map<Id, Entities.Person>
    var products: map<Id, Entities.Product>
    var issuedPeopleIds: set<Id>
    var issuedProductIds: set<Id>

    predicate Valid()
      reads this
    {
      && PeopleValid(people) && ProductsValid(products)
      && people.Keys <= issuedPeopleIds && products.Keys <= issuedProductIds
    }

    /** A context over an empty database. */
    constructor()
      ensures people == map[] && products == map[]
      ensures issuedPeopleIds == {} && issuedProductIds == {}
      ensures Valid()
    {
      people := map[];
      products := map[];
      issuedPeopleIds := {};
      issuedProductIds := {};
    }

    /** `People.Add` then `SaveChangesAsync`: the database generates a key never
        generated before and not `Guid.Empty`, whatever key the row carried. */
    method AddPerson(person: Entities.Person) returns (id: Id)
      requires Valid() && PersonValidator.IsValid(ModelExtensions.ToDto(person))
      modifies this
      ensures Valid()
      ensures id != EmptyId && id !in old(issuedPeopleIds) && id !in old(people)
      ensures issuedPeopleIds == old(issuedPeopleIds) + {id}
      ensures people == old(people)[id := person.(id := id)]
      ensures products == old(products) && issuedProductIds == old(issuedProductIds)
    {
      FreshIdExists(issuedPeopleIds);
      id :| id != EmptyId && id !in issuedPeopleIds;
      people := people[id := person.(id := id)];
      issuedPeopleIds := issuedPeopleIds + {id};
    }

    /** `Products.Add` then `SaveChangesAsync`, with a generated key as for people. */
    method AddProduct(product: Entities.Product) returns (id: Id)
      requires Valid() && ProductValidator.IsValid(ModelExtensions.ProductToDto(product))
      modifies this
      ensures Valid()
      ensures id != EmptyId && id !in old(issuedProductIds) && id !in old(products)
      ensures issuedProductIds == old(issuedProductIds) + {id}
      ensures products == old(products)[id := product.(id := id)]
      ensures people == old(people) && issuedPeopleIds == old(issuedPeopleIds)
    {
      FreshIdExists(issuedProductIds);
      id :| id != EmptyId && id !in issuedProductIds;
      products := products[id := product.(id := id)];
      issuedProductIds := issuedProductIds + {id};
    }
  }
}
