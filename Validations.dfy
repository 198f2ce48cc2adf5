/**
  The validation layer: the two validators' rule sets, the failures they
  report, and the grouping of failures by property into the error map of a
  validation problem.

  A rule reports a failure with the validated property's name and an English
  message naming the property's display name ("First Name" for `FirstName`).
  Rules run in declaration order and every rule runs (no early stop), so a
  property can collect more than one message.
 */
module Validations {
  import opened Wrappers
  import opened Text

  datatype Failure = Failure(propertyName: string, errorMessage: string)

  /** The decimal digits of `n`. */
  function NatToString(n: nat): string
    decreases n
  {
    var digit := ['0', '1', '2', '3', '4', '5', '6', '7', '8', '9'][n % 10];
    if n < 10 then [digit] else NatToString(n / 10) + [digit]
  }

  function NotEmptyMessage(displayName: string): string {
    "'" + displayName + "' must not be empty."
  }

  function MaximumLengthMessage(displayName: string, max: nat, actual: nat): string {
    "The length of '" + displayName + "' must be " + NatToString(max)
    + " characters or fewer. You entered " + NatToString(actual) + " characters."
  }

  /** `NotEmpty()`: fails on null, on the empty string and on white space only. */
  function NotEmpty(propertyName: string, displayName: string, value: string): (r: seq<Failure>)
    ensures r == [] <==> !IsBlank(value)
    ensures forall f :: f in r ==> f.propertyName == propertyName
  {
    if IsBlank(value) then [Failure(propertyName, NotEmptyMessage(displayName))] else []
  }

  /** `MaximumLength(max)`: a null value passes. */
  function MaximumLength(propertyName: string, displayName: string, max: nat, value: Option<string>): (r: seq<Failure>)
    ensures r == [] <==> (value.None? || |value.value| <= max)
    ensures forall f :: f in r ==> f.propertyName == propertyName
  {
    if value.Some? && |value.value| > max then
      [Failure(propertyName, MaximumLengthMessage(displayName, max, |value.value|))]
    else []
  }

  /** `NotEmpty().MaximumLength(max)` on one required string property. */
  function RequiredWithMaximumLength(propertyName: string, displayName: string, max: nat, value: string): (r: seq<Failure>)
    ensures r == [] <==> !IsBlank(value) && |value| <= max
    ensures PropertyNames(r) == if IsBlank(value) || |value| > max then {propertyName} else {}
  {
    var r := NotEmpty(propertyName, displayName, value)
             + MaximumLength(propertyName, displayName, max, Some(value));
    SingleProperty(r, propertyName);
    r
  }

  /** `MaximumLength(max)` on one optional string property. */
  function OptionalWithMaximumLength(propertyName: string, displayName: string, max: nat, value: Option<string>): (r: seq<Failure>)
    ensures r == [] <==> value.None? || |value.value| <= max
    ensures PropertyNames(r) == if value.Some? && |value.value| > max then {propertyName} else {}
  {
    var r := MaximumLength(propertyName, displayName, max, value);
    SingleProperty(r, propertyName);
    r
  }

  /** The properties some failure names. */
  function PropertyNames(failures: seq<Failure>): set<string> {
    set f | f in failures :: f.propertyName
  }

  /** The messages of the failures on `propertyName`, in the order reported. */
  function MessagesFor(failures: seq<Failure>, propertyName: string): seq<string> {
    if failures == [] then []
    else
      (if failures[0].propertyName == propertyName then [failures[0].errorMessage] else [])
      + MessagesFor(failures[1..], propertyName)
  }

  /** Selecting one property's messages distributes over concatenation: messages keep their order. */
  lemma {:induction false} MessagesForConcat(a: seq<Failure>, b: seq<Failure>, propertyName: string)
    ensures MessagesFor(a + b, propertyName) == MessagesFor(a, propertyName) + MessagesFor(b, propertyName)
  {
    if a == [] {
      assert a + b == b;
    } else {
      assert (a + b)[0] == a[0];
      assert (a + b)[1..] == a[1..] + b;
      MessagesForConcat(a[1..], b, propertyName);
    }
  }

  lemma PropertyNamesConcat(a: seq<Failure>, b: seq<Failure>)
    ensures PropertyNames(a + b) == PropertyNames(a) + PropertyNames(b)
  {
    assert forall f :: f in a + b <==> f in a || f in b;
  }

  /** A rule's failures all name the one property it checks. */
  lemma SingleProperty(failures: seq<Failure>, propertyName: string)
    requires forall f :: f in failures ==> f.propertyName == propertyName
    ensures PropertyNames(failures) == if failures == [] then {} else {propertyName}
  {
    if failures != [] {
      assert failures[0] in failures;
    }
  }

  lemma {:induction false} MessagesForNames(failures: seq<Failure>, propertyName: string)
    ensures MessagesFor(failures, propertyName) != [] <==> propertyName in PropertyNames(failures)
  {
    if failures != [] {
      MessagesForNames(failures[1..], propertyName);
      assert failures == [failures[0]] + failures[1..];
      assert PropertyNames(failures) == {failures[0].propertyName} + PropertyNames(failures[1..]);
    }
  }

  /**
    `GroupBy(e => e.PropertyName).ToDictionary(...)`: one entry per property that
    failed, holding its messages in the order reported.
   */
  function GroupByProperty(failures: seq<Failure>): (errors: map<string, seq<string>>)
    ensures errors.Keys == PropertyNames(failures)
    ensures forall k :: k in errors ==> errors[k] == MessagesFor(failures, k) && errors[k] != []
  {
    if failures == [] then map[]
    else
      var first := failures[0];
      var rest := GroupByProperty(failures[1..]);
      var errors := rest[first.propertyName := [first.errorMessage] + (if first.propertyName in rest then rest[first.propertyName] else [])];
      GroupStep(failures, rest, errors);
      errors
  }

  /** Putting one failure in front of a correct grouping of the ones after it. */
  lemma GroupStep(failures: seq<Failure>, rest: map<string, seq<string>>, errors: map<string, seq<string>>)
    requires failures != []
    requires rest.Keys == PropertyNames(failures[1..])
    requires forall k :: k in rest ==> rest[k] == MessagesFor(failures[1..], k) && rest[k] != []
    requires var first := failures[0];
      errors == rest[first.propertyName := [first.errorMessage] + (if first.propertyName in rest then rest[first.propertyName] else [])]
    ensures errors.Keys == PropertyNames(failures)
    ensures forall k :: k in errors ==> errors[k] == MessagesFor(failures, k) && errors[k] != []
  {
    var first := failures[0];
    assert failures == [first] + failures[1..];
    assert PropertyNames(failures) == {first.propertyName} + PropertyNames(failures[1..]);
    forall k | k in errors ensures errors[k] == MessagesFor(failures, k) && errors[k] != [] {
      assert MessagesFor(failures, k) == (if first.propertyName == k then [first.errorMessage] else []) + MessagesFor(failures[1..], k);
      if k != first.propertyName {
        assert errors[k] == rest[k];
      } else if k !in rest {
        MessagesForNames(failures[1..], k);
      }
    }
  }

  /** A validation problem always names at least one property. */
  lemma GroupByPropertyEmpty(failures: seq<Failure>)
    ensures GroupByProperty(failures) == map[] <==> failures == []
  {
    if failures != [] {
      assert failures[0].propertyName in PropertyNames(failures);
    }
  }
}

/** `PersonValidator`: the three rules on a person body. */
module PersonValidator {
  import opened Wrappers
  import opened Text
  import opened Validations
  import Models

  const FirstNameMaxLength := 30
  const LastNameMaxLength := 30
  const CityMaxLength := 50

  /** The rule set read declaratively: both names present and at most 30
      characters long, the city absent or at most 50 characters long. */
  predicate IsValid(person: Models.Person) {
    && !IsBlank(person.firstName) && |person.firstName| <= FirstNameMaxLength
    && !IsBlank(person.lastName) && |person.lastName| <= LastNameMaxLength
    && (person.city.None? || |person.city.value| <= CityMaxLength)
  }

  /** The properties whose rule the person breaks. */
  function FailingProperties(person: Models.Person): set<string> {
    (if IsBlank(person.firstName) || |person.firstName| > FirstNameMaxLength then {"FirstName"} else {})
    + (if IsBlank(person.lastName) || |person.lastName| > LastNameMaxLength then {"LastName"} else {})
    + (if person.city.Some? && |person.city.value| > CityMaxLength then {"City"} else {})
  }

  /** `Validate`: the failures of the rules, in rule order. */
  function Validate(person: Models.Person): (failures: seq<Failure>)
    ensures failures == [] <==> IsValid(person)
    ensures PropertyNames(failures) == FailingProperties(person)
  {
    var first := RequiredWithMaximumLength("FirstName", "First Name", FirstNameMaxLength, person.firstName);
    var last := RequiredWithMaximumLength("LastName", "Last Name", LastNameMaxLength, person.lastName);
    var city := OptionalWithMaximumLength("City", "City", CityMaxLength, person.city);
    var failures := first + last + city;
    assert PropertyNames(failures) == FailingProperties(person) by {
      PropertyNamesConcat(first, last);
      PropertyNamesConcat(first + last, city);
    }
    assert failures == [] <==> first == [] && last == [] && city == [];
    failures
  }

  /** The key and the photo are not validated. */
  lemma ValidateIgnoresId(person: Models.Person, id: Models.Id)
    ensures Validate(person.(id := id)) == Validate(person)
  {
  }
}

/** `ProductValidator`: the one rule on a product body. */
module ProductValidator {
  import opened Wrappers
  import opened Text
  import opened Validations
  import Models

  const NameMaxLength := 50

  /** The rule read declaratively: a name present and at most 50 characters long. */
  predicate IsValid(product: Models.Product) {
    !IsBlank(product.name) && |product.name| <= NameMaxLength
  }

  function Validate(product: Models.Product): (failures: seq<Failure>)
    ensures failures == [] <==> IsValid(product)
    ensures PropertyNames(failures) == if IsValid(product) then {} else {"Name"}
  {
    RequiredWithMaximumLength("Name", "Name", NameMaxLength, product.name)
  }

  /** The price is not validated: any price goes with a good name. */
  lemma PriceUnconstrained(product: Models.Product, price: real)
    ensures Validate(product.(price := price)) == Validate(product)
  {
  }
}
