/**
  `ValidatorFilter<T>`: the endpoint filter that runs before an endpoint and
  validates its first argument whose runtime type is exactly `T`.

  The endpoint's arguments are a sequence of values of some argument type `A`;
  `asT` says which of them are a `T` (and which `T`). The filter either lets
  the call through to the next stage, whose result then is the endpoint's
  result, or answers on its own with 400 or a validation problem.
 */
module ValidatorFilter {
  import opened Wrappers
  import opened Validations
  import opened Results

  /** What the filter decides: call the next stage, or answer with `response`. */
  datatype Decision<X> = Next | ShortCircuit(response: Response<X>)

  /** Position `i` holds a `T` and no earlier position does. */
  predicate IsFirstOfType<A, T>(arguments: seq<A>, asT: A -> Option<T>, i: nat) {
    i < |arguments| && asT(arguments[i]).Some? && forall j :: 0 <= j < i ==> asT(arguments[j]).None?
  }

  /** `FirstOrDefault(a => a.GetType() == typeof(T))`: the position of the first `T`. */
  function FirstOfType<A, T>(arguments: seq<A>, asT: A -> Option<T>): (index: Option<nat>)
    ensures index.None? <==> forall i :: 0 <= i < |arguments| ==> asT(arguments[i]).None?
    ensures index.Some? ==> IsFirstOfType(arguments, asT, index.value)
    decreases |arguments|
  {
    if arguments == [] then None
    else if asT(arguments[0]).Some? then Some(0)
    else
      var rest := FirstOfType(arguments[1..], asT);
      assert forall i :: 1 <= i < |arguments| ==> arguments[i] == arguments[1..][i - 1];
      if rest.None? then None else Some(rest.value + 1)
  }

  /** `InvokeAsync`: no `T` among the arguments gives 400; the first `T` failing
      its validator gives a validation problem grouped by property; otherwise the
      next stage runs. */
  function InvokeAsync<A, T, X>(arguments: seq<A>, asT: A -> Option<T>, validate: T -> seq<Failure>): (decision: Decision<X>)
    ensures (forall i :: 0 <= i < |arguments| ==> asT(arguments[i]).None?) ==> decision == ShortCircuit(BadRequest)
    ensures forall i: nat :: IsFirstOfType(arguments, asT, i) ==>
              var failures := validate(asT(arguments[i]).value);
              decision == if failures == [] then Next else ShortCircuit(ValidationProblem(GroupByProperty(failures)))
  {
    match FirstOfType(arguments, asT)
    case None => ShortCircuit(BadRequest)
    case Some(index) =>
      assert forall i: nat :: IsFirstOfType(arguments, asT, i) ==> i == index by {
        forall i: nat | IsFirstOfType(arguments, asT, i) ensures i == index {
          assert IsFirstOfType(arguments, asT, index);
        }
      }
      var failures := validate(asT(arguments[index]).value);
      if failures == [] then Next else ShortCircuit(ValidationProblem(GroupByProperty(failures)))
  }

  /** Only the first `T` is looked at: arguments after it, of any type, do not change the decision. */
  lemma {:induction false} LaterArgumentsIgnored<A, T, X>(arguments: seq<A>, later: seq<A>, asT: A -> Option<T>, validate: T -> seq<Failure>)
    requires exists i :: 0 <= i < |arguments| && asT(arguments[i]).Some?
    ensures InvokeAsync<A, T, X>(arguments + later, asT, validate) == InvokeAsync<A, T, X>(arguments, asT, validate)
  {
    var index := FirstOfType(arguments, asT).value;
    var all := arguments + later;
    assert forall j :: 0 <= j <= index ==> all[j] == arguments[j];
    assert IsFirstOfType(all, asT, index);
  }

  /** The filter lets a call through exactly when the arguments hold a `T` and the first one is valid. */
  lemma NextIffFirstValid<A, T, X>(arguments: seq<A>, asT: A -> Option<T>, validate: T -> seq<Failure>)
    ensures InvokeAsync<A, T, X>(arguments, asT, validate).Next?
        <==> FirstOfType(arguments, asT).Some? && validate(asT(arguments[FirstOfType(arguments, asT).value]).value) == []
  {
  }
}
