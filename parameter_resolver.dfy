/** The route-parameter resolution of `ParameterResolver`: which value each
    parameter of a route handler's signature receives, given an optional
    primary model and an array of default parameters. */
module ParameterResolver {
  import opened PhpArrays

  datatype Option<T> = None | Some(value: T)

  /** An Eloquent model: its class, its identity, and whether it is backed
      by a stored row (`$model->exists`). */
  datatype Model = Model(cls: string, id: nat, persisted: bool)

  /** The model as a PHP value. */
  function AsValue(m: Model): Value {
    Obj(m.cls, m.id)
  }

  /** A parameter of the route handler's signature: its name and the name
      of its declared class (`getType()->getName()`). */
  datatype SignatureParameter = SignatureParameter(name: string, declaredType: string)

  predicate DistinctNames(sig: seq<SignatureParameter>) {
    forall i, j | 0 <= i < j < |sig| :: sig[i].name != sig[j].name
  }

  /** A handler signature. PHP refuses a signature that names a parameter
      twice. */
  type Signature = sig: seq<SignatureParameter> | DistinctNames(sig) witness []

  /** What the resolver reads of a route: its action name and the
      parameters of its handler. */
  datatype Route = Route(actionName: string, signature: Signature)

  /** The resolver's two fields, set once by the constructor
      (`defaultParameters` defaults to the empty array) and never written
      again. */
  datatype Resolver = Resolver(model: Option<Model>, defaultParameters: PhpArray)

  /** `optional($this->model)->exists` */
  predicate ModelIncluded(r: Resolver) {
    r.model.Some? && r.model.value.persisted
  }

  /** `getProvidedParameters`: an existing model followed by the defaults,
      merged with `array_merge`, or the defaults alone. After the merge the
      model sits under key 0, the defaults follow in their order, their
      string keys kept and their integer keys renumbered from 1. */
  function ProvidedParameters(r: Resolver): (p: PhpArray)
    ensures ModelIncluded(r) ==>
      p == [(Pos(0), AsValue(r.model.value))] + Renumber(r.defaultParameters, 1)
    ensures !ModelIncluded(r) ==> p == r.defaultParameters
  {
    if ModelIncluded(r) then
      var head: PhpArray := [(Pos(0), AsValue(r.model.value))];
      var d := r.defaultParameters;
      assert ArrayMerge(head, d) == MergeInto([], 0, head + d);
      MergeStep([], 0, head + d);
      assert (head + d)[1..] == d;
      assert [] + [(Pos(0), AsValue(r.model.value))] == head;
      MergeWithoutClash(head, 1, d);
      ArrayMerge(head, d)
    else
      r.defaultParameters
  }

  /** The type test of the `foreach`: an object whose exact runtime class is
      `cls`. A scalar never passes, nor does an instance of another class,
      a subclass included. */
  predicate IsInstanceOf(v: Value, cls: string) {
    v.Obj? && v.cls == cls
  }

  /** The `foreach` of `resolveParameter`: the first value, in order, that
      is an instance of exactly `cls`, or null when there is none. */
  function FirstOfClass(vs: seq<Value>, cls: string): (v: Value)
    ensures v == Null <==> forall i | 0 <= i < |vs| :: !IsInstanceOf(vs[i], cls)
    ensures v != Null ==>
      exists i | 0 <= i < |vs| :: vs[i] == v && IsInstanceOf(v, cls)
        && forall j | 0 <= j < i :: !IsInstanceOf(vs[j], cls)
    decreases |vs|
  {
    if vs == [] then Null
    else if IsInstanceOf(vs[0], cls) then vs[0]
    else
      var v := FirstOfClass(vs[1..], cls);
      assert forall i | 1 <= i < |vs| :: vs[i] == vs[1..][i - 1];
      v
  }

  /** `resolveParameter`: the value stored under the parameter's name when
      that key is present, whatever it is (null included); otherwise the
      first provided object of exactly the declared class; otherwise null. */
  function ResolveParameter(p: SignatureParameter, provided: PhpArray): (v: Value)
    ensures KeyExists(provided, Name(p.name)) ==>
      forall i | 0 <= i < |provided| && provided[i].0 == Name(p.name) :: v == provided[i].1
    ensures !KeyExists(provided, Name(p.name)) ==>
      (v == Null <==> forall i | 0 <= i < |provided| :: !IsInstanceOf(provided[i].1, p.declaredType))
    ensures !KeyExists(provided, Name(p.name)) && v != Null ==>
      exists i | 0 <= i < |provided| :: provided[i].1 == v && IsInstanceOf(v, p.declaredType)
        && forall j | 0 <= j < i :: !IsInstanceOf(provided[j].1, p.declaredType)
  {
    if KeyExists(provided, Name(p.name)) then Get(provided, Name(p.name))
    else
      var v := FirstOfClass(Values(provided), p.declaredType);
      assert forall i | 0 <= i < |provided| :: Values(provided)[i] == provided[i].1;
      v
  }

  /** `mapWithKeys`: each signature parameter's name paired with its
      resolution, in signature order. The names are distinct, so no entry
      overwrites another. */
  function MapWithKeys(sig: Signature, provided: PhpArray): PhpArray {
    seq(|sig|, k requires 0 <= k < |sig| => (Name(sig[k].name), ResolveParameter(sig[k], provided)))
  }

  /** `forRoute`: the resolved arguments of the route's handler, parameters
      that resolve to null left out. */
  function ForRoute(r: Resolver, sig: Signature): (a: PhpArray)
    ensures forall i | 0 <= i < |a| :: a[i].1 != Null
  {
    RejectNull(MapWithKeys(sig, ProvidedParameters(r)))
  }

  /** A signature parameter is a key of `forRoute`'s result exactly when it
      resolves to something other than null, and then it carries that
      value. Falsy values (`0`, `false`, `""`) are kept. */
  lemma ForRouteEntry(r: Resolver, sig: Signature, k: nat)
    requires k < |sig|
    ensures KeyExists(ForRoute(r, sig), Name(sig[k].name))
      <==> ResolveParameter(sig[k], ProvidedParameters(r)) != Null
    ensures KeyExists(ForRoute(r, sig), Name(sig[k].name)) ==>
      Get(ForRoute(r, sig), Name(sig[k].name)) == ResolveParameter(sig[k], ProvidedParameters(r))
  {
    var m := MapWithKeys(sig, ProvidedParameters(r));
    assert m[k].0 == Name(sig[k].name);
    RejectNullKeys(m, Name(sig[k].name));
  }

  /** Every key of `forRoute`'s result is the name of a signature
      parameter: nothing outside the signature is passed on. */
  lemma ForRouteKeysInSignature(r: Resolver, sig: Signature, i: nat)
    requires i < |ForRoute(r, sig)|
    ensures exists k | 0 <= k < |sig| :: ForRoute(r, sig)[i].0 == Name(sig[k].name)
  {
    var m := MapWithKeys(sig, ProvidedParameters(r));
    var k := IndexOf(m, ForRoute(r, sig)[i].0);
    assert ForRoute(r, sig)[i].0 == Name(sig[k].name);
  }

  /** The keys of `forRoute`'s result come in signature order. */
  lemma ForRouteInSignatureOrder(r: Resolver, sig: Signature, i: nat, j: nat)
    requires i < j < |ForRoute(r, sig)|
    ensures exists ki, kj | 0 <= ki < kj < |sig| ::
      ForRoute(r, sig)[i].0 == Name(sig[ki].name) && ForRoute(r, sig)[j].0 == Name(sig[kj].name)
  {
    var m := MapWithKeys(sig, ProvidedParameters(r));
    RejectNullKeepsOrder(m, i, j);
    var ki, kj := IndexOf(m, ForRoute(r, sig)[i].0), IndexOf(m, ForRoute(r, sig)[j].0);
    assert m[ki].0 == Name(sig[ki].name) && m[kj].0 == Name(sig[kj].name);
  }

  /** A string key is found among the provided parameters exactly when it
      is a key of the defaults, and it holds the same value there: the
      merge with the model neither adds nor alters a string key. */
  lemma ProvidedNameLookup(r: Resolver, n: string)
    ensures KeyExists(ProvidedParameters(r), Name(n)) <==> KeyExists(r.defaultParameters, Name(n))
    ensures KeyExists(r.defaultParameters, Name(n)) ==>
      Get(ProvidedParameters(r), Name(n)) == Get(r.defaultParameters, Name(n))
  {
    var p, d := ProvidedParameters(r), r.defaultParameters;
    if ModelIncluded(r) {
      var rd := Renumber(d, 1);
      if KeyExists(d, Name(n)) {
        var i :| 0 <= i < |d| && d[i].0 == Name(n);
        assert p[i + 1] == rd[i] == d[i];
      }
      if KeyExists(p, Name(n)) {
        var i :| 0 <= i < |p| && p[i].0 == Name(n);
        assert p[i] == rd[i - 1];
        assert d[i - 1].0.Name?;
      }
    }
  }

  /** The values the type scan visits: the model first when it is
      included, then the defaults' values in their order. */
  lemma ProvidedValues(r: Resolver)
    ensures Values(ProvidedParameters(r)) ==
      (if ModelIncluded(r) then [AsValue(r.model.value)] else []) + Values(r.defaultParameters)
  {
  }

  /** A default stored under the parameter's name is the resolution,
      whatever its type, even when the model or another default is an
      object of the declared class. */
  lemma NameMatchWins(r: Resolver, p: SignatureParameter)
    requires KeyExists(r.defaultParameters, Name(p.name))
    ensures ResolveParameter(p, ProvidedParameters(r)) == Get(r.defaultParameters, Name(p.name))
  {
    ProvidedNameLookup(r, p.name);
  }

  /** An explicit null stored under a parameter's name blocks the type scan,
      so the parameter is left out of `forRoute`'s result, whatever objects
      are provided. */
  lemma ExplicitNullOmitted(r: Resolver, sig: Signature, k: nat)
    requires k < |sig|
    requires KeyExists(r.defaultParameters, Name(sig[k].name))
    requires Get(r.defaultParameters, Name(sig[k].name)) == Null
    ensures !KeyExists(ForRoute(r, sig), Name(sig[k].name))
  {
    NameMatchWins(r, sig[k]);
    ForRouteEntry(r, sig, k);
  }

  /** Without a name match, an existing model of exactly the declared class
      is the resolution: it comes first, so it wins over any default of
      the same class. */
  lemma ModelWinsTypeTie(r: Resolver, p: SignatureParameter)
    requires ModelIncluded(r) && r.model.value.cls == p.declaredType
    requires !KeyExists(r.defaultParameters, Name(p.name))
    ensures ResolveParameter(p, ProvidedParameters(r)) == AsValue(r.model.value)
  {
    ProvidedNameLookup(r, p.name);
    var provided := ProvidedParameters(r);
    assert IsInstanceOf(provided[0].1, p.declaredType);
  }

  /** Without a name match, and when the model is absent, not existing or of
      another class, the resolution is the first default value, in the
      defaults' order, that is an object of exactly the declared class, or
      null when there is none. */
  lemma DefaultsDecideTypeMatch(r: Resolver, p: SignatureParameter)
    requires !KeyExists(r.defaultParameters, Name(p.name))
    requires ModelIncluded(r) ==> r.model.value.cls != p.declaredType
    ensures ResolveParameter(p, ProvidedParameters(r)) == FirstOfClass(Values(r.defaultParameters), p.declaredType)
  {
    ProvidedNameLookup(r, p.name);
    ProvidedValues(r);
    var provided := ProvidedParameters(r);
    var vs := Values(provided);
    assert ResolveParameter(p, provided) == FirstOfClass(vs, p.declaredType);
    if ModelIncluded(r) {
      assert !IsInstanceOf(vs[0], p.declaredType);
      assert vs[1..] == Values(r.defaultParameters);
    }
  }

  /** A model that does not exist is not among the provided parameters, so
      it is never the resolution unless the defaults themselves hold it. */
  lemma TransientModelNotResolved(r: Resolver, p: SignatureParameter)
    requires r.model.Some? && !r.model.value.persisted
    requires AsValue(r.model.value) !in Values(r.defaultParameters)
    ensures ResolveParameter(p, ProvidedParameters(r)) != AsValue(r.model.value)
  {
    var d := r.defaultParameters;
    assert forall i | 0 <= i < |d| :: Values(d)[i] == d[i].1;
  }

  /** What `action($name, $parameters)` does: it produces a URL, or throws
      `UrlGenerationException` because the parameters do not fill the
      route, or throws another exception. */
  datatype Generation = Generated(url: string) | UrlGenerationFailure | OtherFailure(exception: string)

  /** The outcome of a PHP call: a returned value, or an exception that
      propagates to the caller. */
  datatype Outcome<T> = Returned(value: T) | Thrown(exception: string)

  /** `canRouteBeConstructed`: asks the URL generator `action` to build the
      route from `forRoute`'s result; true when it succeeds, false when it
      reports missing parameters, and any other exception propagates. */
  function CanRouteBeConstructed(r: Resolver, route: Route, action: (string, PhpArray) -> Generation): (o: Outcome<bool>)
    ensures o == Returned(true) <==> action(route.actionName, ForRoute(r, route.signature)).Generated?
    ensures o == Returned(false) <==> action(route.actionName, ForRoute(r, route.signature)).UrlGenerationFailure?
    ensures o.Thrown? <==> action(route.actionName, ForRoute(r, route.signature)).OtherFailure?
    ensures o.Thrown? ==> o.exception == action(route.actionName, ForRoute(r, route.signature)).exception
  {
    match action(route.actionName, ForRoute(r, route.signature))
    case Generated(_) => Returned(true)
    case UrlGenerationFailure => Returned(false)
    case OtherFailure(e) => Thrown(e)
  }
}
