/**
  The `Injector` of main.mjs. Its `inject` reads the map and throws unless the
  stored instance is truthy, so an identifier registered with a falsy instance
  cannot be told apart from one never registered.
 */
module MjsInjector {
  import opened JsValue
  import opened Results
  import opened Store

  /** The `Error("No instance registered for …")` thrown by `inject`, tagged with the identifier. */
  datatype InjectError<K> = NoInstanceRegistered(key: K)

  /** `register(type, instance)`: stores the instance under the identifier, never throws. */
  function Register<K(==)>(m: Instances<K>, k: K, v: Value): (m': Instances<K>)
    ensures m'.Keys == m.Keys + {k}
    ensures m'[k] == v
    ensures forall j :: j in m && j != k ==> m'[j] == m[j]
    ensures Inject(m', k) == (if Falsy(v) then Err(NoInstanceRegistered(k)) else Ok(v))
    ensures forall j :: j in m' && j != k ==> Inject(m', j) == Inject(m, j)
  {
    Set(m, k, v)
  }

  /**
    `inject(type)`: succeeds exactly when the identifier has an entry whose
    instance is truthy, and then returns that instance.
   */
  function Inject<K(==)>(m: Instances<K>, k: K): (r: Result<Value, InjectError<K>>)
    ensures r.Ok? <==> k in m && !Falsy(m[k])
    ensures r.Ok? ==> r.value == m[k]
    ensures r.Err? ==> r.error == NoInstanceRegistered(k)
  {
    var instance := Get(m, k);
    if !ToBoolean(instance) then Err(NoInstanceRegistered(k)) else Ok(Get(m, k))
  }

  /** `get(type)`: an alias of `inject`. */
  function GetInstance<K(==)>(m: Instances<K>, k: K): (r: Result<Value, InjectError<K>>)
    ensures r == Inject(m, k)
  {
    Inject(m, k)
  }

  /** A falsy registration looks to `inject` exactly like no registration at all. */
  lemma FalsyRegistrationLooksUnregistered<K>(m: Instances<K>, k: K, v: Value)
    requires Falsy(v)
    ensures Inject(Register(m, k, v), k) == Inject(m - {k}, k) == Err(NoInstanceRegistered(k))
  {
  }

  /** A registered identifier `inject` refuses: the number 0. */
  lemma RegisteredZeroIsRefused<K>(k: K)
    ensures k in Register(map[], k, Num(0))
    ensures Inject(Register(map[], k, Num(0)), k).Err?
  {
  }

  /**
    The lookup the `@throws` documentation of `inject` describes: an error only
    when no instance is registered for the identifier.
   */
  function InjectRegistered<K(==)>(m: Instances<K>, k: K): (r: Result<Value, InjectError<K>>)
    ensures r.Err? <==> Entry(m, k).None?
    ensures r.Ok? ==> Entry(m, k) == Some(r.value)
    ensures r.Err? ==> r.error == NoInstanceRegistered(k)
  {
    if k in m then Ok(m[k]) else Err(NoInstanceRegistered(k))
  }

  /** `get(type)` over the documented lookup. */
  function GetRegistered<K(==)>(m: Instances<K>, k: K): (r: Result<Value, InjectError<K>>)
    ensures r == InjectRegistered(m, k)
  {
    InjectRegistered(m, k)
  }

  /** Under the documented lookup every registered instance comes back, falsy or not. */
  lemma InjectRegisteredAfterRegister<K>(m: Instances<K>, k: K, v: Value)
    ensures InjectRegistered(Register(m, k, v), k) == Ok(v)
  {
  }

  /** The two lookups disagree exactly on identifiers registered with a falsy instance. */
  lemma InjectDiffersFromDocumented<K>(m: Instances<K>, k: K)
    ensures Inject(m, k) != InjectRegistered(m, k) <==> k in m && Falsy(m[k])
  {
  }
}
