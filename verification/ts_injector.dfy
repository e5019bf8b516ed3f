/**
  The `Injector` of src/injector.ts. Its `inject` never throws: it returns
  whatever `Map.get` gives, `undefined` for an identifier with no entry.
 */
module TsInjector {
  import opened JsValue
  import opened Store

  /** `register(type, instance)`: stores the instance under the identifier, never throws. */
  function Register<K(==)>(m: Instances<K>, k: K, v: Value): (m': Instances<K>)
    ensures m'.Keys == m.Keys + {k}
    ensures Inject(m', k) == v
    ensures forall j :: j in m' && j != k ==> Inject(m', j) == Inject(m, j)
  {
    Set(m, k, v)
  }

  /**
    `inject(type)`: the stored instance whatever its truthiness, and
    `undefined` instead of an error for an identifier with no entry.
   */
  function Inject<K(==)>(m: Instances<K>, k: K): (r: Value)
    ensures k in m ==> r == m[k]
    ensures k !in m ==> r == Undefined
  {
    Get(m, k)
  }

  /** `get(type)`: an alias of `inject`. */
  function GetInstance<K(==)>(m: Instances<K>, k: K): (r: Value)
    ensures r == Inject(m, k)
  {
    Inject(m, k)
  }

  /** Registering `undefined` looks to `inject` exactly like no registration at all. */
  lemma UndefinedRegistrationLooksUnregistered<K>(m: Instances<K>, k: K)
    ensures Inject(Register(m, k, Undefined), k) == Inject(m - {k}, k)
  {
  }

  /** Any other registered instance, falsy ones included, is told apart from absence. */
  lemma DefinedRegistrationIsVisible<K>(m: Instances<K>, k: K, v: Value)
    requires v != Undefined
    ensures Inject(Register(m, k, v), k) != Inject(m - {k}, k)
  {
  }
}
