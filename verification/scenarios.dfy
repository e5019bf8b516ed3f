/**
  The sessions of main.test.mjs, run against main.mjs, and the same sessions
  against src/injector.ts. The identifiers are the class `Injector` and the
  function `a`; the injector registered under its own class is object 0.
 */
module Scenarios {
  import opened JsValue
  import MjsInjector
  import opened Session

  datatype TestKey = InjectorClass | FunctionA

  const injector: Value := Obj(0)

  /** Registers the injector under its class and `a()` under `a`, reading each back with `get`. */
  function RegisterAndGet(): seq<Call<TestKey>> {
    [Register(InjectorClass, injector), Get(InjectorClass), Register(FunctionA, Num(1)), Get(FunctionA)]
  }

  /** Both `get` calls return what was registered, under main.mjs. */
  lemma MjsRegisterAndGet()
    ensures Run(Mjs, map[], RegisterAndGet()).outcomes == [Done, Returned(injector), Done, Returned(Num(1))]
  {
  }

  /** A fresh main.mjs injector throws for an unregistered class. */
  lemma MjsFreshGetThrows()
    ensures Run(Mjs, map[], [Get(InjectorClass)]).outcomes
         == [Threw(MjsInjector.NoInstanceRegistered(InjectorClass))]
  {
  }

  /** The same session against src/injector.ts gives the same outcomes. */
  lemma TsRegisterAndGet()
    ensures Run(Ts, map[], RegisterAndGet()).outcomes == [Done, Returned(injector), Done, Returned(Num(1))]
  {
  }

  /**
    A fresh src/injector.ts injector does not throw for an unregistered class:
    its `get` returns `undefined`.
   */
  lemma TsFreshGetReturnsUndefined()
    ensures Run(Ts, map[], [Get(InjectorClass)]).outcomes == [Returned(Undefined)]
  {
  }

  /** Registering `0` under `a` and reading it back: main.mjs throws, src/injector.ts returns 0. */
  lemma RegisteredZeroScenario()
    ensures Run(Mjs, map[], [Register(FunctionA, Num(0)), Get(FunctionA)]).outcomes
         == [Done, Threw(MjsInjector.NoInstanceRegistered(FunctionA))]
    ensures Run(Ts, map[], [Register(FunctionA, Num(0)), Get(FunctionA)]).outcomes
         == [Done, Returned(Num(0))]
    ensures Run(MjsDocumented, map[], [Register(FunctionA, Num(0)), Get(FunctionA)]).outcomes
         == [Done, Returned(Num(0))]
  {
  }
}
