# Injector registry in Dafny

A model of the two `Injector` classes of the collidor/injector repository, a
minimal dependency-injection registry: a JavaScript `Map` from an identifier
(a class, a function or any other value) to a previously built instance.

- `main.mjs`: `register(type, instance)` sets the entry; `inject(type)` reads it
  and throws `Error("No instance registered for …")` unless the stored instance
  is truthy; `get` is an alias of `inject`.
- `src/injector.ts`: `register` is the same; `inject(type)` never throws and
  returns whatever `Map.get` gives, `undefined` for a missing entry; `get` is an
  alias of `inject`.

The registry state is an immutable `map<K, Value>` over an abstract identifier
type `K` compared with `==`. Instances are `JsValue.Value`
(`Undefined | Null | Bool | Num | Str | Obj`), enough to tell truthy from falsy
by the ToBoolean conversion of section 7.1.2 of ECMA-262. Each operation is a
pure function: `register` returns the new map, `inject` returns a `Result`
(main.mjs) or a `Value` (src/injector.ts), and the thrown error is the tag
`NoInstanceRegistered(key)`.

Modules:

- `Results`: `Option` and `Result`.
- `JsValue`: instances and their truthiness.
- `Store`: the `Map` operations both classes use (`get`, `set`).
- `MjsInjector`: main.mjs, plus the lookup its `@throws` documentation describes
  (`InjectRegistered`, see Findings).
- `TsInjector`: src/injector.ts.
- `Session`: sequences of `register`/`inject`/`get` calls run against either
  class, with the trace-level properties: last write wins, lookups are
  read-only, `get` is `inject`, and how the two lookup semantics differ.
- `Scenarios`: the sessions of the test files.

Neither class has a parent field or an `unregister` method; src/injector.ts
returns `undefined` for a missing identifier rather than failing; and
`Map.set` stores `undefined` like any other instance when asked to.

## Model

| member | source | states |
|---|---|---|
| JsValue.ToBoolean | main.mjs:29 | `!instance` holds for exactly `undefined`, `null`, `false`, `0` and `""`; every object, function or class instance is truthy |
| Store.Get | main.mjs:28 | `Map.get` returns the stored instance for an identifier with an entry and `undefined` for one without |
| Store.Set | main.mjs:17 | `Map.set` makes the identifier's entry the new instance, adds the identifier if it was missing, and leaves every other entry as it was |
| Store.SetOverwrites | main.mjs:17 | registering the same identifier twice leaves only the second instance, with no error |
| MjsInjector.Register | main.mjs:16-18 | `register(k, v)` stores `v` under `k` and leaves every other entry as it was; so `inject(k)` returns `v` when `v` is truthy and throws the error for `k` when it is falsy; `inject` of every other registered identifier answers as before; `k` now has an entry |
| MjsInjector.Inject | main.mjs:27-33 | `inject(k)` succeeds exactly when `k` has an entry whose instance is truthy, returns that stored instance, and otherwise throws the error tagged with `k` |
| MjsInjector.GetInstance | main.mjs:42 | `get(k)` has the same result or error as `inject(k)` |
| MjsInjector.FalsyRegistrationLooksUnregistered | main.mjs:28-31 | registering a falsy instance and then injecting it throws, exactly as if the identifier had no entry |
| MjsInjector.RegisteredZeroIsRefused | main.mjs:29-30 | an identifier registered with `0` has an entry, yet `inject` throws for it |
| MjsInjector.InjectRegistered | main.mjs:20-26 | the documented lookup: an error exactly when the identifier has no entry, and otherwise the entry's instance |
| MjsInjector.GetRegistered | main.mjs:35-42 | `get(k)` under the documented lookup has the same result or error as the documented `inject(k)` |
| MjsInjector.InjectRegisteredAfterRegister | main.mjs:25 | under the documented lookup, `register(k, v)` then `inject(k)` returns `v` for every instance, falsy ones included |
| MjsInjector.InjectDiffersFromDocumented | main.mjs:29 | the lookup as written and the documented one differ exactly on identifiers whose entry is falsy |
| TsInjector.Register | src/injector.ts:6-8 | after `register(k, v)`, `inject(k)` returns `v`; `inject` of every other registered identifier answers as before; `k` now has an entry |
| TsInjector.Inject | src/injector.ts:17-19 | `inject(k)` returns the stored instance whenever `k` has an entry, falsy instances included, and `undefined` rather than an error when it has none |
| TsInjector.GetInstance | src/injector.ts:21-28 | `get(k)` equals `inject(k)` |
| TsInjector.UndefinedRegistrationLooksUnregistered | src/injector.ts:18 | `inject(k)` after `register(k, undefined)` is the same as `inject(k)` with no entry for `k` |
| TsInjector.DefinedRegistrationIsVisible | src/injector.ts:18 | any instance other than `undefined`, falsy or not, makes `inject(k)` differ from the answer for a missing entry |
| Session.StoreAfterRun | src/injector.ts:7 | after any session every identifier's entry is the instance of its latest `register`, or what the map held before if the session never registered it: last write wins, other entries are untouched, lookups change nothing |
| Session.LookupsLeaveStoreUnchanged | main.mjs:27-33 | a session of `inject`/`get` calls only, whether they return or throw, leaves the map identical |
| Session.StoreIndependentOfVariant | src/injector.ts:6-8 | both classes register the same way: after the same session both maps are equal |
| Session.LookupSeesLatestRegistration | main.mjs:16-33 | in any session, each `inject`/`get` answers from the latest registration of its identifier before it: main.mjs returns it if truthy and throws otherwise, src/injector.ts returns it or `undefined` |
| Session.MjsIsTsWithTruthinessCheck | main.mjs:28-32 | call for call, main.mjs gives what src/injector.ts gives, except that a falsy answer (including the `undefined` of a missing entry) becomes the error for that identifier |
| Session.MjsDiffersFromDocumented | main.mjs:20-31 | call for call, main.mjs as written and as documented disagree exactly where the documented lookup returns a falsy instance |
| Session.GetActsAsInject | main.mjs:35-42 | replacing every `get` of a session by `inject` of the same identifier changes neither the final map nor any outcome, under each semantics |
| Scenarios.MjsRegisterAndGet | main.test.mjs:4-16 | registering the injector under `Injector` and `1` under `a` makes `get` return the injector and `1` |
| Scenarios.MjsFreshGetThrows | main.test.mjs:18-25 | on a fresh main.mjs injector, `get(Injector)` throws the error for `Injector` |
| Scenarios.TsRegisterAndGet | src/main.test.ts:4-16 | the same register-and-get session against src/injector.ts returns the same instances |
| Scenarios.TsFreshGetReturnsUndefined | src/main.test.ts:18-25 | on a fresh src/injector.ts injector, `get(Injector)` returns `undefined` instead of throwing; the test expects a throw because it imports `./main.ts`, which is not part of this model |
| Scenarios.RegisteredZeroScenario | main.mjs:29 | after `register(a, 0)`, `get(a)` throws under main.mjs and returns `0` under src/injector.ts and under the documented lookup |

## Left out

- Parent-registry delegation: no class in the code has a parent, so there is nothing to model.
- `unregister`: only src/main.test.ts:27-38 calls it, on the `Injector` of `./main.ts`; main.ts is not part of this model.
- The conditional return types (`Type<T>`, `infer M`, `infer R`) of main.d.ts and src/injector.ts: compile-time only, with no run-time behaviour.
- The error message: `${type}` renders a class or function as its source text; the error is modelled as the tag `NoInstanceRegistered(key)`.
- MjsInjector.Inject: an identifier that `${type}` cannot turn into a string (a Symbol, or an object with a null prototype) makes a failing `inject` throw a `TypeError` instead of the "No instance registered" error; the model always answers with the tag, so it states that something is thrown but not which error.
- JavaScript `Map` key equality (SameValueZero, object identity): identifiers are an abstract type compared with `==`.
- `NaN`, `-0`, BigInt `0n` and non-integer numbers: floating-point and engine details; numbers are integers, and `0` is the only falsy one.
- Mutable object state and `this` binding of the arrow-function fields: each injector is a map passed to and returned from pure functions.
- TsInjector.Register: the clause about other identifiers covers those with an entry; identifiers with no entry are covered by the clause on the key set, which shows they had none before either.
- The Deno test harness and `jsr:@std/assert`: packaging, not logic.

## Findings

| source | as written | input that shows it | evidently intended | confidence | as-written member | corrected member |
|---|---|---|---|---|---|---|
| main.mjs:28-31 | `inject` throws when the stored instance is falsy, so a registered `0`, `""`, `false`, `null` or `undefined` is reported as "No instance registered" | `register(a, 0)` then `inject(a)` | the `@throws` documentation (main.mjs:25): throw only when no instance is registered, that is when the identifier has no entry | medium, not executed | MjsInjector.RegisteredZeroIsRefused | MjsInjector.InjectRegisteredAfterRegister |
