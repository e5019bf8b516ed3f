/**
  A session: a sequence of `register`, `inject` and `get` calls made on one
  fresh or populated injector, run against one of three lookup semantics —
  main.mjs as written, main.mjs as its `@throws` documentation describes it,
  and src/injector.ts. Both injectors register the same way; only the answers
  of the lookups differ. A call that throws does not end the session: each
  call stands as if wrapped in its own try/catch, and since a throwing lookup
  leaves the map as it was, the next call sees the same map.
 */
module Session {
  import opened JsValue
  import opened Results
  import Store
  import MjsInjector
  import TsInjector

  datatype Variant = Mjs | MjsDocumented | Ts

  datatype Call<K> = Register(key: K, instance: Value) | Inject(key: K) | Get(key: K)

  /** What a call gives back: nothing (`register`), an instance, or the thrown error. */
  datatype Outcome<K> = Done | Returned(value: Value) | Threw(error: MjsInjector.InjectError<K>)

  /** The injector's map after a session, and one outcome per call. */
  datatype Trace<K(==)> = Trace(store: Store.Instances<K>, outcomes: seq<Outcome<K>>)

  function FromResult<K>(r: Result<Value, MjsInjector.InjectError<K>>): Outcome<K> {
    match r
    case Ok(v) => Returned(v)
    case Err(e) => Threw(e)
  }

  /** One call: the map afterwards and what the call gave back. */
  function Step<K(==)>(variant: Variant, m: Store.Instances<K>, c: Call<K>): (Store.Instances<K>, Outcome<K>) {
    match c
    case Register(k, v) =>
      (if variant.Ts? then TsInjector.Register(m, k, v) else MjsInjector.Register(m, k, v), Done)
    case Inject(k) =>
      var o := match variant
        case Mjs => FromResult(MjsInjector.Inject(m, k))
        case MjsDocumented => FromResult(MjsInjector.InjectRegistered(m, k))
        case Ts => Returned(TsInjector.Inject(m, k));
      (m, o)
    case Get(k) =>
      var o := match variant
        case Mjs => FromResult(MjsInjector.GetInstance(m, k))
        case MjsDocumented => FromResult(MjsInjector.GetRegistered(m, k))
        case Ts => Returned(TsInjector.GetInstance(m, k));
      (m, o)
  }

  /** The calls made in order, starting from the map `m`. */
  function Run<K(==)>(variant: Variant, m: Store.Instances<K>, calls: seq<Call<K>>): (t: Trace<K>)
    ensures |t.outcomes| == |calls|
    decreases |calls|
  {
    if calls == [] then Trace(m, [])
    else
      var (m1, o) := Step(variant, m, calls[0]);
      var t := Run(variant, m1, calls[1..]);
      Trace(t.store, [o] + t.outcomes)
  }

  /** The instance of the latest `register` of `k` among `calls`, if there is one. */
  function LastWrite<K(==)>(calls: seq<Call<K>>, k: K): Option<Value>
    decreases |calls|
  {
    if calls == [] then None
    else
      var c := calls[|calls| - 1];
      if c.Register? && c.key == k then Some(c.instance) else LastWrite(calls[..|calls| - 1], k)
  }

  /** The entry `k` should have after `calls` on the map `m`: the last write, else what `m` had. */
  function Latest<K(==)>(m: Store.Instances<K>, calls: seq<Call<K>>, k: K): Option<Value> {
    match LastWrite(calls, k)
    case Some(v) => Some(v)
    case None => Store.Entry(m, k)
  }

  /**
    The answer a lookup of `k` should give when `e` is the entry for `k`,
    written per semantics without reference to the injectors' code.
   */
  function Answer<K>(variant: Variant, e: Option<Value>, k: K): Outcome<K> {
    match (variant, e)
    case (Mjs, Some(v)) => if Falsy(v) then Threw(MjsInjector.NoInstanceRegistered(k)) else Returned(v)
    case (MjsDocumented, Some(v)) => Returned(v)
    case (Ts, Some(v)) => Returned(v)
    case (Ts, None) => Returned(Undefined)
    case (_, None) => Threw(MjsInjector.NoInstanceRegistered(k))
  }

  /** Running one more call extends the trace by that call's step. */
  lemma {:induction false} RunSnoc<K>(variant: Variant, m: Store.Instances<K>, calls: seq<Call<K>>, c: Call<K>)
    ensures Run(variant, m, calls + [c]).store == Step(variant, Run(variant, m, calls).store, c).0
    ensures Run(variant, m, calls + [c]).outcomes
         == Run(variant, m, calls).outcomes + [Step(variant, Run(variant, m, calls).store, c).1]
    decreases |calls|
  {
    if calls == [] {
      assert [] + [c] == [c];
    } else {
      var m1 := Step(variant, m, calls[0]).0;
      assert (calls + [c])[0] == calls[0];
      assert (calls + [c])[1..] == calls[1..] + [c];
      RunSnoc(variant, m1, calls[1..], c);
    }
  }

  /**
    After a session the map holds, for every identifier, the instance of its
    latest `register`, or what it held before when the session never
    registered it: last write wins, other identifiers are untouched, and
    lookups change nothing.
   */
  lemma {:induction false} StoreAfterRun<K>(variant: Variant, m: Store.Instances<K>, calls: seq<Call<K>>, k: K)
    ensures Store.Entry(Run(variant, m, calls).store, k) == Latest(m, calls, k)
    decreases |calls|
  {
    if calls != [] {
      var init, c := calls[..|calls| - 1], calls[|calls| - 1];
      assert calls == init + [c];
      RunSnoc(variant, m, init, c);
      StoreAfterRun(variant, m, init, k);
    }
  }

  /** A session of lookups only, successful or throwing, leaves the map as it was. */
  lemma {:induction false} LookupsLeaveStoreUnchanged<K>(variant: Variant, m: Store.Instances<K>, calls: seq<Call<K>>)
    requires forall i :: 0 <= i < |calls| ==> !calls[i].Register?
    ensures Run(variant, m, calls).store == m
    decreases |calls|
  {
    if calls != [] {
      assert !calls[0].Register?;
      LookupsLeaveStoreUnchanged(variant, m, calls[1..]);
    }
  }

  /** Both injectors register identically, so the map after a session does not depend on the semantics. */
  lemma {:induction false} StoreIndependentOfVariant<K>(v1: Variant, v2: Variant, m: Store.Instances<K>, calls: seq<Call<K>>)
    ensures Run(v1, m, calls).store == Run(v2, m, calls).store
    decreases |calls|
  {
    if calls != [] {
      assert Step(v1, m, calls[0]).0 == Step(v2, m, calls[0]).0;
      StoreIndependentOfVariant(v1, v2, Step(v1, m, calls[0]).0, calls[1..]);
    }
  }

  /** The `i`-th outcome is the step of the `i`-th call on the map left by the calls before it. */
  lemma {:induction false} RunOutcomeAt<K>(variant: Variant, m: Store.Instances<K>, calls: seq<Call<K>>, i: nat)
    requires i < |calls|
    ensures Run(variant, m, calls).outcomes[i] == Step(variant, Run(variant, m, calls[..i]).store, calls[i]).1
    decreases i
  {
    if i > 0 {
      var m1 := Step(variant, m, calls[0]).0;
      RunOutcomeAt(variant, m1, calls[1..], i - 1);
      assert calls[..i][0] == calls[0];
      assert calls[..i][1..] == calls[1..][..i - 1];
    }
  }

  /**
    Every `inject` or `get` in a session answers according to the latest
    registration of its identifier before it, under each semantics.
   */
  lemma LookupSeesLatestRegistration<K>(variant: Variant, m: Store.Instances<K>, calls: seq<Call<K>>, i: nat)
    requires i < |calls| && !calls[i].Register?
    ensures Run(variant, m, calls).outcomes[i] == Answer(variant, Latest(m, calls[..i], calls[i].key), calls[i].key)
  {
    RunOutcomeAt(variant, m, calls, i);
    StoreAfterRun(variant, m, calls[..i], calls[i].key);
  }

  /** Drops a falsy instance the way the truthiness check of main.mjs does. */
  function RefuseFalsy<K>(o: Outcome<K>, k: K): Outcome<K> {
    if o.Returned? && Falsy(o.value) then Threw(MjsInjector.NoInstanceRegistered(k)) else o
  }

  /**
    Call for call, main.mjs gives what src/injector.ts gives, except that a
    falsy instance — `undefined` for a missing entry among them — becomes the
    "No instance registered" error.
   */
  lemma MjsIsTsWithTruthinessCheck<K>(m: Store.Instances<K>, calls: seq<Call<K>>)
    ensures forall i :: 0 <= i < |calls| ==>
      Run(Mjs, m, calls).outcomes[i] == RefuseFalsy(Run(Ts, m, calls).outcomes[i], calls[i].key)
  {
    forall i | 0 <= i < |calls|
      ensures Run(Mjs, m, calls).outcomes[i] == RefuseFalsy(Run(Ts, m, calls).outcomes[i], calls[i].key)
    {
      RunOutcomeAt(Mjs, m, calls, i);
      RunOutcomeAt(Ts, m, calls, i);
      StoreIndependentOfVariant(Mjs, Ts, m, calls[..i]);
    }
  }

  /**
    Call for call, main.mjs as written and as documented disagree exactly on
    lookups whose identifier is registered with a falsy instance.
   */
  lemma MjsDiffersFromDocumented<K>(m: Store.Instances<K>, calls: seq<Call<K>>)
    ensures forall i :: 0 <= i < |calls| ==>
      (Run(Mjs, m, calls).outcomes[i] != Run(MjsDocumented, m, calls).outcomes[i]
       <==> Run(MjsDocumented, m, calls).outcomes[i].Returned? && Falsy(Run(MjsDocumented, m, calls).outcomes[i].value))
  {
    forall i | 0 <= i < |calls|
      ensures Run(Mjs, m, calls).outcomes[i] != Run(MjsDocumented, m, calls).outcomes[i]
        <==> Run(MjsDocumented, m, calls).outcomes[i].Returned? && Falsy(Run(MjsDocumented, m, calls).outcomes[i].value)
    {
      RunOutcomeAt(Mjs, m, calls, i);
      RunOutcomeAt(MjsDocumented, m, calls, i);
      StoreIndependentOfVariant(Mjs, MjsDocumented, m, calls[..i]);
    }
  }

  function AsInject<K>(c: Call<K>): Call<K> {
    if c.Get? then Inject(c.key) else c
  }

  /** The session with every `get` replaced by an `inject` of the same identifier. */
  function GetsAsInjects<K>(calls: seq<Call<K>>): seq<Call<K>> {
    seq(|calls|, i requires 0 <= i < |calls| => AsInject(calls[i]))
  }

  /** `get` is an alias of `inject`: replacing one by the other changes neither the map nor any outcome. */
  lemma {:induction false} GetActsAsInject<K>(variant: Variant, m: Store.Instances<K>, calls: seq<Call<K>>)
    ensures Run(variant, m, GetsAsInjects(calls)) == Run(variant, m, calls)
    decreases |calls|
  {
    if calls != [] {
      var swapped := GetsAsInjects(calls);
      assert swapped[0] == AsInject(calls[0]);
      assert swapped[1..] == GetsAsInjects(calls[1..]);
      assert Step(variant, m, swapped[0]) == Step(variant, m, calls[0]);
      GetActsAsInject(variant, Step(variant, m, calls[0]).0, calls[1..]);
    }
  }
}
