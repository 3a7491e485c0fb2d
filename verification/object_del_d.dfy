/** The collocated (in-process) invocation delegate of the Java run time,
    `Ice._ObjectDelD`. A delegate holds a reference and an object adapter;
    each operation builds a fresh `Current`, leases the target servant from
    the adapter through an `IceInternal.Direct`, calls the servant, and
    destroys the lease on every way out.

    The adapter and the servants are oracles: the adapter either hands out a
    servant for a `Current` or throws, and each servant operation either
    returns a value or throws. Each delegate operation is a pure function
    returning what reaches the caller together with the trace of lease
    events, so that lease balance and exception translation are statements
    about that value. */
module ObjectDelD {
  import opened Wrappers

  datatype Identity = Identity(name: string, category: string)

  /** The part of `IceInternal.Reference` the delegate reads. */
  datatype Reference = Reference(identity: Identity, facet: string)

  datatype OperationMode = Mutating | Nonmutating

  type Context = map<string, string>

  /** The per-call description handed to the servant. */
  datatype Current = Current(
    id: Identity,
    facet: string,
    operation: string,
    mode: OperationMode,
    ctx: Context)

  /** A Java throwable, told apart the way the delegate's catch clauses tell
      them apart. */
  datatype Throwable =
    | IceRuntimeException(name: string)   // an Ice.RuntimeException
    | JavaRuntimeException(name: string)  // any other java.lang.RuntimeException
    | LocationForward(target: Reference)  // declared: the target has moved
    | NonRepeatable(name: string)         // declared: the call cannot be retried
    | JavaError(name: string)             // a java.lang.Error

  /** What leaves a delegate operation by exception. */
  datatype Raised =
    | Propagated(thrown: Throwable)                 // passes through unchanged
    | UnknownRuntimeException(cause: Throwable)
    | UnknownException(cause: Throwable)
    | OperationNotExistException(operation: string)

  /** What a servant operation did. */
  datatype ServantReply<T> = Value(value: T) | Throws(thrown: Throwable)

  /** What a delegate operation did. */
  datatype Outcome<T> = Returned(value: T) | Raises(raised: Raised)

  /** The hook of `Ice.Blobject`: in-parameters to (success, out-parameters). */
  type BlobjectInvoke = (seq<bv8>, Current) -> ServantReply<(bool, seq<bv8>)>

  /** A facet servant: one oracle per operation of `Ice.Object`, and the
      `Ice.Blobject` hook when the servant is a Blobject. */
  datatype Servant = Servant(
    isA: (string, Current) -> ServantReply<bool>,
    ping: Current -> ServantReply<()>,
    ids: Current -> ServantReply<seq<string>>,
    id: Current -> ServantReply<string>,
    facets: Current -> ServantReply<seq<string>>,
    blobject: Option<BlobjectInvoke>)

  /** `new IceInternal.Direct(adapter, current)` either leases the facet
      servant named by the current or throws (adapter deactivated, object or
      facet not found). */
  datatype ObjectAdapter = ObjectAdapter(lease: Current -> Result<Servant, Throwable>)

  datatype Delegate = Delegate(reference: Reference, adapter: ObjectAdapter)

  /** Lease events, in the order they happen. */
  datatype LeaseEvent =
    | Acquired                      // a Direct was constructed
    | Dispatched(current: Current)  // the servant was called with this current
    | Destroyed                     // Direct.destroy() ran

  datatype Call<T> = Call(outcome: Outcome<T>, trace: seq<LeaseEvent>)

  // ---------------------------------------------------------------------
  // Properties

  /** Number of occurrences of `e` in `trace`. */
  function Occurrences(trace: seq<LeaseEvent>, e: LeaseEvent): nat {
    if trace == [] then 0
    else (if trace[0] == e then 1 else 0) + Occurrences(trace[1..], e)
  }

  /** Every acquired lease is destroyed exactly once, as the last thing, and
      at most one lease is taken per call. */
  predicate LeaseBalanced(trace: seq<LeaseEvent>) {
    && Occurrences(trace, Acquired) == Occurrences(trace, Destroyed) <= 1
    && (trace != [] ==> trace[0] == Acquired && trace[|trace| - 1] == Destroyed)
  }

  /** `c` is the current a call of `operation` in `mode` with context `ctx`
      must see on delegate `d`: target taken from the reference, everything
      else exactly as the caller gave it. */
  predicate CurrentFor(d: Delegate, c: Current, operation: string, mode: OperationMode, ctx: Context) {
    && c.id == d.reference.identity
    && c.facet == d.reference.facet
    && c.operation == operation
    && c.mode == mode
    && c.ctx == ctx
  }

  /** Every current a servant was handed in `trace` is the one described. */
  predicate DispatchedAs(d: Delegate, trace: seq<LeaseEvent>, operation: string, mode: OperationMode, ctx: Context) {
    forall i :: 0 <= i < |trace| && trace[i].Dispatched? ==> CurrentFor(d, trace[i].current, operation, mode, ctx)
  }

  /** The two traces a constructed Direct can leave are balanced. */
  lemma LeaseTracesBalanced(c: Current)
    ensures LeaseBalanced([Acquired, Dispatched(c), Destroyed])
    ensures LeaseBalanced([Acquired, Destroyed])
  {
    var t := [Acquired, Dispatched(c), Destroyed];
    assert t[1..] == [Dispatched(c), Destroyed] && t[1..][1..] == [Destroyed] && t[1..][1..][1..] == [];
    assert Occurrences([Destroyed], Acquired) == 0 && Occurrences([Destroyed], Destroyed) == 1;
    assert Occurrences([Dispatched(c), Destroyed], Acquired) == 0;
    assert Occurrences([Dispatched(c), Destroyed], Destroyed) == 1;
    assert Occurrences(t, Acquired) == 1 && Occurrences(t, Destroyed) == 1;
    var u: seq<LeaseEvent> := [Acquired, Destroyed];
    assert u[1..] == [Destroyed];
    assert Occurrences(u, Acquired) == 1 && Occurrences(u, Destroyed) == 1;
  }

  /** A throwable the delegate may let through untouched: neither kind of
      runtime exception. */
  predicate IsDeclared(t: Throwable) {
    !t.IceRuntimeException? && !t.JavaRuntimeException?
  }

  // ---------------------------------------------------------------------
  // Operations

  /** `__initCurrent`: target from the reference, the rest from the caller. */
  function InitCurrent(d: Delegate, operation: string, mode: OperationMode, ctx: Context): (c: Current)
    ensures CurrentFor(d, c, operation, mode, ctx)
  {
    Current(d.reference.identity, d.reference.facet, operation, mode, ctx)
  }

  /** The two catch clauses around a servant call, first match wins. */
  function Translate(t: Throwable): (r: Raised)
    ensures t.IceRuntimeException? <==> r == UnknownRuntimeException(t)
    ensures t.JavaRuntimeException? <==> r == UnknownException(t)
    ensures IsDeclared(t) <==> r == Propagated(t)
  {
    match t
    case IceRuntimeException(_) => UnknownRuntimeException(t)
    case JavaRuntimeException(_) => UnknownException(t)
    case _ => Propagated(t)
  }

  /** What a servant reply becomes once it has crossed the catch clauses. */
  function Settle<T>(reply: ServantReply<T>): (o: Outcome<T>)
    ensures reply.Value? <==> o.Returned?
    ensures reply.Value? ==> o.value == reply.value
    ensures reply.Throws? ==> o.raised == Translate(reply.thrown)
  {
    match reply
    case Value(v) => Returned(v)
    case Throws(t) => Raises(Translate(t))
  }

  /** The body shared by the five probe operations: construct the Direct
      (outside the try), call the servant inside it, destroy in finally. */
  function Dispatch<T>(adapter: ObjectAdapter, c: Current, call: (Servant, Current) -> ServantReply<T>): (r: Call<T>)
    ensures LeaseBalanced(r.trace)
    ensures r.trace == [] <==> adapter.lease(c).Err?
    ensures adapter.lease(c).Err? ==> r.outcome == Raises(Propagated(adapter.lease(c).error))
    ensures adapter.lease(c).Ok? ==> r.trace == [Acquired, Dispatched(c), Destroyed]
    ensures adapter.lease(c).Ok? ==> r.outcome == Settle(call(adapter.lease(c).value, c))
  {
    match adapter.lease(c)
    case Err(t) => Call(Raises(Propagated(t)), [])
    case Ok(servant) =>
      var outcome := Settle(call(servant, c));
      LeaseTracesBalanced(c);
      Call(outcome, [Acquired, Dispatched(c), Destroyed])
  }

  function IceIsA(d: Delegate, typeId: string, ctx: Context): (r: Call<bool>)
    ensures LeaseBalanced(r.trace)
    ensures DispatchedAs(d, r.trace, "ice_isA", Nonmutating, ctx)
    ensures var c := InitCurrent(d, "ice_isA", Nonmutating, ctx);
      d.adapter.lease(c).Err? ==> r == Call(Raises(Propagated(d.adapter.lease(c).error)), [])
    ensures var c := InitCurrent(d, "ice_isA", Nonmutating, ctx);
      d.adapter.lease(c).Ok? ==>
        r == Call(Settle(d.adapter.lease(c).value.isA(typeId, c)), [Acquired, Dispatched(c), Destroyed])
  {
    Dispatch(d.adapter, InitCurrent(d, "ice_isA", Nonmutating, ctx), (s: Servant, c: Current) => s.isA(typeId, c))
  }

  function IcePing(d: Delegate, ctx: Context): (r: Call<()>)
    ensures LeaseBalanced(r.trace)
    ensures DispatchedAs(d, r.trace, "ice_ping", Nonmutating, ctx)
    ensures var c := InitCurrent(d, "ice_ping", Nonmutating, ctx);
      d.adapter.lease(c).Err? ==> r == Call(Raises(Propagated(d.adapter.lease(c).error)), [])
    ensures var c := InitCurrent(d, "ice_ping", Nonmutating, ctx);
      d.adapter.lease(c).Ok? ==>
        r == Call(Settle(d.adapter.lease(c).value.ping(c)), [Acquired, Dispatched(c), Destroyed])
  {
    Dispatch(d.adapter, InitCurrent(d, "ice_ping", Nonmutating, ctx), (s: Servant, c: Current) => s.ping(c))
  }

  function IceIds(d: Delegate, ctx: Context): (r: Call<seq<string>>)
    ensures LeaseBalanced(r.trace)
    ensures DispatchedAs(d, r.trace, "ice_ids", Nonmutating, ctx)
    ensures var c := InitCurrent(d, "ice_ids", Nonmutating, ctx);
      d.adapter.lease(c).Err? ==> r == Call(Raises(Propagated(d.adapter.lease(c).error)), [])
    ensures var c := InitCurrent(d, "ice_ids", Nonmutating, ctx);
      d.adapter.lease(c).Ok? ==>
        r == Call(Settle(d.adapter.lease(c).value.ids(c)), [Acquired, Dispatched(c), Destroyed])
  {
    Dispatch(d.adapter, InitCurrent(d, "ice_ids", Nonmutating, ctx), (s: Servant, c: Current) => s.ids(c))
  }

  function IceId(d: Delegate, ctx: Context): (r: Call<string>)
    ensures LeaseBalanced(r.trace)
    ensures DispatchedAs(d, r.trace, "ice_id", Nonmutating, ctx)
    ensures var c := InitCurrent(d, "ice_id", Nonmutating, ctx);
      d.adapter.lease(c).Err? ==> r == Call(Raises(Propagated(d.adapter.lease(c).error)), [])
    ensures var c := InitCurrent(d, "ice_id", Nonmutating, ctx);
      d.adapter.lease(c).Ok? ==>
        r == Call(Settle(d.adapter.lease(c).value.id(c)), [Acquired, Dispatched(c), Destroyed])
  {
    Dispatch(d.adapter, InitCurrent(d, "ice_id", Nonmutating, ctx), (s: Servant, c: Current) => s.id(c))
  }

  function IceFacets(d: Delegate, ctx: Context): (r: Call<seq<string>>)
    ensures LeaseBalanced(r.trace)
    ensures DispatchedAs(d, r.trace, "ice_facets", Nonmutating, ctx)
    ensures var c := InitCurrent(d, "ice_facets", Nonmutating, ctx);
      d.adapter.lease(c).Err? ==> r == Call(Raises(Propagated(d.adapter.lease(c).error)), [])
    ensures var c := InitCurrent(d, "ice_facets", Nonmutating, ctx);
      d.adapter.lease(c).Ok? ==>
        r == Call(Settle(d.adapter.lease(c).value.facets(c)), [Acquired, Dispatched(c), Destroyed])
  {
    Dispatch(d.adapter, InitCurrent(d, "ice_facets", Nonmutating, ctx), (s: Servant, c: Current) => s.facets(c))
  }

  /** `ice_invoke`: like the probes, but the servant must be a Blobject; a
      servant that is not one yields OperationNotExistException naming the
      requested operation. That exception is raised outside the inner try,
      so it is not translated, and the lease is still destroyed. */
  function IceInvoke(d: Delegate, operation: string, mode: OperationMode, inParams: seq<bv8>, ctx: Context)
    : (r: Call<(bool, seq<bv8>)>)
    ensures LeaseBalanced(r.trace)
    ensures DispatchedAs(d, r.trace, operation, mode, ctx)
    ensures var c := InitCurrent(d, operation, mode, ctx);
      d.adapter.lease(c).Err? ==> r == Call(Raises(Propagated(d.adapter.lease(c).error)), [])
    ensures var c := InitCurrent(d, operation, mode, ctx);
      d.adapter.lease(c).Ok? && d.adapter.lease(c).value.blobject.None? ==>
        r == Call(Raises(OperationNotExistException(operation)), [Acquired, Destroyed])
    ensures var c := InitCurrent(d, operation, mode, ctx);
      d.adapter.lease(c).Ok? && d.adapter.lease(c).value.blobject.Some? ==>
        r == Call(Settle(d.adapter.lease(c).value.blobject.value(inParams, c)), [Acquired, Dispatched(c), Destroyed])
  {
    var c := InitCurrent(d, operation, mode, ctx);
    match d.adapter.lease(c)
    case Err(t) => Call(Raises(Propagated(t)), [])
    case Ok(servant) =>
      LeaseTracesBalanced(c);
      match servant.blobject
      case None => Call(Raises(OperationNotExistException(c.operation)), [Acquired, Destroyed])
      case Some(invoke) => Call(Settle(invoke(inParams, c)), [Acquired, Dispatched(c), Destroyed])
  }

  /** `ice_flush`: nothing to do for a collocated delegate. */
  function IceFlush(d: Delegate): (r: Delegate)
    ensures r == d
  {
    d
  }

  /** `setup`: the one-time assignment of reference and adapter. */
  function Setup(reference: Reference, adapter: ObjectAdapter): (d: Delegate)
    ensures d.reference == reference && d.adapter == adapter
  {
    Delegate(reference, adapter)
  }

  /** `__copyFrom`: the target takes over the source's reference and adapter;
      nothing of the target's previous state survives. */
  function CopyFrom(target: Delegate, from: Delegate): (d: Delegate)
    ensures d.reference == from.reference && d.adapter == from.adapter
  {
    Delegate(from.reference, from.adapter)
  }

  // ---------------------------------------------------------------------
  // Lemmas

  /** A probe whose Direct could not be constructed reports the constructor's
      exception unchanged and never destroys a lease it never took; one whose
      Direct was constructed hands the servant the current built from the
      reference and destroys the lease afterwards, whatever the servant did. */
  lemma ProbeLease(d: Delegate, typeId: string, ctx: Context)
    ensures var c := Current(d.reference.identity, d.reference.facet, "ice_isA", Nonmutating, ctx);
      && (d.adapter.lease(c).Err? ==>
            IceIsA(d, typeId, ctx) == Call(Raises(Propagated(d.adapter.lease(c).error)), []))
      && (d.adapter.lease(c).Ok? ==>
            IceIsA(d, typeId, ctx).trace == [Acquired, Dispatched(c), Destroyed])
  {
  }

  /** A servant's answer reaches the caller unchanged; a runtime exception it
      throws arrives wrapped, the Ice kind as UnknownRuntimeException and any
      other as UnknownException, with the original as cause; anything else
      arrives as thrown. */
  lemma ProbeTranslation(d: Delegate, typeId: string, ctx: Context, s: Servant)
    requires d.adapter.lease(InitCurrent(d, "ice_isA", Nonmutating, ctx)) == Ok(s)
    ensures var c := InitCurrent(d, "ice_isA", Nonmutating, ctx);
      var r := IceIsA(d, typeId, ctx);
      match s.isA(typeId, c)
      case Value(b) => r.outcome == Returned(b)
      case Throws(t) =>
        && (t.IceRuntimeException? ==> r.outcome == Raises(UnknownRuntimeException(t)))
        && (t.JavaRuntimeException? ==> r.outcome == Raises(UnknownException(t)))
        && (IsDeclared(t) ==> r.outcome == Raises(Propagated(t)))
  {
  }

  /** No runtime exception thrown by a servant ever reaches the caller as
      itself: whatever passes through unchanged is declared or came from the
      Direct constructor. */
  lemma NoRawRuntimeFromServant(d: Delegate, ctx: Context)
    ensures var r := IcePing(d, ctx);
      r.outcome.Raises? && r.outcome.raised.Propagated? && !IsDeclared(r.outcome.raised.thrown) ==> r.trace == []
  {
  }

  /** `ice_invoke` on a servant that is not a Blobject: OperationNotExist for
      the requested operation, never wrapped, lease taken and released, the
      servant not called. */
  lemma InvokeNeedsBlobject(d: Delegate, operation: string, mode: OperationMode, inParams: seq<bv8>, ctx: Context, s: Servant)
    requires d.adapter.lease(InitCurrent(d, operation, mode, ctx)) == Ok(s)
    requires s.blobject.None?
    ensures IceInvoke(d, operation, mode, inParams, ctx)
      == Call(Raises(OperationNotExistException(operation)), [Acquired, Destroyed])
  {
  }

  /** `ice_invoke` on a Blobject returns its success flag and out-parameters
      unchanged, and translates what it throws like the probes do. */
  lemma InvokeBlobject(d: Delegate, operation: string, mode: OperationMode, inParams: seq<bv8>, ctx: Context,
                       s: Servant, invoke: BlobjectInvoke)
    requires d.adapter.lease(InitCurrent(d, operation, mode, ctx)) == Ok(s)
    requires s.blobject == Some(invoke)
    ensures var c := InitCurrent(d, operation, mode, ctx);
      var r := IceInvoke(d, operation, mode, inParams, ctx);
      && r.trace == [Acquired, Dispatched(c), Destroyed]
      && match invoke(inParams, c)
         case Value(v) => r.outcome == Returned(v)
         case Throws(t) => r.outcome == Raises(Translate(t))
  {
  }

  /** The servant sees the context map exactly as the caller passed it, on
      every operation that reaches a servant; and two calls differing only in
      their context build currents that differ only in their context. */
  lemma ContextPassesThrough(d: Delegate, ctx: Context, other: Context, typeId: string,
                             operation: string, mode: OperationMode, inParams: seq<bv8>)
    ensures InitCurrent(d, operation, mode, other) == InitCurrent(d, operation, mode, ctx).(ctx := other)
    ensures d.adapter.lease(InitCurrent(d, "ice_isA", Nonmutating, ctx)).Ok? ==>
      SawContext(IceIsA(d, typeId, ctx).trace, ctx)
    ensures d.adapter.lease(InitCurrent(d, "ice_ping", Nonmutating, ctx)).Ok? ==>
      SawContext(IcePing(d, ctx).trace, ctx)
    ensures d.adapter.lease(InitCurrent(d, "ice_ids", Nonmutating, ctx)).Ok? ==>
      SawContext(IceIds(d, ctx).trace, ctx)
    ensures d.adapter.lease(InitCurrent(d, "ice_id", Nonmutating, ctx)).Ok? ==>
      SawContext(IceId(d, ctx).trace, ctx)
    ensures d.adapter.lease(InitCurrent(d, "ice_facets", Nonmutating, ctx)).Ok? ==>
      SawContext(IceFacets(d, ctx).trace, ctx)
    ensures var c := InitCurrent(d, operation, mode, ctx);
      d.adapter.lease(c).Ok? && d.adapter.lease(c).value.blobject.Some? ==>
        SawContext(IceInvoke(d, operation, mode, inParams, ctx).trace, ctx)
  {
  }

  /** The servant was called exactly once, with this context. */
  predicate SawContext(trace: seq<LeaseEvent>, ctx: Context) {
    Occurrences(trace, Acquired) == 1 && |trace| == 3 && trace[1].Dispatched? && trace[1].current.ctx == ctx
  }

  /** After `__copyFrom`, the target behaves exactly as the source on every
      operation, whatever it held before. */
  lemma CopyBehavesAsSource(target: Delegate, from: Delegate, typeId: string, ctx: Context,
                            operation: string, mode: OperationMode, inParams: seq<bv8>)
    ensures IceIsA(CopyFrom(target, from), typeId, ctx) == IceIsA(from, typeId, ctx)
    ensures IcePing(CopyFrom(target, from), ctx) == IcePing(from, ctx)
    ensures IceIds(CopyFrom(target, from), ctx) == IceIds(from, ctx)
    ensures IceId(CopyFrom(target, from), ctx) == IceId(from, ctx)
    ensures IceFacets(CopyFrom(target, from), ctx) == IceFacets(from, ctx)
    ensures IceInvoke(CopyFrom(target, from), operation, mode, inParams, ctx)
         == IceInvoke(from, operation, mode, inParams, ctx)
  {
  }

  /** A delegate set up with a reference leases exactly the servant the
      adapter resolves for that reference's identity and facet. */
  lemma SetupTargetsReference(reference: Reference, adapter: ObjectAdapter, ctx: Context)
    ensures var d := Setup(reference, adapter);
      var r := IcePing(d, ctx);
      forall i :: 0 <= i < |r.trace| && r.trace[i].Dispatched? ==>
        r.trace[i].current.id == reference.identity && r.trace[i].current.facet == reference.facet
  {
  }
}
