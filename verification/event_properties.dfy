/** Properties relating the registry's operations to each other: Register
    against Has and Remove, Remove's idempotence, Clear's reset, Dispatch's
    exactly-once and name-isolation guarantees, and the no-duplicates
    invariant of every registry built from the empty one. */
module EventProperties {

  import opened Options
  import opened Sequences
  import opened Events

  /** The handlers a sequence of calls reaches, in call order. */
  function CalledHandlers<H, P>(calls: seq<Call<H, P>>): seq<H>
  {
    seq(|calls|, i requires 0 <= i < |calls| => calls[i].handler)
  }

  /** Registering a new handler succeeds, registering it again fails and
      changes nothing, and the handler is then under the name exactly once. */
  lemma RegisterTwice<H>(d: Dispatcher<H>, name: string, handler: H)
    requires !Has(d, name, handler)
    ensures var first := Register(d, name, handler);
            var second := Register(first.dispatcher, name, handler);
            && first.err == None
            && Has(first.dispatcher, name, handler)
            && second.err == Some(ErrEventAlreadyRegistered)
            && second.dispatcher == first.dispatcher
            && multiset(Lookup(second.dispatcher, name))[handler] == 1
  {
  }

  /** After Remove, a valid registry no longer has the handler under that name. */
  lemma RemoveThenHas<H>(d: Dispatcher<H>, name: string, handler: H)
    requires Valid(d)
    ensures !Has(Remove(d, name, handler).dispatcher, name, handler)
  {
  }

  /** On a valid registry a second Remove of the same pair changes nothing. */
  lemma RemoveIdempotent<H>(d: Dispatcher<H>, name: string, handler: H)
    requires Valid(d)
    ensures var once := Remove(d, name, handler);
            Remove(once.dispatcher, name, handler) == once
  {
  }

  /** Removing a handler that was appended last, and occurs nowhere else in
      the list, restores the list it was appended to. */
  lemma RemoveAppended<H>(m: map<string, seq<H>>, name: string, s: seq<H>, handler: H)
    requires handler !in s
    ensures Remove(Dispatcher(m[name := s + [handler]]), name, handler)
            == Outcome(Dispatcher(m[name := s]), None)
  {
    FirstIndexAppend(s, handler);
    RemoveAtAppend(s, handler);
  }

  /** A registry whose only change is to write back the list a name already
      read as agrees with the original on every name, and is the original when
      the name had an entry. */
  lemma RestoredEquivalent<H>(d: Dispatcher<H>, name: string, back: Dispatcher<H>)
    requires back.handlers == d.handlers[name := Lookup(d, name)]
    ensures Equivalent(back, d)
    ensures name in d.handlers ==> back == d
  {
  }

  /** Remove undoes a successful Register: the list under every name reads as
      before, and when the name already had an entry the registry is the same;
      a name that had none is left with an empty entry. */
  lemma RemoveUndoesRegister<H>(d: Dispatcher<H>, name: string, handler: H)
    requires !Has(d, name, handler)
    ensures var back := Remove(Register(d, name, handler).dispatcher, name, handler).dispatcher;
            && back.handlers == d.handlers[name := Lookup(d, name)]
            && Equivalent(back, d)
            && (name in d.handlers ==> back == d)
  {
    var s := Lookup(d, name);
    var mid := Register(d, name, handler).dispatcher;
    var back := Remove(mid, name, handler).dispatcher;
    assert back.handlers == d.handlers[name := s] by {
      assert mid == Dispatcher(d.handlers[name := s + [handler]]);
      RemoveAppended(d.handlers, name, s, handler);
    }
    RestoredEquivalent(d, name, back);
  }

  /** Clear forgets every registration, whatever was registered before, and
      leaves the registry as NewEventDispatcher creates it. */
  lemma ClearForgetsAll<H, P>(d: Dispatcher<H>, name: string, handler: H, e: Event<P>)
    ensures !Has(Clear(d), name, handler)
    ensures Dispatch(Clear(d), e).calls == []
    ensures Clear(d) == NewEventDispatcher()
  {
  }

  /** Dispatch reaches exactly the handlers under the event's name, in
      registration order, each with the dispatched event. */
  lemma DispatchCallsRegistered<H, P>(d: Dispatcher<H>, e: Event<P>)
    ensures CalledHandlers(Dispatch(d, e).calls) == Lookup(d, e.name)
    ensures forall c | c in Dispatch(d, e).calls :: c.event == e
  {
  }

  /** On a valid registry Dispatch calls each handler under the event's name
      exactly once and every other handler not at all. */
  lemma DispatchExactlyOnce<H, P>(d: Dispatcher<H>, e: Event<P>, handler: H)
    requires Valid(d)
    ensures multiset(CalledHandlers(Dispatch(d, e).calls))[handler]
            == if Has(d, e.name, handler) then 1 else 0
  {
    DispatchCallsRegistered(d, e);
    NoDuplicatesCount(Lookup(d, e.name), handler);
  }

  /** Registering or removing under another name does not change what a
      Dispatch of `e` does. */
  lemma DispatchNameIsolation<H, P>(d: Dispatcher<H>, name: string, handler: H, e: Event<P>)
    requires name != e.name
    ensures Dispatch(Register(d, name, handler).dispatcher, e) == Dispatch(d, e)
    ensures Dispatch(Remove(d, name, handler).dispatcher, e) == Dispatch(d, e)
  {
  }

  /** Handlers registered one after another under a name are called in that
      order, after the ones already there. */
  lemma DispatchInRegistrationOrder<H, P>(d: Dispatcher<H>, first: H, second: H, e: Event<P>)
    requires first != second
    requires !Has(d, e.name, first) && !Has(d, e.name, second)
    ensures var d1 := Register(d, e.name, first).dispatcher;
            var d2 := Register(d1, e.name, second).dispatcher;
            Dispatch(d2, e).calls == Dispatch(d, e).calls + [Call(first, e), Call(second, e)]
  {
  }

  /** A call on the registry, as a value. */
  datatype Op<H, P> =
    | RegisterOp(name: string, handler: H)
    | RemoveOp(name: string, handler: H)
    | ClearOp
    | DispatchOp(event: Event<P>)

  /** The registry after one call. */
  function Apply<H(==), P>(d: Dispatcher<H>, op: Op<H, P>): (r: Dispatcher<H>)
    ensures Valid(d) ==> Valid(r)
  {
    match op
    case RegisterOp(name, handler) => Register(d, name, handler).dispatcher
    case RemoveOp(name, handler) => Remove(d, name, handler).dispatcher
    case ClearOp => Clear(d)
    case DispatchOp(_) => d
  }

  /** The registry after a sequence of calls, first call first. */
  function Run<H(==), P>(d: Dispatcher<H>, ops: seq<Op<H, P>>): Dispatcher<H>
    decreases |ops|
  {
    if |ops| == 0 then d else Run(Apply(d, ops[0]), ops[1..])
  }

  /** Every call keeps the no-duplicates invariant, so every sequence of calls does. */
  lemma {:induction false} RunPreservesValid<H, P>(d: Dispatcher<H>, ops: seq<Op<H, P>>)
    requires Valid(d)
    ensures Valid(Run(d, ops))
    decreases |ops|
  {
    if |ops| > 0 {
      RunPreservesValid(Apply(d, ops[0]), ops[1..]);
    }
  }

  /** No registry reachable from NewEventDispatcher holds a handler twice under one name. */
  lemma ReachableValid<H, P>(ops: seq<Op<H, P>>, name: string)
    ensures NoDuplicates(Lookup(Run(NewEventDispatcher<H>(), ops), name))
  {
    RunPreservesValid(NewEventDispatcher<H>(), ops);
  }
}
