/** The in-process event registry of package `events`: a map from event name to
    the handlers registered under it, in registration order, with the five
    operations Register, Clear, Has, Dispatch and Remove.

    Handlers are opaque identity tokens of type `H`; `==` on `H` is the
    identity comparison Go performs on the handler interface values. The
    registry is an immutable value, so every mutating operation returns the
    new registry together with the error the Go method returns. */
module Events {

  import opened Options
  import opened Sequences

  /** The only error the registry reports: the handler is already registered
      under that name. */
  datatype Error = ErrEventAlreadyRegistered

  /** An event as the registry sees it: the name routes it, the payload is
      handed to the handlers untouched. */
  datatype Event<P> = Event(name: string, payload: P)

  /** The registry: event name to the handlers registered under it. */
  datatype Dispatcher<H> = Dispatcher(handlers: map<string, seq<H>>)

  /** The registry after a mutating call, with the error it returned
      (`None` is Go's `nil`). */
  datatype Outcome<H> = Outcome(dispatcher: Dispatcher<H>, err: Option<Error>)

  /** One call `handler.Handle(event, ...)` made by Dispatch. */
  datatype Call<H, P> = Call(handler: H, event: Event<P>)

  /** What Dispatch does: the calls it makes, in order, and the error it returns. */
  datatype Dispatched<H, P> = Dispatched(calls: seq<Call<H, P>>, err: Option<Error>)

  /** The list under `name` as Go's map index reads it: a missing key reads
      as the empty (nil) slice. */
  function Lookup<H>(d: Dispatcher<H>, name: string): seq<H> {
    if name in d.handlers then d.handlers[name] else []
  }

  /** The registry invariant: no handler occurs twice under one name. */
  ghost predicate Valid<H>(d: Dispatcher<H>) {
    forall name | name in d.handlers :: NoDuplicates(d.handlers[name])
  }

  /** Two registries that agree on every name once a missing key is read as
      the empty list. */
  ghost predicate Equivalent<H>(d: Dispatcher<H>, d': Dispatcher<H>) {
    forall name :: Lookup(d, name) == Lookup(d', name)
  }

  /** `NewEventDispatcher`: a registry with nothing registered. */
  function NewEventDispatcher<H>(): (d: Dispatcher<H>)
    ensures |d.handlers| == 0
    ensures Valid(d)
    ensures forall name :: Lookup(d, name) == []
  {
    Dispatcher(map[])
  }

  /** `Has`: scans the list under `name` for `handler`. */
  function Has<H(==)>(d: Dispatcher<H>, name: string, handler: H): (b: bool)
    ensures b <==> name in d.handlers && handler in d.handlers[name]
    ensures b <==> handler in Lookup(d, name)
  {
    name in d.handlers && FirstIndex(d.handlers[name], handler).Some?
  }

  /** `Register`: refuses a handler already under `name`, otherwise appends it
      to the list under `name`, creating the entry when it is missing. */
  function Register<H(==)>(d: Dispatcher<H>, name: string, handler: H): (r: Outcome<H>)
    ensures handler in Lookup(d, name) ==>
              r.err == Some(ErrEventAlreadyRegistered) && r.dispatcher == d
    ensures handler !in Lookup(d, name) ==>
              && r.err == None
              && r.dispatcher.handlers.Keys == d.handlers.Keys + {name}
              && Lookup(r.dispatcher, name) == Lookup(d, name) + [handler]
    ensures r.dispatcher.handlers - {name} == d.handlers - {name}
    ensures Valid(d) ==> Valid(r.dispatcher)
  {
    if Has(d, name, handler) then
      Outcome(d, Some(ErrEventAlreadyRegistered))
    else
      var d' := Dispatcher(d.handlers[name := Lookup(d, name) + [handler]]);
      assert Valid(d) ==> Valid(d') by {
        if Valid(d) {
          AppendNoDuplicates(Lookup(d, name), handler);
        }
      }
      Outcome(d', None)
  }

  /** `Clear`: drops every registration. */
  function Clear<H>(d: Dispatcher<H>): (r: Dispatcher<H>)
    ensures |r.handlers| == 0
    ensures forall name :: Lookup(r, name) == []
    ensures Valid(r)
  {
    NewEventDispatcher()
  }

  /** Calls `Handle(e, ...)` on each handler of `hs`, front to back. */
  function Invoke<H, P>(hs: seq<H>, e: Event<P>): (calls: seq<Call<H, P>>)
    ensures |calls| == |hs|
    ensures forall i | 0 <= i < |hs| :: calls[i] == Call(hs[i], e)
  {
    if |hs| == 0 then [] else [Call(hs[0], e)] + Invoke(hs[1..], e)
  }

  /** `Dispatch`: calls every handler under the event's name, in registration
      order, and returns no error; the registry is not changed. */
  function Dispatch<H, P>(d: Dispatcher<H>, e: Event<P>): (r: Dispatched<H, P>)
    ensures r.err == None
    ensures |r.calls| == |Lookup(d, e.name)|
    ensures forall i | 0 <= i < |r.calls| :: r.calls[i] == Call(Lookup(d, e.name)[i], e)
  {
    if e.name in d.handlers then Dispatched(Invoke(d.handlers[e.name], e), None)
    else Dispatched([], None)
  }

  /** `Remove`: deletes the first occurrence of `handler` under `name`, keeping
      the key even when its list becomes empty; never fails. */
  function Remove<H(==)>(d: Dispatcher<H>, name: string, handler: H): (r: Outcome<H>)
    ensures r.err == None
    ensures r.dispatcher.handlers.Keys == d.handlers.Keys
    ensures r.dispatcher.handlers - {name} == d.handlers - {name}
    ensures handler !in Lookup(d, name) ==> r.dispatcher == d
    ensures handler in Lookup(d, name) ==>
              var s := Lookup(d, name);
              exists k | 0 <= k < |s| && s[k] == handler && handler !in s[..k] ::
                Lookup(r.dispatcher, name) == s[..k] + s[k + 1..]
    ensures Valid(d) ==> Valid(r.dispatcher)
  {
    if name in d.handlers then
      match FirstIndex(d.handlers[name], handler)
      case Some(k) =>
        var s := d.handlers[name];
        var d' := Dispatcher(d.handlers[name := RemoveAt(s, k)]);
        assert Valid(d) ==> Valid(d') by {
          if Valid(d) {
            RemoveAtNoDuplicates(s, k);
          }
        }
        assert Lookup(d', name) == s[..k] + s[k + 1..];
        Outcome(d', None)
      case None => Outcome(d, None)
    else
      Outcome(d, None)
  }
}
