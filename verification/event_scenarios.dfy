/** The registry's test suite restated as concrete facts about the model.
    Handlers are the numbers 1, 2 and 3 (the test handlers' IDs); the events
    are named "test" and "test2". */
module EventScenarios {

  import opened Options
  import opened Sequences
  import opened Events

  /** Two distinct handlers registered under one name are kept in order. */
  lemma RegisterScenario()
    ensures var r1 := Register(NewEventDispatcher<nat>(), "test", 1);
            var r2 := Register(r1.dispatcher, "test", 2);
            && r1.err == None && |Lookup(r1.dispatcher, "test")| == 1
            && r2.err == None && Lookup(r2.dispatcher, "test") == [1, 2]
  {
  }

  /** The same handler registered twice under one name is refused the second time. */
  lemma RegisterWhenAlreadyRegisteredScenario()
    ensures var r1 := Register(NewEventDispatcher<nat>(), "test", 1);
            var r2 := Register(r1.dispatcher, "test", 1);
            && r1.err == None
            && r2.err == Some(ErrEventAlreadyRegistered)
            && Lookup(r2.dispatcher, "test") == [1]
  {
  }

  /** Has sees the registered pair and neither another name nor another handler. */
  lemma HasScenario()
    ensures var d := Register(NewEventDispatcher<nat>(), "test", 1).dispatcher;
            && Has(d, "test", 1)
            && !Has(d, "test2", 1)
            && !Has(d, "test", 2)
  {
  }

  /** The registry the Clear and Remove tests set up: handlers 1 and 2 under
      "test", handler 3 under "test2", each registration succeeding. */
  lemma SetupScenario()
    ensures var r1 := Register(NewEventDispatcher<nat>(), "test", 1);
            var r2 := Register(r1.dispatcher, "test", 2);
            var r3 := Register(r2.dispatcher, "test2", 3);
            && r1.err == None && r2.err == None && r3.err == None
            && r3.dispatcher.handlers == map["test" := [1, 2], "test2" := [3]]
  {
    var d0 := NewEventDispatcher<nat>();
    assert d0.handlers == map[];
    var d1 := Register(d0, "test", 1).dispatcher;
    assert d1.handlers == map["test" := [1]] by {
      assert Lookup(d0, "test") + [1] == [1];
    }
    var d2 := Register(d1, "test", 2).dispatcher;
    assert d2.handlers == map["test" := [1, 2]] by {
      assert Lookup(d1, "test") + [2] == [1, 2];
    }
    assert Lookup(d2, "test2") + [3] == [3];
  }

  /** Clear empties the registry that holds entries under two names. */
  lemma ClearScenario()
    ensures |Clear(Dispatcher(map["test" := [1, 2], "test2" := [3]])).handlers| == 0
  {
  }

  /** Removing handler 1 from the set-up registry leaves [2] under "test". */
  lemma RemoveFirstScenario()
    ensures Remove(Dispatcher(map["test" := [1, 2], "test2" := [3]]), "test", 1)
            == Outcome(Dispatcher(map["test" := [2], "test2" := [3]]), None)
  {
    assert FirstIndex([1, 2], 1) == Some(0);
    assert RemoveAt([1, 2], 0) == [2];
  }

  /** Removing the last handler under "test" keeps the name with an empty entry. */
  lemma RemoveLastScenario()
    ensures Remove(Dispatcher(map["test" := [2], "test2" := [3]]), "test", 2)
            == Outcome(Dispatcher(map["test" := [], "test2" := [3]]), None)
    ensures Remove(Dispatcher(map["test" := [], "test2" := [3]]), "test2", 3)
            == Outcome(Dispatcher(map["test" := [], "test2" := []]), None)
  {
    assert FirstIndex([2], 2) == Some(0);
    assert FirstIndex([3], 3) == Some(0);
  }

  /** Dispatch calls the one registered handler once, with the event. */
  lemma DispatchScenario()
    ensures var e := Event("test", "test");
            var d := Register(NewEventDispatcher<nat>(), e.name, 1).dispatcher;
            && Dispatch(d, e) == Dispatched([Call(1, e)], None)
            && Dispatch(d, Event("test2", "test2")).calls == []
  {
  }
}
