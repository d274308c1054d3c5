/** The domain event mediator: an event emitter with named listeners, and the
    two passes over an aggregate's event log. `emitAsync(name, payload)` calls
    every listener registered under `name` and rejects when any of them
    rejects; which listener rejects on which emission is outside the model and
    is given as the oracle `fails`. */
module DomainEventMediator {
  import opened Wrappers
  import opened DomainEvents
  import opened AggregateRoot

  /** A listener, identified by the order of registration or any other label. */
  type HandlerId = nat

  datatype Payload = Domain(domain_event: DomainEvent) | Integration(integration_event: IntegrationEvent)

  /** One `emitAsync` call: the name emitted under and the object passed. */
  datatype Emission = Emission(name: string, payload: Payload)

  datatype Mediator = Mediator(listeners: map<string, seq<HandlerId>>)

  /** A mediator over a fresh emitter. */
  function New(): (m: Mediator)
    ensures forall name :: Listeners(m, name) == []
  {
    Mediator(map[])
  }

  function Listeners(m: Mediator, name: string): seq<HandlerId> {
    if name in m.listeners then m.listeners[name] else []
  }

  /** `register(event, handler)`: the handler joins those already listening on
      that name; nothing else changes. */
  function Register(m: Mediator, name: string, h: HandlerId): (m': Mediator)
    ensures Listeners(m', name) == Listeners(m, name) + [h]
    ensures forall other :: other != name ==> Listeners(m', other) == Listeners(m, other)
  {
    Mediator(m.listeners[name := Listeners(m, name) + [h]])
  }

  /** Whether the promise of `emitAsync` rejects: some listener on the name
      rejects this emission. An emission nobody listens to succeeds. */
  predicate EmitFails(m: Mediator, em: Emission, fails: (HandlerId, Emission) -> bool) {
    AnyFails(Listeners(m, em.name), em, fails)
  }

  /** Some listener of `hs`, called in order, rejects the emission. */
  predicate AnyFails(hs: seq<HandlerId>, em: Emission, fails: (HandlerId, Emission) -> bool)
    decreases |hs|
  {
    |hs| > 0 && (fails(hs[0], em) || AnyFails(hs[1..], em, fails))
  }

  /** `AnyFails` holds exactly when one of the listeners rejects. */
  lemma {:induction false} AnyFailsIff(hs: seq<HandlerId>, em: Emission, fails: (HandlerId, Emission) -> bool)
    ensures AnyFails(hs, em, fails) <==> exists k :: 0 <= k < |hs| && fails(hs[k], em)
    decreases |hs|
  {
    if |hs| > 0 {
      AnyFailsIff(hs[1..], em, fails);
      if fails(hs[0], em) {
        assert 0 <= 0 < |hs| && fails(hs[0], em);
      }
      if exists k :: 0 <= k < |hs| && fails(hs[k], em) {
        var k :| 0 <= k < |hs| && fails(hs[k], em);
        if k > 0 {
          assert hs[1..][k - 1] == hs[k];
        }
      }
    }
  }

  /** An emission fails exactly when some listener on its name rejects it;
      one nobody listens to succeeds. */
  lemma EmitFailsIff(m: Mediator, em: Emission, fails: (HandlerId, Emission) -> bool)
    ensures EmitFails(m, em, fails) <==> exists k :: 0 <= k < |Listeners(m, em.name)| && fails(Listeners(m, em.name)[k], em)
    ensures Listeners(m, em.name) == [] ==> !EmitFails(m, em, fails)
  {
    AnyFailsIff(Listeners(m, em.name), em, fails);
  }

  /** The emission `publish` makes for a domain event: under the event's class
      name, carrying the event itself. */
  function DomainEmission(e: DomainEvent): (em: Emission)
    ensures em.name == e.Name() && em.payload == Domain(e)
  {
    Emission(e.Name(), Domain(e))
  }

  /** The emission `publishIntegrationEvents` makes for a translation: under the
      integration event's name, carrying it. */
  function IntegrationEmission(ie: IntegrationEvent): (em: Emission)
    ensures em.name == ie.event_name && em.payload == Integration(ie)
  {
    Emission(ie.event_name, Integration(ie))
  }

  /** The translation of one event, as a list of at most one. */
  function TranslationOf(e: DomainEvent): (ts: seq<IntegrationEvent>)
    ensures |ts| <= 1
    ensures ts == [] <==> GetIntegrationEvent(e).None?
    ensures |ts| == 1 ==> Some(ts[0]) == GetIntegrationEvent(e)
  {
    match GetIntegrationEvent(e)
    case Some(ie) => [ie]
    case None => []
  }

  /** The translations of a log, in log order, skipping events that have none. */
  function Translations(events: seq<DomainEvent>): (ts: seq<IntegrationEvent>)
    ensures |ts| <= |events|
  {
    if |events| == 0 then [] else TranslationOf(events[0]) + Translations(events[1..])
  }

  /** Emits the emissions in order and stops at the first rejected one: the
      trace is the emissions made, a prefix of `ems`. */
  method EmitEach(m: Mediator, ems: seq<Emission>, fails: (HandlerId, Emission) -> bool)
    returns (trace: seq<Emission>, outcome: Outcome<Emission>)
    ensures |trace| <= |ems| && trace == ems[..|trace|]
    ensures outcome.Pass? <==> forall k :: 0 <= k < |ems| ==> !EmitFails(m, ems[k], fails)
    ensures outcome.Pass? ==> |trace| == |ems|
    ensures outcome.Fail? ==>
              && |trace| > 0
              && outcome.error == trace[|trace| - 1]
              && EmitFails(m, outcome.error, fails)
              && (forall k :: 0 <= k < |trace| - 1 ==> !EmitFails(m, trace[k], fails))
  {
    trace := [];
    var k := 0;
    while k < |ems|
      invariant 0 <= k <= |ems| && trace == ems[..k]
      invariant forall j :: 0 <= j < k ==> !EmitFails(m, ems[j], fails)
    {
      trace := trace + [ems[k]];
      if EmitFails(m, ems[k], fails) {
        outcome := Fail(ems[k]);
        return;
      }
      k := k + 1;
    }
    outcome := Pass;
  }

  /** `publish(aggregateRoot)`: walks the events that were uncommitted when it
      started, in log order; each is marked dispatched and then emitted under
      its own name. The first rejected emission stops the walk and is the
      failure reported; the events after it stay uncommitted. Emitting never
      reads the dispatched marks, so the model emits first and then marks the
      events that were emitted, which leaves the same marks and emissions. */
  method Publish<H>(m: Mediator, root: Root<H>, fails: (HandlerId, Emission) -> bool)
    returns (root': Root<H>, trace: seq<Emission>, outcome: Outcome<Emission>)
    requires root.Valid()
    ensures root'.Valid() && root'.events == root.events && root'.handlers == root.handlers
    ensures var u := GetUncommittedEvents(root);
            && |trace| <= |u|
            && (forall k :: 0 <= k < |trace| ==> trace[k] == DomainEmission(u[k]))
            && (outcome.Pass? <==> forall k :: 0 <= k < |u| ==> !EmitFails(m, DomainEmission(u[k]), fails))
            && (outcome.Pass? ==> |trace| == |u| && GetUncommittedEvents(root') == [])
            && (outcome.Fail? ==>
                  && |trace| > 0
                  && outcome.error == trace[|trace| - 1]
                  && EmitFails(m, outcome.error, fails)
                  && (forall k :: 0 <= k < |trace| - 1 ==> !EmitFails(m, trace[k], fails))
                  && GetUncommittedEvents(root') == u[|trace|..])
  {
    var u := GetUncommittedEvents(root);
    var ems := seq(|u|, k requires 0 <= k < |u| => DomainEmission(u[k]));
    trace, outcome := EmitEach(m, ems, fails);
    root' := MarkPrefix(root, UncommittedIndices(root), |trace|);
    UncommittedSuffix(root, root', |trace|);
  }

  /** Emits the integration events in order, each under its own name, and
      stops at the first rejected emission. */
  method EmitAll(m: Mediator, ts: seq<IntegrationEvent>, fails: (HandlerId, Emission) -> bool)
    returns (trace: seq<Emission>, outcome: Outcome<Emission>)
    ensures |trace| <= |ts|
    ensures forall k :: 0 <= k < |trace| ==> trace[k] == IntegrationEmission(ts[k])
    ensures outcome.Pass? <==> forall k :: 0 <= k < |ts| ==> !EmitFails(m, IntegrationEmission(ts[k]), fails)
    ensures outcome.Pass? ==> |trace| == |ts|
    ensures outcome.Fail? ==>
              && |trace| > 0
              && outcome.error == trace[|trace| - 1]
              && EmitFails(m, outcome.error, fails)
              && (forall k :: 0 <= k < |trace| - 1 ==> !EmitFails(m, trace[k], fails))
  {
    var ems := seq(|ts|, k requires 0 <= k < |ts| => IntegrationEmission(ts[k]));
    trace, outcome := EmitEach(m, ems, fails);
  }

  /** `publishIntegrationEvents(aggregateRoot)`: walks the whole log, dispatched
      or not, and emits the translation of every event that has one, in log
      order, under the integration event's name. The log itself is only read:
      nothing is marked dispatched. The first rejected emission stops the walk.
      Translating is free of effects, so translating the log first and then
      emitting makes the same emissions. */
  method PublishIntegrationEvents<H>(m: Mediator, root: Root<H>, fails: (HandlerId, Emission) -> bool)
    returns (trace: seq<Emission>, outcome: Outcome<Emission>)
    ensures var ts := Translations(root.events);
            && |trace| <= |ts|
            && (forall k :: 0 <= k < |trace| ==> trace[k] == IntegrationEmission(ts[k]))
            && (outcome.Pass? <==> forall k :: 0 <= k < |ts| ==> !EmitFails(m, IntegrationEmission(ts[k]), fails))
            && (outcome.Pass? ==> |trace| == |ts|)
            && (outcome.Fail? ==>
                  && |trace| > 0
                  && outcome.error == trace[|trace| - 1]
                  && EmitFails(m, outcome.error, fails)
                  && (forall k :: 0 <= k < |trace| - 1 ==> !EmitFails(m, trace[k], fails)))
  {
    trace, outcome := EmitAll(m, Translations(root.events), fails);
  }

  /** The example of a log [A, B, C] where only B and C translate: exactly B's
      and C's translations are published, in that order. */
  lemma TranslationsSkipUntranslated(id: string, t: int)
    ensures var a := StubEvent(id, "A", t, false);
            var b := StubEvent(id, "B", t, true);
            var c := StubEvent(id, "C", t, true);
            Translations([a, b, c]) == [
              IntegrationEvent("StubIntegrationEvent", 1, t, b),
              IntegrationEvent("StubIntegrationEvent", 1, t, c)]
  {
    var a := StubEvent(id, "A", t, false);
    var b := StubEvent(id, "B", t, true);
    var c := StubEvent(id, "C", t, true);
    assert [a, b, c][1..] == [b, c] && [b, c][1..] == [c] && [c][1..] == [];
    assert Translations([c]) == [IntegrationEvent("StubIntegrationEvent", 1, t, c)];
    assert Translations([b, c]) == [IntegrationEvent("StubIntegrationEvent", 1, t, b)] + Translations([c]);
  }

  /** Translating two logs one after the other is translating their
      concatenation: the order of the log is the order of its translations. */
  lemma {:induction false} TranslationsAppend(a: seq<DomainEvent>, b: seq<DomainEvent>)
    ensures Translations(a + b) == Translations(a) + Translations(b)
    decreases |a|
  {
    if |a| == 0 {
      assert a + b == b;
    } else {
      assert (a + b)[0] == a[0] && (a + b)[1..] == a[1..] + b;
      TranslationsAppend(a[1..], b);
    }
  }

  /** When every event of a log translates, its translations are those of its
      events, position by position. */
  lemma {:induction false} AllTranslated(events: seq<DomainEvent>)
    requires forall j :: 0 <= j < |events| ==> GetIntegrationEvent(events[j]).Some?
    ensures |Translations(events)| == |events|
    ensures forall j :: 0 <= j < |events| ==> Some(Translations(events)[j]) == GetIntegrationEvent(events[j])
    decreases |events|
  {
    if |events| > 0 {
      AllTranslated(events[1..]);
      var ts := Translations(events);
      forall j | 0 <= j < |events|
        ensures Some(ts[j]) == GetIntegrationEvent(events[j])
      {
        if j > 0 {
          assert ts[j] == Translations(events[1..])[j - 1];
          assert events[j] == events[1..][j - 1];
        }
      }
    }
  }

  /** A log whose events all lack a translation publishes no integration event. */
  lemma {:induction false} NoTranslationNoEmission(events: seq<DomainEvent>)
    requires forall j :: 0 <= j < |events| ==> GetIntegrationEvent(events[j]).None?
    ensures Translations(events) == []
  {
    if |events| > 0 {
      NoTranslationNoEmission(events[1..]);
    }
  }
}
