/** The part of an aggregate root that the event pipeline relies on: the log of
    events the aggregate applied, which of them have been dispatched, and the
    handlers the aggregate registered for its own events. An event is
    identified by its position in the log. The aggregate-root base class is not
    part of this model; this surface is read off its callers. */
module AggregateRoot {
  import opened DomainEvents

  datatype Root<H> = Root(events: seq<DomainEvent>, dispatched: set<nat>, handlers: map<string, seq<H>>)
  {
    /** Only positions of the log are ever marked. */
    ghost predicate Valid() {
      forall i :: i in dispatched ==> i < |events|
    }
  }

  /** A root with no events and no handlers. */
  function Empty<H>(): (r: Root<H>)
    ensures r.Valid() && r.events == [] && r.handlers == map[]
  {
    Root([], {}, map[])
  }

  /** The handlers registered under `name`, in registration order. */
  function HandlersFor<H>(r: Root<H>, name: string): seq<H> {
    if name in r.handlers then r.handlers[name] else []
  }

  /** `registerHandler(name, handler)`: adds a handler after those already
      registered under that name. */
  function RegisterHandler<H>(r: Root<H>, name: string, h: H): (r': Root<H>)
    ensures HandlersFor(r', name) == HandlersFor(r, name) + [h]
    ensures forall other :: other != name ==> HandlersFor(r', other) == HandlersFor(r, other)
    ensures r'.events == r.events && r'.dispatched == r.dispatched
  {
    r.(handlers := r.handlers[name := HandlersFor(r, name) + [h]])
  }

  /** The bookkeeping half of `applyEvent`: the event joins the log as pending.
      Running the handlers is the aggregate's half. */
  function Record<H>(r: Root<H>, e: DomainEvent): (r': Root<H>)
    requires r.Valid()
    ensures r'.Valid()
    ensures r'.events == r.events + [e] && r'.dispatched == r.dispatched
    ensures r'.handlers == r.handlers
    ensures GetUncommittedEvents(r') == GetUncommittedEvents(r) + [e]
  {
    var r' := r.(events := r.events + [e]);
    PendingFromAppend(r, e, 0);
    var before := GetUncommittedEvents(r);
    var after := GetUncommittedEvents(r');
    assert forall k :: 0 <= k < |before| ==> after[k] == before[k];
    assert after == before + [e];
    r'
  }

  /** Positions from `i` on that are still pending, in log order. */
  function PendingFrom<H>(r: Root<H>, i: nat): (ps: seq<nat>)
    requires i <= |r.events|
    ensures forall k :: 0 <= k < |ps| ==> i <= ps[k] < |r.events|
    decreases |r.events| - i
  {
    if i == |r.events| then []
    else if i in r.dispatched then PendingFrom(r, i + 1)
    else [i] + PendingFrom(r, i + 1)
  }

  /** `PendingFrom` lists, in increasing order, exactly the undispatched
      positions from `i` on. */
  lemma {:induction false} PendingFromExact<H>(r: Root<H>, i: nat)
    requires i <= |r.events|
    ensures var ps := PendingFrom(r, i);
            && (forall k :: 0 <= k < |ps| ==> i <= ps[k] < |r.events| && ps[k] !in r.dispatched)
            && (forall k, l :: 0 <= k < l < |ps| ==> ps[k] < ps[l])
            && (forall j :: i <= j < |r.events| && j !in r.dispatched ==> j in ps)
    decreases |r.events| - i
  {
    if i < |r.events| {
      PendingFromExact(r, i + 1);
    }
  }

  /** Positions of the events not yet dispatched, in log order. */
  function UncommittedIndices<H>(r: Root<H>): seq<nat> {
    PendingFrom(r, 0)
  }

  /** `getUncommittedEvents()`: the pending events, in log order. */
  function GetUncommittedEvents<H>(r: Root<H>): (es: seq<DomainEvent>)
    ensures |es| == |UncommittedIndices(r)|
    ensures forall k :: 0 <= k < |es| ==> es[k] == r.events[UncommittedIndices(r)[k]]
  {
    var ps := UncommittedIndices(r);
    seq(|ps|, k requires 0 <= k < |ps| => r.events[ps[k]])
  }

  /** When the pending positions of `r'` are those of `r` but for the first
      `n`, so are its pending events. */
  lemma UncommittedSuffix<H>(r: Root<H>, r': Root<H>, n: nat)
    requires r'.events == r.events && n <= |UncommittedIndices(r)|
    requires UncommittedIndices(r') == UncommittedIndices(r)[n..]
    ensures GetUncommittedEvents(r') == GetUncommittedEvents(r)[n..]
  {
    var u := GetUncommittedEvents(r);
    var u' := GetUncommittedEvents(r');
    assert forall k :: 0 <= k < |u'| ==> u'[k] == u[n + k];
  }

  /** `markEventAsDispatched(event)` for the event at position `i`. */
  function MarkEventAsDispatched<H>(r: Root<H>, i: nat): (r': Root<H>)
    requires r.Valid() && i < |r.events|
    ensures r'.Valid()
    ensures r'.dispatched == r.dispatched + {i}
    ensures r'.events == r.events && r'.handlers == r.handlers
  {
    r.(dispatched := r.dispatched + {i})
  }

  /** Appending a pending event extends the pending positions by its own. */
  lemma {:induction false} PendingFromAppend<H>(r: Root<H>, e: DomainEvent, i: nat)
    requires r.Valid() && i <= |r.events|
    ensures PendingFrom(r.(events := r.events + [e]), i) == PendingFrom(r, i) + [|r.events|]
    decreases |r.events| - i
  {
    if i < |r.events| {
      PendingFromAppend(r, e, i + 1);
    }
  }

  /** Marking a position before `i` does not change what is pending from `i`. */
  lemma {:induction false} MarkBefore<H>(r: Root<H>, x: nat, i: nat)
    requires r.Valid() && x < i <= |r.events|
    ensures PendingFrom(MarkEventAsDispatched(r, x), i) == PendingFrom(r, i)
    decreases |r.events| - i
  {
    if i < |r.events| {
      MarkBefore(r, x, i + 1);
    }
  }

  /** Marking the first pending position removes exactly it from the pending
      positions. */
  lemma {:induction false} MarkFirstPending<H>(r: Root<H>, i: nat)
    requires r.Valid() && i <= |r.events| && PendingFrom(r, i) != []
    ensures PendingFrom(MarkEventAsDispatched(r, PendingFrom(r, i)[0]), i) == PendingFrom(r, i)[1..]
    decreases |r.events| - i
  {
    var x := PendingFrom(r, i)[0];
    if i in r.dispatched {
      MarkFirstPending(r, i + 1);
    } else {
      MarkBefore(r, x, i + 1);
    }
  }

  /** Marking the next of the positions `idx[k..]` still pending leaves the
      rest pending. */
  lemma MarkNext<H>(r: Root<H>, idx: seq<nat>, k: nat)
    requires r.Valid() && k < |idx| && UncommittedIndices(r) == idx[k..]
    ensures idx[k] < |r.events|
    ensures UncommittedIndices(MarkEventAsDispatched(r, idx[k])) == idx[k + 1..]
  {
    assert idx[k..][0] == idx[k] && idx[k..][1..] == idx[k + 1..];
    MarkFirstPending(r, 0);
  }

  /** `markEventAsDispatched` applied to the first `n` of the pending
      positions `idx`, in order: exactly the rest stay pending. */
  function MarkPrefix<H>(r: Root<H>, idx: seq<nat>, n: nat): (r': Root<H>)
    requires r.Valid() && UncommittedIndices(r) == idx && n <= |idx|
    ensures r'.Valid() && r'.events == r.events && r'.handlers == r.handlers
    ensures UncommittedIndices(r') == idx[n..]
    decreases n
  {
    if n == 0 then r
    else
      var p := MarkPrefix(r, idx, n - 1);
      MarkNext(p, idx, n - 1);
      MarkEventAsDispatched(p, idx[n - 1])
  }

  /** With nothing dispatched, every event of the log is uncommitted, in
      the order it was applied. */
  lemma {:induction false} NothingDispatchedAllUncommitted<H>(r: Root<H>)
    requires r.dispatched == {}
    ensures GetUncommittedEvents(r) == r.events
  {
    AllPendingFrom(r, 0);
  }

  /** With nothing dispatched, the pending positions from `i` on are all of
      them. */
  lemma {:induction false} AllPendingFrom<H>(r: Root<H>, i: nat)
    requires r.dispatched == {} && i <= |r.events|
    ensures |PendingFrom(r, i)| == |r.events| - i
    ensures forall k :: 0 <= k < |r.events| - i ==> PendingFrom(r, i)[k] == i + k
    decreases |r.events| - i
  {
    if i < |r.events| {
      AllPendingFrom(r, i + 1);
    }
  }
}
