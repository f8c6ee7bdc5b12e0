/** The write-event fan-out: every subscription's stream against the history of everything published. */
module Hub {
  import opened Strings

  datatype Op = OpPut | OpDelete
  datatype Event = Event(key: Str, op: Op, etag: Str, versionID: Str, time: int) // time 0 is unset

  const SUB_BUFFER := 256

  function Stamp(e: Event, now: int): Event {
    if e.time == 0 then e.(time := now) else e
  }

  // ----- The hub as a value

  /** One subscription: what is queued, what its reader has taken, and whether its channel is open. */
  datatype Sub = Sub(prefix: Str, buffer: seq<Event>, received: seq<Event>, open: bool)

  /** subs holds every subscription ever made; registered, those the hub still delivers to. */
  datatype State = State(subs: map<nat, Sub>, registered: set<nat>, nextID: nat, closed: bool)

  const EMPTY := State(map[], {}, 0, false)

  predicate Matches(sub: Sub, e: Event) {
    sub.prefix <= e.key
  }

  predicate Full(sub: Sub) {
    |sub.buffer| >= SUB_BUFFER
  }

  /** What a registered subscription becomes when e is dispatched: a full one is dropped. */
  function Offered(sub: Sub, e: Event): Sub {
    if !Matches(sub, e) then sub
    else if Full(sub) then sub.(open := false)
    else sub.(buffer := sub.buffer + [e])
  }

  /** What a reader's receive leaves: nothing queued, nothing taken. */
  function Taken(sub: Sub): Sub {
    if sub.buffer == [] then sub else sub.(buffer := sub.buffer[1..], received := sub.received + [sub.buffer[0]])
  }

  function OfferedTo(subs: map<nat, Sub>, ids: set<nat>, e: Event): map<nat, Sub> {
    map id | id in subs :: if id in ids then Offered(subs[id], e) else subs[id]
  }

  function ClosedFor(subs: map<nat, Sub>, ids: set<nat>): map<nat, Sub> {
    map id | id in subs :: if id in ids then subs[id].(open := false) else subs[id]
  }

  lemma OfferedNext(subs: map<nat, Sub>, done: set<nat>, id: nat, e: Event)
    requires id in subs && id !in done
    ensures id in OfferedTo(subs, done, e)
    ensures OfferedTo(subs, done, e)[id := Offered(OfferedTo(subs, done, e)[id], e)] == OfferedTo(subs, done + {id}, e)
  {
  }

  lemma ClosedNext(subs: map<nat, Sub>, done: set<nat>, id: nat)
    requires id in subs && id !in done
    ensures id in ClosedFor(subs, done)
    ensures ClosedFor(subs, done)[id := ClosedFor(subs, done)[id].(open := false)] == ClosedFor(subs, done + {id})
  {
  }

  /** Nobody is done at first, and everybody when nobody is left. */
  lemma NothingDone(subs: map<nat, Sub>, ids: set<nat>, e: Event)
    ensures OfferedTo(subs, ids - ids, e) == subs && ClosedFor(subs, ids - ids) == subs
    ensures OfferedTo(subs, ids - {}, e) == OfferedTo(subs, ids, e) && ClosedFor(subs, ids - {}) == ClosedFor(subs, ids)
  {
  }

  datatype Act =
    | Subscribe(prefix: Str)
    | Publish(e: Event, now: int)
    | Receive(id: nat)
    | CloseSub(id: nat)
    | CloseHub

  function Dispatched(s: State, e: Event): State {
    var subs := OfferedTo(s.subs, s.registered, e);
    s.(subs := subs, registered := set id | id in s.registered && id in subs && subs[id].open)
  }

  function Step(s: State, a: Act): State {
    match a
    case Subscribe(prefix) =>
      State(s.subs[s.nextID := Sub(prefix, [], [], true)], s.registered + {s.nextID}, s.nextID + 1, s.closed)
    case Publish(e, now) => Dispatched(s, Stamp(e, now))
    case Receive(id) =>
      if id in s.subs then s.(subs := s.subs[id := Taken(s.subs[id])]) else s
    case CloseSub(id) =>
      if id in s.registered && id in s.subs then
        s.(subs := s.subs[id := s.subs[id].(open := false)], registered := s.registered - {id})
      else
        s
    case CloseHub =>
      if s.closed then
        s
      else
        State(ClosedFor(s.subs, s.registered), {}, s.nextID, true)
  }

  // ----- The hub as the program keeps it

  class Subscription {
    const id: nat
    const prefix: Str
    var buffer: seq<Event>
    var open: bool
    ghost var received: seq<Event>

    constructor (id: nat, prefix: Str)
      ensures this.id == id && this.prefix == prefix && buffer == [] && open && received == []
    {
      this.id, this.prefix := id, prefix;
      buffer, open, received := [], true, [];
    }

    ghost function Value(): Sub
      reads this
    {
      Sub(prefix, buffer, received, open)
    }

    /** A non-blocking send; sending on a closed channel would panic. */
    method TrySend(e: Event) returns (sent: bool)
      requires open
      modifies this`buffer
      ensures sent == (|old(buffer)| < SUB_BUFFER)
      ensures buffer == if sent then old(buffer) + [e] else old(buffer)
    {
      sent := |buffer| < SUB_BUFFER;
      if sent {
        buffer := buffer + [e];
      }
    }

    /** A receive from a channel that may be empty. */
    method TakeNext() returns (e: Option<Event>)
      modifies this`buffer, this`received
      ensures e == if old(buffer) == [] then None else Some(old(buffer)[0])
      ensures Value() == Taken(old(Value()))
    {
      e := None;
      if buffer != [] {
        e := Some(buffer[0]);
        received := received + [buffer[0]];
        buffer := buffer[1..];
      }
    }

    /** Closing a closed channel would panic. */
    method CloseChannel()
      requires open
      modifies this`open
      ensures !open
    {
      open := false;
    }
  }

  class Hub {
    var subs: map<nat, Subscription>
    var nextID: nat
    var closed: bool
    ghost var all: map<nat, Subscription>
    ghost var values: map<nat, Sub>

    /** Every subscription ever made, under its own id; the registered ones are exactly those with open channels. */
    ghost predicate Valid()
      reads this, all.Values
    {
      && (forall id: nat :: id in all <==> id < nextID)
      && Linked()
    }

    ghost predicate Linked()
      reads this, all.Values
    {
      && (forall id: nat :: id in all ==> all[id].id == id && (all[id].open <==> id in subs))
      && (forall id: nat :: id in subs ==> id in all && subs[id] == all[id])
      && (forall id: nat :: id in values <==> id in all)
      && (forall id: nat :: id in all ==> values[id] == all[id].Value())
    }

    ghost function Value(): State
      reads this
    {
      State(values, subs.Keys, nextID, closed)
    }

    constructor ()
      ensures Valid() && Value() == EMPTY
    {
      subs, nextID, closed := map[], 0, false;
      all, values := map[], map[];
    }

    method Subscribe(prefix: Str) returns (s: Subscription)
      requires Valid()
      modifies this
      ensures Valid() && fresh(s) && all == old(all)[old(nextID) := s] && s.id == old(nextID)
      ensures Value() == Step(old(Value()), Act.Subscribe(prefix))
    {
      var id := nextID;
      nextID := nextID + 1;
      s := new Subscription(id, prefix);
      Register(s);
    }

    method Register(s: Subscription)
      requires Linked() && nextID == s.id + 1 && s !in all.Values && s.Value() == Sub(s.prefix, [], [], true)
      requires forall id: nat :: id in all <==> id < s.id
      modifies this`subs, this`all, this`values
      ensures Valid() && all == old(all)[s.id := s]
      ensures subs.Keys == old(subs.Keys) + {s.id} && values == old(values)[s.id := s.Value()]
    {
      subs := subs[s.id := s];
      all, values := all[s.id := s], values[s.id := s.Value()];
    }

    method Publish(e: Event, now: int)
      requires Valid()
      modifies this, all.Values
      ensures Valid() && all == old(all)
      ensures Value() == Step(old(Value()), Act.Publish(e, now))
    {
      var stamped := e;
      if stamped.time == 0 {
        stamped := stamped.(time := now);
      }
      Dispatch(stamped);
      assert stamped == Stamp(e, now);
    }

    /** Delivery to every registered subscription in any order, the full ones deleted on the way. */
    method Dispatch(e: Event)
      requires Valid()
      modifies this`subs, this`values, all.Values
      ensures Valid() && all == old(all)
      ensures Value() == Dispatched(old(Value()), e)
    {
      ghost var registered := subs.Keys;
      OfferAll(e);
      DroppedAreClosed(registered);
    }

    method OfferAll(e: Event)
      requires Valid()
      modifies this`subs, this`values, all.Values
      ensures Valid() && all == old(all) && subs.Keys <= old(subs.Keys)
      ensures values == OfferedTo(old(values), old(subs.Keys), e)
    {
      ghost var before, registered := values, subs.Keys;
      var todo := subs.Keys;
      NothingDone(before, registered, e);
      while todo != {}
        invariant todo <= subs.Keys <= registered && Valid() && all == old(all)
        invariant values == OfferedTo(before, registered - todo, e)
        decreases |todo|
      {
        var id :| id in todo;
        OfferNext(id, e, before, registered, todo);
        todo := todo - {id};
      }
    }

    lemma DroppedAreClosed(registered: set<nat>)
      requires Valid() && subs.Keys <= registered
      ensures subs.Keys == set id | id in registered && id in values && values[id].open
    {
    }

    /** One subscription's turn: a matching event is queued, or the full subscription dropped. */
    method Offer(id: nat, e: Event)
      requires Valid() && id in subs
      modifies this`subs, this`values, subs[id]
      ensures Valid() && all == old(all)
      ensures values == old(values)[id := Offered(old(values)[id], e)]
      ensures subs.Keys <= old(subs.Keys) <= subs.Keys + {id}
    {
      var s := subs[id];
      if s.prefix <= e.key {
        var sent := s.TrySend(e);
        if sent {
          values := values[id := s.Value()];
        } else {
          Drop(id);
        }
      }
    }

    method OfferNext(id: nat, e: Event, ghost before: map<nat, Sub>, ghost registered: set<nat>, ghost todo: set<nat>)
      requires Valid() && id in todo && todo <= subs.Keys && id in registered && id in before
      requires values == OfferedTo(before, registered - todo, e)
      modifies this`subs, this`values, all.Values
      ensures Valid() && all == old(all)
      ensures values == OfferedTo(before, registered - (todo - {id}), e)
      ensures subs.Keys <= old(subs.Keys) <= subs.Keys + {id}
    {
      Offer(id, e);
      OfferedNext(before, registered - todo, id, e);
      assert registered - (todo - {id}) == registered - todo + {id};
    }

    method DropNext(id: nat, ghost before: map<nat, Sub>, ghost registered: set<nat>)
      requires Valid() && id in subs && id in registered && id in before
      requires values == ClosedFor(before, registered - subs.Keys)
      modifies this`subs, this`values, all.Values
      ensures Valid() && all == old(all)
      ensures values == ClosedFor(before, registered - subs.Keys)
      ensures subs.Keys == old(subs.Keys) - {id}
    {
      ClosedNext(before, registered - subs.Keys, id);
      assert registered - (subs.Keys - {id}) == registered - subs.Keys + {id};
      Drop(id);
    }

    method CloseSubscription(s: Subscription)
      requires Valid() && s.id in all && all[s.id] == s
      modifies this, s
      ensures Valid() && all == old(all)
      ensures Value() == Step(old(Value()), CloseSub(s.id))
    {
      if s.id in subs {
        Drop(s.id);
      }
    }

    method Close()
      requires Valid()
      modifies this`subs, this`values, this`closed, all.Values
      ensures Valid() && all == old(all)
      ensures Value() == Step(old(Value()), CloseHub)
    {
      if closed {
        return;
      }
      closed := true;
      DropAll();
    }

    method DropAll()
      requires Valid()
      modifies this`subs, this`values, all.Values
      ensures Valid() && all == old(all)
      ensures subs.Keys == {} && values == ClosedFor(old(values), old(subs.Keys))
    {
      ghost var before, registered := values, subs.Keys;
      NothingDone(before, registered, Event([], OpPut, [], [], 0));
      while subs.Keys != {}
        invariant subs.Keys <= registered && Valid() && all == old(all)
        invariant values == ClosedFor(before, registered - subs.Keys)
        decreases |subs.Keys|
      {
        var id :| id in subs.Keys;
        DropNext(id, before, registered);
      }
    }

    /** Deletes a subscription and closes its channel. */
    method Drop(id: nat)
      requires Valid() && id in subs
      modifies this`subs, this`values, subs[id]
      ensures Valid() && all == old(all) && subs.Keys == old(subs.Keys) - {id}
      ensures values == old(values)[id := old(values)[id].(open := false)]
    {
      var s := subs[id];
      subs := subs - {id};
      s.CloseChannel();
      values := values[id := s.Value()];
    }

    /** A reader takes the next queued event; a closed channel still drains. */
    method Take(s: Subscription) returns (e: Option<Event>)
      requires Valid() && s.id in all && all[s.id] == s
      modifies this`values, s`buffer, s`received
      ensures Valid()
      ensures Value() == Step(old(Value()), Receive(s.id))
      ensures e == if old(s.buffer) == [] then None else Some(old(s.buffer)[0])
      ensures s.buffer == if e.None? then [] else old(s.buffer)[1..]
      ensures s.received == old(s.received) + if e.None? then [] else [e.value]
    {
      e := s.TakeNext();
      values := values[s.id := s.Value()];
    }
  }

  // ----- Behaviours of the hub

  ghost predicate Behaviour(states: seq<State>, acts: seq<Act>) {
    && |states| == |acts| + 1
    && states[0] == EMPTY
    && forall i :: 0 <= i < |acts| ==> states[i + 1] == Step(states[i], acts[i])
  }

  /** Ids are handed out in order and never again; a channel is open exactly while its id is registered. */
  ghost predicate Sound(s: State) {
    && (forall id: nat :: id in s.subs <==> id < s.nextID)
    && (forall id: nat :: id in s.registered ==> id in s.subs)
    && (forall id: nat :: id in s.subs ==> (s.subs[id].open <==> id in s.registered))
    && (forall id: nat :: id in s.subs ==> |s.subs[id].buffer| <= 256)
  }

  lemma StepKeepsSound(s: State, a: Act)
    requires Sound(s)
    ensures Sound(Step(s, a))
  {
  }

  lemma {:induction false} AlwaysSound(states: seq<State>, acts: seq<Act>, n: nat)
    requires Behaviour(states, acts) && n < |states|
    ensures Sound(states[n])
  {
    if n > 0 {
      AlwaysSound(states, acts, n - 1);
      StepKeepsSound(states[n - 1], acts[n - 1]);
    }
  }

  function Subscribes(acts: seq<Act>): nat {
    if acts == [] then 0 else Subscribes(acts[..|acts| - 1]) + if acts[|acts| - 1].Subscribe? then 1 else 0
  }

  lemma StepCounts(s: State, a: Act)
    ensures Step(s, a).nextID == s.nextID + if a.Subscribe? then 1 else 0
    ensures Step(s, a).closed <==> s.closed || a == CloseHub
  {
  }

  lemma ActsGrow(acts: seq<Act>, n: nat)
    requires 0 < n <= |acts|
    ensures acts[..n][..n - 1] == acts[..n - 1] && acts[..n][n - 1] == acts[n - 1]
    ensures CloseHub in acts[..n] <==> CloseHub in acts[..n - 1] || acts[n - 1] == CloseHub
  {
    assert acts[..n] == acts[..n - 1] + [acts[n - 1]];
  }

  /** Every Subscribe made one more subscription, on a closed hub too, and the first close closes the hub. */
  lemma {:induction false} CountsAndCloses(states: seq<State>, acts: seq<Act>, n: nat)
    requires Behaviour(states, acts) && n < |states|
    ensures states[n].nextID == Subscribes(acts[..n])
    ensures states[n].closed <==> CloseHub in acts[..n]
  {
    if n > 0 {
      CountsAndCloses(states, acts, n - 1);
      StepCounts(states[n - 1], acts[n - 1]);
      ActsGrow(acts, n);
    } else {
      assert acts[..0] == [];
    }
  }

  /** The events a subscriber to prefix could see of a run of acts, in order and stamped. */
  function Matching(prefix: Str, acts: seq<Act>): seq<Event> {
    if acts == [] then
      []
    else
      var a := acts[|acts| - 1];
      Matching(prefix, acts[..|acts| - 1])
        + if a.Publish? && prefix <= a.e.key then [if a.e.time == 0 then a.e.(time := a.now) else a.e] else []
  }

  /** The act that closes a subscription: its own close, the hub's first, or a matching event with the buffer full. */
  predicate Ends(s: State, a: Act, id: nat)
    requires id in s.subs
  {
    match a
    case CloseSub(x) => x == id
    case CloseHub => !s.closed
    case Publish(e, _) => s.subs[id].prefix <= e.key && |s.subs[id].buffer| == 256
    case _ => false
  }

  /** What one subscription has taken and has queued, in order. */
  function Stream(sub: Sub): seq<Event> {
    sub.received + sub.buffer
  }

  lemma OpenStep(s: State, a: Act, id: nat)
    requires Sound(s) && id in s.subs && s.subs[id].open
    ensures id in Step(s, a).subs && Step(s, a).subs[id].prefix == s.subs[id].prefix
    ensures Step(s, a).subs[id].open <==> !Ends(s, a, id)
    ensures Stream(Step(s, a).subs[id]) ==
      Stream(s.subs[id]) + if Ends(s, a, id) then [] else Matching(s.subs[id].prefix, [a])
  {
    assert [a][..0] == [];
    match a {
      case Publish(e, now) => OfferedStream(s.subs[id], Stamp(e, now));
      case Receive(x) => ReceiveStream(s, x, id);
      case _ =>
    }
  }

  lemma OfferedStream(sub: Sub, e: Event)
    requires sub.open
    ensures Stream(Offered(sub, e)) == Stream(sub) + if Matches(sub, e) && !Full(sub) then [e] else []
    ensures Offered(sub, e).open <==> !(Matches(sub, e) && Full(sub))
  {
  }

  /** Receiving moves one event from the queue to the reader, or nothing. */
  lemma ReceiveStream(s: State, x: nat, id: nat)
    requires id in s.subs
    ensures var s' := Step(s, Receive(x));
      id in s'.subs && Stream(s'.subs[id]) == Stream(s.subs[id]) && s'.subs[id].open == s.subs[id].open &&
        s'.subs[id].prefix == s.subs[id].prefix
  {
    var sub := s.subs[id];
    if x == id && sub.buffer != [] {
      assert sub.buffer == [sub.buffer[0]] + sub.buffer[1..];
    }
  }

  /** Once closed, a channel only drains. */
  lemma ClosedStep(s: State, a: Act, id: nat)
    requires Sound(s) && id in s.subs && !s.subs[id].open
    ensures id in Step(s, a).subs && Step(s, a).subs[id].prefix == s.subs[id].prefix
    ensures !Step(s, a).subs[id].open && Stream(Step(s, a).subs[id]) == Stream(s.subs[id])
  {
    if a.Receive? {
      ReceiveStream(s, a.id, id);
    }
  }

  lemma MatchingSplit(prefix: Str, acts: seq<Act>, a: Act)
    ensures Matching(prefix, acts + [a]) == Matching(prefix, acts) + Matching(prefix, [a])
  {
    assert (acts + [a])[..|acts|] == acts && [a][..0] == [];
  }

  /**
   The history of subscription id at moment n: made by act `born`, it has received and queued exactly the matching
   events published since, cut at act `end` if that closed it; its channel was open up to there and not after.
   */
  ghost predicate Traced(states: seq<State>, acts: seq<Act>, n: nat, id: nat, born: nat, end: nat)
    requires Behaviour(states, acts) && n < |states|
  {
    && id in states[n].subs
    && var sub := states[n].subs[id];
    && born < end <= n && acts[born] == Act.Subscribe(sub.prefix) && states[born].nextID == id
    && Stream(sub) == Matching(sub.prefix, acts[born + 1..end])
    && (sub.open <==> end == n)
    && (end < n ==> EndedBy(states[end], acts[end], id))
    && OpenSpan(states, n, id, born, end)
  }

  predicate EndedBy(s: State, a: Act, id: nat) {
    id in s.subs && s.subs[id].open && Ends(s, a, id)
  }

  ghost predicate OpenSpan(states: seq<State>, n: nat, id: nat, born: nat, end: nat)
    requires n < |states|
  {
    forall k :: born < k <= n ==> id in states[k].subs && (states[k].subs[id].open <==> k <= end)
  }

  lemma SpanExtends(states: seq<State>, n: nat, id: nat, born: nat, end: nat, end': nat)
    requires n + 1 < |states| && OpenSpan(states, n, id, born, end)
    requires id in states[n + 1].subs && (states[n + 1].subs[id].open <==> n + 1 <= end')
    requires end' == end || (end == n && end' == n + 1)
    ensures OpenSpan(states, n + 1, id, born, end')
  {
  }

  lemma ClosedExtends(states: seq<State>, acts: seq<Act>, n: nat, id: nat, born: nat, end: nat)
    requires Behaviour(states, acts) && n + 1 < |states| && Sound(states[n])
    requires Traced(states, acts, n, id, born, end) && end < n
    ensures Traced(states, acts, n + 1, id, born, end)
  {
    ClosedStep(states[n], acts[n], id);
    SpanExtends(states, n, id, born, end, end);
  }

  lemma OpenExtends(states: seq<State>, acts: seq<Act>, n: nat, id: nat, born: nat)
    requires Behaviour(states, acts) && n + 1 < |states| && Sound(states[n])
    requires Traced(states, acts, n, id, born, n)
    ensures Traced(states, acts, n + 1, id, born, if Ends(states[n], acts[n], id) then n else n + 1)
  {
    var s, a := states[n], acts[n];
    OpenStep(s, a, id);
    SpanExtends(states, n, id, born, n, if Ends(s, a, id) then n else n + 1);
    assert acts[born + 1..n + 1] == acts[born + 1..n] + [a];
    MatchingSplit(s.subs[id].prefix, acts[born + 1..n], a);
  }

  lemma TraceExtends(states: seq<State>, acts: seq<Act>, n: nat, id: nat, born: nat, end: nat)
    requires Behaviour(states, acts) && n + 1 < |states| && Sound(states[n])
    requires Traced(states, acts, n, id, born, end)
    ensures Traced(states, acts, n + 1, id, born, if end == n && !Ends(states[n], acts[n], id) then n + 1 else end)
  {
    if end < n {
      ClosedExtends(states, acts, n, id, born, end);
    } else {
      OpenExtends(states, acts, n, id, born);
    }
  }

  lemma TraceBegins(states: seq<State>, acts: seq<Act>, n: nat, id: nat)
    requires Behaviour(states, acts) && n + 1 < |states|
    requires states[n].nextID == id && states[n + 1].nextID != id
    ensures Traced(states, acts, n + 1, id, n, n + 1)
  {
    assert acts[n + 1..n + 1] == [];
  }

  /** At every moment of every behaviour, every subscription ever made has such a history. */
  lemma {:induction false} SubscriptionTrace(states: seq<State>, acts: seq<Act>, n: nat, id: nat)
    returns (born: nat, end: nat)
    requires Behaviour(states, acts) && n < |states| && id < states[n].nextID
    ensures Traced(states, acts, n, id, born, end)
  {
    AlwaysSound(states, acts, n - 1);
    if id == states[n - 1].nextID {
      TraceBegins(states, acts, n - 1, id);
      born, end := n - 1, n;
    } else {
      born, end := SubscriptionTrace(states, acts, n - 1, id);
      TraceExtends(states, acts, n - 1, id, born, end);
      end := if end == n - 1 && !Ends(states[n - 1], acts[n - 1], id) then n else end;
    }
  }
}
