/**
 A streamed Put over the in-memory store: a goroutine receives client messages and writes them into a pipe, the backend
 reads the pipe to its end and commits, and other requests go on meanwhile. Every interleaving is a behaviour.
 */
module Upload {
  import opened Strings
  import opened Store
  import H = Hub

  /** A message after the header: data, or something that carries none. */
  datatype Message = DataMessage(bytes: Str) | OtherMessage

  /** How the client's side ends after its last message. */
  datatype ClientEnd = CleanClose | BrokenStream(what: nat)

  datatype Request = Request(key: Str, opts: PutOptions, messages: seq<Message>, end: ClientEnd)

  datatype Producer = Receiving | Writing(left: Str) | Stopped

  datatype PipeEnd = PipeEOF | PipeError(what: nat)

  /** The backend's read loop and what follows it. */
  datatype Consumer =
    | Reading(got: Str)
    | AtEOF(body: Str)
    | ReadBroken
    | Stored_(etag: Str)   // committed, its event not yet published
    | Told(etag: Str)      // published, the client not yet answered
    | Answered(how: Answer)

  /** An acknowledgement may fail to reach the client after everything is done. */
  datatype Answer = Acknowledged | Unheard | Failed

  datatype State = State(
    received: nat,               // messages taken from the client
    producer: Producer,
    writerClosed: Option<PipeEnd>,
    consumer: Consumer,
    store: Objects,
    published: seq<H.Event>)     // this upload's events

  datatype Action =
    | Receive                    // stream.Recv by the goroutine
    | Transfer(n: nat)           // a pipe read meets the blocked pipe write
    | SeeEnd                     // a pipe read finds the writer closed
    | Commit(now: Time)          // the store's critical section
    | GiveUp                     // the read error is returned
    | Publish
    | Answer_(heard: bool)       // SendAndClose
    | Others(store: Objects)     // requests of other clients

  function PutEvent(key: Str, etag: Str): H.Event {
    H.Event(key, H.OpPut, etag, [], 0)
  }

  function DataOf(messages: seq<Message>): Str {
    if messages == [] then
      []
    else
      DataOf(messages[..|messages| - 1]) + match messages[|messages| - 1]
        case DataMessage(bytes) => bytes
        case OtherMessage => []
  }

  function Next(digest: Str -> Str, req: Request, s: State, a: Action): Option<State> {
    match a
    case Receive =>
      if !s.producer.Receiving? then None
      else if s.received < |req.messages| then
        var taken := s.(received := s.received + 1);
        match req.messages[s.received]
        case DataMessage(bytes) => Some(if bytes == [] then taken else taken.(producer := Writing(bytes)))
        case OtherMessage => Some(taken)
      else
        Some(s.(producer := Stopped,
          writerClosed := Some(if req.end.CleanClose? then PipeEOF else PipeError(req.end.what))))
    case Transfer(n) =>
      if s.producer.Writing? && s.consumer.Reading? && 0 < n <= |s.producer.left| then
        Some(s.(consumer := Reading(s.consumer.got + s.producer.left[..n]),
                producer := if n == |s.producer.left| then Receiving else Writing(s.producer.left[n..])))
      else
        None
    case SeeEnd =>
      if s.consumer.Reading? && s.writerClosed.Some?
      then Some(s.(consumer := if s.writerClosed.value.PipeEOF? then AtEOF(s.consumer.got) else ReadBroken)) else None
    case Commit(now) =>
      if s.consumer.AtEOF? then
        var (store, reply) := Put(digest, s.store, req.key, Some(s.consumer.body), req.opts, now);
        Some(s.(store := store, consumer := if reply.Stored? then Stored_(reply.etag) else Answered(Failed)))
      else
        None
    case GiveUp => if s.consumer.ReadBroken? then Some(s.(consumer := Answered(Failed))) else None
    case Publish =>
      if s.consumer.Stored_?
      then
        Some(s.(consumer := Told(s.consumer.etag), published := s.published + [PutEvent(req.key, s.consumer.etag)]))
      else
        None
    case Answer_(heard) =>
      if s.consumer.Told? then Some(s.(consumer := Answered(if heard then Acknowledged else Unheard))) else None
    case Others(store) => Some(s.(store := store))
  }

  function Start(store: Objects): State {
    State(0, Receiving, None, Reading([]), store, [])
  }

  ghost predicate Behaviour(digest: Str -> Str, req: Request, states: seq<State>, actions: seq<Action>) {
    && |states| == |actions| + 1
    && states[0] == Start(states[0].store)
    && forall i :: 0 <= i < |actions| ==> Next(digest, req, states[i], actions[i]) == Some(states[i + 1])
  }

  /** What the producer still holds of the messages it has taken. */
  function InHand(p: Producer): Str {
    if p.Writing? then p.left else []
  }

  /** No byte is lost, repeated or reordered, and the end is announced only behind the last of them. */
  predicate Faithful(digest: Str -> Str, req: Request, s: State) {
    && s.received <= |req.messages|
    && (s.producer.Writing? ==> s.producer.left != [])
    && (s.producer.Stopped? <==> s.writerClosed.Some?)
    && (s.writerClosed.Some? ==>
      s.received == |req.messages| && (s.writerClosed.value.PipeEOF? <==> req.end.CleanClose?))
    && match s.consumer
       case Reading(got) => got + InHand(s.producer) == DataOf(req.messages[..s.received]) && s.published == []
       case AtEOF(body) =>
         s.writerClosed.Some? && req.end.CleanClose? && body == DataOf(req.messages) && s.published == []
       case ReadBroken => s.writerClosed.Some? && !req.end.CleanClose? && s.published == []
       case Stored_(etag) => req.end.CleanClose? && etag == EtagOf(digest, DataOf(req.messages)) && s.published == []
       case Told(etag) =>
         req.end.CleanClose? && s.published == [PutEvent(req.key, EtagOf(digest, DataOf(req.messages)))]
       case Answered(how) =>
         if how.Failed? then s.published == []
         else req.end.CleanClose? && s.published == [PutEvent(req.key, EtagOf(digest, DataOf(req.messages)))]
  }

  lemma StepIsFaithful(digest: Str -> Str, req: Request, s: State, a: Action)
    requires Faithful(digest, req, s) && Next(digest, req, s, a).Some?
    ensures Faithful(digest, req, Next(digest, req, s, a).value)
  {
    match a {
      case Receive =>
        if s.received < |req.messages| {
          var m := req.messages[..s.received + 1];
          assert m[..|m| - 1] == req.messages[..s.received];
          assert DataOf(req.messages[..s.received]) + [] == DataOf(req.messages[..s.received]);
        }
      case Transfer(n) =>
        var got, left := s.consumer.got, s.producer.left;
        assert got + left == got + left[..n] + left[n..];
        if n == |left| { assert left[..n] == left; }
      case SeeEnd => assert req.messages[..|req.messages|] == req.messages;
      case _ =>
    }
  }

  lemma {:induction false} AlwaysFaithful(digest: Str -> Str, req: Request, states: seq<State>, actions: seq<Action>,
                                          n: nat)
    requires Behaviour(digest, req, states, actions) && n < |states|
    ensures Faithful(digest, req, states[n])
  {
    if n > 0 {
      AlwaysFaithful(digest, req, states, actions, n - 1);
      assert Next(digest, req, states[n - 1], actions[n - 1]) == Some(states[n]);
      StepIsFaithful(digest, req, states[n - 1], actions[n - 1]);
    } else {
      assert req.messages[..0] == [];
    }
  }

  /**
   In every interleaving: the backend has read a prefix of the frames in order; only a commit changes the store on this
   upload's behalf, and it puts exactly all the frames; a broken upload never commits.
   */
  lemma UploadStep(digest: Str -> Str, req: Request, states: seq<State>, actions: seq<Action>, n: nat)
    requires Behaviour(digest, req, states, actions) && n < |actions|
    ensures states[n].consumer.Reading? ==> states[n].consumer.got <= DataOf(req.messages)
    ensures !actions[n].Commit? && !actions[n].Others? ==> states[n + 1].store == states[n].store
    ensures actions[n].Commit? ==> req.end.CleanClose?
    ensures actions[n].Commit? ==>
      states[n + 1].store ==
        Put(digest, states[n].store, req.key, Some(DataOf(req.messages)), req.opts, actions[n].now).0
  {
    AlwaysFaithful(digest, req, states, actions, n);
    assert Next(digest, req, states[n], actions[n]) == Some(states[n + 1]);
    if states[n].consumer.Reading? {
      PrefixOfData(req.messages, states[n].received);
    }
  }

  lemma {:induction false} PrefixOfData(messages: seq<Message>, n: nat)
    requires n <= |messages|
    ensures DataOf(messages[..n]) <= DataOf(messages)
    decreases |messages|
  {
    if n < |messages| {
      var init := messages[..|messages| - 1];
      PrefixOfData(init, n);
      assert init[..n] == messages[..n];
    } else {
      assert messages[..n] == messages;
    }
  }

  /** How many of these actions are commits. */
  function Commits(actions: seq<Action>): nat {
    if actions == [] then 0 else Commits(actions[..|actions| - 1]) + if actions[|actions| - 1].Commit? then 1 else 0
  }

  /** Past its commit. */
  predicate Decided(c: Consumer) {
    c.Stored_? || c.Told? || c.Answered?
  }

  /** Past a commit that stored the object. */
  predicate Accepted(c: Consumer) {
    c.Stored_? || c.Told? || (c.Answered? && !c.how.Failed?)
  }

  lemma {:induction false} CommitsOnce(digest: Str -> Str, req: Request, states: seq<State>, actions: seq<Action>,
                                       n: nat)
    requires Behaviour(digest, req, states, actions) && n < |states|
    ensures Commits(actions[..n]) <= 1
    ensures Commits(actions[..n]) == 1 ==> req.end.CleanClose? && Decided(states[n].consumer)
    ensures Accepted(states[n].consumer) ==> Commits(actions[..n]) == 1
  {
    if n > 0 {
      CommitsOnce(digest, req, states, actions, n - 1);
      AlwaysFaithful(digest, req, states, actions, n - 1);
      assert Next(digest, req, states[n - 1], actions[n - 1]) == Some(states[n]);
      assert actions[..n][..n - 1] == actions[..n - 1];
    }
  }

  /** A commit is accepted exactly when the conditions hold at that moment; refused, it leaves the store alone. */
  lemma CommitDecides(digest: Str -> Str, req: Request, states: seq<State>, actions: seq<Action>, n: nat)
    requires Behaviour(digest, req, states, actions) && n < |actions| && actions[n].Commit?
    ensures var (m, key, opts) := (states[n].store, req.key, req.opts);
      var refused := (opts.ifNoneMatch == [42] && key in m) ||
        (opts.ifMatch != [] && (key in m ==> m[key].info.etag != opts.ifMatch));
      if refused then states[n + 1].consumer == Answered(Failed) && states[n + 1].store == m
      else states[n + 1].consumer.Stored_? && Stores(digest, req, states[n + 1], actions[n].now)
  {
    AlwaysFaithful(digest, req, states, actions, n);
    assert Next(digest, req, states[n], actions[n]) == Some(states[n + 1]);
  }

  /** Only a broken upload is answered without a commit: one that was closed cleanly is always put to the store. */
  lemma {:induction false} AnsweredAfterCommit(digest: Str -> Str, req: Request, states: seq<State>,
                                               actions: seq<Action>, n: nat)
    requires Behaviour(digest, req, states, actions) && n < |states| && Decided(states[n].consumer)
    ensures Commits(actions[..n]) == if req.end.CleanClose? then 1 else 0
  {
    assert n > 0;
    var s, a := states[n - 1], actions[n - 1];
    assert Next(digest, req, s, a) == Some(states[n]);
    assert actions[..n][..n - 1] == actions[..n - 1];
    AlwaysFaithful(digest, req, states, actions, n - 1);
    CommitsOnce(digest, req, states, actions, n);
    CommitsOnce(digest, req, states, actions, n - 1);
    if Decided(s.consumer) { AnsweredAfterCommit(digest, req, states, actions, n - 1); }
  }

  /** The object as the commit at act c left it: exactly the frames, under the request's key. */
  predicate Stores(digest: Str -> Str, req: Request, s: State, now: Time) {
    var data := DataOf(req.messages);
    req.key in s.store &&
      s.store[req.key] == Object(data, Info(req.key, [34] + digest(data) + [34], |data|, now, req.opts.attrs))
  }

  /** An accepted upload has one commit behind it, and that stored the frames and nothing else. */
  lemma {:induction false} AcceptedHasStored(digest: Str -> Str, req: Request, states: seq<State>, actions: seq<Action>,
                                             n: nat)
    returns (c: nat)
    requires Behaviour(digest, req, states, actions) && n < |states| && Accepted(states[n].consumer)
    ensures c < n && actions[c].Commit? && Stores(digest, req, states[c + 1], actions[c].now)
    ensures states[c + 1].store - {req.key} == states[c].store - {req.key}
  {
    assert n > 0;
    var s, a := states[n - 1], actions[n - 1];
    assert Next(digest, req, s, a) == Some(states[n]);
    if Accepted(s.consumer) {
      c := AcceptedHasStored(digest, req, states, actions, n - 1);
    } else {
      AlwaysFaithful(digest, req, states, actions, n - 1);
      c := n - 1;
    }
  }

  /**
   A broken upload commits nothing and publishes nothing. What was stored is exactly the frames; the one event, of the
   key and their validator, is out before the client is answered, and stays out when the answer does not reach it. A
   failed upload has published nothing.
   */
  lemma UploadAtomicity(digest: Str -> Str, req: Request, states: seq<State>, actions: seq<Action>, n: nat)
    requires Behaviour(digest, req, states, actions) && n < |states|
    ensures !req.end.CleanClose? ==> Commits(actions[..n]) == 0 && states[n].published == []
    ensures Accepted(states[n].consumer) ==> Commits(actions[..n]) == 1
    ensures Accepted(states[n].consumer) ==>
      exists c :: 0 <= c < n && actions[c].Commit? && Stores(digest, req, states[c + 1], actions[c].now)
    ensures states[n].published ==
      if Accepted(states[n].consumer) && !states[n].consumer.Stored_?
        then [H.Event(req.key, H.OpPut, [34] + digest(DataOf(req.messages)) + [34], [], 0)]
      else []
  {
    AlwaysFaithful(digest, req, states, actions, n);
    CommitsOnce(digest, req, states, actions, n);
    if Accepted(states[n].consumer) {
      var c := AcceptedHasStored(digest, req, states, actions, n);
    }
  }

  /** Neither side can block the other for ever: until the upload is answered, one of its own steps can be taken. */
  lemma NeverStuck(digest: Str -> Str, req: Request, states: seq<State>, actions: seq<Action>, n: nat)
    returns (a: Action)
    requires Behaviour(digest, req, states, actions) && n < |states| && !states[n].consumer.Answered?
    ensures !a.Others? && Next(digest, req, states[n], a).Some?
  {
    AlwaysFaithful(digest, req, states, actions, n);
    var s := states[n];
    a :=
      if s.consumer.AtEOF? then Commit(0)
      else if s.consumer.ReadBroken? then GiveUp
      else if s.consumer.Stored_? then Publish
      else if s.consumer.Told? then Answer_(true)
      else if s.producer.Writing? then Transfer(1)
      else if s.producer.Receiving? then Receive
      else SeeEnd;
  }
}
