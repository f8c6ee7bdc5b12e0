/** The guard of one bound call: which dials it permits, what it remembers of them, and what it scrubs. */
module Guard {
  import opened Strings
  import opened Egress
  import opened Redact

  datatype AddrPort = AddrPort(addr: Addr, port: nat)

  /** A bare http(s) origin, as the URL guard normalises it. */
  datatype Origin = Origin(host: Str, hostPort: Str, port: nat)

  /**
   The composed authority and the addresses it may be reached at; no authority, nothing beyond the public-only rule.
   */
  datatype Admission = Admission(authority: Str, addresses: seq<AddrPort>)

  datatype Qualified = Admitted(admission: Admission) | NotAnOrigin | Unresolved | NonPublic

  // ----- Qualify

  /** The literal the host is, or what the resolver answers now. */
  function Candidates(literal: Option<Addr>, resolved: Option<seq<Addr>>): Option<seq<Addr>> {
    if literal.Some? then Some([literal.value]) else resolved
  }

  /** May this endpoint resolve to this address? */
  predicate Acceptable(rules: Rules, composed: bool, a: Addr) {
    if composed then !Scoped(Unmap(a)) else IsPublic(rules, a)
  }

  /**
   Of the all-zero addresses a composed endpoint may resolve to exactly those with a zone, and any other endpoint to
   none.
   */
  lemma ZeroAcceptable(rules: Rules, composed: bool, a: Addr)
    requires Proper(a) && AllZero(Unmap(a))
    ensures Acceptable(rules, composed, a) <==> composed && Zoned(Unmap(a))
  {
    UnspecifiedExactly(Unmap(a));
  }

  method Qualify(rules: Rules, endpoint: Option<Origin>, literal: Option<Addr>, resolved: Option<seq<Addr>>,
                 composed: set<Str>)
    returns (r: Qualified)
    ensures r.NotAnOrigin? <==> endpoint.None?
    ensures r.Unresolved? <==> endpoint.Some? && Candidates(literal, resolved).None?
    ensures r.NonPublic? <==>
      && endpoint.Some? && Candidates(literal, resolved).Some?
      && exists a ::
        a in Candidates(literal, resolved).value && !Acceptable(rules, endpoint.value.hostPort in composed, a)
    ensures r.Admitted? && endpoint.value.hostPort !in composed ==> r.admission == Admission([], [])
    ensures r.Admitted? && endpoint.value.hostPort in composed ==>
      var addresses := Candidates(literal, resolved).value;
      && r.admission.authority == endpoint.value.hostPort
      && |r.admission.addresses| == |addresses|
      && forall i :: 0 <= i < |addresses| ==>
        r.admission.addresses[i] == AddrPort(Unmap(addresses[i]), endpoint.value.port % 0x10000)
    ensures r.Admitted? ==> NothingScoped(r.admission)
  {
    if endpoint.None? {
      return NotAnOrigin;
    }
    var origin, addresses := endpoint.value, [];
    if literal.Some? {
      addresses := [literal.value];
    } else if resolved.None? {
      return Unresolved;
    } else {
      addresses := resolved.value;
    }
    if origin.hostPort in composed {
      var admission := Admission(origin.hostPort, []);
      for i := 0 to |addresses|
        invariant admission.authority == origin.hostPort && |admission.addresses| == i
        invariant forall j :: 0 <= j < i ==> Acceptable(rules, true, addresses[j])
        invariant forall j :: 0 <= j < i ==>
          admission.addresses[j] == AddrPort(Unmap(addresses[j]), origin.port % 0x10000)
      {
        var address := Unmap(addresses[i]);
        if Scoped(address) {
          assert !Acceptable(rules, true, addresses[i]);
          return NonPublic;
        }
        admission := admission.(addresses := admission.addresses + [AddrPort(address, origin.port % 0x10000)]);
      }
      return Admitted(admission);
    }
    for i := 0 to |addresses|
      invariant forall j :: 0 <= j < i ==> Acceptable(rules, false, addresses[j])
    {
      var public := CheckPublic(rules, addresses[i]);
      if !public {
        assert !Acceptable(rules, false, addresses[i]);
        return NonPublic;
      }
    }
    return Admitted(Admission([], []));
  }

  predicate NothingScoped(admission: Admission) {
    forall i :: 0 <= i < |admission.addresses| ==> !Scoped(admission.addresses[i].addr)
  }

  // ----- The judgement on one address about to be connected to

  /** How the texts of authorities and addresses are read; reading may fail. */
  datatype Texts = Texts(canonical: Str -> Str, host: Str -> Option<Addr>, addrPort: Str -> Option<AddrPort>)

  predicate Admits(texts: Texts, admission: Admission, address: Str) {
    var target := texts.addrPort(address);
    target.Some? && AddrPort(Unmap(target.value.addr), target.value.port) in admission.addresses
  }

  predicate Exception(texts: Texts, admission: Admission, authority: Str) {
    admission.authority != [] && texts.canonical(authority) == admission.authority
  }

  predicate PublicText(rules: Rules, texts: Texts, address: Str) {
    texts.host(address).Some? && IsPublic(rules, texts.host(address).value)
  }

  predicate Permits(rules: Rules, texts: Texts, admission: Admission, authority: Str, address: Str) {
    (Exception(texts, admission, authority) && Admits(texts, admission, address)) || PublicText(rules, texts, address)
  }

  // ----- A dial

  /** One address a name resolved to at dial time, and whether a connection to it comes about. */
  datatype Answer = Answer(address: Str, connects: bool)

  datatype Attempt = Attempt(authority: Str, address: Str, permitted: bool)

  /** A dial tries the answers in order, up to the first that may be reached and connects. */
  predicate DialOf(authority: Str, answers: seq<Answer>, attempts: seq<Attempt>) {
    && |attempts| <= |answers|
    && (forall i :: 0 <= i < |attempts| ==>
      attempts[i].authority == authority && attempts[i].address == answers[i].address)
    && (forall i :: 0 <= i < |attempts| - 1 ==> !Connected(answers[i], attempts[i]))
    && (|attempts| < |answers| ==> attempts != [] && Connected(answers[|attempts| - 1], attempts[|attempts| - 1]))
  }

  predicate Connected(answer: Answer, attempt: Attempt) {
    attempt.permitted && answer.connects
  }

  predicate SomeRefused(log: seq<Attempt>) {
    exists i :: 0 <= i < |log| && !log[i].permitted
  }

  predicate AllJudged(rules: Rules, texts: Texts, admission: Admission, log: seq<Attempt>) {
    forall i :: 0 <= i < |log| ==>
      (log[i].permitted <==> Permits(rules, texts, admission, log[i].authority, log[i].address))
  }

  predicate Distinct(sent: seq<Str>) {
    [] !in sent && forall i, j :: 0 <= i < j < |sent| ==> sent[i] != sent[j]
  }

  lemma RefusalGrows(log: seq<Attempt>, a: Attempt)
    ensures SomeRefused(log + [a]) <==> SomeRefused(log) || !a.permitted
  {
    var grown := log + [a];
    assert forall i :: 0 <= i < |log| ==> grown[i] == log[i];
    assert grown[|log|] == a;
  }

  lemma JudgedGrows(rules: Rules, texts: Texts, admission: Admission, log: seq<Attempt>, a: Attempt)
    requires AllJudged(rules, texts, admission, log)
    requires a.permitted <==> Permits(rules, texts, admission, a.authority, a.address)
    ensures AllJudged(rules, texts, admission, log + [a])
  {
  }

  datatype Response = Response(status: nat, headers: seq<Str>, body: Str)

  const MAX_REDACTED_ERROR_BODY := 0x10_0000

  /** "Bearer " */
  const BEARER: Str := [66, 101, 97, 114, 101, 114, 32]

  function TrimBearer(authorization: Str): Str {
    if BEARER <= authorization then authorization[|BEARER|..] else authorization
  }

  /** Headers and error bodies without the credentials; a successful body is the caller's data. */
  predicate Scrubbed(from: Response, sent: seq<Str>, to: Response) {
    && to.status == from.status && |to.headers| == |from.headers|
    && (forall i :: 0 <= i < |to.headers| ==> to.headers[i] == Redacted(from.headers[i], sent))
    && to.body ==
      if from.status < 400 || sent == [] then from.body
      else Redacted(if |from.body| <= 0x10_0000 then from.body else from.body[..0x10_0000], sent)
  }

  /** So no credential that stands apart is in a header, nor in the body of an error. */
  lemma ScrubbedIsClean(from: Response, sent: seq<Str>, to: Response)
    requires Scrubbed(from, sent, to)
    ensures forall s :: s in sent && Apart(s) ==> !(exists i :: 0 <= i < |to.headers| && Contains(to.headers[i], s))
    ensures forall s :: s in sent && Apart(s) && from.status >= 400 ==> !Contains(to.body, s)
    ensures from.status < 400 ==> to.body == from.body
  {
    forall i | 0 <= i < |to.headers|
      ensures forall s :: s in sent && Apart(s) ==> !Contains(to.headers[i], s)
    {
      NothingLeaks(from.headers[i], sent);
    }
    if from.status >= 400 && sent != [] {
      NothingLeaks(if |from.body| <= 0x10_0000 then from.body else from.body[..0x10_0000], sent);
    }
  }

  class Guard {
    const rules: Rules
    const texts: Texts
    const admission: Admission
    var refused: bool
    var sent: seq<Str>
    /** Every attempt of the call so far. */
    ghost var log: seq<Attempt>

    ghost predicate Valid()
      reads this
    {
      && (refused <==> SomeRefused(log))
      && AllJudged(rules, texts, admission, log)
      && Distinct(sent)
    }

    constructor (rules: Rules, texts: Texts, admission: Admission)
      ensures Valid() && !refused && sent == [] && log == []
      ensures this.rules == rules && this.texts == texts && this.admission == admission
    {
      this.rules, this.texts, this.admission := rules, texts, admission;
      refused, sent, log := false, [], [];
    }

    method AdmitsAddress(address: Str) returns (ok: bool)
      ensures ok <==> Admits(texts, admission, address)
    {
      var parsed := texts.addrPort(address);
      if parsed.None? {
        return false;
      }
      var target := AddrPort(Unmap(parsed.value.addr), parsed.value.port);
      for i := 0 to |admission.addresses|
        invariant target !in admission.addresses[..i]
      {
        if target == admission.addresses[i] {
          return true;
        }
      }
      return false;
    }

    /** The Control hook of one dial: with the concrete address, right before connecting. */
    method Control(ghost authority: Str, exception: bool, address: Str) returns (ok: bool)
      requires Valid() && exception == Exception(texts, admission, authority)
      modifies this`refused, this`log
      ensures Valid()
      ensures ok <==> Permits(rules, texts, admission, authority, address)
      ensures log == old(log) + [Attempt(authority, address, ok)]
      ensures refused == (old(refused) || !ok)
    {
      ok := false;
      if exception {
        ok := AdmitsAddress(address);
      }
      if !ok {
        var parsed := texts.host(address);
        if parsed.Some? {
          ok := CheckPublic(rules, parsed.value);
        }
        if !ok {
          refused := true;
        }
      }
      RefusalGrows(log, Attempt(authority, address, ok));
      JudgedGrows(rules, texts, admission, log, Attempt(authority, address, ok));
      log := log + [Attempt(authority, address, ok)];
    }

    /** The exception belongs to the authority asked for, not to the name's addresses. */
    method Dial(authority: Str, answers: seq<Answer>) returns (conn: Option<Str>, ghost attempts: seq<Attempt>)
      requires Valid()
      modifies this`refused, this`log
      ensures Valid()
      ensures log == old(log) + attempts && DialOf(authority, answers, attempts)
      ensures refused == (old(refused) || SomeRefused(attempts))
      ensures conn ==
        if attempts != [] && Connected(answers[|attempts| - 1], attempts[|attempts| - 1])
          then Some(attempts[|attempts| - 1].address)
        else None
    {
      var exception := admission.authority != [] && texts.canonical(authority) == admission.authority;
      attempts := [];
      for i := 0 to |answers|
        invariant Valid()
        invariant |attempts| == i && log == old(log) + attempts
        invariant refused == (old(refused) || SomeRefused(attempts))
        invariant forall j :: 0 <= j < i ==>
          attempts[j].authority == authority && attempts[j].address == answers[j].address
        invariant forall j :: 0 <= j < i ==> !Connected(answers[j], attempts[j])
      {
        var ok := Control(authority, exception, answers[i].address);
        RefusalGrows(attempts, Attempt(authority, answers[i].address, ok));
        attempts := attempts + [Attempt(authority, answers[i].address, ok)];
        if ok && answers[i].connects {
          return Some(answers[i].address), attempts;
        }
      }
      return None, attempts;
    }

    /** Remember a credential that goes on the wire, with and without its scheme. */
    method Record(authorization: Str)
      requires Valid()
      modifies this`sent
      ensures Valid() && old(sent) <= sent
      ensures forall v :: v in sent <==>
        v in old(sent) || (v != [] && (v == authorization || v == TrimBearer(authorization)))
    {
      var values := [authorization, TrimBearer(authorization)];
      assert values[..2] == values && forall v :: v in values <==> v == authorization || v == TrimBearer(authorization);
      for i := 0 to 2
        invariant Valid() && old(sent) <= sent
        invariant forall v :: v in sent <==> v in old(sent) || (v != [] && v in values[..i])
      {
        if values[i] != [] && values[i] !in sent {
          sent := sent + [values[i]];
        }
        assert values[..i + 1] == values[..i] + [values[i]];
      }
    }

    method RoundTrip(trip: Trip) returns (response: Option<Response>, ghost attempts: seq<Attempt>)
      requires Valid()
      modifies this`refused, this`sent, this`log
      ensures Valid() && old(sent) <= sent
      ensures log == old(log) + attempts && DialOf(trip.authority, trip.answers, attempts)
      ensures AllJudged(rules, texts, admission, attempts)
      ensures refused == (old(refused) || SomeRefused(attempts))
      ensures forall v :: v in sent <==>
        v in old(sent) || (v != [] && (v == trip.authorization || v == TrimBearer(trip.authorization)))
      ensures response.Some? <==> attempts != [] && Connected(trip.answers[|attempts| - 1], attempts[|attempts| - 1])
      ensures response.Some? ==> Scrubbed(trip.response, sent, response.value)
    {
      if trip.authorization != [] {
        Record(trip.authorization);
      }
      var conn;
      conn, attempts := Dial(trip.authority, trip.answers);
      assert forall i :: 0 <= i < |attempts| ==> attempts[i] == log[|old(log)| + i];
      if conn.None? {
        return None, attempts;
      }
      var scrubbed := Scrub(trip.response);
      return Some(scrubbed), attempts;
    }

    /** What a response brings back of the credentials is removed: in every header, and in the body of an error. */
    method Scrub(response: Response) returns (r: Response)
      ensures Scrubbed(response, sent, r)
    {
      r := response;
      if sent == [] {
        return;
      }
      for i := 0 to |r.headers|
        invariant r.status == response.status && r.body == response.body && |r.headers| == |response.headers|
        invariant forall j :: 0 <= j < i ==> r.headers[j] == Redacted(response.headers[j], sent)
        invariant forall j :: i <= j < |r.headers| ==> r.headers[j] == response.headers[j]
      {
        var value := Redact.Redact(r.headers[i], sent);
        r := r.(headers := r.headers[i := value]);
      }
      if r.status >= 400 {
        var start := if |r.body| <= MAX_REDACTED_ERROR_BODY then r.body else r.body[..MAX_REDACTED_ERROR_BODY];
        var body := Redact.Redact(start, sent);
        r := r.(body := body);
      }
    }
  }

  // ----- A whole bound call

  /** One request of the client above: a first request, a redirect or a token exchange. */
  datatype Trip = Trip(authorization: Str, authority: Str, answers: seq<Answer>, response: Response)

  /**
   Where a permitted attempt leads: the public internet, or, for the composed endpoint, what that resolved to when it
   was qualified.
   */
  predicate SafeTarget(rules: Rules, texts: Texts, origin: Origin, candidates: seq<Addr>, composed: set<Str>,
                       attempt: Attempt) {
    || (texts.host(attempt.address).Some? && IsPublic(rules, texts.host(attempt.address).value))
    || (&& origin.hostPort in composed && origin.hostPort != []
        && texts.canonical(attempt.authority) == origin.hostPort
        && texts.addrPort(attempt.address).Some?
        && texts.addrPort(attempt.address).value.port == origin.port % 0x10000
        && exists a ::
          a in candidates && !Scoped(Unmap(a)) && Unmap(texts.addrPort(attempt.address).value.addr) == Unmap(a))
  }

  lemma PermittedIsSafe(rules: Rules, texts: Texts, origin: Origin, candidates: seq<Addr>, composed: set<Str>,
                        admission: Admission, attempt: Attempt)
    requires origin.hostPort !in composed ==> admission == Admission([], [])
    requires origin.hostPort in composed ==>
      admission.authority == origin.hostPort && |admission.addresses| == |candidates|
    requires origin.hostPort in composed ==>
      forall i :: 0 <= i < |candidates| ==>
        admission.addresses[i] == AddrPort(Unmap(candidates[i]), origin.port % 0x10000)
    requires NothingScoped(admission)
    ensures Permits(rules, texts, admission, attempt.authority, attempt.address) <==>
      SafeTarget(rules, texts, origin, candidates, composed, attempt)
  {
    if !PublicText(rules, texts, attempt.address) && texts.addrPort(attempt.address).Some? {
      var target := texts.addrPort(attempt.address).value;
      var wanted := AddrPort(Unmap(target.addr), target.port);
      if wanted in admission.addresses {
        var i :| 0 <= i < |admission.addresses| && admission.addresses[i] == wanted;
        assert candidates[i] in candidates && !Scoped(admission.addresses[i].addr);
      }
      if exists a :: a in candidates && Unmap(a) == Unmap(target.addr) {
        var i :| 0 <= i < |candidates| && Unmap(candidates[i]) == Unmap(target.addr);
        if SafeTarget(rules, texts, origin, candidates, composed, attempt) {
          assert admission.addresses[i] in admission.addresses;
        }
      }
    }
  }

  /** A credential is remembered with and without its scheme. */
  ghost predicate Known(authorization: Str, sent: seq<Str>) {
    && (authorization != [] ==> authorization in sent)
    && forall t :: t != [] && authorization == [66, 101, 97, 114, 101, 114, 32] + t ==> t in sent
  }

  /** What is remembered was sent: as a header's value, or as the part of one behind its scheme. */
  ghost predicate WasSent(trips: seq<Trip>, v: Str) {
    exists i :: 0 <= i < |trips| &&
      (trips[i].authorization == v || trips[i].authorization == [66, 101, 97, 114, 101, 114, 32] + v)
  }

  lemma TrimmedBearer(authorization: Str, v: Str)
    ensures v == TrimBearer(authorization) ==>
      v == authorization || authorization == [66, 101, 97, 114, 101, 114, 32] + v
    ensures authorization == [66, 101, 97, 114, 101, 114, 32] + v ==> v == TrimBearer(authorization)
  {
  }

  lemma RecordedIsKnown(authorization: Str, sent: seq<Str>)
    requires forall v :: v != [] && (v == authorization || v == TrimBearer(authorization)) ==> v in sent
    ensures Known(authorization, sent)
  {
    forall t | t != [] && authorization == [66, 101, 97, 114, 101, 114, 32] + t ensures t in sent {
      TrimmedBearer(authorization, t);
    }
  }

  method RunTrips(guard: Guard, trips: seq<Trip>) returns (ghost dials: seq<seq<Attempt>>)
    requires guard.Valid() && guard.log == [] && guard.sent == []
    modifies guard`refused, guard`sent, guard`log
    ensures guard.Valid() && |dials| == |trips|
    ensures forall i :: 0 <= i < |dials| ==>
      DialOf(trips[i].authority, trips[i].answers, dials[i]) &&
        AllJudged(guard.rules, guard.texts, guard.admission, dials[i])
    ensures guard.refused <==> exists i :: 0 <= i < |dials| && SomeRefused(dials[i])
    ensures forall i :: 0 <= i < |trips| ==> Known(trips[i].authorization, guard.sent)
    ensures forall v :: v in guard.sent ==> WasSent(trips, v)
  {
    dials := [];
    for i := 0 to |trips|
      invariant guard.Valid() && |dials| == i
      invariant forall j :: 0 <= j < i ==>
        DialOf(trips[j].authority, trips[j].answers, dials[j]) &&
          AllJudged(guard.rules, guard.texts, guard.admission, dials[j])
      invariant guard.refused <==> exists j :: 0 <= j < i && SomeRefused(dials[j])
      invariant forall j :: 0 <= j < i ==> Known(trips[j].authorization, guard.sent)
      invariant forall v :: v in guard.sent ==> WasSent(trips, v)
    {
      ghost var before := guard.sent;
      var response, attempts := guard.RoundTrip(trips[i]);
      RecordedIsKnown(trips[i].authorization, guard.sent);
      forall v | v in guard.sent ensures WasSent(trips, v) { TrimmedBearer(trips[i].authorization, v); }
      dials := dials + [attempts];
    }
  }

  /** The text of an address, to both of its readers. */
  predicate Reads(texts: Texts, address: Str, target: Addr, port: nat) {
    texts.host(address) == Some(target) && texts.addrPort(address) == Some(AddrPort(target, port)) && Proper(target)
  }

  /** The composed endpoint resolved to this very all-zero address, with its zone. */
  predicate ZonedZero(origin: Origin, candidates: seq<Addr>, composed: set<Str>, target: Addr) {
    origin.hostPort in composed && Zoned(Unmap(target)) && exists a :: a in candidates && Unmap(a) == Unmap(target)
  }

  /** A safe target is never link-local or multicast, and unspecified only in that one form. */
  lemma SafeTargetClasses(rules: Rules, texts: Texts, origin: Origin, candidates: seq<Addr>, composed: set<Str>,
                          attempt: Attempt, target: Addr, port: nat)
    requires SafeTarget(rules, texts, origin, candidates, composed, attempt) &&
      Reads(texts, attempt.address, target, port)
    ensures !Local(Unmap(target))
    ensures AllZero(Unmap(target)) ==> ZonedZero(origin, candidates, composed, target)
  {
    if AllZero(Unmap(target)) { UnspecifiedExactly(Unmap(target)); }
  }

  /**
   A dial to an all-zero address is permitted exactly when the composed endpoint it is for resolved to it with a zone.
   */
  lemma UnspecifiedDial(rules: Rules, texts: Texts, origin: Origin, candidates: seq<Addr>, composed: set<Str>,
                        admission: Admission, attempt: Attempt, target: Addr, port: nat)
    requires origin.hostPort !in composed ==> admission == Admission([], [])
    requires origin.hostPort in composed ==>
      admission.authority == origin.hostPort && |admission.addresses| == |candidates|
    requires origin.hostPort in composed ==>
      forall i :: 0 <= i < |candidates| ==>
        admission.addresses[i] == AddrPort(Unmap(candidates[i]), origin.port % 0x10000)
    requires NothingScoped(admission)
    requires Reads(texts, attempt.address, target, port) && AllZero(Unmap(target))
    ensures Permits(rules, texts, admission, attempt.authority, attempt.address) <==>
      && ZonedZero(origin, candidates, composed, target)
      && origin.hostPort != [] && texts.canonical(attempt.authority) == origin.hostPort && port == origin.port % 0x10000
  {
    UnspecifiedExactly(Unmap(target));
    PermittedIsSafe(rules, texts, origin, candidates, composed, admission, attempt);
    if ZonedZero(origin, candidates, composed, target) && port == origin.port % 0x10000 {
      var i :| 0 <= i < |candidates| && Unmap(candidates[i]) == Unmap(target);
      assert admission.addresses[i] in admission.addresses;
    }
  }

  /**
   Whatever the requests are and however the resolver answers each of them, every permitted attempt is safe, and the
   refused flag is set exactly when some attempt was refused.
   */
  method BoundCall(rules: Rules, texts: Texts, endpoint: Option<Origin>, literal: Option<Addr>,
                   resolved: Option<seq<Addr>>,
                   composed: set<Str>, trips: seq<Trip>)
    returns (qualified: Qualified, refused: bool, sent: seq<Str>, ghost dials: seq<seq<Attempt>>)
    ensures qualified.Admitted? ==> endpoint.Some? && Candidates(literal, resolved).Some?
    ensures qualified.Admitted? <==>
      && endpoint.Some? && (literal.Some? || resolved.Some?)
      && forall a :: a in (if literal.Some? then [literal.value] else resolved.value) ==>
        if endpoint.value.hostPort in composed then !Local(Unmap(a)) && !IsUnspecified(Unmap(a)) else IsPublic(rules, a)
    ensures |dials| == if qualified.Admitted? then |trips| else 0
    ensures forall i :: 0 <= i < |dials| ==> DialOf(trips[i].authority, trips[i].answers, dials[i])
    ensures forall i, j :: 0 <= i < |dials| && 0 <= j < |dials[i]| ==>
      (dials[i][j].permitted <==>
        SafeTarget(rules, texts, endpoint.value, Candidates(literal, resolved).value, composed, dials[i][j]))
    ensures forall i, j, target, port :: 0 <= i < |dials| && 0 <= j < |dials[i]| && dials[i][j].permitted ==>
      Reads(texts, dials[i][j].address, target, port) ==>
      && !Local(Unmap(target))
      && (AllZero(Unmap(target)) ==> ZonedZero(endpoint.value, Candidates(literal, resolved).value, composed, target))
    ensures refused <==> exists i :: 0 <= i < |dials| && SomeRefused(dials[i])
    ensures forall i :: 0 <= i < |dials| ==> Known(trips[i].authorization, sent)
    ensures forall v :: v in sent ==> WasSent(trips, v)
  {
    qualified := Qualify(rules, endpoint, literal, resolved, composed);
    refused, sent, dials := false, [], [];
    if !qualified.Admitted? {
      return;
    }
    var guard := new Guard(rules, texts, qualified.admission);
    dials := RunTrips(guard, trips);
    refused, sent := guard.refused, guard.sent;
    forall i, j | 0 <= i < |dials| && 0 <= j < |dials[i]|
      ensures dials[i][j].permitted <==>
        SafeTarget(rules, texts, endpoint.value, Candidates(literal, resolved).value, composed, dials[i][j])
    {
      PermittedIsSafe(rules, texts, endpoint.value, Candidates(literal, resolved).value, composed, qualified.admission,
        dials[i][j]);
    }
    forall i, j, target, port | 0 <= i < |dials| && 0 <= j < |dials[i]| && dials[i][j].permitted
      && Reads(texts, dials[i][j].address, target, port)
      ensures !Local(Unmap(target))
      ensures AllZero(Unmap(target)) ==>
        ZonedZero(endpoint.value, Candidates(literal, resolved).value, composed, target)
    {
      SafeTargetClasses(rules, texts, endpoint.value, Candidates(literal, resolved).value, composed, dials[i][j],
        target, port);
    }
  }

  // ----- What leaves the gateway when a bound call fails

  datatype Code = PermissionDenied | TooLarge | Unavailable | Throttled | OtherCode(number: nat)

  datatype Reason = DestinationRefused | ResponseTooLarge | OperationDeadline | OtherReason(number: nat)

  datatype Meta = NoMeta | MaxBytes | Deadlines | StoreMeta(number: nat)

  /** A coded error inside the failure: its operation, the cause's text and its metadata. */
  datatype Coded = Coded(op: Str, message: Str, meta: Meta)

  /** A failure as the error chain shows it. */
  datatype Failure = Failure(code: Code, reason: Reason, message: Str, coded: Option<Coded>,
                             refusedDial: bool, bodyTooLarge: bool, deadline: bool)

  /** The guard's own record at that time. */
  datatype Remembered = Remembered(refused: bool, tooLarge: bool, sent: seq<Str>, retryAfter: nat)

  datatype Outgoing = Unchanged | Reported(code: Code, reason: Reason, op: Str, message: Str, meta: Meta,
    retryAfter: Option<nat>)

  /** The texts put before the store's words. */
  datatype Wording = Wording(op: Str, tooLarge: Str, deadline: Str)

  /**
   The error that leaves a bound call: a refused dial decides ahead of a reply too large, that ahead of the deadline;
   the store's own code, words and metadata are kept otherwise; and none of the binding's secrets, nor any credential
   the guard saw go out, is left in the message if it stands apart.
   */
  method CallError(secrets: Option<seq<Str>>, guard: Option<Remembered>, f: Failure, wording: Wording)
    returns (out: Outgoing)
    ensures out.Unchanged? <==> secrets.None?
    ensures secrets.Some? ==>
      var refused := f.refusedDial || (guard.Some? && guard.value.refused);
      var tooLarge := !refused && (f.bodyTooLarge || (guard.Some? && guard.value.tooLarge));
      var late := !refused && !tooLarge && f.deadline;
      var plain := !refused && !tooLarge && !late;
      && (refused ==> out.code == PermissionDenied && out.reason == DestinationRefused)
      && (tooLarge ==> out.code == TooLarge && out.reason == ResponseTooLarge && out.meta == MaxBytes)
      && (late ==> out.code == Unavailable && out.reason == OperationDeadline && out.meta == Deadlines)
      && (plain ==> out.code == f.code && out.reason == f.reason)
      && (refused || plain ==> out.meta == if f.coded.Some? then f.coded.value.meta else NoMeta)
      && out.op == (if f.coded.Some? then f.coded.value.op else wording.op)
      && out.message ==
        Redacted(
          (if tooLarge then wording.tooLarge else if late then wording.deadline else []) +
            (if f.coded.Some? then f.coded.value.message else f.message),
          if guard.Some? then guard.value.sent + secrets.value else secrets.value)
    ensures secrets.Some? ==>
      forall s :: s in secrets.value && Apart(s) ==> !Contains(out.message, s)
    ensures secrets.Some? && guard.Some? ==>
      forall s :: s in guard.value.sent && Apart(s) ==> !Contains(out.message, s)
    ensures secrets.Some? ==>
      out.retryAfter == if out.code == Throttled && guard.Some? then Some(guard.value.retryAfter) else None
  {
    if secrets.None? {
      return Unchanged;
    }
    var code, reason, op, message, meta := f.code, f.reason, wording.op, f.message, NoMeta;
    if f.coded.Some? {
      op, message, meta := f.coded.value.op, f.coded.value.message, f.coded.value.meta;
    }
    if f.refusedDial || (guard.Some? && guard.value.refused) {
      code, reason := PermissionDenied, DestinationRefused;
      assert message == [] + message;
    } else if f.bodyTooLarge || (guard.Some? && guard.value.tooLarge) {
      code, reason, meta := TooLarge, ResponseTooLarge, MaxBytes;
      message := wording.tooLarge + message;
    } else if f.deadline {
      code, reason, meta := Unavailable, OperationDeadline, Deadlines;
      message := wording.deadline + message;
    } else {
      assert message == [] + message;
    }
    var all := secrets.value;
    if guard.Some? {
      all := guard.value.sent + secrets.value;
    }
    var text := Redact.Redact(message, all);
    NothingLeaks(message, all);
    var retryAfter := if code == Throttled && guard.Some? then Some(guard.value.retryAfter) else None;
    out := Reported(code, reason, op, text, meta, retryAfter);
  }

  /**
   A whole bound call that ends in an error, whatever it sent and whatever came back: no Authorization value of any trip
   is in the message, with its scheme or without it, if it stands apart; and a refused dial is reported as such.
   */
  method FailedCall(rules: Rules, texts: Texts, endpoint: Option<Origin>, literal: Option<Addr>,
                    resolved: Option<seq<Addr>>, composed: set<Str>, trips: seq<Trip>, secrets: seq<Str>,
                    tooLarge: bool, retryAfter: nat, f: Failure, wording: Wording)
    returns (qualified: Qualified, out: Outgoing, ghost dials: seq<seq<Attempt>>)
    ensures qualified.Admitted? ==> endpoint.Some? && Candidates(literal, resolved).Some?
    ensures out.Reported? <==> qualified.Admitted?
    ensures |dials| == if qualified.Admitted? then |trips| else 0
    ensures forall i :: 0 <= i < |dials| ==> DialOf(trips[i].authority, trips[i].answers, dials[i])
    ensures forall i, j :: 0 <= i < |dials| && 0 <= j < |dials[i]| ==>
      (dials[i][j].permitted <==>
        SafeTarget(rules, texts, endpoint.value, Candidates(literal, resolved).value, composed, dials[i][j]))
    ensures out.Reported? ==> forall i :: 0 <= i < |trips| ==>
      (Apart(trips[i].authorization) ==> !Contains(out.message, trips[i].authorization))
    ensures out.Reported? ==> forall i, t ::
      0 <= i < |trips| && trips[i].authorization == [66, 101, 97, 114, 101, 114, 32] + t && Apart(t) ==>
      !Contains(out.message, t)
    ensures out.Reported? ==> forall s :: s in secrets && Apart(s) ==> !Contains(out.message, s)
    ensures (exists i, j :: 0 <= i < |dials| && 0 <= j < |dials[i]| && !dials[i][j].permitted) ==>
      out.Reported? && out.code == PermissionDenied && out.reason == DestinationRefused
    ensures out.Reported? && out.reason == DestinationRefused && f.reason != DestinationRefused && !f.refusedDial ==>
      exists i, j :: 0 <= i < |dials| && 0 <= j < |dials[i]| && !dials[i][j].permitted
  {
    var refused, sent;
    qualified, refused, sent, dials := BoundCall(rules, texts, endpoint, literal, resolved, composed, trips);
    out := Unchanged;
    if qualified.Admitted? {
      out := CallError(Some(secrets), Some(Remembered(refused, tooLarge, sent, retryAfter)), f, wording);
    }
  }

  /** One by one: no secret that stands apart is in the message, whatever the others are. */
  lemma NothingLeaks(message: Str, secrets: seq<Str>)
    ensures forall secret :: secret in secrets && Apart(secret) ==> !Contains(Redacted(message, secrets), secret)
  {
    forall secret | secret in secrets && Apart(secret) ensures !Contains(Redacted(message, secrets), secret) {
      var i :| 0 <= i < |secrets| && secrets[i] == secret;
      NoSecretSurvives(message, secrets, i);
    }
  }
}
