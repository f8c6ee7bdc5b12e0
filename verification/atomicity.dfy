/** What the store's conditional operations promise to clients that interleave. */
module Atomicity {
  import opened Strings
  import opened Store
  import opened Requests

  // ----- Metadata

  /** In every reachable state each object is filed under its own key with its own digest and size, copies included. */
  lemma {:induction false} RunsStayCoherent(digest: Str -> Str, m: Objects, ops: seq<Op>)
    requires Coherent(digest, m)
    ensures Coherent(digest, Run(digest, m, ops).0)
    decreases |ops|
  {
    if ops != [] {
      var m1 := Serve(digest, m, ops[0]).0;
      assert Coherent(digest, m1);
      RunsStayCoherent(digest, m1, ops[1..]);
    }
  }

  /** A ranged read is the requested window, and panics exactly when the window's end overflows 64 bits. */
  lemma RangedRead(info: Info, data: Str, r: ByteRange)
    requires |data| < 0x8000_0000_0000_0000
    ensures var start, stop := r.offset as int, r.offset as int + r.length as int;
      Slice(info, data, Some(r)) ==
        if start < 0 || |data| < start then GetFailed(InvalidArgument)
        else if r.length <= 0 then Found(info, data[start..])
        else if stop >= 0x8000_0000_0000_0000 then GetPanics
        else Found(info, data[start..if stop < |data| then stop else |data|])
  {
  }

  // ----- Acknowledged writes

  /** What the store holds, by key. */
  function ContentOf(m: Objects): map<Str, Str> {
    map k | k in m :: m[k].data
  }

  /** A client's book of the contents, kept from requests and replies alone. */
  function Noted(book: map<Str, Str>, op: Op, reply: Reply): map<Str, Str> {
    match op
    case OpPut(key, body, _, _) =>
      if body.Some? && reply.Wrote? && reply.put.Stored? then book[key := body.value] else book
    case OpCopy(src, dst, _, _) =>
      if src in book && reply.Wrote? && reply.put.Stored? then book[dst := book[src]] else book
    case OpDelete(key, _) => if reply.Removed? && reply.delete.Deleted? then book - {key} else book
    case OpDeleteMany(keys) => book - set k | k in keys
    case _ => book
  }

  function Kept(book: map<Str, Str>, ops: seq<Op>, replies: seq<Reply>): map<Str, Str>
    requires |ops| == |replies|
    decreases |ops|
  {
    if ops == [] then book else Kept(Noted(book, ops[0], replies[0]), ops[1..], replies[1..])
  }

  /** What an answer says of a key, by the book: a body whole or in part, an absence, or nothing. */
  predicate Agrees(book: map<Str, Str>, op: Op, reply: Reply) {
    match op
    case OpGet(key, opts) =>
      && (reply == Got(GetFailed(NotFound)) <==> key !in book)
      && (reply.Got? && reply.get.Found? && opts.range.None? ==> key in book && reply.get.body == book[key])
    case OpStat(key) => (reply == Stated(StatFailed(NotFound)) <==> key !in book)
    case OpPut(key, _, opts, _) =>
      (reply == Wrote(PutFailed(AlreadyExists)) ==> key in book && opts.ifNoneMatch == STAR)
    case OpCopy(src, dst, _, _) => (reply == Wrote(PutFailed(NotFound)) <==> src !in book)
    case _ => true
  }

  lemma OneNoted(digest: Str -> Str, m: Objects, op: Op)
    ensures var (m', reply) := Serve(digest, m, op);
      ContentOf(m') == Noted(ContentOf(m), op, reply) && Agrees(ContentOf(m), op, reply)
  {
  }

  /**
   A request that was acknowledged has happened and one that was refused has not: the store is always what the book
   says.
   */
  lemma {:induction false} AcknowledgedIsVisible(digest: Str -> Str, m: Objects, ops: seq<Op>)
    ensures var (m', replies) := Run(digest, m, ops);
      |replies| == |ops| && ContentOf(m') == Kept(ContentOf(m), ops, replies)
    decreases |ops|
  {
    if ops != [] {
      var (m1, reply) := Serve(digest, m, ops[0]);
      OneNoted(digest, m, ops[0]);
      AcknowledgedIsVisible(digest, m1, ops[1..]);
      RunAnswersAll(digest, m1, ops[1..]);
      var rest := Run(digest, m1, ops[1..]).1;
      assert ([reply] + rest)[1..] == rest;
    }
  }

  /** And every read of a run answers from the book as it stands then. */
  lemma {:induction false} ReadsFollowTheBook(digest: Str -> Str, m: Objects, ops: seq<Op>, n: nat)
    requires n < |ops|
    ensures var replies := Run(digest, m, ops).1;
      |replies| == |ops| && Agrees(Kept(ContentOf(m), ops[..n], replies[..n]), ops[n], replies[n])
    decreases |ops|
  {
    var (m1, reply) := Serve(digest, m, ops[0]);
    OneNoted(digest, m, ops[0]);
    RunAnswersAll(digest, m, ops);
    var rest := Run(digest, m1, ops[1..]).1;
    var replies := [reply] + rest;
    assert Run(digest, m, ops).1 == replies;
    if n > 0 {
      ReadsFollowTheBook(digest, m1, ops[1..], n - 1);
      assert ops[..n][1..] == ops[1..][..n - 1] && replies[..n][1..] == rest[..n - 1];
    }
  }

  /** The validator the book's entry has. */
  predicate Validates(digest: Str -> Str, book: map<Str, Str>, key: Str, etag: Str) {
    key in book && etag == [34] + digest(book[key]) + [34]
  }

  /** The book decides every answer to a write, and every answer to a read that no date decides. */
  predicate Decides(digest: Str -> Str, book: map<Str, Str>, op: Op, reply: Reply) {
    match op
    case OpPut(key, body, opts, _) =>
      reply.Wrote? &&
        (match reply.put
         case Stored(etag) =>
           && body.Some? && etag == [34] + digest(body.value) + [34]
           && (opts.ifNoneMatch == [42] ==> key !in book)
           && (opts.ifMatch != [] ==> Validates(digest, book, key, opts.ifMatch))
         case PutFailed(code) =>
           if body.None? then code == Internal
           else if opts.ifNoneMatch == [42] && key in book then code == AlreadyExists
           else code == PreconditionFailed && opts.ifMatch != [] && !Validates(digest, book, key, opts.ifMatch))
    case OpDelete(key, ifMatch) =>
      reply.Removed? && (reply.delete == Deleted <==> ifMatch == [] || Validates(digest, book, key, ifMatch))
    case OpDeleteMany(keys) => reply.RemovedMany? && |reply.entries| == |keys| &&
      forall i :: 0 <= i < |keys| ==> reply.entries[i] == DeleteEntry(keys[i], false)
    case OpCopy(src, dst, ifNoneMatch, _) =>
      reply.Wrote? &&
        (match reply.put
         case Stored(etag) => Validates(digest, book, src, etag) && (ifNoneMatch == [42] ==> dst !in book)
         case PutFailed(code) =>
           if src !in book then code == NotFound
           else code == AlreadyExists && ifNoneMatch == [42] && dst in book)
    case OpStat(key) =>
      && reply.Stated?
      && (reply.stat.Described? <==> key in book)
      && (reply.stat.Described? ==> reply.stat.info.key == key && reply.stat.info.size == |book[key]|)
      && (reply.stat.Described? ==> Validates(digest, book, key, reply.stat.info.etag))
    case OpGet(key, opts) =>
      reply.Got? &&
        (opts.ifModifiedSince == 0 ==>
           && (reply.get.NotModified? <==> Validates(digest, book, key, opts.ifNoneMatch))
           && (reply.get == GetFailed(PreconditionFailed) <==>
                 key in book && !Validates(digest, book, key, opts.ifNoneMatch) && opts.ifMatch != [] &&
                   !Validates(digest, book, key, opts.ifMatch))
           && (reply.get.Found? && opts.range.None? ==> key in book && reply.get.body == book[key])
           && (opts.range.None? && key in book && !reply.get.NotModified? && !reply.get.GetFailed? ==>
             reply.get.Found?))
    case OpList(_) => true
  }

  lemma OneDecided(digest: Str -> Str, m: Objects, op: Op)
    requires Coherent(digest, m)
    ensures Decides(digest, ContentOf(m), op, Serve(digest, m, op).1)
  {
    assert op.OpGet? ==> Validates(digest, ContentOf(m), op.key, op.get.ifNoneMatch) ==> op.get.ifNoneMatch != [];
  }

  /**
   Contents decide answers: in any run, whether a conditional write succeeds and with what code it fails follows from
   the acknowledged writes before it.
   */
  lemma {:induction false} AnswersFollowTheBook(digest: Str -> Str, m: Objects, ops: seq<Op>, n: nat)
    requires Coherent(digest, m) && n < |ops|
    ensures var replies := Run(digest, m, ops).1;
      |replies| == |ops| && Decides(digest, Kept(ContentOf(m), ops[..n], replies[..n]), ops[n], replies[n])
    decreases |ops|
  {
    var (m1, reply) := Serve(digest, m, ops[0]);
    OneNoted(digest, m, ops[0]);
    OneDecided(digest, m, ops[0]);
    RunAnswersAll(digest, m, ops);
    var rest := Run(digest, m1, ops[1..]).1;
    var replies := [reply] + rest;
    assert Run(digest, m, ops).1 == replies;
    if n > 0 {
      assert Coherent(digest, m1);
      AnswersFollowTheBook(digest, m1, ops[1..], n - 1);
      assert ops[..n][1..] == ops[1..][..n - 1] && replies[..n][1..] == rest[..n - 1];
    }
  }

  // ----- Compare and swap

  /** A client's turn: read the object, or write its edit of what it last read, if the object is unchanged since. */
  datatype Turn =
    | Fetch(client: nat)
    | Swap(client: nat, edit: Str -> Str, attrs: Attrs, now: Time)

  datatype Snapshot = Snapshot(data: Str, etag: Str)

  datatype Race = Race(m: Objects, seen: map<nat, Snapshot>, won: seq<Str -> Str>)

  ghost function Take(digest: Str -> Str, key: Str, r: Race, turn: Turn): Race {
    match turn
    case Fetch(client) =>
      (match Store.Get(r.m, key, GetOptions(None, [], [], 0))
       case Found(info, body) => r.(seen := r.seen[client := Snapshot(body, info.etag)])
       case _ => r)
    case Swap(client, edit, attrs, now) =>
      if client !in r.seen then
        r
      else
        var base := r.seen[client];
        var (m', reply) := Store.Put(digest, r.m, key, Some(edit(base.data)), PutOptions(attrs, [], base.etag), now);
        Race(m', r.seen, if reply.Stored? then r.won + [edit] else r.won)
  }

  ghost function Play(digest: Str -> Str, key: Str, r: Race, turns: seq<Turn>): Race
    decreases |turns|
  {
    if turns == [] then r else Play(digest, key, Take(digest, key, r, turns[0]), turns[1..])
  }

  /** Edits applied one after another, each to the result of the one before. */
  ghost function Apply(edits: seq<Str -> Str>, data: Str): Str {
    if edits == [] then data else edits[|edits| - 1](Apply(edits[..|edits| - 1], data))
  }

  ghost predicate Fair(digest: Str -> Str, key: Str, start: Str, r: Race) {
    && key in r.m
    && r.m[key].info.etag == EtagOf(digest, r.m[key].data)
    && (forall c :: c in r.seen ==> r.seen[c].etag == EtagOf(digest, r.seen[c].data))
    && r.m[key].data == Apply(r.won, start)
  }

  lemma TakeIsFair(digest: Str -> Str, key: Str, start: Str, r: Race, turn: Turn)
    requires CollisionFree(digest) && Fair(digest, key, start, r)
    ensures Fair(digest, key, start, Take(digest, key, r, turn))
  {
    if turn.Swap? && turn.client in r.seen {
      EtagIdentifiesContent(digest, r.seen[turn.client].data, r.m[key].data);
      assert (r.won + [turn.edit])[..|r.won|] == r.won;
    }
  }

  /** However clients interleave, the content is exactly the successful edits in order: no update is lost. */
  lemma {:induction false} NoLostUpdate(digest: Str -> Str, key: Str, start: Str, r: Race, turns: seq<Turn>)
    requires CollisionFree(digest) && Fair(digest, key, start, r)
    ensures Fair(digest, key, start, Play(digest, key, r, turns))
    decreases |turns|
  {
    if turns != [] {
      TakeIsFair(digest, key, start, r, turns[0]);
      NoLostUpdate(digest, key, start, Take(digest, key, r, turns[0]), turns[1..]);
    }
  }

  /** From a fresh race, the object holds the fold of the winners over what it held. */
  lemma CompareAndSwap(digest: Str -> Str, key: Str, m: Objects, turns: seq<Turn>)
    requires CollisionFree(digest) && Coherent(digest, m) && key in m
    ensures var end := Play(digest, key, Race(m, map[], []), turns);
      key in end.m && end.m[key].data == Apply(end.won, m[key].data)
  {
    NoLostUpdate(digest, key, m[key].data, Race(m, map[], []), turns);
  }

  /** A swap wins exactly when the content its client read last is the content now, and then the edit is made. */
  lemma SwapWinsExactly(digest: Str -> Str, key: Str, start: Str, r: Race, turn: Turn)
    requires CollisionFree(digest) && Fair(digest, key, start, r) && turn.Swap? && turn.client in r.seen
    ensures var after := Take(digest, key, r, turn);
      if r.seen[turn.client].data == r.m[key].data then
        after.won == r.won + [turn.edit] && after.m[key].data == turn.edit(r.m[key].data)
      else
        after == r
  {
    EtagIdentifiesContent(digest, r.seen[turn.client].data, r.m[key].data);
  }

  /** Nobody's win is ever taken back, and while nobody wins the content and what a fresh reader saw of it stay. */
  lemma {:induction false} NoWinNoChange(digest: Str -> Str, key: Str, start: Str, r: Race, turns: seq<Turn>,
    client: nat)
    requires CollisionFree(digest) && Fair(digest, key, start, r)
    requires client in r.seen && r.seen[client].data == r.m[key].data
    ensures var end := Play(digest, key, r, turns);
      && |end.won| >= |r.won|
      && (|end.won| == |r.won| ==>
        end.m == r.m && client in end.seen && end.seen[client].data == end.m[key].data)
    decreases |turns|
  {
    if turns != [] {
      var next := Take(digest, key, r, turns[0]);
      TakeIsFair(digest, key, start, r, turns[0]);
      if turns[0].Swap? && turns[0].client in r.seen { SwapWinsExactly(digest, key, start, r, turns[0]); }
      if next.m == r.m {
        NoWinNoChange(digest, key, start, next, turns[1..], client);
      } else {
        WinsStay(digest, key, next, turns[1..]);
      }
    }
  }

  lemma {:induction false} WinsStay(digest: Str -> Str, key: Str, r: Race, turns: seq<Turn>)
    ensures |Play(digest, key, r, turns).won| >= |r.won|
    decreases |turns|
  {
    if turns != [] { WinsStay(digest, key, Take(digest, key, r, turns[0]), turns[1..]); }
  }

  /** Progress: a client that fetches and then swaps wins unless somebody else has won in between. */
  lemma FetchThenSwapWins(digest: Str -> Str, key: Str, start: Str, r: Race, turns: seq<Turn>, swap: Turn)
    requires CollisionFree(digest) && Fair(digest, key, start, r) && swap.Swap?
    ensures var fetched := Take(digest, key, r, Fetch(swap.client));
      var before := Play(digest, key, fetched, turns);
      |before.won| == |r.won| ==>
        Take(digest, key, before, swap).won == before.won + [swap.edit]
  {
    var fetched := Take(digest, key, r, Fetch(swap.client));
    TakeIsFair(digest, key, start, r, Fetch(swap.client));
    assert swap.client in fetched.seen && fetched.seen[swap.client].data == fetched.m[key].data;
    NoWinNoChange(digest, key, start, fetched, turns, swap.client);
    NoLostUpdate(digest, key, start, fetched, turns);
    var before := Play(digest, key, fetched, turns);
    if |before.won| == |r.won| { SwapWinsExactly(digest, key, start, before, swap); }
  }

  // ----- Create if absent

  predicate Creates(op: Op, key: Str) {
    op.OpPut? && op.key == key && op.put.ifNoneMatch == STAR && op.put.ifMatch == [] && op.body.Some?
  }

  /** The request neither writes nor deletes the key. */
  predicate Spares(op: Op, key: Str) {
    match op
    case OpPut(k, _, _, _) => k != key
    case OpDelete(k, _) => k != key
    case OpDeleteMany(keys) => key !in keys
    case OpCopy(_, dst, _, _) => dst != key
    case _ => true
  }

  /** How many of the creating requests were told they stored the object. */
  function Winners(ops: seq<Op>, replies: seq<Reply>, key: Str): nat
    requires |ops| == |replies|
  {
    if ops == [] then
      0
    else
      (if Creates(ops[0], key) && replies[0].Wrote? && replies[0].put.Stored? then 1 else 0) +
        Winners(ops[1..], replies[1..], key)
  }

  lemma {:induction false} RunAnswersAll(digest: Str -> Str, m: Objects, ops: seq<Op>)
    ensures |Run(digest, m, ops).1| == |ops|
    decreases |ops|
  {
    if ops != [] { RunAnswersAll(digest, Serve(digest, m, ops[0]).0, ops[1..]); }
  }

  /**
   Of any number of create-if-absent requests for one key, interleaved with requests that leave it alone, exactly one
   succeeds when the key is absent, and none when it is present.
   */
  lemma {:induction false} OneCreator(digest: Str -> Str, m: Objects, ops: seq<Op>, key: Str)
    requires forall op :: op in ops ==> Creates(op, key) || Spares(op, key)
    requires key in m || exists op :: op in ops && Creates(op, key)
    ensures |Run(digest, m, ops).1| == |ops|
    ensures Winners(ops, Run(digest, m, ops).1, key) == if key in m then 0 else 1
    ensures key in Run(digest, m, ops).0
    decreases |ops|
  {
    if ops != [] {
      var op := ops[0];
      assert op in ops;
      var (m1, reply) := Serve(digest, m, op);
      var rest := Run(digest, m1, ops[1..]);
      RunAnswersAll(digest, m1, ops[1..]);
      assert Run(digest, m, ops).1 == [reply] + rest.1;
      assert ([reply] + rest.1)[1..] == rest.1;
      assert key in m1 <==> key in m || Creates(op, key);
      if key !in m1 {
        var later :| later in ops && Creates(later, key);
        assert later in ops[1..];
      }
      OneCreator(digest, m1, ops[1..], key);
    }
  }
}
