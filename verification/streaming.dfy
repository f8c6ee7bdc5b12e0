/** The Get and GetMany byte paths: readers relayed as frames, and the grammar a client parses them by. */
module Streaming {
  import opened Strings
  import opened Readers
  import Store

  const CHUNK_SIZE := 262144      // 256 KiB
  const MAX_BOUND_OBJECT := 5242880 // 5 MiB
  const MAX_GET_MANY_ITEMS := 1000

  datatype Outcome = OK | CHANGED | NOT_FOUND | TOO_LARGE

  datatype Frame =
    | Header(index: nat, outcome: Outcome, info: Option<Store.Info>)
    | Unmodified(current: Store.Info)
    | Data(bytes: Str)

  /** How a call ends. */
  datatype Status = Succeeded | TooManyItems | SizeMismatch | OverCap | StoreFailed(err: Err) | Refused | SendFailed

  /** The response stream; a send may fail. */
  class FrameStream {
    var frames: seq<Frame>
    const accepts: nat -> bool

    constructor (accepts: nat -> bool)
      ensures frames == [] && this.accepts == accepts
    {
      frames := [];
      this.accepts := accepts;
    }

    ghost predicate Open() {
      forall n :: accepts(n)
    }

    method Send(f: Frame) returns (ok: bool)
      modifies this
      ensures frames == if ok then old(frames) + [f] else old(frames)
      ensures Open() ==> ok
    {
      ok := accepts(|frames|);
      if ok {
        frames := frames + [f];
      }
    }
  }

  function Wrap(chunks: seq<Str>): seq<Frame> {
    seq(|chunks|, i requires 0 <= i < |chunks| => Data(chunks[i]))
  }

  function Join(chunks: seq<Str>): Str {
    if chunks == [] then [] else Join(chunks[..|chunks| - 1]) + chunks[|chunks| - 1]
  }

  predicate Chunked(chunks: seq<Str>) {
    forall i :: 0 <= i < |chunks| ==> 0 < |chunks[i]| <= CHUNK_SIZE
  }

  /** The frames sent since an earlier moment are these chunks. */
  predicate SentSince(before: seq<Frame>, after: seq<Frame>, chunks: seq<Str>) {
    after == before + Wrap(chunks) && Chunked(chunks)
  }

  method SendChunk(out: FrameStream, chunk: Str, ghost before: seq<Frame>, ghost chunks: seq<Str>) returns (ok: bool)
    requires SentSince(before, out.frames, chunks) && 0 < |chunk| <= CHUNK_SIZE
    modifies out
    ensures SentSince(before, out.frames, if ok then chunks + [chunk] else chunks)
    ensures Join(chunks + [chunk]) == Join(chunks) + chunk
    ensures out.Open() ==> ok
  {
    assert (chunks + [chunk])[..|chunks|] == chunks;
    assert Wrap(chunks + [chunk]) == Wrap(chunks) + [Data(chunk)];
    ok := out.Send(Data(chunk));
  }

  // ----- streamBody

  /** However s is read on from cur, it completes what has been sent. */
  ghost predicate Leads(s: Source, sent: Str, cur: Source) {
    Layered(s) && Layered(cur) && forall rest, end :: MayDeliver(cur, rest, end) ==> MayDeliver(s, sent + rest, end)
  }

  lemma LeadsOn(s: Source, sent: Str, cur: Source, cap: nat)
    requires Leads(s, sent, cur) && cap > 0
    ensures var (next, data, err) := ReadFrom(cur, cap);
      if err.Nil? then Leads(s, sent + data, next) else MayDeliver(s, sent + data, err)
  {
    var (next, data, err) := ReadFrom(cur, cap);
    LayeredReads(cur, cap, [], Nil);
    if err.Nil? {
      forall rest, end | MayDeliver(next, rest, end) ensures MayDeliver(s, sent + data + rest, end) {
        LayeredReads(cur, cap, rest, end);
        assert sent + data + rest == sent + (data + rest);
      }
    }
  }

  /** A reading can still be completed in some way. */
  lemma LeadsSomewhere(s: Source, sent: Str, cur: Source) returns (data: Str, err: Err)
    requires Leads(s, sent, cur)
    ensures MayDeliver(s, data, err) && sent <= data
  {
    var rest;
    rest, err := MayDeliverSomething(cur);
    data := sent + rest;
  }

  /** After one more read of which only the data is known. */
  lemma LeadsPast(s: Source, sent: Str, cur: Source, cap: nat) returns (data: Str, err: Err)
    requires Leads(s, sent, cur) && cap > 0
    ensures MayDeliver(s, data, err) && sent + ReadFrom(cur, cap).1 <= data
  {
    LeadsOn(s, sent, cur, cap);
    var (next, got, e) := ReadFrom(cur, cap);
    if e.Nil? {
      data, err := LeadsSomewhere(s, sent + got, next);
    } else {
      data, err := sent + got, e;
    }
  }

  /** The guard below a bound Get's cap has recorded no overrun. */
  predicate Untripped(s: Source) {
    s.Capped? && s.inner.Bounded? && !s.inner.tripped
  }

  /** One read of the body, with a completion of it that agrees with all that was read. */
  method ReadChunk(body: Reader, ghost src: Source, ghost sent: Str)
    returns (got: Str, rerr: Err, ghost data: Str, ghost err: Err)
    requires body.Valid() && Leads(src, sent, body.Value())
    modifies body.repr
    ensures |got| <= CHUNK_SIZE
    ensures MayDeliver(src, data, err) && sent + got <= data
    ensures rerr.Nil? ==> Leads(src, sent + got, body.Value()) && Measure(body.Value()) < old(Measure(body.Value()))
    ensures !rerr.Nil? ==> data == sent + got && err == rerr
    ensures OneBeyond(old(body.Value())) ==>
      Untripped(body.Value()) && (rerr != ObjectTooLarge ==> OneBeyond(body.Value()))
  {
    ghost var cur := body.Value();
    LeadsOn(src, sent, cur, CHUNK_SIZE);
    ReadProgresses(cur, CHUNK_SIZE);
    if OneBeyond(cur) { GuardNeverTrips(cur, CHUNK_SIZE); }
    data, err := LeadsPast(src, sent, cur, CHUNK_SIZE);
    got, rerr := body.Read(CHUNK_SIZE);
    if !rerr.Nil? {
      data, err := sent + got, rerr;
    }
  }

  /** What the frames sent and the status returned say of the body, which delivered data and then err. */
  predicate Relayed(promised: int, status: Status, sent: Str, data: Str, err: Err) {
    && sent <= data
    && (promised >= 0 ==> |sent| <= promised)
    && match status
       case Succeeded => sent == data && err == EOF && (promised >= 0 ==> |data| == promised)
       case SizeMismatch => promised >= 0 && (|data| > promised || (|data| < promised && err == EOF))
       case OverCap => sent == data && err == ObjectTooLarge
       case StoreFailed(e) => sent == data && err == e && e != EOF && e != Nil && e != ObjectTooLarge
       case SendFailed => true
       case _ => false
  }

  /** One turn of the relay: None to go on, otherwise how the stream ends. */
  method RelayOnce(body: Reader, promised: int, sent: nat, out: FrameStream, ghost src: Source,
                   ghost before: seq<Frame>, ghost chunks: seq<Str>)
    returns (verdict: Option<Status>, got: Str, ghost more: seq<Str>, ghost data: Str, ghost err: Err)
    requires body.Valid() && Leads(src, Join(chunks), body.Value()) && out !in body.repr
    requires SentSince(before, out.frames, chunks) && sent == |Join(chunks)| && (promised >= 0 ==> sent <= promised)
    modifies body.repr, out
    ensures SentSince(before, out.frames, more) && (out.Open() ==> verdict != Some(SendFailed))
    ensures verdict.None? ==>
      Leads(src, Join(more), body.Value()) && sent + |got| == |Join(more)| &&
        (promised >= 0 ==> sent + |got| <= promised)
    ensures verdict.None? ==> Measure(body.Value()) < old(Measure(body.Value()))
    ensures verdict.Some? ==> MayDeliver(src, data, err) && Relayed(promised, verdict.value, Join(more), data, err)
    ensures OneBeyond(old(body.Value())) ==> Untripped(body.Value()) && (verdict.None? ==> OneBeyond(body.Value()))
  {
    var rerr;
    got, rerr, data, err := ReadChunk(body, src, Join(chunks));
    verdict, more := SendOn(out, promised, sent, got, rerr, before, chunks, data, err);
  }

  /** What is done with one read: nothing past the promised size is sent, and the read's error comes after its bytes. */
  method SendOn(out: FrameStream, promised: int, sent: nat, got: Str, rerr: Err,
                ghost before: seq<Frame>, ghost chunks: seq<Str>, ghost data: Str, ghost err: Err)
    returns (verdict: Option<Status>, ghost more: seq<Str>)
    requires SentSince(before, out.frames, chunks) && sent == |Join(chunks)| && (promised >= 0 ==> sent <= promised)
    requires |got| <= CHUNK_SIZE && Join(chunks) + got <= data &&
      (!rerr.Nil? ==> data == Join(chunks) + got && err == rerr)
    modifies out
    ensures SentSince(before, out.frames, more) && (out.Open() ==> verdict != Some(SendFailed))
    ensures verdict.None? ==>
      rerr.Nil? && Join(more) == Join(chunks) + got && (promised >= 0 ==> sent + |got| <= promised)
    ensures verdict.Some? ==> Relayed(promised, verdict.value, Join(more), data, err)
  {
    more := chunks;
    if |got| > 0 {
      if promised >= 0 && sent + |got| > promised {
        return Some(SizeMismatch), chunks;
      }
      var ok := SendChunk(out, got, before, chunks);
      if !ok {
        return Some(SendFailed), chunks;
      }
      more := chunks + [got];
    }
    assert Join(more) == Join(chunks) + got;
    verdict := Verdict(promised, sent + |got|, rerr);
    if verdict.Some? { VerdictRelayed(promised, data, err); }
  }

  /** How a read's error ends the stream, or that it goes on. */
  function Verdict(promised: int, sent: nat, rerr: Err): Option<Status> {
    if rerr == EOF then Some(if promised >= 0 && sent != promised then SizeMismatch else Succeeded)
    else if rerr == ObjectTooLarge then Some(OverCap)
    else if rerr != Nil then Some(StoreFailed(rerr))
    else None
  }

  lemma VerdictRelayed(promised: int, data: Str, rerr: Err)
    requires !rerr.Nil? && (promised >= 0 ==> |data| <= promised)
    ensures Relayed(promised, Verdict(promised, |data|, rerr).value, data, data, rerr)
  {
  }

  /**
   Relays a body in frames until its end. With a promised size it never sends more than that, and succeeds only on a
   body of exactly that size.
   */
  method StreamBody(body: Reader, promised: int, out: FrameStream)
    returns (status: Status, ghost chunks: seq<Str>, ghost data: Str, ghost err: Err)
    requires body.Valid() && Layered(body.Value()) && out !in body.repr
    modifies body.repr, out
    ensures SentSince(old(out.frames), out.frames, chunks)
    ensures MayDeliver(old(body.Value()), data, err)
    ensures Relayed(promised, status, Join(chunks), data, err)
    ensures out.Open() ==> status != SendFailed
    ensures forall i :: 0 <= i < |chunks| ==> 0 < |chunks[i]| <= 262144
    ensures OneBeyond(old(body.Value())) ==> Untripped(body.Value())
  {
    ghost var src, before := body.Value(), out.frames;
    chunks := [];
    var sent := 0;
    LeadsFromStart(src);
    while true
      invariant SentSince(before, out.frames, chunks)
      invariant Leads(src, Join(chunks), body.Value())
      invariant sent == |Join(chunks)| && (promised >= 0 ==> sent <= promised)
      invariant OneBeyond(src) ==> OneBeyond(body.Value())
      decreases Measure(body.Value())
    {
      var verdict, got;
      verdict, got, chunks, data, err := RelayOnce(body, promised, sent, out, src, before, chunks);
      sent := sent + |got|;
      if verdict.Some? {
        status := verdict.value;
        return;
      }
    }
  }

  lemma LeadsFromStart(s: Source)
    requires Layered(s)
    ensures Leads(s, [], s)
  {
    forall rest, end | MayDeliver(s, rest, end) ensures MayDeliver(s, [] + rest, end) { assert [] + rest == rest; }
  }

  // ----- Get

  /** The backend's answer to opening one object. */
  datatype OpenReply = Failing | Unchanged(info: Store.Info) | Opened(info: Store.Info, steps: seq<Chunk>)

  /** What a guarded client reads, or a plain one. */
  function Served(steps: seq<Chunk>, bound: bool): Source {
    if bound then Bounded(Transport(steps), MAX_BOUND_OBJECT + 1, false) else Transport(steps)
  }

  method OpenBody(steps: seq<Chunk>, bound: bool) returns (body: Reader)
    ensures body.Valid() && fresh(body.repr) && body.Value() == Served(steps, bound)
  {
    body := new Reader.FromTransport(steps);
    if bound {
      body := new Reader.Over(BoundedKind, body, MAX_BOUND_OBJECT + 1);
    }
  }

  /** The reader streamBody relays for a Get. */
  function Relay(steps: seq<Chunk>, bound: bool): Source {
    if bound then Capped(Served(steps, true), MAX_BOUND_OBJECT) else Served(steps, false)
  }

  /** Cap against cap plus one: the cap decides, and the guard's own error can never surface. */
  lemma CapDecides(steps: seq<Chunk>, bound: bool, data: Str, err: Err)
    requires MayDeliver(Relay(steps, bound), data, err)
    ensures var b := TransportBody(steps);
      if bound && |b.data| > MAX_BOUND_OBJECT then data <= b.data && |data| <= MAX_BOUND_OBJECT && err == ObjectTooLarge
      else data == b.data && err == b.err
  {
    var b := TransportBody(steps);
    assert BodyOf(Transport(steps)) == b;
    if bound {
      var under := BodyOf(Served(steps, true));
      assert under == if |b.data| <= MAX_BOUND_OBJECT + 1 then b
        else Body(b.data[..MAX_BOUND_OBJECT + 1], ResponseTooLarge, false);
    }
  }

  /**
   A bound Get relays a prefix of at most the cap; within the cap the body is relayed whole, and over it the call ends
   in OverCap, never in the guard's own error, whatever the chunks. An unbound one relays everything.
   */
  method Get(reply: OpenReply, bound: bool, ranged: bool, out: FrameStream)
    returns (status: Status, ghost chunks: seq<Str>, ghost tripped: bool)
    modifies out
    ensures Chunked(chunks) && (bound ==> !tripped)
    ensures reply.Failing? ==> status == Refused && out.frames == old(out.frames)
    ensures reply.Unchanged? && out.Open() ==>
      status == Succeeded && out.frames == old(out.frames) + [Unmodified(reply.info)]
    ensures reply.Opened? ==>
      if bound && !ranged && reply.info.size > MAX_BOUND_OBJECT then status == OverCap && out.frames == old(out.frames)
      else out.Open() ==>
        out.frames == old(out.frames) + [Header(0, OK, Some(reply.info))] + Wrap(chunks)
        && BodyRelayed(reply.steps, bound, status, Join(chunks))
    ensures reply.Opened? ==>
      Join(chunks) <= TransportBody(reply.steps).data && (bound ==> |Join(chunks)| <= MAX_BOUND_OBJECT)
  {
    chunks, tripped := [], false;
    if reply.Failing? {
      return Refused, chunks, tripped;
    }
    if reply.Unchanged? {
      var ok := out.Send(Unmodified(reply.info));
      return if ok then Succeeded else SendFailed, chunks, tripped;
    }
    if bound && !ranged && reply.info.size > MAX_BOUND_OBJECT {
      return OverCap, chunks, tripped;
    }
    var body := OpenBody(reply.steps, bound);
    if bound {
      body := new Reader.Over(CappedKind, body, MAX_BOUND_OBJECT);
    }
    assert body.Value() == Relay(reply.steps, bound);
    var ok := out.Send(Header(0, OK, Some(reply.info)));
    if ok {
      ghost var data, err;
      status, chunks, data, err := StreamBody(body, -1, out);
      CapDecides(reply.steps, bound, data, err);
      tripped := bound && body.Value().inner.tripped;
    } else {
      status := SendFailed;
    }
  }

  /** The whole body with its own end, or an over-long one stopped at the cap. */
  predicate BodyRelayed(steps: seq<Chunk>, bound: bool, status: Status, sent: Str) {
    var b := TransportBody(steps);
    if bound && |b.data| > MAX_BOUND_OBJECT then status == OverCap
    else sent == b.data && status == if b.err == EOF then Succeeded else StoreFailed(b.err)
  }

  // ----- The GetMany grammar

  /** One item of a GetMany stream: its header and the bytes received for it. */
  datatype Block = Block(index: nat, outcome: Outcome, info: Option<Store.Info>, data: Str)

  /** More data frames are due. */
  predicate Unfinished(b: Block) {
    b.outcome == OK && b.info.Some? && |b.data| < b.info.value.size
  }

  /** The client's parser, one frame at a time; None is a frame the grammar does not allow. */
  function Accept(blocks: seq<Block>, f: Frame): Option<seq<Block>> {
    var open := blocks != [] && Unfinished(blocks[|blocks| - 1]);
    match f
    case Header(index, outcome, info) =>
      if open || (outcome == OK <==> info.None?) then None else Some(blocks + [Block(index, outcome, info, [])])
    case Data(bytes) =>
      if !open || bytes == [] || |bytes| > CHUNK_SIZE then
        None
      else
        var b := blocks[|blocks| - 1];
        if |b.data| + |bytes| > b.info.value.size then None
        else Some(blocks[..|blocks| - 1] + [b.(data := b.data + bytes)])
    case Unmodified(_) => None
  }

  function Parse(frames: seq<Frame>): Option<seq<Block>> {
    if frames == [] then
      Some([])
    else
      match Parse(frames[..|frames| - 1])
      case None => None
      case Some(blocks) => Accept(blocks, frames[|frames| - 1])
  }

  lemma ParseNext(frames: seq<Frame>, f: Frame, blocks: seq<Block>)
    requires Parse(frames) == Some(blocks)
    ensures Parse(frames + [f]) == Accept(blocks, f)
  {
    assert (frames + [f])[..|frames|] == frames;
  }

  lemma ParseData(frames: seq<Frame>, blocks: seq<Block>, b: Block, bytes: Str)
    requires Parse(frames) == Some(blocks + [b]) && b.outcome == OK && b.info.Some?
    requires 0 < |bytes| <= CHUNK_SIZE && |b.data| + |bytes| <= b.info.value.size
    ensures Parse(frames + [Data(bytes)]) == Some(blocks + [b.(data := b.data + bytes)])
  {
    ParseNext(frames, Data(bytes), blocks + [b]);
    assert (blocks + [b])[..|blocks|] == blocks;
  }

  /** Data frames that do not overrun the declared size extend the open block by exactly their bytes. */
  lemma {:induction false} ParseChunks(frames: seq<Frame>, blocks: seq<Block>, b: Block, chunks: seq<Str>)
    requires Parse(frames) == Some(blocks + [b]) && b.outcome == OK && b.info.Some? && b.data == []
    requires Chunked(chunks) && |Join(chunks)| <= b.info.value.size
    ensures Parse(frames + Wrap(chunks)) == Some(blocks + [b.(data := Join(chunks))])
  {
    if chunks == [] {
      assert frames + Wrap(chunks) == frames;
    } else {
      var init, last := chunks[..|chunks| - 1], chunks[|chunks| - 1];
      ParseChunks(frames, blocks, b, init);
      assert Wrap(chunks) == Wrap(init) + [Data(last)];
      assert frames + Wrap(chunks) == frames + Wrap(init) + [Data(last)];
      ParseData(frames + Wrap(init), blocks, b.(data := Join(init)), last);
    }
  }

  /** What a block may hold: bytes only under a header that declares at least as many. */
  predicate WellFormed(b: Block) {
    && (b.outcome == OK <==> b.info.Some?)
    && (b.data != [] ==> b.info.Some? && |b.data| <= b.info.value.size)
  }

  predicate Carries(b: Block, chunks: seq<Str>) {
    WellFormed(b) && Join(chunks) == b.data && Chunked(chunks)
  }

  /** The frames of these blocks: each header, and behind it the chunks of its bytes. */
  function Print(blocks: seq<Block>, chunks: seq<seq<Str>>): seq<Frame>
    requires |blocks| == |chunks|
  {
    if blocks == [] then
      []
    else
      var n := |blocks| - 1;
      Print(blocks[..n], chunks[..n]) + [Header(blocks[n].index, blocks[n].outcome, blocks[n].info)] + Wrap(chunks[n])
  }

  /**
   The grammar of a GetMany stream: only the last block may still wait for bytes, and no chunk is empty or over 256 KiB.
   */
  ghost predicate InGrammar(frames: seq<Frame>, blocks: seq<Block>, chunks: seq<seq<Str>>) {
    && |blocks| == |chunks| && frames == Print(blocks, chunks)
    && (forall i :: 0 <= i < |blocks| ==> Carries(blocks[i], chunks[i]))
    && (forall i :: 0 <= i < |blocks| - 1 ==> !Unfinished(blocks[i]))
  }

  lemma PrintNext(blocks: seq<Block>, chunks: seq<seq<Str>>, b: Block, cs: seq<Str>)
    requires |blocks| == |chunks|
    ensures Print(blocks + [b], chunks + [cs]) ==
      Print(blocks, chunks) + [Header(b.index, b.outcome, b.info)] + Wrap(cs)
  {
    assert (blocks + [b])[..|blocks|] == blocks && (chunks + [cs])[..|chunks|] == chunks;
  }

  lemma NoChunks(chunks: seq<Str>)
    requires Chunked(chunks)
    ensures Join(chunks) == [] ==> chunks == []
  {
  }

  /** What is in the grammar the parser reads back. */
  lemma {:induction false} GrammarParses(frames: seq<Frame>, blocks: seq<Block>, chunks: seq<seq<Str>>)
    requires InGrammar(frames, blocks, chunks)
    ensures Parse(frames) == Some(blocks)
    decreases |blocks|
  {
    if blocks != [] {
      var n := |blocks| - 1;
      var init, b, cs := blocks[..n], blocks[n], chunks[n];
      assert Carries(b, cs);
      var before := Print(init, chunks[..n]);
      GrammarParses(before, init, chunks[..n]);
      ParseNext(before, Header(b.index, b.outcome, b.info), init);
      var started := b.(data := []);
      assert Parse(before + [Header(b.index, b.outcome, b.info)]) == Some(init + [started]);
      assert init + [b] == blocks;
      if cs == [] {
        assert Wrap(cs) == [];
        assert before + [Header(b.index, b.outcome, b.info)] + [] == before + [Header(b.index, b.outcome, b.info)];
        assert started == b;
      } else {
        assert Chunked(cs);
        NoChunks(cs);
        ParseChunks(before + [Header(b.index, b.outcome, b.info)], init, started, cs);
      }
    }
  }

  /** And what the parser reads is in the grammar. */
  lemma {:induction false} ParsedIsGrammar(frames: seq<Frame>, blocks: seq<Block>) returns (chunks: seq<seq<Str>>)
    requires Parse(frames) == Some(blocks)
    ensures InGrammar(frames, blocks, chunks)
    decreases |frames|
  {
    if frames == [] {
      chunks := [];
    } else {
      var init, f := frames[..|frames| - 1], frames[|frames| - 1];
      assert frames == init + [f];
      var before := Parse(init).value;
      var cs := ParsedIsGrammar(init, before);
      chunks := if f.Header? then cs + [[]] else cs[..|cs| - 1] + [cs[|cs| - 1] + [f.bytes]];
      if f.Header? {
        HeaderInGrammar(before, cs, f);
      } else {
        DataInGrammar(before, cs, f.bytes);
      }
    }
  }

  lemma HeaderInGrammar(before: seq<Block>, cs: seq<seq<Str>>, h: Frame)
    requires |before| == |cs| && InGrammar(Print(before, cs), before, cs) && h.Header? && Accept(before, h).Some?
    ensures InGrammar(Print(before, cs) + [h], Accept(before, h).value, cs + [[]])
  {
    PrintNext(before, cs, Block(h.index, h.outcome, h.info, []), []);
    assert Print(before, cs) + [h] + Wrap([]) == Print(before, cs) + [h];
  }

  lemma DataInGrammar(before: seq<Block>, cs: seq<seq<Str>>, bytes: Str)
    requires |before| == |cs| && InGrammar(Print(before, cs), before, cs) && Accept(before, Data(bytes)).Some?
    ensures |cs| > 0
    ensures InGrammar(Print(before, cs) + [Data(bytes)], Accept(before, Data(bytes)).value,
                      cs[..|cs| - 1] + [cs[|cs| - 1] + [bytes]])
  {
    var n := |before| - 1;
    assert Carries(before[n], cs[n]);
    CarriesMore(before[n], cs[n], bytes);
    PrintLonger(before[..n], cs[..n], before[n], cs[n], bytes);
    assert before == before[..n] + [before[n]] && cs == cs[..n] + [cs[n]];
  }

  lemma CarriesMore(b: Block, chunks: seq<Str>, bytes: Str)
    requires Carries(b, chunks) && Unfinished(b) && 0 < |bytes| <= CHUNK_SIZE && |b.data| + |bytes| <= b.info.value.size
    ensures Carries(b.(data := b.data + bytes), chunks + [bytes])
  {
    assert (chunks + [bytes])[..|chunks|] == chunks;
  }

  lemma PrintLonger(init: seq<Block>, cs: seq<seq<Str>>, b: Block, chunks: seq<Str>, bytes: Str)
    requires |init| == |cs|
    ensures Print(init + [b.(data := b.data + bytes)], cs + [chunks + [bytes]]) ==
      Print(init + [b], cs + [chunks]) + [Data(bytes)]
  {
    PrintNext(init, cs, b, chunks);
    PrintNext(init, cs, b.(data := b.data + bytes), chunks + [bytes]);
    assert Wrap(chunks + [bytes]) == Wrap(chunks) + [Data(bytes)];
  }

  // ----- GetMany

  /** The backend's answer to one item's Get: an error, which may be that of a missing bucket, or an open body. */
  datatype ItemReply = Errs(bucketGone: bool, code: Store.Code) | Found(info: Store.Info, steps: seq<Chunk>)

  /** What a GetMany stream owes one item. */
  datatype Answer =
    | Brief(outcome: Outcome)                      // a header alone
    | Whole(info: Store.Info, data: Str)           // a header and exactly its bytes
    | Torn(info: Store.Info, data: Str)            // a header, some of the bytes the store gave, then an error
    | Ends                                         // an error before any frame

  /** A body of unknown size, as read through the limit one byte past the cap. */
  function Measured(steps: seq<Chunk>, bound: bool): Body {
    BodyOf(Limited(Served(steps, bound), MAX_BOUND_OBJECT + 1))
  }

  function AnswerTo(reply: ItemReply, bound: bool): Answer {
    match reply
    case Errs(bucketGone, code) =>
      if bucketGone then Ends
      else if code.PreconditionFailed? then Brief(CHANGED)
      else if code.NotFound? then Brief(NOT_FOUND)
      else Ends
    case Found(info, steps) =>
      if bound && info.size > MAX_BOUND_OBJECT then
        Brief(TOO_LARGE)
      else if info.size <= 0 then
        var b := Measured(steps, bound);
        if b.err != EOF then Ends
        else if |b.data| > MAX_BOUND_OBJECT then Brief(TOO_LARGE)
        else Whole(info.(size := |b.data|), b.data)
      else
        var b := BodyOf(Served(steps, bound));
        if |b.data| == info.size && b.err == EOF then Whole(info, b.data) else Torn(info, b.data)
  }

  predicate Delivered(a: Answer) {
    a.Brief? || a.Whole?
  }

  function BlockOf(index: nat, a: Answer): Block
    requires Delivered(a)
  {
    match a
    case Brief(outcome) => Block(index, outcome, None, [])
    case Whole(info, data) => Block(index, OK, Some(info), data)
  }

  /** An answer a header can announce: never OK without its info, and a whole one is exactly as long as it says. */
  predicate Sane(a: Answer) {
    (a.Brief? ==> a.outcome != OK) && (a.Whole? ==> |a.data| == a.info.size) && (a.Torn? ==> a.info.size > 0)
  }

  lemma AnswersAreSane(reply: ItemReply, bound: bool)
    ensures Sane(AnswerTo(reply, bound))
  {
  }

  /** One block of a stream that broke off: a prefix of the item's bytes, never more than its header declares. */
  predicate PartOf(b: Block, index: nat, a: Answer) {
    && b.index == index
    && match a
       case Brief(_) => false
       case Ends => false
       case _ => b.outcome == OK && b.info == Some(a.info) && b.data <= a.data && |b.data| <= a.info.size
  }

  /** The stream so far: these finished blocks, and perhaps part of one more. */
  ghost predicate BrokeOff(frames: seq<Frame>, blocks: seq<Block>, index: nat, a: Answer) {
    || Parse(frames) == Some(blocks)
    || exists b :: PartOf(b, index, a) && Parse(frames) == Some(blocks + [b])
  }

  predicate Finished(blocks: seq<Block>) {
    blocks != [] ==> !Unfinished(blocks[|blocks| - 1])
  }

  method SendBrief(out: FrameStream, index: nat, outcome: Outcome, ghost blocks: seq<Block>) returns (status: Status)
    requires Parse(out.frames) == Some(blocks) && Finished(blocks) && outcome != OK
    modifies out
    ensures status == Succeeded || status == SendFailed
    ensures Parse(out.frames) ==
      Some(if status == Succeeded then blocks + [Block(index, outcome, None, [])] else blocks)
    ensures out.Open() ==> status == Succeeded
  {
    ParseNext(out.frames, Header(index, outcome, None), blocks);
    var ok := out.Send(Header(index, outcome, None));
    status := if ok then Succeeded else SendFailed;
  }

  /** A header and the body behind it: succeeds only on a body of exactly the declared size. */
  method SendWhole(out: FrameStream, index: nat, info: Store.Info, body: Reader, ghost blocks: seq<Block>)
    returns (status: Status)
    requires Parse(out.frames) == Some(blocks) && Finished(blocks) && info.size >= 0
    requires body.Valid() && Steady(body.Value()) && out !in body.repr
    modifies out, body.repr
    ensures var b := BodyOf(old(body.Value()));
      && (status == Succeeded ==> |b.data| == info.size && b.err == EOF)
      && (status == Succeeded ==> Parse(out.frames) == Some(blocks + [Block(index, OK, Some(info), b.data)]))
      && (status != Succeeded ==> BrokeOff(out.frames, blocks, index, Torn(info, b.data)))
      && (out.Open() && |b.data| == info.size && b.err == EOF ==> status == Succeeded)
    ensures status != TooManyItems
  {
    var h := Header(index, OK, Some(info));
    ghost var b := BodyOf(body.Value());
    ParseNext(out.frames, h, blocks);
    var ok := out.Send(h);
    if !ok {
      return SendFailed;
    }
    ghost var frames := out.frames;
    ghost var chunks, data, err;
    status, chunks, data, err := StreamBody(body, info.size, out);
    ParseChunks(frames, blocks, Block(index, OK, Some(info), []), chunks);
    assert PartOf(Block(index, OK, Some(info), Join(chunks)), index, Torn(info, b.data));
  }

  /**
   What a client may read of one item that was answered, from what the store said: its ETag moved, it is gone, it is
   over the cap, or exactly its bytes under a header that declares their number. A missing bucket and any other error
   are not answers.
   */
  predicate Answered(reply: ItemReply, bound: bool, index: nat, b: Block) {
    match reply
    case Errs(bucketGone, code) =>
      && !bucketGone && (code.PreconditionFailed? || code.NotFound?)
      && b == Block(index, if code.NotFound? then NOT_FOUND else CHANGED, None, [])
    case Found(info, steps) =>
      var body := TransportBody(steps);
      if (bound && info.size > 5242880) || (info.size <= 0 && |body.data| > 5242880) then
        b == Block(index, TOO_LARGE, None, [])
      else
        && body.err == EOF && (info.size > 0 ==> |body.data| == info.size)
        && b == Block(index, OK, Some(info.(size := |body.data|)), body.data)
  }

  /**
   An item that can be answered; a body one byte over the cap that fails in the same read cannot be told from a failing
   one.
   */
  predicate Answerable(reply: ItemReply, bound: bool) {
    match reply
    case Errs(bucketGone, code) => !bucketGone && (code.PreconditionFailed? || code.NotFound?)
    case Found(info, steps) =>
      var body := TransportBody(steps);
      if bound && info.size > 5242880 then true
      else if info.size <= 0 && |body.data| > 5242880 then |body.data| > 5242881 || !body.joined || body.err == EOF
      else body.err == EOF && (info.size > 0 ==> |body.data| == info.size)
  }

  /**
   Part of an item that broke off: a header with a size, and no more bytes than that, all from the front of the body.
   */
  predicate Partly(reply: ItemReply, index: nat, b: Block) {
    && reply.Found? && b.index == index && b.outcome == OK && b.info.Some?
    && b.data <= TransportBody(reply.steps).data && |b.data| <= b.info.value.size
    && b.info.value == reply.info.(size := b.info.value.size)
    && (reply.info.size > 0 ==> b.info.value.size == reply.info.size)
  }

  /** The answer computed for an item is the one its client may read. */
  lemma AnswerIsRight(reply: ItemReply, bound: bool, index: nat)
    ensures var a := AnswerTo(reply, bound);
      && (Delivered(a) <==> Answerable(reply, bound))
      && (Delivered(a) ==> Answered(reply, bound, index, BlockOf(index, a)))
  {
    match reply {
      case Errs(_, _) =>
      case Found(info, steps) =>
        if info.size <= 0 {
          UnknownSizeAnswer(info, steps, bound);
        } else if !(bound && info.size > MAX_BOUND_OBJECT) {
          KnownSizeAnswer(info, steps, bound);
        }
    }
  }

  lemma PartIsRight(reply: ItemReply, bound: bool, index: nat, b: Block)
    requires PartOf(b, index, AnswerTo(reply, bound))
    ensures Partly(reply, index, b)
  {
    if reply.Found? {
      if reply.info.size <= 0 {
        UnknownSizeAnswer(reply.info, reply.steps, bound);
      } else if !(bound && reply.info.size > MAX_BOUND_OBJECT) {
        KnownSizeAnswer(reply.info, reply.steps, bound);
      }
    }
  }

  /** One item's frames: its whole block on success, and otherwise at most part of it. */
  method GetManyItem(out: FrameStream, index: nat, reply: ItemReply, bound: bool, ghost blocks: seq<Block>)
    returns (status: Status)
    requires Parse(out.frames) == Some(blocks) && Finished(blocks)
    modifies out
    ensures var a := AnswerTo(reply, bound);
      && status != TooManyItems
      && (status == Succeeded ==> Delivered(a) && Parse(out.frames) == Some(blocks + [BlockOf(index, a)]))
      && (status != Succeeded ==> BrokeOff(out.frames, blocks, index, a))
      && (out.Open() && Delivered(a) ==> status == Succeeded)
    ensures reply.Errs? && (reply.bucketGone || !(reply.code.PreconditionFailed? || reply.code.NotFound?)) ==>
      status == Refused && out.frames == old(out.frames)
    ensures reply.Errs? && !reply.bucketGone && reply.code.PreconditionFailed? && out.Open() ==>
      status == Succeeded && Parse(out.frames) == Some(blocks + [Block(index, CHANGED, None, [])])
    ensures reply.Errs? && !reply.bucketGone && reply.code.NotFound? && out.Open() ==>
      status == Succeeded && Parse(out.frames) == Some(blocks + [Block(index, NOT_FOUND, None, [])])
    ensures reply.Found? && bound && reply.info.size > 5242880 && out.Open() ==>
      status == Succeeded && Parse(out.frames) == Some(blocks + [Block(index, TOO_LARGE, None, [])])
  {
    match reply {
      case Errs(bucketGone, code) =>
        if bucketGone {
          return Refused;
        } else if code.PreconditionFailed? {
          status := SendBrief(out, index, CHANGED, blocks);
        } else if code.NotFound? {
          status := SendBrief(out, index, NOT_FOUND, blocks);
        } else {
          return Refused;
        }
      case Found(info, steps) => status := GetManyObject(out, index, info, steps, bound, blocks);
    }
  }

  method GetManyObject(out: FrameStream, index: nat, info: Store.Info, steps: seq<Chunk>, bound: bool,
                       ghost blocks: seq<Block>)
    returns (status: Status)
    requires Parse(out.frames) == Some(blocks) && Finished(blocks)
    modifies out
    ensures var a := AnswerTo(Found(info, steps), bound);
      && (status == Succeeded ==> Delivered(a) && Parse(out.frames) == Some(blocks + [BlockOf(index, a)]))
      && (status != Succeeded ==> BrokeOff(out.frames, blocks, index, a))
      && (out.Open() && Delivered(a) ==> status == Succeeded)
    ensures status != TooManyItems
  {
    if bound && info.size > MAX_BOUND_OBJECT {
      status := SendBrief(out, index, TOO_LARGE, blocks);
      return;
    }
    var body := OpenBody(steps, bound);
    if info.size > 0 {
      status := SendWhole(out, index, info, body, blocks);
      return;
    }
    // The header promises the exact size, so a body of unknown size is read before it is promised.
    var limited := new Reader.Over(LimitedKind, body, MAX_BOUND_OBJECT + 1);
    var buf, rerr := ReadAll(limited);
    if rerr != Nil {
      return StoreFailed(rerr);
    }
    if |buf| > MAX_BOUND_OBJECT {
      status := SendBrief(out, index, TOO_LARGE, blocks);
      return;
    }
    var held := new Reader.FromTransport(if buf == [] then [] else [Chunk(buf, Nil)]);
    HeldBody(buf);
    status := SendWhole(out, index, info.(size := |buf|), held, blocks);
    if status != Succeeded {
      WholeBrokeOff(out.frames, blocks, index, info.(size := |buf|), buf);
    }
  }

  lemma HeldBody(buf: Str)
    ensures TransportBody(if buf == [] then [] else [Chunk(buf, Nil)]) == Body(buf, EOF, false)
  {
    if buf != [] {
      assert TransportBody([Chunk(buf, Nil)][1..]) == Body([], EOF, false);
      assert buf + [] == buf;
    }
  }

  /** Part of a torn item is part of the whole one. */
  lemma WholeBrokeOff(frames: seq<Frame>, blocks: seq<Block>, index: nat, info: Store.Info, data: Str)
    requires BrokeOff(frames, blocks, index, Torn(info, data))
    ensures BrokeOff(frames, blocks, index, Whole(info, data))
  {
    if Parse(frames) != Some(blocks) {
      var b :| PartOf(b, index, Torn(info, data)) && Parse(frames) == Some(blocks + [b]);
      assert PartOf(b, index, Whole(info, data));
    }
  }

  function BlocksOf(replies: seq<ItemReply>, bound: bool): seq<Block>
    requires forall i :: 0 <= i < |replies| ==> Delivered(AnswerTo(replies[i], bound))
  {
    seq(|replies|, i requires 0 <= i < |replies| => BlockOf(i, AnswerTo(replies[i], bound)))
  }

  ghost predicate AllDelivered(replies: seq<ItemReply>, bound: bool) {
    forall i :: 0 <= i < |replies| ==> Delivered(AnswerTo(replies[i], bound))
  }

  /** The items before the k-th are whole, and at most part of that one follows. */
  ghost predicate StoppedAt(frames: seq<Frame>, replies: seq<ItemReply>, bound: bool, k: int) {
    && 0 <= k < |replies|
    && AllDelivered(replies[..k], bound)
    && BrokeOff(frames, BlocksOf(replies[..k], bound), k, AnswerTo(replies[k], bound))
  }

  lemma BlocksNext(replies: seq<ItemReply>, i: nat, bound: bool)
    requires i < |replies| && AllDelivered(replies[..i], bound) && Delivered(AnswerTo(replies[i], bound))
    ensures AllDelivered(replies[..i + 1], bound)
    ensures BlocksOf(replies[..i + 1], bound) ==
      BlocksOf(replies[..i], bound) + [BlockOf(i, AnswerTo(replies[i], bound))]
  {
    assert replies[..i + 1] == replies[..i] + [replies[i]];
  }

  /** Each of the first items is answered in its own block. */
  ghost predicate AllAnswered(replies: seq<ItemReply>, bound: bool, blocks: seq<Block>) {
    |blocks| <= |replies| && forall i :: 0 <= i < |blocks| ==> Answered(replies[i], bound, i, blocks[i])
  }

  lemma BlocksAreRight(replies: seq<ItemReply>, bound: bool)
    requires AllDelivered(replies, bound)
    ensures AllAnswered(replies, bound, BlocksOf(replies, bound)) && |BlocksOf(replies, bound)| == |replies|
  {
    forall i | 0 <= i < |replies| ensures Answered(replies[i], bound, i, BlocksOf(replies, bound)[i]) {
      AnswerIsRight(replies[i], bound, i);
    }
  }

  /** The stream broke off at the k-th item: those before it are answered, and at most part of that one follows. */
  ghost predicate BrokeOffAt(frames: seq<Frame>, replies: seq<ItemReply>, bound: bool, blocks: seq<Block>) {
    && |blocks| < |replies| && AllAnswered(replies, bound, blocks)
    && (|| Parse(frames) == Some(blocks)
        || exists b :: Partly(replies[|blocks|], |blocks|, b) && Parse(frames) == Some(blocks + [b]))
  }

  lemma StoppedIsRight(frames: seq<Frame>, replies: seq<ItemReply>, bound: bool, k: int)
    requires StoppedAt(frames, replies, bound, k)
    ensures BrokeOffAt(frames, replies, bound, BlocksOf(replies[..k], bound))
  {
    var blocks := BlocksOf(replies[..k], bound);
    BlocksAreRight(replies[..k], bound);
    if Parse(frames) != Some(blocks) {
      var b :| PartOf(b, k, AnswerTo(replies[k], bound)) && Parse(frames) == Some(blocks + [b]);
      PartIsRight(replies[k], bound, k, b);
    }
  }

  /**
   On success the client's parser recovers, in request order, what the store said of every item. On an error it recovers
   the items before the failing one and at most a prefix of that one. An open stream succeeds exactly when every item
   can be answered.
   */
  method GetMany(replies: seq<ItemReply>, bound: bool, out: FrameStream)
    returns (status: Status, ghost blocks: seq<Block>)
    requires out.frames == []
    modifies out
    ensures |replies| > 1000 <==> status == TooManyItems
    ensures status == TooManyItems ==> out.frames == []
    ensures status == Succeeded ==>
      Parse(out.frames) == Some(blocks) && |blocks| == |replies| && AllAnswered(replies, bound, blocks)
    ensures status != Succeeded && status != TooManyItems ==> BrokeOffAt(out.frames, replies, bound, blocks)
    ensures out.Open() && |replies| <= 1000 ==>
      (status == Succeeded <==> forall i :: 0 <= i < |replies| ==> Answerable(replies[i], bound))
  {
    blocks := [];
    if |replies| > MAX_GET_MANY_ITEMS {
      return TooManyItems, blocks;
    }
    assert BlocksOf([], bound) == [];
    for i := 0 to |replies|
      invariant AllDelivered(replies[..i], bound)
      invariant Parse(out.frames) == Some(BlocksOf(replies[..i], bound))
    {
      blocks := BlocksOf(replies[..i], bound);
      BlocksFinished(replies[..i], bound);
      status := GetManyItem(out, i, replies[i], bound, blocks);
      if status != Succeeded {
        StoppedIsRight(out.frames, replies, bound, i);
        AnswerIsRight(replies[i], bound, i);
        return;
      }
      BlocksNext(replies, i, bound);
    }
    assert replies[..|replies|] == replies;
    blocks := BlocksOf(replies, bound);
    BlocksAreRight(replies, bound);
    forall i | 0 <= i < |replies| ensures Answerable(replies[i], bound) { AnswerIsRight(replies[i], bound, i); }
    return Succeeded, blocks;
  }

  lemma BlocksFinished(replies: seq<ItemReply>, bound: bool)
    requires AllDelivered(replies, bound)
    ensures Finished(BlocksOf(replies, bound))
  {
    if replies != [] { AnswersAreSane(replies[|replies| - 1], bound); }
  }

  // ----- What an item's answer says of the store's body

  /**
   An item without a length: read whole within the cap, TOO_LARGE over it, bound or not; the one exception is a body
   that fails in the very read that delivers the byte past the cap, which ends the stream.
   */
  lemma UnknownSizeAnswer(info: Store.Info, steps: seq<Chunk>, bound: bool)
    requires info.size <= 0
    ensures var b, a := TransportBody(steps), AnswerTo(Found(info, steps), bound);
      if |b.data| <= MAX_BOUND_OBJECT then
        a == if b.err == EOF then Whole(info.(size := |b.data|), b.data) else Ends
      else
        a == if |b.data| == MAX_BOUND_OBJECT + 1 && b.joined && b.err != EOF then Ends else Brief(TOO_LARGE)
  {
    var b := TransportBody(steps);
    assert BodyOf(Transport(steps)) == b;
    var served := BodyOf(Served(steps, bound));
    assert served == if bound && |b.data| > MAX_BOUND_OBJECT + 1
      then Body(b.data[..MAX_BOUND_OBJECT + 1], ResponseTooLarge, false) else b;
  }

  /** An item with a length is delivered exactly when the store's body has that length and ends cleanly. */
  lemma KnownSizeAnswer(info: Store.Info, steps: seq<Chunk>, bound: bool)
    requires info.size > 0 && (bound ==> info.size <= MAX_BOUND_OBJECT)
    ensures var b, a := TransportBody(steps), AnswerTo(Found(info, steps), bound);
      && (Delivered(a) <==> |b.data| == info.size && b.err == EOF)
      && (Delivered(a) ==> a == Whole(info, b.data))
      && (!Delivered(a) ==> a.Torn? && a.info == info && a.data <= b.data)
  {
    assert BodyOf(Transport(steps)) == TransportBody(steps);
  }
}
