/** Layered bounded readers over a transport that may answer a read in any way an io.Reader may. */
module Readers {
  import opened Strings

  /** How a read ends: nil, io.EOF, a failure of the store, or one of the two bounds. */
  datatype Err = Nil | EOF | Fail(what: nat) | ResponseTooLarge | ObjectTooLarge

  /** The transport's next answer: bytes, and the error that arrives with the last of them. */
  datatype Chunk = Chunk(data: Str, err: StoreErr)
  type StoreErr = e: Err | e.Nil? || e.EOF? || e.Fail? witness Nil

  /** A reader's state. left counts the bytes a layer still lets through. */
  datatype Source =
    | Transport(steps: seq<Chunk>)                       // ends with io.EOF when the steps run out
    | Bounded(inner: Source, left: int, tripped: bool)   // the guard's boundedBody
    | Capped(inner: Source, left: int)                   // a bound Get's capReader
    | Limited(inner: Source, left: int)                  // io.LimitReader

  function Min(a: int, b: int): int {
    if a < b then a else b
  }

  /** One Read into a buffer of cap bytes. */
  function ReadFrom(s: Source, cap: nat): (r: (Source, Str, Err))
    ensures |r.1| <= cap
  {
    match s
    case Transport(steps) =>
      if steps == [] then (s, [], EOF)
      else if |steps[0].data| <= cap then (Transport(steps[1..]), steps[0].data, steps[0].err)
      else (Transport([Chunk(steps[0].data[cap..], steps[0].err)] + steps[1..]), steps[0].data[..cap], Nil)
    case Bounded(inner, left, tripped) =>
      if left <= 0 then
        var (next, data, err) := ReadFrom(inner, 1);
        if data == [] then (Bounded(next, left, tripped), [], err)
        else (Bounded(next, left, true), [], ResponseTooLarge)
      else
        var (next, data, err) := ReadFrom(inner, Min(cap, left));
        (Bounded(next, left - |data|, tripped), data, err)
    case Capped(inner, left) =>
      var (next, data, err) := ReadFrom(inner, cap);
      if left - |data| < 0 then (Capped(next, left - |data|), [], ObjectTooLarge)
      else (Capped(next, left - |data|), data, err)
    case Limited(inner, left) =>
      if left <= 0 then
        (s, [], EOF)
      else
        var (next, data, err) := ReadFrom(inner, Min(cap, left));
        (Limited(next, left - |data|), data, err)
  }

  // ----- Termination of a reading loop

  function Pending(steps: seq<Chunk>): nat {
    if steps == [] then 0 else 1 + |steps[0].data| + Pending(steps[1..])
  }

  function Measure(s: Source): nat {
    match s
    case Transport(steps) => Pending(steps)
    case _ => Measure(s.inner)
  }

  /** A read that does not end the reading brings its end nearer. */
  lemma {:induction false} ReadProgresses(s: Source, cap: nat)
    requires cap > 0
    ensures Measure(ReadFrom(s, cap).0) <= Measure(s)
    ensures ReadFrom(s, cap).2.Nil? ==> Measure(ReadFrom(s, cap).0) < Measure(s)
  {
    match s {
      case Transport(steps) =>
      case Bounded(inner, left, _) => ReadProgresses(inner, if left <= 0 then 1 else Min(cap, left));
      case Capped(inner, _) => ReadProgresses(inner, cap);
      case Limited(inner, left) => if left > 0 { ReadProgresses(inner, Min(cap, left)); }
    }
  }

  // ----- What a reader delivers, however it is read

  /** All the bytes, the error after them, and whether that error arrives together with the last bytes. */
  datatype Body = Body(data: Str, err: Err, joined: bool)

  /** Layers whose delivery does not depend on the sizes it is read in. */
  predicate Steady(s: Source) {
    match s
    case Transport(_) => true
    case Capped(_, _) => false
    case _ => s.left >= 0 && Steady(s.inner)
  }

  function TransportBody(steps: seq<Chunk>): (b: Body)
    ensures b.joined ==> b.data != []
    ensures b.err.EOF? || b.err.Fail?
  {
    if steps == [] then Body([], EOF, false)
    else if steps[0].err != Nil then Body(steps[0].data, steps[0].err, steps[0].data != [])
    else
      var rest := TransportBody(steps[1..]);
      Body(steps[0].data + rest.data, rest.err, rest.joined)
  }

  function BodyOf(s: Source): (b: Body)
    requires Steady(s)
    ensures b.joined ==> b.data != []
  {
    match s
    case Transport(steps) => TransportBody(steps)
    case Bounded(inner, left, _) =>
      var b := BodyOf(inner);
      if |b.data| <= left then b else Body(b.data[..left], ResponseTooLarge, false)
    case Limited(inner, left) =>
      var b := BodyOf(inner);
      if |b.data| < left || (|b.data| == left && b.joined) then b else Body(b.data[..left], EOF, false)
  }

  /** A reading of s can deliver data and then end with err. */
  predicate MayDeliver(s: Source, data: Str, err: Err)
    requires Layered(s)
  {
    if s.Capped? then
      var b := BodyOf(s.inner);
      if |b.data| <= s.left then data == b.data && err == b.err
      else data <= b.data && |data| <= s.left && err == ObjectTooLarge
    else
      data == BodyOf(s).data && err == BodyOf(s).err
  }

  /** A steady reader, possibly under a cap. */
  predicate Layered(s: Source) {
    Steady(s) || (s.Capped? && s.left >= 0 && Steady(s.inner))
  }

  /** A read delivers the front of the body: either more follows, or this was the end of it. */
  predicate ReadsFront(s: Source, cap: nat)
    requires Steady(s)
  {
    var (next, data, err) := ReadFrom(s, cap);
    && Steady(next)
    && (err.Nil? ==> BodyOf(s) == Body(data + BodyOf(next).data, BodyOf(next).err, BodyOf(next).joined))
    && (!err.Nil? ==> data == BodyOf(s).data && err == BodyOf(s).err && (data != [] <==> BodyOf(s).joined))
  }

  lemma TransportReads(steps: seq<Chunk>, cap: nat)
    requires cap > 0
    ensures ReadsFront(Transport(steps), cap)
  {
    if steps != [] && |steps[0].data| > cap {
      var (next, data, err) := ReadFrom(Transport(steps), cap);
      assert next.steps[1..] == steps[1..];
      assert steps[0].data == data + steps[0].data[cap..];
      if steps[0].err == Nil {
        var rest := TransportBody(steps[1..]).data;
        assert steps[0].data + rest == data + (steps[0].data[cap..] + rest);
      }
    }
  }

  lemma BoundedReads(s: Source, cap: nat)
    requires s.Bounded? && Steady(s) && cap > 0
    requires ReadsFront(s.inner, if s.left <= 0 then 1 else Min(cap, s.left))
    ensures ReadsFront(s, cap)
  {
  }

  lemma LimitedReads(s: Source, cap: nat)
    requires s.Limited? && Steady(s) && cap > 0
    requires s.left > 0 ==> ReadsFront(s.inner, Min(cap, s.left))
    ensures ReadsFront(s, cap)
  {
  }

  /** Whatever sizes it is read in, a steady reader delivers its one body. */
  lemma {:induction false} SteadyReads(s: Source, cap: nat)
    requires Steady(s) && cap > 0
    ensures ReadsFront(s, cap)
  {
    match s {
      case Transport(steps) => TransportReads(steps, cap);
      case Bounded(inner, left, _) =>
        SteadyReads(inner, if left <= 0 then 1 else Min(cap, left));
        BoundedReads(s, cap);
      case Limited(inner, left) =>
        if left > 0 { SteadyReads(inner, Min(cap, left)); }
        LimitedReads(s, cap);
    }
  }

  /** One read under a cap: a chunk that crosses it is withheld whole. */
  lemma CappedReads(s: Source, cap: nat, rest: Str, end: Err)
    requires s.Capped? && Layered(s) && cap > 0
    ensures var (next, data, err) := ReadFrom(s, cap);
      && (err.Nil? ==> Layered(next) && (MayDeliver(next, rest, end) ==> MayDeliver(s, data + rest, end)))
      && (!err.Nil? ==> MayDeliver(s, data, err))
  {
    SteadyReads(s.inner, cap);
  }

  /** Reading on: whatever the rest may deliver completes what this read delivered. */
  lemma LayeredReads(s: Source, cap: nat, rest: Str, end: Err)
    requires Layered(s) && cap > 0
    ensures var (next, data, err) := ReadFrom(s, cap);
      && (err.Nil? ==> Layered(next) && (MayDeliver(next, rest, end) ==> MayDeliver(s, data + rest, end)))
      && (!err.Nil? ==> MayDeliver(s, data, err))
  {
    if s.Capped? { CappedReads(s, cap, rest, end); } else { SteadyReads(s, cap); }
  }

  /** Some completion always exists. */
  lemma MayDeliverSomething(s: Source) returns (data: Str, err: Err)
    requires Layered(s)
    ensures MayDeliver(s, data, err)
  {
    if s.Capped? {
      var b := BodyOf(s.inner);
      data, err := if |b.data| <= s.left then b.data else [], if |b.data| <= s.left then b.err else ObjectTooLarge;
    } else {
      data, err := BodyOf(s).data, BodyOf(s).err;
    }
  }

  /** Under the guard's bound a store's bytes pass up to it; the first one past it is withheld, and only that trips. */
  lemma BoundTripsExactly(steps: seq<Chunk>, left: nat, cap: nat)
    requires cap > 0
    ensures var (next, data, err) := ReadFrom(Bounded(Transport(steps), left, false), cap);
      && next.Bounded? && |data| <= left && next.left == left - |data|
      && (next.tripped <==> err == ResponseTooLarge)
      && (err == ResponseTooLarge <==> left == 0 && steps != [] && steps[0].data != [])
      && (steps != [] && left > 0 ==> data <= steps[0].data)
      && (steps != [] && left > 0 && |steps[0].data| <= left && |steps[0].data| <= cap ==>
            data == steps[0].data && err == steps[0].err)
  {
  }

  // ----- The stack of a bound Get

  /** The guard's bound lies one byte past the cap above it. */
  predicate OneBeyond(s: Source) {
    s.Capped? && s.inner.Bounded? && s.left >= 0 && s.inner.left == s.left + 1 && !s.inner.tripped
  }

  /** The cap trips before the guard's bound is ever probed, whatever the chunks and the read sizes. */
  lemma GuardNeverTrips(s: Source, cap: nat)
    requires OneBeyond(s)
    ensures var (next, data, err) := ReadFrom(s, cap);
      && next.Capped? && next.inner.Bounded? && !next.inner.tripped
      && (err != ObjectTooLarge ==> OneBeyond(next))
  {
  }

  // ----- The readers as the program links them

  datatype Kind = TransportKind | BoundedKind | CappedKind | LimitedKind

  class Reader {
    const kind: Kind
    const inner: Reader?
    var steps: seq<Chunk>
    var left: int
    var tooLarge: bool
    ghost const depth: nat
    ghost const repr: set<object>

    ghost predicate Valid()
      decreases depth
    {
      && this in repr
      && (kind.TransportKind? <==> inner == null)
      && (inner != null ==>
        inner in repr && inner.repr <= repr && this !in inner.repr && inner.depth < depth && inner.Valid())
    }

    ghost function Value(): Source
      requires Valid()
      reads repr
      decreases depth
    {
      match kind
      case TransportKind => Transport(steps)
      case BoundedKind => Bounded(inner.Value(), left, tooLarge)
      case CappedKind => Capped(inner.Value(), left)
      case LimitedKind => Limited(inner.Value(), left)
    }

    constructor FromTransport(steps: seq<Chunk>)
      ensures Valid() && fresh(repr) && Value() == Transport(steps)
    {
      kind, inner, this.steps, left, tooLarge := TransportKind, null, steps, 0, false;
      depth, repr := 0, {this};
    }

    constructor Over(kind: Kind, inner: Reader, left: int)
      requires inner.Valid() && !kind.TransportKind?
      ensures Valid() && repr == inner.repr + {this}
      ensures Value() == match kind
        case BoundedKind => Bounded(inner.Value(), left, false)
        case CappedKind => Capped(inner.Value(), left)
        case LimitedKind => Limited(inner.Value(), left)
    {
      this.kind, this.inner, steps, this.left, tooLarge := kind, inner, [], left, false;
      depth, repr := inner.depth + 1, inner.repr + {this};
    }

    method Read(cap: nat) returns (data: Str, err: Err)
      requires Valid()
      modifies repr
      ensures (Value(), data, err) == ReadFrom(old(Value()), cap)
      decreases depth
    {
      match kind {
        case TransportKind =>
          if steps == [] {
            return [], EOF;
          }
          var step := steps[0];
          if |step.data| <= cap {
            steps := steps[1..];
            return step.data, step.err;
          }
          steps := [Chunk(step.data[cap..], step.err)] + steps[1..];
          return step.data[..cap], Nil;
        case BoundedKind =>
          if left <= 0 {
            data, err := inner.Read(1);
            if data == [] {
              return [], err;
            }
            tooLarge := true;
            return [], ResponseTooLarge;
          }
          var room := if cap > left then left else cap;
          data, err := inner.Read(room);
          left := left - |data|;
        case CappedKind =>
          data, err := inner.Read(cap);
          left := left - |data|;
          if left < 0 {
            return [], ObjectTooLarge;
          }
        case LimitedKind =>
          if left <= 0 {
            return [], EOF;
          }
          var room := if cap > left then left else cap;
          data, err := inner.Read(room);
          left := left - |data|;
      }
    }
  }

  /** io.ReadAll, with buffers of any sizes: a steady reader's whole body, or its error. */
  method ReadAll(body: Reader) returns (buf: Str, rerr: Err)
    requires body.Valid() && Steady(body.Value())
    modifies body.repr
    ensures var b := BodyOf(old(body.Value()));
      buf == b.data && rerr == if b.err == EOF then Nil else b.err
  {
    buf := [];
    ghost var b := BodyOf(body.Value());
    while true
      invariant Steady(body.Value())
      invariant b == Body(buf + BodyOf(body.Value()).data, BodyOf(body.Value()).err, BodyOf(body.Value()).joined)
      decreases Measure(body.Value())
    {
      var cap: nat :| cap > 0;
      SteadyReads(body.Value(), cap);
      ReadProgresses(body.Value(), cap);
      var got;
      got, rerr := body.Read(cap);
      assert rerr.Nil? ==> buf + (got + BodyOf(body.Value()).data) == buf + got + BodyOf(body.Value()).data;
      buf := buf + got;
      if rerr == EOF {
        return buf, Nil;
      }
      if rerr != Nil {
        return;
      }
    }
  }
}
