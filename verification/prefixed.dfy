/** A backend confined to one key prefix, and why it cannot be told from a smaller store. */
module Prefixed {
  import opened Strings
  import opened Store
  import opened Requests
  import Mem
  import Paging

  // ----- The wrapper's rewriting

  /** strings.TrimPrefix. */
  function Strip(p: Str, k: Str): Str {
    if p <= k then k[|p|..] else k
  }

  function StripInfo(p: Str, info: Info): Info {
    info.(key := Strip(p, info.key))
  }

  function StripInfos(p: Str, infos: seq<Info>): seq<Info> {
    seq(|infos|, i requires 0 <= i < |infos| => StripInfo(p, infos[i]))
  }

  function StripAll(p: Str, ks: seq<Str>): seq<Str> {
    seq(|ks|, i requires 0 <= i < |ks| => Strip(p, ks[i]))
  }

  function UnderAll(p: Str, ks: seq<Str>): seq<Str> {
    seq(|ks|, i requires 0 <= i < |ks| => p + ks[i])
  }

  /** The wrapper on a multi-object backend: each method joins keys going in and strips them coming out. */
  class Wrapper {
    const inner: Mem.Backend
    const prefix: Str

    constructor (inner: Mem.Backend, prefix: Str)
      ensures this.inner == inner && this.prefix == prefix
    {
      this.inner := inner;
      this.prefix := prefix;
    }

    method Stat(key: Str) returns (reply: StatReply)
      ensures (inner.objs, Stated(reply)) == Do(inner.digest, prefix, inner.objs, OpStat(key))
    {
      reply := inner.Stat(prefix + key);
      if reply.Described? {
        reply := Described(StripInfo(prefix, reply.info));
      }
    }

    method Get(key: Str, opts: GetOptions) returns (reply: GetReply)
      ensures (inner.objs, Got(reply)) == Do(inner.digest, prefix, inner.objs, OpGet(key, opts))
    {
      reply := inner.Get(prefix + key, opts);
      if reply.Found? || reply.NotModified? {
        reply := reply.(info := StripInfo(prefix, reply.info));
      }
    }

    method Put(key: Str, body: Option<Str>, opts: PutOptions, now: Time) returns (reply: PutReply)
      modifies inner
      ensures (inner.objs, Wrote(reply)) == Do(inner.digest, prefix, old(inner.objs), OpPut(key, body, opts, now))
    {
      reply := inner.Put(prefix + key, body, opts, now);
    }

    method Delete(key: Str, ifMatch: Str) returns (reply: DeleteReply)
      modifies inner
      ensures (inner.objs, Removed(reply)) == Do(inner.digest, prefix, old(inner.objs), OpDelete(key, ifMatch))
    {
      reply := inner.Delete(prefix + key, ifMatch);
    }

    method DeleteMany(keys: seq<Str>) returns (entries: seq<DeleteEntry>)
      modifies inner
      ensures (inner.objs, RemovedMany(entries)) == Do(inner.digest, prefix, old(inner.objs), OpDeleteMany(keys))
    {
      var full: seq<Str> := [];
      for i := 0 to |keys|
        invariant full == UnderAll(prefix, keys[..i])
      {
        full := full + [prefix + keys[i]];
      }
      assert keys[..|keys|] == keys;
      entries := inner.DeleteMany(full);
      for i := 0 to |entries|
        invariant |entries| == |keys|
        invariant forall j :: 0 <= j < |entries| ==>
          entries[j] == DeleteEntry(if j < i then Strip(prefix, full[j]) else full[j], false)
      {
        entries := entries[i := entries[i].(key := Strip(prefix, entries[i].key))];
      }
      assert entries == StripEntries(prefix, Store.DeleteMany(old(inner.objs), full).1);
    }

    method Copy(src: Str, dst: Str, ifNoneMatch: Str, now: Time) returns (reply: PutReply)
      modifies inner
      ensures (inner.objs, Wrote(reply)) ==
        Do(inner.digest, prefix, old(inner.objs), OpCopy(src, dst, ifNoneMatch, now))
    {
      reply := inner.Copy(prefix + src, prefix + dst, ifNoneMatch, now);
    }

    method List(opts: ListOptions) returns (page: Page)
      ensures (inner.objs, Listed(page)) == Do(inner.digest, prefix, inner.objs, OpList(opts))
    {
      page := inner.List(opts.(prefix := prefix + opts.prefix));
      var objects := StripEach(page.objects);
      var prefixes := StripEachPrefix(page.prefixes);
      page := Page(objects, prefixes, page.next);
    }

    method StripEach(infos: seq<Info>) returns (objects: seq<Info>)
      ensures objects == StripInfos(prefix, infos)
    {
      objects := infos;
      for i := 0 to |objects|
        invariant |objects| == |infos|
        invariant forall j :: 0 <= j < |objects| ==>
          objects[j] == if j < i then StripInfo(prefix, infos[j]) else infos[j]
      {
        objects := objects[i := StripInfo(prefix, objects[i])];
      }
    }

    method StripEachPrefix(cps: seq<Str>) returns (prefixes: seq<Str>)
      ensures prefixes == StripAll(prefix, cps)
    {
      prefixes := cps;
      for i := 0 to |prefixes|
        invariant |prefixes| == |cps|
        invariant forall j :: 0 <= j < |prefixes| ==> prefixes[j] == if j < i then Strip(prefix, cps[j]) else cps[j]
      {
        prefixes := prefixes[i := Strip(prefix, prefixes[i])];
      }
    }
  }

  // ----- The wrapper on one request

  function StripEntries(p: Str, entries: seq<DeleteEntry>): seq<DeleteEntry> {
    seq(|entries|, i requires 0 <= i < |entries| => entries[i].(key := Strip(p, entries[i].key)))
  }

  function JoinKeys(p: Str, op: Op): Op {
    match op
    case OpStat(key) => OpStat(p + key)
    case OpGet(key, opts) => OpGet(p + key, opts)
    case OpPut(key, body, opts, now) => OpPut(p + key, body, opts, now)
    case OpDelete(key, ifMatch) => OpDelete(p + key, ifMatch)
    case OpDeleteMany(keys) => OpDeleteMany(UnderAll(p, keys))
    case OpCopy(src, dst, ifNoneMatch, now) => OpCopy(p + src, p + dst, ifNoneMatch, now)
    case OpList(opts) => OpList(opts.(prefix := p + opts.prefix))
  }

  function StripKeys(p: Str, reply: Reply): Reply {
    match reply
    case Stated(Described(info)) => Stated(Described(StripInfo(p, info)))
    case Got(Found(info, body)) => Got(Found(StripInfo(p, info), body))
    case Got(NotModified(info)) => Got(NotModified(StripInfo(p, info)))
    case RemovedMany(entries) => RemovedMany(StripEntries(p, entries))
    case Listed(page) => Listed(Page(StripInfos(p, page.objects), StripAll(p, page.prefixes), page.next))
    case _ => reply
  }

  /** The wrapper: the inner store's answer to the joined request, stripped. */
  ghost function Do(digest: Str -> Str, p: Str, m: Objects, op: Op): (Objects, Reply) {
    var (m', reply) := Serve(digest, m, JoinKeys(p, op));
    (m', StripKeys(p, reply))
  }

  // ----- The smaller store

  function Relative(m: Objects, p: Str): set<Str> {
    set k | k in m && p <= k :: k[|p|..]
  }

  /** The objects under p, filed by what follows it. */
  function View(m: Objects, p: Str): Objects {
    map k | k in Relative(m, p) && p + k in m :: m[p + k].(info := StripInfo(p, m[p + k].info))
  }

  lemma InView(m: Objects, p: Str, k: Str)
    ensures k in View(m, p) <==> p + k in m
    ensures k in View(m, p) ==> View(m, p)[k] == m[p + k].(info := StripInfo(p, m[p + k].info))
  {
    if p + k in m {
      assert (p + k)[|p|..] == k;
      assert k in Relative(m, p);
    }
  }

  function TokenUnder(p: Str, t: Token): Token {
    if t.After? then After(p + t.key) else t
  }

  /** The request that asks the wrapper what op asks the smaller store: only a page token differs. */
  function RequestUnder(p: Str, op: Op): Op {
    if op.OpList? then OpList(op.list.(token := TokenUnder(p, op.list.token))) else op
  }

  function ReplyUnder(p: Str, reply: Reply): Reply {
    if reply.Listed? then Listed(reply.page.(next := TokenUnder(p, reply.page.next))) else reply
  }

  /** Nothing outside p differs between two stores. */
  ghost predicate SameOutside(p: Str, a: Objects, b: Objects) {
    forall k :: !(p <= k) ==> (k in a <==> k in b) && (k in a ==> a[k] == b[k])
  }

  lemma ViewEqual(m: Objects, p: Str, v: Objects)
    requires forall k :: (k in v <==> p + k in m) && (k in v ==> v[k] == m[p + k].(info := StripInfo(p, m[p + k].info)))
    ensures View(m, p) == v
  {
    forall k ensures k in View(m, p) <==> k in v { InView(m, p, k); }
    forall k | k in v ensures View(m, p)[k] == v[k] { InView(m, p, k); }
  }

  // ----- Single-key operations

  lemma StoreUnder(p: Str, m: Objects, key: Str, o: Object)
    ensures View(m[p + key := o], p) == View(m, p)[key := o.(info := StripInfo(p, o.info))]
    ensures SameOutside(p, m, m[p + key := o])
  {
    var m', v := m[p + key := o], View(m, p)[key := o.(info := StripInfo(p, o.info))];
    forall k
      ensures (k in v <==> p + k in m') && (k in v ==> v[k] == m'[p + k].(info := StripInfo(p, m'[p + k].info))) {
      InView(m, p, k);
      assert p + k == p + key <==> k == key by { assert (p + k)[|p|..] == k && (p + key)[|p|..] == key; }
    }
    ViewEqual(m', p, v);
  }

  /** Whether a put is accepted depends only on the object under its key, of which the two stores know the same. */
  predicate Accepts(m: Objects, key: Str, body: Option<Str>, opts: PutOptions) {
    && body.Some?
    && !(opts.ifNoneMatch == STAR && key in m)
    && !(opts.ifMatch != [] && (key !in m || m[key].info.etag != opts.ifMatch))
  }

  lemma AcceptsUnder(p: Str, m: Objects, key: Str, body: Option<Str>, opts: PutOptions)
    ensures Accepts(View(m, p), key, body, opts) <==> Accepts(m, p + key, body, opts)
  {
    InView(m, p, key);
  }

  lemma AcceptedPut(digest: Str -> Str, p: Str, m: Objects, key: Str, body: Option<Str>, opts: PutOptions, now: Time)
    requires Accepts(m, p + key, body, opts)
    ensures var (m', r) := Store.Put(digest, m, p + key, body, opts, now);
      Store.Put(digest, View(m, p), key, body, opts, now) == (View(m', p), r) && SameOutside(p, m, m')
  {
    AcceptsUnder(p, m, key, body, opts);
    var info := Info(p + key, EtagOf(digest, body.value), |body.value|, now, opts.attrs);
    assert StripInfo(p, info) == info.(key := key) by { assert (p + key)[|p|..] == key; }
    StoreUnder(p, m, key, Object(body.value, info));
  }

  lemma PutUnder(digest: Str -> Str, p: Str, m: Objects, key: Str, body: Option<Str>, opts: PutOptions, now: Time)
    ensures var (m', r) := Store.Put(digest, m, p + key, body, opts, now);
      Store.Put(digest, View(m, p), key, body, opts, now) == (View(m', p), r) && SameOutside(p, m, m')
  {
    if Accepts(m, p + key, body, opts) {
      AcceptedPut(digest, p, m, key, body, opts, now);
    } else {
      InView(m, p, key);
    }
  }

  lemma CopyUnder(p: Str, m: Objects, src: Str, dst: Str, ifNoneMatch: Str, now: Time)
    ensures var (m', r) := Store.Copy(m, p + src, p + dst, ifNoneMatch, now);
      Store.Copy(View(m, p), src, dst, ifNoneMatch, now) == (View(m', p), r) && SameOutside(p, m, m')
  {
    InView(m, p, src);
    InView(m, p, dst);
    if Store.Copy(m, p + src, p + dst, ifNoneMatch, now).1.Stored? {
      var info := m[p + src].info.(key := p + dst, modified := now);
      assert StripInfo(p, info) == info.(key := dst) by { assert (p + dst)[|p|..] == dst; }
      StoreUnder(p, m, dst, Object(m[p + src].data, info));
    }
  }

  lemma KeyRemovedUnder(p: Str, m: Objects, keys: seq<Str>, gone: set<Str>, k: Str)
    requires forall x :: x in gone <==> x in UnderAll(p, keys)
    ensures p + k in m - gone <==> k in View(m, p) && k !in keys
  {
    MemberUnder(p, keys, k);
    InView(m, p, k);
  }

  lemma RemoveUnder(p: Str, m: Objects, keys: seq<Str>)
    ensures View(m - (set k | k in UnderAll(p, keys)), p) == View(m, p) - (set k | k in keys)
    ensures SameOutside(p, m, m - (set k | k in UnderAll(p, keys)))
  {
    var gone := set k | k in UnderAll(p, keys);
    var v := View(m, p) - set k | k in keys;
    forall k
      ensures (k in v <==> p + k in m - gone) &&
        (k in v ==> v[k] == (m - gone)[p + k].(info := StripInfo(p, (m - gone)[p + k].info))) {
      KeyRemovedUnder(p, m, keys, gone, k);
      InView(m, p, k);
    }
    ViewEqual(m - gone, p, v);
    forall x | x in gone ensures p <= x {
      var i :| 0 <= i < |keys| && UnderAll(p, keys)[i] == x;
    }
  }

  lemma DeleteUnder(p: Str, m: Objects, key: Str, ifMatch: Str)
    ensures var (m', r) := Store.Delete(m, p + key, ifMatch);
      Store.Delete(View(m, p), key, ifMatch) == (View(m', p), r) && SameOutside(p, m, m')
  {
    InView(m, p, key);
    RemoveUnder(p, m, [key]);
    assert UnderAll(p, [key]) == [p + key];
    assert (set k | k in UnderAll(p, [key])) == {p + key} && (set k | k in [key]) == {key};
  }

  // ----- Listing

  lemma PendingUnder(p: Str, m: Objects, prefix: Str, token: Token)
    ensures Pending(m, p + prefix, TokenUnder(p, token)) == UnderAll(p, Pending(View(m, p), prefix, token))
  {
    var small := Pending(View(m, p), prefix, token);
    var s := set k | k in Matching(m, p + prefix) &&
      (TokenUnder(p, token).After? ==> Less(TokenUnder(p, token).key, k));
    var under := UnderAll(p, small);
    forall i, j | 0 <= i < j < |under| ensures Less(under[i], under[j]) { LessUnderPrefix(p, small[i], small[j]); }
    forall x ensures x in under <==> x in s {
      if x in under {
        var i :| 0 <= i < |small| && under[i] == x;
        assert small[i] in small;
        UnderMatches(p, m, prefix, token, small[i]);
      }
      if x in s {
        var k := x[|p|..];
        assert p <= p + prefix <= x;
        assert x == p + k;
        UnderMatches(p, m, prefix, token, k);
        Paging.PendingHas(View(m, p), ListOptions(prefix, [], token, 0), k);
        var i :| 0 <= i < |small| && small[i] == k;
        assert under[i] == x;
      }
    }
    EnumerationUnique(under, Sorted(s), s);
  }

  lemma UnderMatches(p: Str, m: Objects, prefix: Str, token: Token, k: Str)
    ensures (k in View(m, p) && prefix <= k && Paging.Past(token, k))
      <==> (p + k in m && p + prefix <= p + k && Paging.Past(TokenUnder(p, token), p + k))
  {
    InView(m, p, k);
    if token.After? { LessUnderPrefix(p, token.key, k); }
    if prefix <= k { assert p + k == p + prefix + k[|prefix|..]; }
    if p + prefix <= p + k { assert (p + k)[..|p + prefix|][|p|..] == k[..|prefix|]; }
  }

  lemma FoldUnder(p: Str, k: Str, prefix: Str, delimiter: Str)
    requires prefix <= k
    ensures Fold(p + k, p + prefix, delimiter) == match Fold(k, prefix, delimiter)
      case None => None
      case Some(cp) => Some(p + cp)
  {
    assert p + k == p + prefix + k[|prefix|..];
    assert (p + k)[|p + prefix|..] == k[|prefix|..];
    if delimiter != [] {
      match Index(k[|prefix|..], delimiter) {
        case None =>
        case Some(i) =>
          assert p + prefix + k[|prefix|..][..i + |delimiter|] == p + (prefix + k[|prefix|..][..i + |delimiter|]);
      }
    }
  }

  lemma {:induction false} EntriesUnder(p: Str, ks: seq<Str>, prefix: Str, delimiter: Str)
    requires forall i :: 0 <= i < |ks| ==> prefix <= ks[i]
    ensures Unfolded(UnderAll(p, ks), p + prefix, delimiter) == UnderAll(p, Unfolded(ks, prefix, delimiter))
    ensures Folds(UnderAll(p, ks), p + prefix, delimiter) == UnderAll(p, Folds(ks, prefix, delimiter))
  {
    if ks != [] {
      var init, k := ks[..|ks| - 1], ks[|ks| - 1];
      assert ks == init + [k];
      assert UnderAll(p, ks)[..|ks| - 1] == UnderAll(p, init);
      EntriesUnder(p, init, prefix, delimiter);
      FoldUnder(p, k, prefix, delimiter);
      var seen := Folds(init, prefix, delimiter);
      if Fold(k, prefix, delimiter).Some? {
        MemberUnder(p, seen, Fold(k, prefix, delimiter).value);
      }
    }
  }

  lemma MemberUnder(p: Str, ks: seq<Str>, k: Str)
    ensures p + k in UnderAll(p, ks) <==> k in ks
  {
    if k in ks {
      var i :| 0 <= i < |ks| && ks[i] == k;
      assert UnderAll(p, ks)[i] == p + k;
    }
    if p + k in UnderAll(p, ks) {
      var i :| 0 <= i < |ks| && UnderAll(p, ks)[i] == p + k;
      assert (p + ks[i])[|p|..] == ks[i] && (p + k)[|p|..] == k;
    }
  }

  lemma {:induction false} CutUnder(p: Str, ks: seq<Str>, from: nat, prefix: Str, delimiter: Str, limit: int)
    requires from <= |ks| && forall i :: 0 <= i < |ks| ==> prefix <= ks[i]
    ensures Cut(UnderAll(p, ks), from, p + prefix, delimiter, limit) == Cut(ks, from, prefix, delimiter, limit)
    decreases |ks| - from
  {
    assert UnderAll(p, ks)[..from] == UnderAll(p, ks[..from]);
    EntriesUnder(p, ks[..from], prefix, delimiter);
    if from < |ks| { CutUnder(p, ks, from + 1, prefix, delimiter, limit); }
  }

  /** What one snapshot knows of p + k is what the other knows of k, but for the prefix. */
  predicate KnownAlike(p: Str, outer: map<Str, Info>, inner: map<Str, Info>, k: Str) {
    (p + k in outer <==> k in inner) && (k in inner ==> inner[k] == StripInfo(p, outer[p + k]))
  }

  lemma {:induction false} InfosAlike(p: Str, outer: map<Str, Info>, inner: map<Str, Info>, ks: seq<Str>)
    requires forall i :: 0 <= i < |ks| ==> KnownAlike(p, outer, inner, ks[i])
    ensures StripInfos(p, InfosOf(outer, UnderAll(p, ks))) == InfosOf(inner, ks)
  {
    if ks != [] {
      var init, k := ks[..|ks| - 1], ks[|ks| - 1];
      assert UnderAll(p, ks)[..|ks| - 1] == UnderAll(p, init);
      InfosAlike(p, outer, inner, init);
      assert KnownAlike(p, outer, inner, k);
    }
  }

  lemma JoinedPrefix(p: Str, prefix: Str, k: Str)
    requires prefix <= k
    ensures p + prefix <= p + k
  {
    assert p + k == p + prefix + k[|prefix|..];
  }

  lemma SnapshotUnder(p: Str, m: Objects, prefix: Str, k: Str)
    requires prefix <= k
    ensures KnownAlike(p, Snapshot(m, p + prefix), Snapshot(View(m, p), prefix), k)
  {
    InView(m, p, k);
    JoinedPrefix(p, prefix, k);
  }

  lemma InfosUnder(p: Str, m: Objects, ks: seq<Str>, prefix: Str)
    requires forall i :: 0 <= i < |ks| ==> prefix <= ks[i]
    ensures StripInfos(p, InfosOf(Snapshot(m, p + prefix), UnderAll(p, ks))) ==
      InfosOf(Snapshot(View(m, p), prefix), ks)
  {
    var outer, inner := Snapshot(m, p + prefix), Snapshot(View(m, p), prefix);
    forall i | 0 <= i < |ks| ensures KnownAlike(p, outer, inner, ks[i]) {
      SnapshotUnder(p, m, prefix, ks[i]);
    }
    InfosAlike(p, outer, inner, ks);
  }

  lemma UnfoldedStart(ks: seq<Str>, prefix: Str, delimiter: Str)
    requires forall i :: 0 <= i < |ks| ==> prefix <= ks[i]
    ensures var us := Unfolded(ks, prefix, delimiter); forall i :: 0 <= i < |us| ==> prefix <= us[i]
  {
    UnfoldedAreKeys(ks, prefix, delimiter);
    var us := Unfolded(ks, prefix, delimiter);
    forall i | 0 <= i < |us| ensures prefix <= us[i] {
      assert us[i] in us;
      var j :| 0 <= j < |ks| && ks[j] == us[i];
    }
  }

  lemma StripUnder(p: Str, ks: seq<Str>)
    ensures StripAll(p, UnderAll(p, ks)) == ks
  {
  }

  /**
   The wrapper's page is the smaller store's, except for a token at the empty key, which only the wrapper can name.
   */
  lemma ListUnder(p: Str, m: Objects, opts: ListOptions)
    requires p != []
    ensures var page := Store.List(View(m, p), opts);
      var outer := Store.List(m, opts.(prefix := p + opts.prefix, token := TokenUnder(p, opts.token)));
      && StripInfos(p, outer.objects) == page.objects
      && StripAll(p, outer.prefixes) == page.prefixes
      && outer.next == if Paging.EndsEarly(View(m, p), opts) then After(p) else TokenUnder(p, page.next)
  {
    var v := View(m, p);
    var ks := Pending(v, opts.prefix, opts.token);
    forall j | 0 <= j < |ks| ensures opts.prefix <= ks[j] {
      assert ks[j] in ks;
      Paging.PendingHas(v, opts, ks[j]);
    }
    PendingUnder(p, m, opts.prefix, opts.token);
    PageUnder(p, m, ks, opts);
    TokenAtUnder(p, ks, opts);
    NextUnder(p, m, opts);
  }

  lemma PageUnder(p: Str, m: Objects, ks: seq<Str>, opts: ListOptions)
    requires forall i :: 0 <= i < |ks| ==> opts.prefix <= ks[i]
    ensures var outer := PageOf(Snapshot(m, p + opts.prefix), UnderAll(p, ks),
      opts.(prefix := p + opts.prefix, token := TokenUnder(p, opts.token)));
      var page := PageOf(Snapshot(View(m, p), opts.prefix), ks, opts);
      && StripInfos(p, outer.objects) == page.objects
      && StripAll(p, outer.prefixes) == page.prefixes
  {
    var i := Cut(ks, 0, opts.prefix, opts.delimiter, PageLimit(opts.limit));
    CutUnder(p, ks, 0, opts.prefix, opts.delimiter, PageLimit(opts.limit));
    assert UnderAll(p, ks)[..i] == UnderAll(p, ks[..i]);
    RunUnder(p, m, ks[..i], opts.prefix, opts.delimiter);
  }

  lemma TokenAtUnder(p: Str, ks: seq<Str>, opts: ListOptions)
    requires p != []
    requires forall i :: 0 <= i < |ks| ==> opts.prefix <= ks[i]
    ensures TokenAt(UnderAll(p, ks), Cut(UnderAll(p, ks), 0, p + opts.prefix, opts.delimiter, PageLimit(opts.limit)))
      == var i := Cut(ks, 0, opts.prefix, opts.delimiter, PageLimit(opts.limit));
         if 0 < i < |ks| then After(p + ks[i - 1]) else NoToken
  {
    CutUnder(p, ks, 0, opts.prefix, opts.delimiter, PageLimit(opts.limit));
  }

  /** What a run of keys puts on a page. */
  lemma RunUnder(p: Str, m: Objects, ks: seq<Str>, prefix: Str, delimiter: Str)
    requires forall i :: 0 <= i < |ks| ==> prefix <= ks[i]
    ensures StripInfos(p, InfosOf(Snapshot(m, p + prefix), Unfolded(UnderAll(p, ks), p + prefix, delimiter)))
      == InfosOf(Snapshot(View(m, p), prefix), Unfolded(ks, prefix, delimiter))
    ensures StripAll(p, Folds(UnderAll(p, ks), p + prefix, delimiter)) == Folds(ks, prefix, delimiter)
  {
    EntriesUnder(p, ks, prefix, delimiter);
    UnfoldedStart(ks, prefix, delimiter);
    InfosUnder(p, m, Unfolded(ks, prefix, delimiter), prefix);
    StripUnder(p, Folds(ks, prefix, delimiter));
  }

  lemma NextUnder(p: Str, m: Objects, opts: ListOptions)
    requires p != []
    ensures var v := View(m, p);
      var ks := Pending(v, opts.prefix, opts.token);
      var i := Cut(ks, 0, opts.prefix, opts.delimiter, PageLimit(opts.limit));
      (if 0 < i < |ks| then After(p + ks[i - 1]) else NoToken)
        == if Paging.EndsEarly(v, opts) then After(p) else TokenUnder(p, Store.List(v, opts).next)
  {
    var v := View(m, p);
    if Paging.EndsEarly(v, opts) {
      var other := Paging.EmptyKeyFirst(v, opts);
      Paging.OneEntry(Pending(v, opts.prefix, opts.token), opts.delimiter);
      assert p + [] == p;
    } else if Paging.Left(v, opts) != [] {
      Paging.TokenSeparates(v, opts);
      if Store.List(v, opts).next.NoToken? { Paging.EmptyLastKey(v, opts); }
    }
  }

  // ----- Bisimulation

  /** A listing through the wrapper answers as the smaller store's does unless that stops at its empty key. */
  lemma ListStepUnder(p: Str, m: Objects, opts: ListOptions)
    requires p != []
    ensures var outer := Store.List(m, opts.(prefix := p + opts.prefix, token := TokenUnder(p, opts.token)));
      StripKeys(p, Listed(outer)) == ReplyUnder(p, Listed(Store.List(View(m, p), opts))) <==>
        !Paging.EndsEarly(View(m, p), opts)
  {
    ListUnder(p, m, opts);
    if Paging.EndsEarly(View(m, p), opts) { Paging.EarlyIsIncomplete(View(m, p), opts); }
  }

  /** The wrapper over m and the smaller store take one request in step, and nothing outside p is touched. */
  ghost predicate InStep(digest: Str -> Str, p: Str, m: Objects, op: Op) {
    var (m', reply) := Do(digest, p, m, RequestUnder(p, op));
    var (v', plain) := Serve(digest, View(m, p), op);
    && View(m', p) == v'
    && SameOutside(p, m, m')
    && (reply == ReplyUnder(p, plain) <==> !(op.OpList? && Paging.EndsEarly(View(m, p), op.list)))
  }

  lemma StripDeleted(p: Str, m: Objects, v: Objects, keys: seq<Str>)
    ensures StripEntries(p, Store.DeleteMany(m, UnderAll(p, keys)).1) == Store.DeleteMany(v, keys).1
  {
    var entries := Store.DeleteMany(m, UnderAll(p, keys)).1;
    forall i | 0 <= i < |keys| ensures StripEntries(p, entries)[i] == DeleteEntry(keys[i], false) {
      assert entries[i].key == p + keys[i];
    }
  }

  lemma DeleteManyStep(digest: Str -> Str, p: Str, m: Objects, keys: seq<Str>)
    ensures InStep(digest, p, m, OpDeleteMany(keys))
  {
    RemoveUnder(p, m, keys);
    StripDeleted(p, m, View(m, p), keys);
  }

  lemma ReadStep(digest: Str -> Str, p: Str, m: Objects, op: Op)
    requires op.OpStat? || op.OpGet?
    ensures InStep(digest, p, m, op)
  {
    InView(m, p, op.key);
  }

  lemma PutStep(digest: Str -> Str, p: Str, m: Objects, op: Op)
    requires op.OpPut?
    ensures InStep(digest, p, m, op)
  {
    PutUnder(digest, p, m, op.key, op.body, op.put, op.now);
  }

  lemma DeleteStep(digest: Str -> Str, p: Str, m: Objects, op: Op)
    requires op.OpDelete?
    ensures InStep(digest, p, m, op)
  {
    DeleteUnder(p, m, op.key, op.ifMatch);
    var (m', r) := Store.Delete(m, p + op.key, op.ifMatch);
    assert RequestUnder(p, op) == op && Do(digest, p, m, op) == (m', Removed(r));
    assert Serve(digest, View(m, p), op) == (View(m', p), Removed(r));
  }

  lemma CopyStep(digest: Str -> Str, p: Str, m: Objects, op: Op)
    requires op.OpCopy?
    ensures InStep(digest, p, m, op)
  {
    CopyUnder(p, m, op.src, op.dst, op.ifNoneMatch, op.now);
  }

  lemma StepUnder(digest: Str -> Str, p: Str, m: Objects, op: Op)
    requires p != []
    ensures InStep(digest, p, m, op)
  {
    if op.OpList? {
      ListStepUnder(p, m, op.list);
    } else if op.OpDeleteMany? {
      DeleteManyStep(digest, p, m, op.keys);
    } else if op.OpStat? || op.OpGet? {
      ReadStep(digest, p, m, op);
    } else if op.OpPut? {
      PutStep(digest, p, m, op);
    } else if op.OpDelete? {
      DeleteStep(digest, p, m, op);
    } else {
      CopyStep(digest, p, m, op);
    }
  }

  ghost function WrappedRun(digest: Str -> Str, p: Str, m: Objects, ops: seq<Op>): (Objects, seq<Reply>)
    decreases |ops|
  {
    if ops == [] then
      (m, [])
    else
      var (m1, r) := Do(digest, p, m, ops[0]);
      var (m2, rs) := WrappedRun(digest, p, m1, ops[1..]);
      (m2, [r] + rs)
  }

  function AllUnder(p: Str, ops: seq<Op>): seq<Op> {
    if ops == [] then [] else [RequestUnder(p, ops[0])] + AllUnder(p, ops[1..])
  }

  function RepliesUnder(p: Str, replies: seq<Reply>): seq<Reply> {
    if replies == [] then [] else [ReplyUnder(p, replies[0])] + RepliesUnder(p, replies[1..])
  }

  /** Some listing in the run stops at the smaller store's empty key. */
  ghost predicate SomeEndsEarly(digest: Str -> Str, v: Objects, ops: seq<Op>)
    decreases |ops|
  {
    ops != [] &&
      ((ops[0].OpList? && Paging.EndsEarly(v, ops[0].list)) ||
        SomeEndsEarly(digest, Serve(digest, v, ops[0]).0, ops[1..]))
  }

  /**
   Whole runs: the prefixed store and the store of relative keys stay in step for ever and give the same answers, up to
   the prefix inside page tokens, exactly when no listing stops at the empty relative key; keys outside never change.
   */
  lemma {:induction false} PrefixRefinement(digest: Str -> Str, p: Str, m: Objects, ops: seq<Op>)
    requires p != []
    ensures var (m', replies) := WrappedRun(digest, p, m, AllUnder(p, ops));
      var (v', plain) := Run(digest, View(m, p), ops);
      && View(m', p) == v'
      && SameOutside(p, m, m')
      && (replies == RepliesUnder(p, plain) <==> !SomeEndsEarly(digest, View(m, p), ops))
    decreases |ops|
  {
    if ops != [] {
      StepUnder(digest, p, m, ops[0]);
      var (m1, r) := Do(digest, p, m, RequestUnder(p, ops[0]));
      var (v1, s) := Serve(digest, View(m, p), ops[0]);
      PrefixRefinement(digest, p, m1, ops[1..]);
      assert AllUnder(p, ops)[0] == RequestUnder(p, ops[0]) && AllUnder(p, ops)[1..] == AllUnder(p, ops[1..]);
      var rs, ss := WrappedRun(digest, p, m1, AllUnder(p, ops[1..])).1, Run(digest, v1, ops[1..]).1;
      assert ([s] + ss)[1..] == ss;
      assert [r] + rs == [ReplyUnder(p, s)] + RepliesUnder(p, ss) <==>
        r == ReplyUnder(p, s) && rs == RepliesUnder(p, ss) by {
        assert ([r] + rs)[1..] == rs && ([ReplyUnder(p, s)] + RepliesUnder(p, ss))[1..] == RepliesUnder(p, ss);
        assert ([r] + rs)[0] == r && ([ReplyUnder(p, s)] + RepliesUnder(p, ss))[0] == ReplyUnder(p, s);
      }
    }
  }
}
