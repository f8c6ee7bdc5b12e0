/** The in-memory object store as values: what each backend operation does to the map of objects. */
module Store {
  import opened Strings

  type Time = int // 0 is the zero time

  datatype Attrs = Attrs(contentType: Str, contentEncoding: Str, cacheControl: Str, userMetadata: map<Str, Str>)
  datatype Info = Info(key: Str, etag: Str, size: int, modified: Time, attrs: Attrs)
  datatype Object = Object(data: Str, info: Info)
  type Objects = map<Str, Object>

  datatype Code = Internal | NotFound | AlreadyExists | PreconditionFailed | InvalidArgument

  datatype ByteRange = ByteRange(offset: int64, length: int64)
  newtype int64 = x: int | -0x8000_0000_0000_0000 <= x < 0x8000_0000_0000_0000

  datatype GetOptions = GetOptions(range: Option<ByteRange>, ifNoneMatch: Str, ifMatch: Str, ifModifiedSince: Time)
  datatype PutOptions = PutOptions(attrs: Attrs, ifNoneMatch: Str, ifMatch: Str)
  datatype ListOptions = ListOptions(prefix: Str, delimiter: Str, token: Token, limit: int)

  /** A page token by what its base64url text decodes to: absent, a key, or nothing. */
  datatype Token = NoToken | After(key: Str) | Undecodable

  datatype GetReply = Found(info: Info, body: Str) | NotModified(info: Info) | GetFailed(code: Code) | GetPanics
  datatype StatReply = Described(info: Info) | StatFailed(code: Code)
  datatype PutReply = Stored(etag: Str) | PutFailed(code: Code)
  datatype DeleteReply = Deleted | DeleteFailed(code: Code)
  datatype DeleteEntry = DeleteEntry(key: Str, failed: bool)
  datatype Page = Page(objects: seq<Info>, prefixes: seq<Str>, next: Token)

  const STAR: Str := [42]
  const QUOTE: Str := [34]

  /** The strong validator: the quoted hex digest, so never the empty string. */
  function EtagOf(digest: Str -> Str, data: Str): (e: Str)
    ensures e != []
  {
    QUOTE + digest(data) + QUOTE
  }

  /** No two contents share a digest. */
  ghost predicate CollisionFree(digest: Str -> Str) {
    forall a, b :: digest(a) == digest(b) ==> a == b
  }

  lemma EtagIdentifiesContent(digest: Str -> Str, a: Str, b: Str)
    requires CollisionFree(digest)
    ensures EtagOf(digest, a) == EtagOf(digest, b) <==> a == b
  {
    if EtagOf(digest, a) == EtagOf(digest, b) {
      var x, y := EtagOf(digest, a), EtagOf(digest, b);
      assert x[1..|x| - 1] == digest(a) && y[1..|y| - 1] == digest(b);
    }
  }

  /** Every object is filed under its own key and describes its own bytes. */
  ghost predicate Coherent(digest: Str -> Str, m: Objects) {
    forall k :: k in m ==>
      m[k].info.key == k && m[k].info.etag == EtagOf(digest, m[k].data) && m[k].info.size == |m[k].data|
  }

  // ----- Operations

  function Stat(m: Objects, key: Str): StatReply {
    if key in m then Described(m[key].info) else StatFailed(NotFound)
  }

  /** The sum of two int64 values as the machine computes it. */
  function AddWrapping(a: int64, b: int64): int64 {
    var sum := a as int + b as int;
    if sum >= 0x8000_0000_0000_0000 then (sum - 0x1_0000_0000_0000_0000) as int64
    else if sum < -0x8000_0000_0000_0000 then (sum + 0x1_0000_0000_0000_0000) as int64
    else sum as int64
  }

  /** The requested bytes, an error for an offset outside the object, or a slice that panics. */
  function Slice(info: Info, data: Str, range: Option<ByteRange>): GetReply {
    match range
    case None => Found(info, data)
    case Some(r) =>
      var start := r.offset as int;
      if start < 0 || start > |data| then
        GetFailed(InvalidArgument)
      else
        var stop := AddWrapping(r.offset, r.length) as int;
        var end := if r.length > 0 && stop < |data| then stop else |data|;
        if end < start then GetPanics else Found(info, data[start..end])
  }

  function Get(m: Objects, key: Str, opts: GetOptions): GetReply {
    if key !in m then
      GetFailed(NotFound)
    else
      var o := m[key];
      if opts.ifNoneMatch != [] && opts.ifNoneMatch == o.info.etag then
        NotModified(o.info)
      else if opts.ifModifiedSince != 0 && o.info.modified <= opts.ifModifiedSince then
        NotModified(o.info)
      else if opts.ifMatch != [] && opts.ifMatch != o.info.etag then
        GetFailed(PreconditionFailed)
      else
        Slice(o.info, o.data, opts.range)
  }

  /** A put of a fully read body; None is a body whose read failed. */
  function Put(digest: Str -> Str, m: Objects, key: Str, body: Option<Str>, opts: PutOptions, now: Time)
    : (Objects, PutReply)
  {
    if body.None? then
      (m, PutFailed(Internal))
    else if opts.ifNoneMatch == STAR && key in m then
      (m, PutFailed(AlreadyExists))
    else if opts.ifMatch != [] && (key !in m || m[key].info.etag != opts.ifMatch) then
      (m, PutFailed(PreconditionFailed))
    else
      var etag := EtagOf(digest, body.value);
      (m[key := Object(body.value, Info(key, etag, |body.value|, now, opts.attrs))], Stored(etag))
  }

  function Delete(m: Objects, key: Str, ifMatch: Str): (Objects, DeleteReply) {
    if key !in m then
      (m, if ifMatch != [] then DeleteFailed(PreconditionFailed) else Deleted)
    else if ifMatch != [] && m[key].info.etag != ifMatch then
      (m, DeleteFailed(PreconditionFailed))
    else
      (m - {key}, Deleted)
  }

  /** An unconditional delete of every key; none of them can fail. */
  function DeleteMany(m: Objects, keys: seq<Str>): (Objects, seq<DeleteEntry>) {
    (m - set k | k in keys, seq(|keys|, i requires 0 <= i < |keys| => DeleteEntry(keys[i], false)))
  }

  function Copy(m: Objects, src: Str, dst: Str, ifNoneMatch: Str, now: Time): (Objects, PutReply) {
    if src !in m then
      (m, PutFailed(NotFound))
    else if ifNoneMatch == STAR && dst in m then
      (m, PutFailed(AlreadyExists))
    else
      var info := m[src].info;
      (m[dst := Object(m[src].data, info.(key := dst, modified := now))], Stored(info.etag))
  }

  // ----- Listing

  ghost predicate Ascending(ks: seq<Str>) {
    forall i, j :: 0 <= i < j < |ks| ==> Less(ks[i], ks[j])
  }

  /** The ascending enumeration of a set of keys. */
  ghost predicate Enumerates(ks: seq<Str>, s: set<Str>) {
    Ascending(ks) && forall k :: k in ks <==> k in s
  }

  function Matching(m: Objects, prefix: Str): set<Str> {
    set k | k in m && prefix <= k
  }

  /** The least element exists: a finite set of strings has one. */
  lemma {:induction false} LeastExists(s: set<Str>) returns (least: Str)
    requires s != {}
    ensures least in s && forall k :: k in s && k != least ==> Less(least, k)
    decreases |s|
  {
    least :| least in s;
    var rest := s - {least};
    if rest != {} {
      var other := LeastExists(rest);
      LessTotal(least, other);
      if Less(other, least) {
        least := other;
      } else {
        forall k | k in rest && k != other ensures Less(least, k) { LessTransitive(least, other, k); }
      }
    }
  }

  ghost function Least(s: set<Str>): (least: Str)
    requires s != {}
    ensures least in s && forall k :: k in s && k != least ==> Less(least, k)
  {
    assert exists k :: k in s && forall j :: j in s && j != k ==> Less(k, j) by { var k := LeastExists(s); }
    var k :| k in s && forall j :: j in s && j != k ==> Less(k, j);
    k
  }

  ghost function Sorted(s: set<Str>): (ks: seq<Str>)
    ensures Enumerates(ks, s)
    decreases |s|
  {
    if s == {} then
      []
    else
      var rest := Sorted(s - {Least(s)});
      assert forall i :: 0 <= i < |rest| ==> rest[i] in rest;
      [Least(s)] + rest
  }

  /** A set has one ascending enumeration. */
  lemma {:induction false} EnumerationUnique(a: seq<Str>, b: seq<Str>, s: set<Str>)
    requires Enumerates(a, s) && Enumerates(b, s)
    ensures a == b
  {
    if s == {} {
      EmptyEnumeration(a);
      EmptyEnumeration(b);
    } else {
      var k :| k in s;
      assert k in a && k in b;
      assert a[0] in s && b[0] in s;
      assert a[0] in b && b[0] in a;
      if a[0] != b[0] {
        assert Less(b[0], a[0]) && Less(a[0], b[0]);
        LessTransitive(a[0], b[0], a[0]);
        LessIrreflexive(a[0]);
      }
      EnumerationTail(a, s);
      EnumerationTail(b, s);
      EnumerationUnique(a[1..], b[1..], s - {a[0]});
      assert a == [a[0]] + a[1..] && b == [b[0]] + b[1..];
    }
  }

  lemma EmptyEnumeration(a: seq<Str>)
    requires Enumerates(a, {})
    ensures a == []
  {
    FirstIsMember(a);
  }

  lemma FirstIsMember(a: seq<Str>)
    ensures a != [] ==> exists k :: k in a
  {
    if a != [] { assert a[0] in a; }
  }

  lemma EnumerationTail(a: seq<Str>, s: set<Str>)
    requires Enumerates(a, s) && a != []
    ensures Enumerates(a[1..], s - {a[0]})
  {
    LessIrreflexive(a[0]);
    forall k ensures k in a[1..] <==> k in s - {a[0]} {
      if k in a[1..] {
        var i :| 0 <= i < |a| - 1 && a[1..][i] == k;
        assert Less(a[0], a[i + 1]);
        assert k in a;
      }
      if k in s - {a[0]} {
        var i :| 0 <= i < |a| && a[i] == k;
        assert a[1..][i - 1] == k;
      }
    }
  }

  /** The keys a page starts from: past the token when it decodes, all of them otherwise. */
  ghost function Pending(m: Objects, prefix: Str, token: Token): seq<Str> {
    Sorted(set k | k in Matching(m, prefix) && (token.After? ==> Less(token.key, k)))
  }

  /** The common prefix a key folds into, when the delimiter occurs past the listing prefix. */
  function Fold(k: Str, prefix: Str, delimiter: Str): (cp: Option<Str>) {
    if delimiter == [] || !(prefix <= k) then
      None
    else
      var rest := k[|prefix|..];
      match Index(rest, delimiter)
      case None => None
      case Some(i) => Some(prefix + rest[..i + |delimiter|])
  }

  function Unfolded(ks: seq<Str>, prefix: Str, delimiter: Str): seq<Str> {
    if ks == [] then
      []
    else
      var init, k := ks[..|ks| - 1], ks[|ks| - 1];
      Unfolded(init, prefix, delimiter) + if Fold(k, prefix, delimiter).None? then [k] else []
  }

  /** The common prefixes of a run of keys, each at its first appearance. */
  function Folds(ks: seq<Str>, prefix: Str, delimiter: Str): seq<Str> {
    if ks == [] then
      []
    else
      var init, k := ks[..|ks| - 1], ks[|ks| - 1];
      var seen := Folds(init, prefix, delimiter);
      match Fold(k, prefix, delimiter)
      case None => seen
      case Some(cp) => if cp in seen then seen else seen + [cp]
  }

  /** How many entries of a page a run of keys fills. */
  function Entries(ks: seq<Str>, prefix: Str, delimiter: Str): nat {
    |Unfolded(ks, prefix, delimiter)| + |Folds(ks, prefix, delimiter)|
  }

  /** How many keys a page consumes: up to the one that fills it, or all of them. */
  function Cut(ks: seq<Str>, from: nat, prefix: Str, delimiter: Str, limit: int): (i: nat)
    requires from <= |ks|
    ensures from <= i <= |ks|
    ensures i < |ks| ==> Entries(ks[..i], prefix, delimiter) >= limit
    ensures forall j :: from <= j < i ==> Entries(ks[..j], prefix, delimiter) < limit
    decreases |ks| - from
  {
    if from < |ks| && Entries(ks[..from], prefix, delimiter) < limit
    then Cut(ks, from + 1, prefix, delimiter, limit)
    else from
  }

  function PageLimit(limit: int): int {
    if limit <= 0 then 1000 else limit
  }

  /** The token of a key; the empty key encodes to the empty token. */
  function TokenAfter(k: Str): Token {
    if k == [] then NoToken else After(k)
  }

  /** The metadata of the matching keys, as the listing snapshots it. */
  function Snapshot(m: Objects, prefix: Str): map<Str, Info> {
    map k | k in m && prefix <= k :: m[k].info
  }

  function InfosOf(known: map<Str, Info>, ks: seq<Str>): seq<Info> {
    if ks == [] then
      []
    else
      var init, k := ks[..|ks| - 1], ks[|ks| - 1];
      InfosOf(known, init) + if k in known then [known[k]] else []
  }

  function PageOf(known: map<Str, Info>, ks: seq<Str>, opts: ListOptions): Page {
    var i := Cut(ks, 0, opts.prefix, opts.delimiter, PageLimit(opts.limit));
    Page(
      InfosOf(known, Unfolded(ks[..i], opts.prefix, opts.delimiter)),
      Folds(ks[..i], opts.prefix, opts.delimiter),
      TokenAt(ks, i))
  }

  /** The token of a page cut at i: that of the last key consumed, or none when no key is left. */
  function TokenAt(ks: seq<Str>, i: nat): Token {
    if 0 < i < |ks| then TokenAfter(ks[i - 1]) else NoToken
  }

  ghost function List(m: Objects, opts: ListOptions): Page {
    PageOf(Snapshot(m, opts.prefix), Pending(m, opts.prefix, opts.token), opts)
  }

  // ----- What a page's parts contain

  lemma {:induction false} UnfoldedAreKeys(ks: seq<Str>, prefix: Str, delimiter: Str)
    ensures forall k :: k in Unfolded(ks, prefix, delimiter) <==> k in ks && Fold(k, prefix, delimiter).None?
  {
    if ks != [] {
      UnfoldedAreKeys(ks[..|ks| - 1], prefix, delimiter);
      assert ks == ks[..|ks| - 1] + [ks[|ks| - 1]];
    }
  }

  lemma {:induction false} FoldsAreFolds(ks: seq<Str>, prefix: Str, delimiter: Str)
    ensures forall cp :: cp in Folds(ks, prefix, delimiter) <==>
      (exists k :: k in ks && Fold(k, prefix, delimiter) == Some(cp))
  {
    if ks != [] {
      var init, k := ks[..|ks| - 1], ks[|ks| - 1];
      FoldsAreFolds(init, prefix, delimiter);
      assert ks == init + [k];
      forall cp
        ensures cp in Folds(ks, prefix, delimiter) <==> exists j :: j in ks && Fold(j, prefix, delimiter) == Some(cp) {
        if Fold(k, prefix, delimiter) == Some(cp) { assert k in ks; }
        if exists j :: j in init && Fold(j, prefix, delimiter) == Some(cp) {
          var j :| j in init && Fold(j, prefix, delimiter) == Some(cp);
          assert j in ks;
        }
      }
    }
  }

  lemma {:induction false} UnfoldedSplits(a: seq<Str>, b: seq<Str>, prefix: Str, delimiter: Str)
    ensures Unfolded(a + b, prefix, delimiter) == Unfolded(a, prefix, delimiter) + Unfolded(b, prefix, delimiter)
    decreases |b|
  {
    if b == [] {
      assert a + b == a;
    } else {
      var init, k := b[..|b| - 1], b[|b| - 1];
      assert (a + b)[..|a + b| - 1] == a + init;
      UnfoldedSplits(a, init, prefix, delimiter);
    }
  }

  /** Dropping keys that fold or not keeps the ascending order. */
  lemma {:induction false} UnfoldedAscends(ks: seq<Str>, prefix: Str, delimiter: Str)
    requires Ascending(ks)
    ensures Ascending(Unfolded(ks, prefix, delimiter))
  {
    if ks != [] {
      var init, k := ks[..|ks| - 1], ks[|ks| - 1];
      UnfoldedAscends(init, prefix, delimiter);
      UnfoldedAreKeys(init, prefix, delimiter);
      var us := Unfolded(init, prefix, delimiter);
      forall i | 0 <= i < |us| ensures Less(us[i], k) {
        assert us[i] in init;
      }
    }
  }

  /** A key fills at most one entry. */
  lemma EntriesGrowByOne(ks: seq<Str>, prefix: Str, delimiter: Str)
    requires ks != []
    ensures Entries(ks[..|ks| - 1], prefix, delimiter) <= Entries(ks, prefix, delimiter)
    ensures Entries(ks, prefix, delimiter) <= Entries(ks[..|ks| - 1], prefix, delimiter) + 1
  {
  }
}
