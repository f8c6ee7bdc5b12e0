/** The in-memory backend: a map of objects changed under one lock, method by method. */
module Mem {
  import opened Strings
  import opened Store

  /** sort.SearchStrings: the first position whose string is not below k. */
  method SearchStrings(ks: seq<Str>, k: Str) returns (at: nat)
    requires Ascending(ks)
    ensures at <= |ks|
    ensures forall j :: 0 <= j < at ==> Less(ks[j], k)
    ensures forall j :: at <= j < |ks| ==> !Less(ks[j], k)
  {
    var low, high := 0, |ks|;
    while low < high
      invariant 0 <= low <= high <= |ks|
      invariant forall j :: 0 <= j < low ==> Less(ks[j], k)
      invariant forall j :: high <= j < |ks| ==> !Less(ks[j], k)
    {
      var mid := (low + high) / 2;
      if Less(ks[mid], k) {
        forall j | low <= j < mid ensures Less(ks[j], k) { LessTransitive(ks[j], ks[mid], k); }
        low := mid + 1;
      } else {
        forall j | mid < j < high ensures !Less(ks[j], k) {
          if Less(ks[j], k) { LessTransitive(ks[mid], ks[j], k); }
        }
        high := mid;
      }
    }
    at := low;
  }

  /** The keys of a map, taken in any order, into ascending order. */
  method SortStrings(s: set<Str>) returns (ks: seq<Str>)
    ensures Enumerates(ks, s)
  {
    ks := [];
    var todo := s;
    while todo != {}
      invariant todo <= s
      invariant Enumerates(ks, s - todo)
      decreases |todo|
    {
      var k :| k in todo;
      var at := SearchStrings(ks, k);
      InsertKeepsOrder(ks, s - todo, k, at);
      ks := ks[..at] + [k] + ks[at..];
      todo := todo - {k};
      assert s - todo == s - (todo + {k}) + {k};
    }
    assert s - {} == s;
  }

  lemma InsertKeepsOrder(ks: seq<Str>, s: set<Str>, k: Str, at: nat)
    requires Enumerates(ks, s) && k !in s && at <= |ks|
    requires forall j :: 0 <= j < at ==> Less(ks[j], k)
    requires forall j :: at <= j < |ks| ==> !Less(ks[j], k)
    ensures Enumerates(ks[..at] + [k] + ks[at..], s + {k})
  {
    forall j | at <= j < |ks| ensures Less(k, ks[j]) {
      LessTotal(ks[j], k);
      assert ks[j] in ks;
    }
    var r := ks[..at] + [k] + ks[at..];
    assert forall x :: x in r <==> x in ks[..at] || x == k || x in ks[at..];
    assert ks == ks[..at] + ks[at..];
  }

  /** The keys past the token are the tail the listing scans. */
  lemma PendingIsSuffix(m: Objects, keys: seq<Str>, start: nat, opts: ListOptions)
    requires Enumerates(keys, Matching(m, opts.prefix)) && start <= |keys|
    requires !opts.token.After? ==> start == 0
    requires opts.token.After? ==> forall j :: 0 <= j < start ==> !Less(opts.token.key, keys[j])
    requires opts.token.After? && start < |keys| ==> Less(opts.token.key, keys[start])
    ensures keys[start..] == Pending(m, opts.prefix, opts.token)
  {
    var s := set k | k in Matching(m, opts.prefix) && (opts.token.After? ==> Less(opts.token.key, k));
    forall k ensures k in keys[start..] <==> k in s {
      if k in keys[start..] {
        var j :| start <= j < |keys| && keys[j] == k;
        assert k in keys;
        if opts.token.After? && j > start { LessTransitive(opts.token.key, keys[start], k); }
      }
      if k in s {
        var j :| 0 <= j < |keys| && keys[j] == k;
        assert start <= j;
        assert keys[start..][j - start] == k;
      }
    }
    EnumerationUnique(keys[start..], Sorted(s), s);
  }

  /** The entries a run of keys has put on the page. */
  ghost predicate Filled(known: map<Str, Info>, ks: seq<Str>, opts: ListOptions, objects: seq<Info>,
                         prefixes: seq<Str>) {
    && objects == InfosOf(known, Unfolded(ks, opts.prefix, opts.delimiter))
    && prefixes == Folds(ks, opts.prefix, opts.delimiter)
    && |objects| + |prefixes| == Entries(ks, opts.prefix, opts.delimiter)
  }

  lemma FilledNext(known: map<Str, Info>, ks: seq<Str>, k: Str, opts: ListOptions, objects: seq<Info>,
                   prefixes: seq<Str>)
    requires Filled(known, ks, opts, objects, prefixes) && k in known
    ensures match Fold(k, opts.prefix, opts.delimiter)
      case None => Filled(known, ks + [k], opts, objects + [known[k]], prefixes)
      case Some(cp) => Filled(known, ks + [k], opts, objects, if cp in prefixes then prefixes else prefixes + [cp])
  {
    assert (ks + [k])[..|ks|] == ks;
    var us := Unfolded(ks, opts.prefix, opts.delimiter);
    assert (us + [k])[..|us|] == us && us + [] == us;
  }

  /** Where the scan has come to: the page is cut no earlier than i. */
  ghost predicate Uncut(keys: seq<Str>, i: nat, opts: ListOptions)
    requires i <= |keys|
  {
    Cut(keys, 0, opts.prefix, opts.delimiter, PageLimit(opts.limit)) ==
      Cut(keys, i, opts.prefix, opts.delimiter, PageLimit(opts.limit))
  }

  lemma UncutNext(keys: seq<Str>, i: nat, opts: ListOptions)
    requires i < |keys| && Uncut(keys, i, opts) &&
      Entries(keys[..i], opts.prefix, opts.delimiter) < PageLimit(opts.limit)
    ensures Uncut(keys, i + 1, opts)
  {
  }

  lemma CutHere(known: map<Str, Info>, keys: seq<Str>, i: nat, opts: ListOptions, objects: seq<Info>,
                prefixes: seq<Str>)
    requires i <= |keys| && Uncut(keys, i, opts) && Filled(known, keys[..i], opts, objects, prefixes)
    requires i < |keys| ==> |objects| + |prefixes| >= PageLimit(opts.limit)
    ensures PageOf(known, keys, opts) == Page(objects, prefixes, TokenAt(keys, i))
    ensures i < |keys| ==> i > 0
  {
  }

  /** One key of the scan: a folded one adds its prefix unless the page has it already. */
  method ScanKey(infos: map<Str, Info>, ghost before: seq<Str>, k: Str, opts: ListOptions, objects: seq<Info>,
                 prefixes: seq<Str>)
    returns (objects': seq<Info>, prefixes': seq<Str>)
    requires Filled(infos, before, opts, objects, prefixes) && k in infos
    ensures Filled(infos, before + [k], opts, objects', prefixes')
  {
    FilledNext(infos, before, k, opts, objects, prefixes);
    objects', prefixes' := objects, prefixes;
    match Fold(k, opts.prefix, opts.delimiter) {
      case Some(cp) =>
        if cp !in prefixes {
          prefixes' := prefixes + [cp];
        }
      case None => objects' := objects + [infos[k]];
    }
  }

  /** The scan of List: entries in key order until the page is full or the keys run out. */
  method Scan(infos: map<Str, Info>, keys: seq<Str>, opts: ListOptions, limit: int) returns (page: Page)
    requires limit == PageLimit(opts.limit)
    requires forall k :: k in keys ==> k in infos
    ensures page == PageOf(infos, keys, opts)
  {
    var objects: seq<Info> := [];
    var prefixes: seq<Str> := [];
    var count, i := 0, 0;
    while i < |keys| && count < limit
      invariant 0 <= i <= |keys|
      invariant Filled(infos, keys[..i], opts, objects, prefixes)
      invariant count == |objects| + |prefixes|
      invariant Uncut(keys, i, opts)
    {
      UncutNext(keys, i, opts);
      assert keys[..i + 1] == keys[..i] + [keys[i]];
      objects, prefixes := ScanKey(infos, keys[..i], keys[i], opts, objects, prefixes);
      count, i := |objects| + |prefixes|, i + 1;
    }
    CutHere(infos, keys, i, opts, objects, prefixes);
    var next := NoToken;
    if i < |keys| {
      next := TokenAfter(keys[i - 1]);
    }
    page := Page(objects, prefixes, next);
  }

  /** Where the scan starts: past every key up to the token's. */
  method SkipToken(keys: seq<Str>, token: Token) returns (start: nat)
    requires Ascending(keys)
    ensures start <= |keys|
    ensures !token.After? ==> start == 0
    ensures token.After? ==> forall j :: 0 <= j < start ==> !Less(token.key, keys[j])
    ensures token.After? && start < |keys| ==> Less(token.key, keys[start])
  {
    start := 0;
    if token.After? {
      start := SearchStrings(keys, token.key);
      forall j | 0 <= j < start ensures !Less(token.key, keys[j]) { LessAsymmetric(keys[j], token.key); }
      while start < |keys| && !Less(token.key, keys[start])
        invariant 0 <= start <= |keys|
        invariant forall j :: 0 <= j < start ==> !Less(token.key, keys[j])
      {
        start := start + 1;
      }
    }
  }

  class Backend {
    var objs: Objects
    const digest: Str -> Str

    constructor (digest: Str -> Str)
      ensures this.digest == digest && objs == map[]
    {
      this.digest := digest;
      objs := map[];
    }

    method Stat(key: Str) returns (reply: StatReply)
      ensures reply == Store.Stat(objs, key)
    {
      if key !in objs {
        return StatFailed(NotFound);
      }
      return Described(objs[key].info);
    }

    method Get(key: Str, opts: GetOptions) returns (reply: GetReply)
      ensures reply == Store.Get(objs, key, opts)
    {
      if key !in objs {
        return GetFailed(NotFound);
      }
      var o := objs[key];
      if opts.ifNoneMatch != [] && opts.ifNoneMatch == o.info.etag {
        return NotModified(o.info);
      }
      if opts.ifModifiedSince != 0 && !(o.info.modified > opts.ifModifiedSince) {
        return NotModified(o.info);
      }
      if opts.ifMatch != [] && opts.ifMatch != o.info.etag {
        return GetFailed(PreconditionFailed);
      }
      var data := o.data;
      if opts.range.Some? {
        var r := opts.range.value;
        var start := r.offset as int;
        if start < 0 || start > |data| {
          return GetFailed(InvalidArgument);
        }
        var end := |data|;
        if r.length > 0 && AddWrapping(r.offset, r.length) as int < end {
          end := AddWrapping(r.offset, r.length) as int;
        }
        if end < start {
          return GetPanics;
        }
        data := data[start..end];
      }
      return Found(o.info, data);
    }

    method Put(key: Str, body: Option<Str>, opts: PutOptions, now: Time) returns (reply: PutReply)
      modifies this
      ensures (objs, reply) == Store.Put(digest, old(objs), key, body, opts, now)
    {
      if body.None? {
        return PutFailed(Internal);
      }
      var exists_ := key in objs;
      if opts.ifNoneMatch == STAR && exists_ {
        return PutFailed(AlreadyExists);
      }
      if opts.ifMatch != [] {
        if !exists_ || objs[key].info.etag != opts.ifMatch {
          return PutFailed(PreconditionFailed);
        }
      }
      var etag := EtagOf(digest, body.value);
      objs := objs[key := Object(body.value, Info(key, etag, |body.value|, now, opts.attrs))];
      return Stored(etag);
    }

    method Delete(key: Str, ifMatch: Str) returns (reply: DeleteReply)
      modifies this
      ensures (objs, reply) == Store.Delete(old(objs), key, ifMatch)
    {
      if key !in objs {
        if ifMatch != [] {
          return DeleteFailed(PreconditionFailed);
        }
        return Deleted;
      }
      if ifMatch != [] && objs[key].info.etag != ifMatch {
        return DeleteFailed(PreconditionFailed);
      }
      objs := objs - {key};
      return Deleted;
    }

    method DeleteMany(keys: seq<Str>) returns (out: seq<DeleteEntry>)
      modifies this
      ensures (objs, out) == Store.DeleteMany(old(objs), keys)
    {
      out := [];
      for i := 0 to |keys|
        invariant out == seq(i, j requires 0 <= j < i => DeleteEntry(keys[j], false))
        invariant objs == old(objs) - set k | k in keys[..i]
      {
        var reply := Delete(keys[i], []);
        out := out + [DeleteEntry(keys[i], reply.DeleteFailed?)];
        assert keys[..i + 1] == keys[..i] + [keys[i]];
      }
      assert keys[..|keys|] == keys;
    }

    method Copy(src: Str, dst: Str, ifNoneMatch: Str, now: Time) returns (reply: PutReply)
      modifies this
      ensures (objs, reply) == Store.Copy(old(objs), src, dst, ifNoneMatch, now)
    {
      if src !in objs {
        return PutFailed(NotFound);
      }
      if ifNoneMatch == STAR {
        if dst in objs {
          return PutFailed(AlreadyExists);
        }
      }
      var info := objs[src].info;
      info := info.(key := dst);
      info := info.(modified := now);
      objs := objs[dst := Object(objs[src].data, info)];
      return Stored(info.etag);
    }

    method List(opts: ListOptions) returns (page: Page)
      ensures page == Store.List(objs, opts)
    {
      // The snapshot taken under the read lock.
      var infos := map k | k in objs && opts.prefix <= k :: objs[k].info;
      assert infos.Keys == Matching(objs, opts.prefix);
      var keys := SortStrings(infos.Keys);
      var limit := opts.limit;
      if limit <= 0 {
        limit := 1000;
      }
      var start := SkipToken(keys, opts.token);
      PendingIsSuffix(objs, keys, start, opts);
      assert forall k :: k in keys[start..] ==> k in keys;
      page := Scan(infos, keys[start..], opts, limit);
    }
  }
}
