/** What each operation of the store answers and leaves behind: when exactly it succeeds, and how it fails. */
module Answers {
  import opened Strings
  import opened Store

  /** Any two strings: the first byte they differ in decides, and a proper prefix is before what it begins. */
  lemma {:induction false} LessExactly(a: Str, b: Str)
    ensures Less(a, b) <==> (exists n :: 0 <= n <= |a| && n < |b| && a[..n] == b[..n] && (n < |a| ==> a[n] < b[n]))
  {
    if a != [] && b != [] && a[0] == b[0] {
      LessExactly(a[1..], b[1..]);
      assert a == [a[0]] + a[1..] && b == [b[0]] + b[1..];
      if Less(a, b) {
        var n :| 0 <= n <= |a| - 1 && n < |b| - 1 && a[1..][..n] == b[1..][..n] &&
          (n < |a| - 1 ==> a[1..][n] < b[1..][n]);
        assert a[..n + 1] == [a[0]] + a[1..][..n] && b[..n + 1] == [b[0]] + b[1..][..n];
      }
      if exists n :: 0 <= n <= |a| && n < |b| && a[..n] == b[..n] && (n < |a| ==> a[n] < b[n]) {
        var n :| 0 <= n <= |a| && n < |b| && a[..n] == b[..n] && (n < |a| ==> a[n] < b[n]);
        assert n > 0;
        assert a[1..][..n - 1] == a[..n][1..] && b[1..][..n - 1] == b[..n][1..];
      }
    } else if a == [] {
      assert b != [] ==> a[..0] == b[..0];
    } else if b != [] {
      assert a[..0] == b[..0];
      forall n | 0 < n <= |a| && n < |b| ensures a[..n] != b[..n] { assert a[..n][0] != b[..n][0]; }
    }
  }

  /** The validator is the digest in double quotes. */
  lemma QuotedDigest(digest: Str -> Str, data: Str)
    ensures var e := EtagOf(digest, data);
      && |e| == |digest(data)| + 2
      && e[0] == 34 == e[|e| - 1] && e[1..|e| - 1] == digest(data)
  {
  }

  /** What create-if-absent and compare-and-swap each object to. */
  predicate Taken(m: Objects, key: Str, ifNoneMatch: Str) {
    ifNoneMatch == [42] && key in m
  }

  predicate Moved(m: Objects, key: Str, ifMatch: Str) {
    ifMatch != [] && (key in m ==> m[key].info.etag != ifMatch)
  }

  /**
   A put with a readable body succeeds exactly when the key is not taken and has not moved; the key then holds that body
   with its description and every other key what it held. A refusal names its cause and changes nothing.
   */
  lemma PutExactly(digest: Str -> Str, m: Objects, key: Str, body: Option<Str>, opts: PutOptions, now: Time)
    ensures var (m', reply) := Put(digest, m, key, body, opts, now);
      && (reply.Stored? <==>
            body.Some? && !Taken(m, key, opts.ifNoneMatch) && !Moved(m, key, opts.ifMatch))
      && (reply.Stored? ==>
            && reply.etag == [34] + digest(body.value) + [34]
            && key in m' && m'[key].data == body.value && m'[key].info.key == key && m'[key].info.etag == reply.etag
            && m'[key].info.size == |body.value| && m'[key].info.modified == now && m'[key].info.attrs == opts.attrs
            && m' - {key} == m - {key})
      && (reply.PutFailed? ==> m' == m)
      && (reply == PutFailed(Internal) <==> body.None?)
      && (reply == PutFailed(AlreadyExists) <==> body.Some? && Taken(m, key, opts.ifNoneMatch))
      && (reply == PutFailed(PreconditionFailed) <==>
            body.Some? && !Taken(m, key, opts.ifNoneMatch) && Moved(m, key, opts.ifMatch))
  {
  }

  /** A read condition by which the client already has the object. */
  predicate Fresh(info: Info, opts: GetOptions) {
    || (opts.ifNoneMatch != [] && opts.ifNoneMatch == info.etag)
    || (opts.ifModifiedSince != 0 && info.modified <= opts.ifModifiedSince)
  }

  /** A get, by the stored object and its conditions: none of them means the bytes are delivered. */
  lemma GetExactly(m: Objects, key: Str, opts: GetOptions)
    ensures var reply := Get(m, key, opts);
      && (reply == GetFailed(NotFound) <==> key !in m)
      && (reply.NotModified? <==> key in m && Fresh(m[key].info, opts))
      && (reply == GetFailed(PreconditionFailed) <==>
            key in m && !Fresh(m[key].info, opts) && Moved(m, key, opts.ifMatch))
      && (reply.NotModified? || reply.Found? ==> reply.info == m[key].info)
      && (key in m && !Fresh(m[key].info, opts) && !Moved(m, key, opts.ifMatch) ==>
            && (opts.range.None? ==> reply == Found(m[key].info, m[key].data))
            && (opts.range.Some? ==> Window(m[key].data, opts.range.value, reply)))
  {
  }

  /**
   The bytes from offset on, as many as asked for or there are; all of the rest when no positive length is asked for. An
   offset outside the object is an error, and a sum past 64 bits a panic.
   */
  predicate Window(data: Str, r: ByteRange, reply: GetReply) {
    var start, stop := r.offset as int, r.offset as int + r.length as int;
    if start < 0 || |data| < start then reply == GetFailed(InvalidArgument)
    else if r.length > 0 && stop >= 0x8000_0000_0000_0000 then reply == GetPanics
    else reply.Found? && reply.body == data[start..if r.length > 0 && stop < |data| then stop else |data|]
  }

  lemma StatExactly(m: Objects, key: Str)
    ensures Stat(m, key).Described? <==> key in m
    ensures Stat(m, key).Described? ==> Stat(m, key).info == m[key].info
    ensures key !in m ==> Stat(m, key) == StatFailed(NotFound)
  {
  }

  /** A delete takes the key away and nothing else; it is refused exactly when it names another validator. */
  lemma DeleteExactly(m: Objects, key: Str, ifMatch: Str)
    ensures var (m', reply) := Delete(m, key, ifMatch);
      && (reply == Deleted <==> !Moved(m, key, ifMatch))
      && (reply != Deleted <==> reply == DeleteFailed(PreconditionFailed))
      && (reply == Deleted ==> key !in m' && m' == m - {key})
      && (reply != Deleted ==> m' == m)
  {
    assert key !in m ==> m - {key} == m;
  }

  /** Each key is deleted in turn and answered for, in order; none is ever refused. */
  lemma DeleteManyExactly(m: Objects, keys: seq<Str>)
    ensures var (m', entries) := DeleteMany(m, keys);
      && |entries| == |keys|
      && (forall i :: 0 <= i < |keys| ==> entries[i].key == keys[i] && !entries[i].failed)
      && (forall k :: k in m' <==> k in m && k !in keys)
      && (forall k :: k in m' ==> m'[k] == m[k])
  {
  }

  /** A copy succeeds exactly when there is a source and the destination is not taken; only key and time are new. */
  lemma CopyExactly(m: Objects, src: Str, dst: Str, ifNoneMatch: Str, now: Time)
    ensures var (m', reply) := Copy(m, src, dst, ifNoneMatch, now);
      && (reply.Stored? <==> src in m && !Taken(m, dst, ifNoneMatch))
      && (reply.Stored? ==>
            && reply.etag == m[src].info.etag
            && dst in m' && m'[dst].data == m[src].data
            && m'[dst].info.key == dst && m'[dst].info.modified == now && m'[dst].info.etag == m[src].info.etag
            && m'[dst].info.size == m[src].info.size && m'[dst].info.attrs == m[src].info.attrs
            && m' - {dst} == m - {dst})
      && (reply.PutFailed? ==> m' == m)
      && (reply == PutFailed(NotFound) <==> src !in m)
      && (reply == PutFailed(AlreadyExists) <==> src in m && Taken(m, dst, ifNoneMatch))
  {
  }
}
