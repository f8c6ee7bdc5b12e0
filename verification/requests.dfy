/** Requests to a store, one at a time and in sequence. */
module Requests {
  import opened Strings
  import opened Store

  datatype Op =
    | OpStat(key: Str)
    | OpGet(key: Str, get: GetOptions)
    | OpPut(key: Str, body: Option<Str>, put: PutOptions, now: Time)
    | OpDelete(key: Str, ifMatch: Str)
    | OpDeleteMany(keys: seq<Str>)
    | OpCopy(src: Str, dst: Str, ifNoneMatch: Str, now: Time)
    | OpList(list: ListOptions)

  datatype Reply =
    | Stated(stat: StatReply)
    | Got(get: GetReply)
    | Wrote(put: PutReply)
    | Removed(delete: DeleteReply)
    | RemovedMany(entries: seq<DeleteEntry>)
    | Listed(page: Page)

  /** One request against the store. */
  ghost function Serve(digest: Str -> Str, m: Objects, op: Op): (Objects, Reply) {
    match op
    case OpStat(key) => (m, Stated(Store.Stat(m, key)))
    case OpGet(key, opts) => (m, Got(Store.Get(m, key, opts)))
    case OpPut(key, body, opts, now) => var (m', r) := Store.Put(digest, m, key, body, opts, now); (m', Wrote(r))
    case OpDelete(key, ifMatch) => var (m', r) := Store.Delete(m, key, ifMatch); (m', Removed(r))
    case OpDeleteMany(keys) => var (m', r) := Store.DeleteMany(m, keys); (m', RemovedMany(r))
    case OpCopy(src, dst, ifNoneMatch, now) => var (m', r) := Store.Copy(m, src, dst, ifNoneMatch, now); (m', Wrote(r))
    case OpList(opts) => (m, Listed(Store.List(m, opts)))
  }

  ghost function Run(digest: Str -> Str, m: Objects, ops: seq<Op>): (Objects, seq<Reply>)
    decreases |ops|
  {
    if ops == [] then
      (m, [])
    else
      var (m1, r) := Serve(digest, m, ops[0]);
      var (m2, rs) := Run(digest, m1, ops[1..]);
      (m2, [r] + rs)
  }
}
