/** What following page tokens through a listing returns, on a store that stands still and on one that does not. */
module Paging {
  import opened Strings
  import opened Store

  /** Every object is filed under the key its metadata names. */
  ghost predicate Keyed(m: Objects) {
    forall k :: k in m ==> m[k].info.key == k
  }

  function KeysOf(infos: seq<Info>): seq<Str> {
    seq(|infos|, i requires 0 <= i < |infos| => infos[i].key)
  }

  function AllObjects(pages: seq<Page>): seq<Info> {
    if pages == [] then [] else pages[0].objects + AllObjects(pages[1..])
  }

  function AllPrefixes(pages: seq<Page>): set<Str> {
    if pages == [] then {} else SetOf(pages[0].prefixes) + AllPrefixes(pages[1..])
  }

  function SetOf(s: seq<Str>): set<Str> {
    set x | x in s
  }

  /** The pages a client collects when the store is ms[i] at its i-th call. */
  ghost function Traverse(ms: seq<Objects>, opts: ListOptions): seq<Page>
    decreases |ms|, 1
  {
    if ms == [] then
      []
    else
      [List(ms[0], opts)] + Onward(ms, opts)
  }

  /** The pages after the first. */
  ghost function Onward(ms: seq<Objects>, opts: ListOptions): seq<Page>
    requires ms != []
    decreases |ms|, 0
  {
    var page := List(ms[0], opts);
    if page.next.NoToken? then [] else Traverse(ms[1..], opts.(token := page.next))
  }

  /** The traversal reached a page without a token. */
  predicate Completed(pages: seq<Page>) {
    pages != [] && pages[|pages| - 1].next.NoToken?
  }

  predicate Past(token: Token, k: Str) {
    token.After? ==> Less(token.key, k)
  }

  // ----- One page

  ghost function CutOf(m: Objects, opts: ListOptions): nat {
    Cut(Pending(m, opts.prefix, opts.token), 0, opts.prefix, opts.delimiter, PageLimit(opts.limit))
  }

  /** The keys a page consumes and the keys it leaves behind. */
  ghost function Consumed(m: Objects, opts: ListOptions): seq<Str> {
    Pending(m, opts.prefix, opts.token)[..CutOf(m, opts)]
  }

  ghost function Left(m: Objects, opts: ListOptions): seq<Str> {
    Pending(m, opts.prefix, opts.token)[CutOf(m, opts)..]
  }

  lemma PendingHas(m: Objects, opts: ListOptions, k: Str)
    ensures k in Pending(m, opts.prefix, opts.token) <==> k in m && opts.prefix <= k && Past(opts.token, k)
    ensures k in Pending(m, opts.prefix, opts.token) <==> k in Consumed(m, opts) || k in Left(m, opts)
  {
    var ks, i := Pending(m, opts.prefix, opts.token), CutOf(m, opts);
    assert ks == ks[..i] + ks[i..];
  }

  lemma {:induction false} InfosName(known: map<Str, Info>, ks: seq<Str>)
    requires forall k :: k in ks ==> k in known && known[k].key == k
    ensures KeysOf(InfosOf(known, ks)) == ks
  {
    if ks != [] {
      assert ks == ks[..|ks| - 1] + [ks[|ks| - 1]];
      InfosName(known, ks[..|ks| - 1]);
    }
  }

  lemma {:induction false} InfosSplit(known: map<Str, Info>, a: seq<Str>, b: seq<Str>)
    ensures InfosOf(known, a + b) == InfosOf(known, a) + InfosOf(known, b)
    decreases |b|
  {
    if b == [] {
      assert a + b == a;
    } else {
      assert (a + b)[..|a + b| - 1] == a + b[..|b| - 1];
      InfosSplit(known, a, b[..|b| - 1]);
    }
  }

  /** A page names exactly the consumed keys that did not fold. */
  lemma PageNames(m: Objects, opts: ListOptions)
    requires Keyed(m)
    ensures KeysOf(List(m, opts).objects) == Unfolded(Consumed(m, opts), opts.prefix, opts.delimiter)
    ensures Ascending(KeysOf(List(m, opts).objects))
    ensures forall k :: k in KeysOf(List(m, opts).objects) <==>
      k in Consumed(m, opts) && Fold(k, opts.prefix, opts.delimiter).None?
  {
    var ks := Consumed(m, opts);
    UnfoldedAreKeys(ks, opts.prefix, opts.delimiter);
    UnfoldedAscends(ks, opts.prefix, opts.delimiter);
    forall k | k in ks
      ensures k in Snapshot(m, opts.prefix) && Snapshot(m, opts.prefix)[k].key == k { PendingHas(m, opts, k); }
    InfosName(Snapshot(m, opts.prefix), Unfolded(ks, opts.prefix, opts.delimiter));
  }

  /** A page that leaves keys behind consumed at least one; its token is the greatest of them. */
  lemma TokenSeparates(m: Objects, opts: ListOptions)
    requires Left(m, opts) != []
    ensures Consumed(m, opts) != []
    ensures var last := Consumed(m, opts)[|Consumed(m, opts)| - 1];
      && List(m, opts).next == TokenAfter(last)
      && (forall k :: k in Consumed(m, opts) ==> k == last || Less(k, last))
      && (forall k :: k in Left(m, opts) ==> Less(last, k))
  {
    var ks, i := Pending(m, opts.prefix, opts.token), CutOf(m, opts);
    assert ks[..0] == [];
    assert Entries(ks[..0], opts.prefix, opts.delimiter) == 0;
    assert i > 0;
    assert ks[..i][|ks[..i]| - 1] == ks[i - 1];
  }

  lemma NoTokenWhenExhausted(m: Objects, opts: ListOptions)
    requires Left(m, opts) == []
    ensures List(m, opts).next == NoToken
    ensures Consumed(m, opts) == Pending(m, opts.prefix, opts.token)
  {
  }

  /** Each page holds at most the limit, objects and common prefixes counted together. */
  lemma PageWithinLimit(m: Objects, opts: ListOptions)
    ensures |List(m, opts).objects| + |List(m, opts).prefixes| <= PageLimit(opts.limit)
  {
    var ks := Pending(m, opts.prefix, opts.token);
    CutWithinLimit(ks, opts.prefix, opts.delimiter, PageLimit(opts.limit));
    PageParts(m, opts);
    InfosNoLonger(Snapshot(m, opts.prefix), Unfolded(Consumed(m, opts), opts.prefix, opts.delimiter));
  }

  lemma CutWithinLimit(ks: seq<Str>, prefix: Str, delimiter: Str, limit: int)
    requires limit > 0
    ensures Entries(ks[..Cut(ks, 0, prefix, delimiter, limit)], prefix, delimiter) <= limit
  {
    var i := Cut(ks, 0, prefix, delimiter, limit);
    if i > 0 {
      assert ks[..i][..i - 1] == ks[..i - 1];
      EntriesGrowByOne(ks[..i], prefix, delimiter);
    }
  }

  lemma {:induction false} InfosNoLonger(known: map<Str, Info>, ks: seq<Str>)
    ensures |InfosOf(known, ks)| <= |ks|
  {
    if ks != [] { InfosNoLonger(known, ks[..|ks| - 1]); }
  }

  // ----- Traversals of a store that changes between calls

  /** The keys a traversal returns: the first page's, then those of the pages after it. */
  lemma FirstThenOnward(ms: seq<Objects>, opts: ListOptions)
    requires ms != [] && Keyed(ms[0])
    ensures Returned(ms, opts) ==
      Unfolded(Consumed(ms[0], opts), opts.prefix, opts.delimiter) + KeysOf(AllObjects(Onward(ms, opts)))
    ensures Ascending(Unfolded(Consumed(ms[0], opts), opts.prefix, opts.delimiter))
    ensures AllPrefixes(Traverse(ms, opts)) ==
      SetOf(Folds(Consumed(ms[0], opts), opts.prefix, opts.delimiter)) + AllPrefixes(Onward(ms, opts))
  {
    var page, onward := List(ms[0], opts), Onward(ms, opts);
    PageNames(ms[0], opts);
    PageParts(ms[0], opts);
    FirstPage(page, onward);
    KeysConcat(page.objects, AllObjects(onward));
    UnfoldedAscends(Consumed(ms[0], opts), opts.prefix, opts.delimiter);
  }

  lemma FirstPage(page: Page, pages: seq<Page>)
    ensures AllObjects([page] + pages) == page.objects + AllObjects(pages)
    ensures AllPrefixes([page] + pages) == SetOf(page.prefixes) + AllPrefixes(pages)
  {
    assert ([page] + pages)[1..] == pages;
  }

  lemma KeysConcat(a: seq<Info>, b: seq<Info>)
    ensures KeysOf(a + b) == KeysOf(a) + KeysOf(b)
  {
  }

  lemma PageParts(m: Objects, opts: ListOptions)
    ensures List(m, opts).objects ==
      InfosOf(Snapshot(m, opts.prefix), Unfolded(Consumed(m, opts), opts.prefix, opts.delimiter))
    ensures List(m, opts).prefixes == Folds(Consumed(m, opts), opts.prefix, opts.delimiter)
  {
  }

  ghost function Returned(ms: seq<Objects>, opts: ListOptions): seq<Str> {
    KeysOf(AllObjects(Traverse(ms, opts)))
  }

  /** Past the token that a page returned lie only keys greater than all it consumed. */
  lemma PastNextToken(m: Objects, opts: ListOptions, here: Str, later: Str)
    requires here in Consumed(m, opts)
    requires !List(m, opts).next.NoToken? && Past(List(m, opts).next, later)
    ensures Less(here, later) && Past(opts.token, later)
  {
    if Left(m, opts) == [] { NoTokenWhenExhausted(m, opts); }
    TokenSeparates(m, opts);
    var last := Consumed(m, opts)[|Consumed(m, opts)| - 1];
    if here != last { LessTransitive(here, last, later); }
    PendingHas(m, opts, here);
    if opts.token.After? { LessTransitive(opts.token.key, here, later); }
  }

  lemma TokenMeansConsumed(m: Objects, opts: ListOptions)
    requires !List(m, opts).next.NoToken?
    ensures Consumed(m, opts) != []
  {
    if Left(m, opts) == [] { NoTokenWhenExhausted(m, opts); }
    TokenSeparates(m, opts);
  }

  /**
   Nothing is invented: a returned key lies past the token, matches, does not fold, and was in the store of some call.
   */
  lemma {:induction false} ReturnedAreReal(ms: seq<Objects>, opts: ListOptions, k: Str)
    requires forall m :: m in ms ==> Keyed(m)
    requires k in Returned(ms, opts)
    ensures Past(opts.token, k) && opts.prefix <= k && Fold(k, opts.prefix, opts.delimiter).None?
    ensures exists m :: m in ms && k in m
  {
    var m := ms[0];
    FirstThenOnward(ms, opts);
    UnfoldedAreKeys(Consumed(m, opts), opts.prefix, opts.delimiter);
    PendingHas(m, opts, k);
    if k !in Unfolded(Consumed(m, opts), opts.prefix, opts.delimiter) {
      assert k in KeysOf(AllObjects(Onward(ms, opts)));
      ReturnedAreReal(ms[1..], opts.(token := List(m, opts).next), k);
      TokenMeansConsumed(m, opts);
      PastNextToken(m, opts, Consumed(m, opts)[0], k);
    }
  }

  /** However the store changes between calls, the returned keys strictly increase across pages. */
  lemma {:induction false} KeysStrictlyIncrease(ms: seq<Objects>, opts: ListOptions)
    requires forall m :: m in ms ==> Keyed(m)
    ensures Ascending(Returned(ms, opts))
  {
    if ms != [] {
      var m, next := ms[0], opts.(token := List(ms[0], opts).next);
      FirstThenOnward(ms, opts);
      var here, later := Unfolded(Consumed(m, opts), opts.prefix, opts.delimiter), KeysOf(AllObjects(Onward(ms, opts)));
      if List(m, opts).next.NoToken? {
        assert here + later == here;
      } else {
        KeysStrictlyIncrease(ms[1..], next);
        assert later == Returned(ms[1..], next);
        forall i, j | 0 <= i < |here| && 0 <= j < |later| ensures Less(here[i], later[j]) {
          FirstBeforeLater(ms, opts, here[i], later[j]);
        }
        AscendingJoin(here, later);
      }
    }
  }

  lemma FirstBeforeLater(ms: seq<Objects>, opts: ListOptions, here: Str, later: Str)
    requires ms != [] && forall m :: m in ms ==> Keyed(m)
    requires !List(ms[0], opts).next.NoToken?
    requires here in Unfolded(Consumed(ms[0], opts), opts.prefix, opts.delimiter)
    requires later in Returned(ms[1..], opts.(token := List(ms[0], opts).next))
    ensures Less(here, later)
  {
    UnfoldedAreKeys(Consumed(ms[0], opts), opts.prefix, opts.delimiter);
    ReturnedAreReal(ms[1..], opts.(token := List(ms[0], opts).next), later);
    PastNextToken(ms[0], opts, here, later);
  }

  lemma AscendingJoin(a: seq<Str>, b: seq<Str>)
    requires Ascending(a) && Ascending(b)
    requires forall i, j :: 0 <= i < |a| && 0 <= j < |b| ==> Less(a[i], b[j])
    ensures Ascending(a + b)
  {
  }

  /** The one page that stops at the empty key: alone on its page, with more keys after it. */
  predicate EndsEarly(m: Objects, opts: ListOptions) {
    opts.prefix == [] && !opts.token.After? && opts.limit == 1 && [] in m && |m| > 1
  }

  /** A page that leaves keys behind has a token, unless it stops at the empty key. */
  lemma LeftNeedsToken(m: Objects, opts: ListOptions)
    requires Left(m, opts) != [] && !EndsEarly(m, opts)
    ensures !List(m, opts).next.NoToken?
  {
    if List(m, opts).next.NoToken? { EmptyLastKey(m, opts); }
  }

  /** Either the page consumed the key, or the traversal goes on past its token. */
  lemma ConsumedOrLater(m: Objects, opts: ListOptions, k: Str)
    requires !EndsEarly(m, opts)
    requires k in m && opts.prefix <= k && Past(opts.token, k)
    ensures k in Consumed(m, opts) || (List(m, opts).next.After? && Past(List(m, opts).next, k))
  {
    PendingHas(m, opts, k);
    if k !in Consumed(m, opts) {
      LeftNeedsToken(m, opts);
      TokenSeparates(m, opts);
    }
  }

  lemma {:induction false} StableKeyAppears(ms: seq<Objects>, opts: ListOptions, k: Str)
    requires forall m :: m in ms ==> Keyed(m) && k in m
    requires Completed(Traverse(ms, opts)) && !EndsEarly(ms[0], opts)
    requires opts.prefix <= k && Past(opts.token, k)
    ensures match Fold(k, opts.prefix, opts.delimiter)
      case None => k in Returned(ms, opts)
      case Some(cp) => cp in AllPrefixes(Traverse(ms, opts))
  {
    var m := ms[0];
    FirstThenOnward(ms, opts);
    ConsumedOrLater(m, opts, k);
    if k in Consumed(m, opts) {
      UnfoldedAreKeys(Consumed(m, opts), opts.prefix, opts.delimiter);
      FoldsAreFolds(Consumed(m, opts), opts.prefix, opts.delimiter);
    } else {
      var pages := Traverse(ms, opts);
      assert pages[1..] == Onward(ms, opts);
      StableKeyAppears(ms[1..], opts.(token := List(m, opts).next), k);
    }
  }

  lemma {:induction false} AscendingOnce(ks: seq<Str>, k: Str)
    requires Ascending(ks) && k in ks
    ensures multiset(ks)[k] == 1
  {
    var i :| 0 <= i < |ks| && ks[i] == k;
    assert ks == ks[..i] + [k] + ks[i + 1..];
    LessIrreflexive(k);
    assert k !in ks[..i] && k !in ks[i + 1..];
  }

  /** A key that does not fold is returned exactly once; of one that folds, the common prefix is reported. */
  ghost predicate ReportedOnce(ms: seq<Objects>, opts: ListOptions, k: Str) {
    match Fold(k, opts.prefix, opts.delimiter)
    case None => multiset(Returned(ms, opts))[k] == 1
    case Some(cp) => cp in AllPrefixes(Traverse(ms, opts)) && multiset(Returned(ms, opts))[k] == 0
  }

  lemma ReportedUnlessEarly(ms: seq<Objects>, opts: ListOptions, k: Str)
    requires forall m :: m in ms ==> Keyed(m) && k in m
    requires Completed(Traverse(ms, opts)) && !EndsEarly(ms[0], opts)
    requires opts.prefix <= k && Past(opts.token, k)
    ensures ReportedOnce(ms, opts, k)
  {
    StableKeyAppears(ms, opts, k);
    KeysStrictlyIncrease(ms, opts);
    if Fold(k, opts.prefix, opts.delimiter).None? {
      AscendingOnce(Returned(ms, opts), k);
    } else if k in Returned(ms, opts) {
      ReturnedAreReal(ms, opts, k);
    }
  }

  /** A first page that stops at the empty key is the whole traversal, and returns that key alone. */
  lemma EarlyTraversal(ms: seq<Objects>, opts: ListOptions)
    requires ms != [] && Keyed(ms[0]) && EndsEarly(ms[0], opts)
    ensures Returned(ms, opts) == [[]] && AllPrefixes(Traverse(ms, opts)) == {}
    ensures Fold([], opts.prefix, opts.delimiter).None?
  {
    EarlyPage(ms[0], opts);
    FirstThenOnward(ms, opts);
    assert Onward(ms, opts) == [];
    UnfoldedAreKeys([[]], opts.prefix, opts.delimiter);
    assert [] in Unfolded([[]], opts.prefix, opts.delimiter);
  }

  /** It consumes the empty key alone. */
  lemma EarlyPage(m: Objects, opts: ListOptions)
    requires EndsEarly(m, opts)
    ensures Consumed(m, opts) == [[]] && List(m, opts).next.NoToken?
    ensures Unfolded([[]], opts.prefix, opts.delimiter) == [[]] && Folds([[]], opts.prefix, opts.delimiter) == []
  {
    var ks := Pending(m, opts.prefix, opts.token);
    var other := EmptyKeyFirst(m, opts);
    OneEntry(ks, opts.delimiter);
    assert CutOf(m, opts) == 1;
    assert ks[..1] == [[]];
  }

  /**
   A key present at every call of a completed traversal is reported once, unless the first page stops at the empty key:
   then exactly that key is.
   */
  lemma StableKeyReturnedOnce(ms: seq<Objects>, opts: ListOptions, k: Str)
    requires forall m :: m in ms ==> Keyed(m) && k in m
    requires Completed(Traverse(ms, opts))
    requires opts.prefix <= k && Past(opts.token, k)
    ensures ReportedOnce(ms, opts, k) <==> !EndsEarly(ms[0], opts) || k == []
  {
    if EndsEarly(ms[0], opts) {
      EarlyTraversal(ms, opts);
    } else {
      ReportedUnlessEarly(ms, opts, k);
    }
  }

  // ----- Traversals of a store that stands still

  lemma NextPageIsShorter(m: Objects, opts: ListOptions)
    requires !List(m, opts).next.NoToken?
    ensures Pending(m, opts.prefix, List(m, opts).next) == Left(m, opts)
    ensures |Left(m, opts)| < |Pending(m, opts.prefix, opts.token)|
  {
    var ks, next := Pending(m, opts.prefix, opts.token), opts.(token := List(m, opts).next);
    if Left(m, opts) == [] { NoTokenWhenExhausted(m, opts); }
    TokenSeparates(m, opts);
    var last := Consumed(m, opts)[|Consumed(m, opts)| - 1];
    var s := set k | k in Matching(m, opts.prefix) && Less(last, k);
    forall k ensures k in Left(m, opts) <==> k in s {
      PendingHas(m, opts, k);
      PendingHas(m, opts, last);
      if k in s {
        if opts.token.After? { LessTransitive(opts.token.key, last, k); }
        if k in Consumed(m, opts) { LessAsymmetric(last, k); LessIrreflexive(k); }
      }
    }
    assert s == set k | k in Matching(m, opts.prefix) && (next.token.After? ==> Less(next.token.key, k));
    EnumerationUnique(Left(m, opts), Sorted(s), s);
  }

  /** Every page of the listing: each one with a token leaves strictly fewer keys, so this ends. */
  ghost function TraverseAll(m: Objects, opts: ListOptions): (pages: seq<Page>)
    ensures Completed(pages)
    decreases |Pending(m, opts.prefix, opts.token)|
  {
    var page := List(m, opts);
    if page.next.NoToken? then
      [page]
    else
      NextPageIsShorter(m, opts);
      [page] + TraverseAll(m, opts.(token := page.next))
  }

  /** On a store that stands still, calling for as long as there is a token collects these pages. */
  lemma {:induction false} StandingStore(m: Objects, ms: seq<Objects>, opts: ListOptions)
    requires |ms| == |TraverseAll(m, opts)| && forall i :: 0 <= i < |ms| ==> ms[i] == m
    ensures Traverse(ms, opts) == TraverseAll(m, opts)
    decreases |ms|
  {
    var page := List(m, opts);
    if !page.next.NoToken? {
      NextPageIsShorter(m, opts);
      StandingStore(m, ms[1..], opts.(token := page.next));
    }
  }

  ghost predicate Complete(m: Objects, opts: ListOptions, pages: seq<Page>) {
    Covers(AllObjects(pages), AllPrefixes(pages), Snapshot(m, opts.prefix), Pending(m, opts.prefix, opts.token),
      opts.prefix, opts.delimiter)
  }

  /** These are the metadata of the keys that do not fold, in order, and the common prefixes of those that do. */
  ghost predicate Covers(objects: seq<Info>, prefixes: set<Str>, known: map<Str, Info>, ks: seq<Str>, prefix: Str,
                         delimiter: Str) {
    && objects == InfosOf(known, Unfolded(ks, prefix, delimiter))
    && prefixes == SetOf(Folds(ks, prefix, delimiter))
  }

  lemma FoldsSplit(a: seq<Str>, b: seq<Str>, prefix: Str, delimiter: Str)
    ensures SetOf(Folds(a + b, prefix, delimiter)) ==
      SetOf(Folds(a, prefix, delimiter)) + SetOf(Folds(b, prefix, delimiter))
  {
    FoldsAreFolds(a, prefix, delimiter);
    FoldsAreFolds(b, prefix, delimiter);
    FoldsAreFolds(a + b, prefix, delimiter);
  }

  /** The pages are complete whenever no page stops at the empty key. */
  lemma {:induction false} CompleteUnlessEarly(m: Objects, opts: ListOptions)
    requires !EndsEarly(m, opts)
    ensures Complete(m, opts, TraverseAll(m, opts))
    decreases |Pending(m, opts.prefix, opts.token)|
  {
    var page := List(m, opts);
    if page.next.NoToken? {
      LastPageComplete(m, opts);
      assert TraverseAll(m, opts) == [page];
    } else {
      var next := opts.(token := page.next);
      NextPageIsShorter(m, opts);
      CompleteUnlessEarly(m, next);
      CompleteStep(m, opts, TraverseAll(m, next));
    }
  }

  lemma LastPageComplete(m: Objects, opts: ListOptions)
    requires !EndsEarly(m, opts) && List(m, opts).next.NoToken?
    ensures Complete(m, opts, [List(m, opts)])
  {
    if Left(m, opts) != [] { EmptyLastKey(m, opts); }
    NoTokenWhenExhausted(m, opts);
    PageParts(m, opts);
    FirstPage(List(m, opts), []);
    assert [List(m, opts)] + [] == [List(m, opts)];
  }

  /** A page in front of a complete listing of the keys it leaves is a complete listing. */
  lemma CompleteStep(m: Objects, opts: ListOptions, later: seq<Page>)
    requires !List(m, opts).next.NoToken?
    requires Complete(m, opts.(token := List(m, opts).next), later)
    ensures Complete(m, opts, [List(m, opts)] + later)
  {
    NextPageIsShorter(m, opts);
    PageCovers(m, opts);
    ConsumedAndLeft(m, opts);
    CoversJoin(List(m, opts), later, Snapshot(m, opts.prefix), Consumed(m, opts), Left(m, opts), opts.prefix,
      opts.delimiter);
  }

  lemma PageCovers(m: Objects, opts: ListOptions)
    ensures Covers(List(m, opts).objects, SetOf(List(m, opts).prefixes), Snapshot(m, opts.prefix), Consumed(m, opts),
      opts.prefix, opts.delimiter)
  {
    PageParts(m, opts);
  }

  lemma ConsumedAndLeft(m: Objects, opts: ListOptions)
    ensures Pending(m, opts.prefix, opts.token) == Consumed(m, opts) + Left(m, opts)
  {
  }

  lemma CoversJoin(page: Page, later: seq<Page>, known: map<Str, Info>, a: seq<Str>, b: seq<Str>, prefix: Str,
                   delimiter: Str)
    requires Covers(page.objects, SetOf(page.prefixes), known, a, prefix, delimiter)
    requires Covers(AllObjects(later), AllPrefixes(later), known, b, prefix, delimiter)
    ensures Covers(AllObjects([page] + later), AllPrefixes([page] + later), known, a + b, prefix, delimiter)
  {
    FirstPage(page, later);
    ObjectsJoin(known, a, b, prefix, delimiter);
    FoldsSplit(a, b, prefix, delimiter);
  }

  lemma ObjectsJoin(known: map<Str, Info>, a: seq<Str>, b: seq<Str>, prefix: Str, delimiter: Str)
    ensures InfosOf(known, Unfolded(a + b, prefix, delimiter))
      == InfosOf(known, Unfolded(a, prefix, delimiter)) + InfosOf(known, Unfolded(b, prefix, delimiter))
  {
    UnfoldedSplits(a, b, prefix, delimiter);
    InfosSplit(known, Unfolded(a, prefix, delimiter), Unfolded(b, prefix, delimiter));
  }

  /** A page without a token that leaves keys behind consumed the empty key alone, as its whole limit. */
  lemma EmptyLastKey(m: Objects, opts: ListOptions)
    requires List(m, opts).next.NoToken? && Left(m, opts) != []
    ensures EndsEarly(m, opts)
  {
    TokenSeparates(m, opts);
    var ks, i := Pending(m, opts.prefix, opts.token), CutOf(m, opts);
    assert ks[i - 1] == [];
    PendingHas(m, opts, []);
    assert ks[i - 1] in ks;
    assert i > 1 ==> Less(ks[0], ks[i - 1]);
    assert ks[..1][..0] == [] == ks[..0];
    EntriesGrowByOne(ks[..1], opts.prefix, opts.delimiter);
    assert ks[0] in ks && ks[1] in ks && Less(ks[0], ks[1]);
    PendingHas(m, opts, ks[1]);
    LessIrreflexive(ks[0]);
    TwoKeys(m, ks[0], ks[1]);
  }

  lemma TwoKeys(m: Objects, a: Str, b: Str)
    requires a in m && b in m && a != b
    ensures |m| > 1
  {
    assert |m.Keys - {a}| >= 1 by { assert b in m.Keys - {a}; }
  }

  /** The page that stops at the empty key is the whole traversal, and it misses the other keys. */
  lemma EarlyIsIncomplete(m: Objects, opts: ListOptions)
    requires EndsEarly(m, opts)
    ensures TraverseAll(m, opts) == [List(m, opts)]
    ensures !Complete(m, opts, TraverseAll(m, opts))
  {
    var ks := Pending(m, opts.prefix, opts.token);
    var other := EmptyKeyFirst(m, opts);
    OneEntry(ks, opts.delimiter);
    assert CutOf(m, opts) == 1;
    FirstPage(List(m, opts), []);
    assert [List(m, opts)] + [] == [List(m, opts)];
    InfosNoLonger(Snapshot(m, opts.prefix), Unfolded(ks[..1], opts.prefix, opts.delimiter));
    UnfoldedAreKeys(ks, opts.prefix, opts.delimiter);
    FoldsAreFolds(ks, opts.prefix, opts.delimiter);
    var us := Unfolded(ks, opts.prefix, opts.delimiter);
    if Fold(other, opts.prefix, opts.delimiter).Some? {
      assert Fold(other, opts.prefix, opts.delimiter).value in SetOf(Folds(ks, opts.prefix, opts.delimiter));
    } else {
      assert other in us && [] in us;
      TwoMembers(us, other, []);
      forall k | k in us ensures k in Snapshot(m, opts.prefix) { PendingHas(m, opts, k); }
      InfosAsMany(Snapshot(m, opts.prefix), us);
    }
  }

  /** Where the listing has no prefix and no key to pass, the empty key comes first and another follows. */
  lemma EmptyKeyFirst(m: Objects, opts: ListOptions) returns (other: Str)
    requires EndsEarly(m, opts)
    ensures var ks := Pending(m, opts.prefix, opts.token); |ks| > 1 && ks[0] == [] && other in ks && other != []
  {
    var ks := Pending(m, opts.prefix, opts.token);
    PendingHas(m, opts, []);
    assert [] in ks;
    assert |m.Keys - {[]}| > 0;
    other :| other in m.Keys - {[]};
    PendingHas(m, opts, other);
    var i :| 0 <= i < |ks| && ks[i] == [];
    assert i > 0 ==> Less(ks[0], ks[i]);
  }

  lemma OneEntry(ks: seq<Str>, delimiter: Str)
    requires ks != [] && ks[0] == []
    ensures Unfolded(ks[..1], [], delimiter) == [[]] && Folds(ks[..1], [], delimiter) == []
    ensures Entries(ks[..0], [], delimiter) == 0
  {
    var one := ks[..1];
    assert one[..0] == [] && ks[..0] == [];
    var e: Str := [];
    assert e[0..] == [];
    assert Fold([], [], delimiter).None?;
  }

  lemma TwoMembers(us: seq<Str>, a: Str, b: Str)
    requires a in us && b in us && a != b
    ensures |us| >= 2
  {
    var i :| 0 <= i < |us| && us[i] == a;
    var j :| 0 <= j < |us| && us[j] == b;
  }

  lemma {:induction false} InfosAsMany(known: map<Str, Info>, ks: seq<Str>)
    requires forall k :: k in ks ==> k in known
    ensures |InfosOf(known, ks)| == |ks|
  {
    if ks != [] {
      assert ks == ks[..|ks| - 1] + [ks[|ks| - 1]];
      InfosAsMany(known, ks[..|ks| - 1]);
    }
  }

  /**
   Following tokens to the end returns every matching key that does not fold, in order and with its metadata, and every
   common prefix: exactly when no page ends at the empty key, whose token is the empty token.
   */
  lemma PagingCompleteness(m: Objects, opts: ListOptions)
    ensures Complete(m, opts, TraverseAll(m, opts)) <==> !EndsEarly(m, opts)
    ensures forall page :: page in TraverseAll(m, opts) ==> |page.objects| + |page.prefixes| <= PageLimit(opts.limit)
  {
    if EndsEarly(m, opts) {
      EarlyIsIncomplete(m, opts);
    } else {
      CompleteUnlessEarly(m, opts);
    }
    PagesWithinLimit(m, opts);
  }

  lemma {:induction false} PagesWithinLimit(m: Objects, opts: ListOptions)
    ensures forall page :: page in TraverseAll(m, opts) ==> |page.objects| + |page.prefixes| <= PageLimit(opts.limit)
    decreases |Pending(m, opts.prefix, opts.token)|
  {
    PageWithinLimit(m, opts);
    if !List(m, opts).next.NoToken? {
      NextPageIsShorter(m, opts);
      PagesWithinLimit(m, opts.(token := List(m, opts).next));
    }
  }
}
