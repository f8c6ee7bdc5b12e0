/** What a listing says of a store, in terms of the keys alone: which are returned, and what a common prefix is. */
module Listing {
  import opened Strings
  import opened Store
  import opened Paging

  /** The delimiter occurs in the key past the listing prefix. */
  ghost predicate Divided(k: Str, opts: ListOptions) {
    opts.delimiter != [] && exists j :: |opts.prefix| <= j && OccursAt(k, opts.delimiter, j)
  }

  /** cp goes from the start of the listing prefix through the first delimiter past it, which it ends with. */
  ghost predicate ThroughDelimiter(cp: Str, opts: ListOptions) {
    && opts.delimiter != [] && opts.prefix <= cp
    && |opts.prefix| + |opts.delimiter| <= |cp| && OccursAt(cp, opts.delimiter, |cp| - |opts.delimiter|)
    && forall j :: |opts.prefix| <= j < |cp| - |opts.delimiter| ==> !OccursAt(cp, opts.delimiter, j)
  }

  /** The keys a listing is about: stored, under its prefix, and past its token. */
  predicate Matches(m: Objects, opts: ListOptions, k: Str) {
    k in m && opts.prefix <= k && Past(opts.token, k)
  }

  // ----- Folding

  lemma OccursInTail(k: Str, n: nat, sub: Str, j: int)
    requires n <= |k|
    ensures n <= j ==> (OccursAt(k, sub, j) <==> OccursAt(k[n..], sub, j - n))
  {
    if n <= j <= j + |sub| <= |k| { assert k[n..][j - n..j - n + |sub|] == k[j..j + |sub|]; }
  }

  lemma OccursInHead(k: Str, n: nat, sub: Str, j: int)
    requires n <= |k|
    ensures 0 <= j && j + |sub| <= n ==> (OccursAt(k, sub, j) <==> OccursAt(k[..n], sub, j))
  {
    if 0 <= j && j + |sub| <= n { assert k[..n][j..j + |sub|] == k[j..j + |sub|]; }
  }

  /** A key folds exactly when it is divided. */
  lemma FoldsWhenDivided(k: Str, opts: ListOptions)
    requires opts.prefix <= k
    ensures Fold(k, opts.prefix, opts.delimiter).Some? <==> Divided(k, opts)
  {
    var n, rest := |opts.prefix|, k[|opts.prefix|..];
    if opts.delimiter != [] {
      if Divided(k, opts) {
        var j :| n <= j && OccursAt(k, opts.delimiter, j);
        OccursInTail(k, n, opts.delimiter, j);
        assert Contains(rest, opts.delimiter);
      }
      if Index(rest, opts.delimiter).Some? {
        OccursInTail(k, n, opts.delimiter, n + Index(rest, opts.delimiter).value);
      }
    }
  }

  /** What it folds into is its own part through the first delimiter. */
  lemma FoldIsThroughDelimiter(k: Str, opts: ListOptions)
    requires opts.prefix <= k && Fold(k, opts.prefix, opts.delimiter).Some?
    ensures var cp := Fold(k, opts.prefix, opts.delimiter).value; cp <= k && ThroughDelimiter(cp, opts)
  {
    var n, rest := |opts.prefix|, k[|opts.prefix|..];
    var i := Index(rest, opts.delimiter).value;
    var cp := Fold(k, opts.prefix, opts.delimiter).value;
    var end := n + i + |opts.delimiter|;
    assert cp == k[..end];
    OccursInTail(k, n, opts.delimiter, n + i);
    OccursInHead(k, end, opts.delimiter, n + i);
    forall j | n <= j < n + i ensures !OccursAt(cp, opts.delimiter, j) {
      if j + |opts.delimiter| <= end {
        OccursInHead(k, end, opts.delimiter, j);
        OccursInTail(k, n, opts.delimiter, j);
      }
    }
  }

  /** And no other string is that. */
  lemma OneThroughDelimiter(k: Str, a: Str, b: Str, opts: ListOptions)
    requires a <= k && b <= k && ThroughDelimiter(a, opts) && ThroughDelimiter(b, opts)
    ensures a == b
  {
    if |a| < |b| {
      assert a == b[..|a|];
      OccursInHead(b, |a|, opts.delimiter, |a| - |opts.delimiter|);
    } else if |b| < |a| {
      assert b == a[..|b|];
      OccursInHead(a, |b|, opts.delimiter, |b| - |opts.delimiter|);
    }
  }

  lemma FoldExactly(k: Str, cp: Str, opts: ListOptions)
    requires opts.prefix <= k
    ensures Fold(k, opts.prefix, opts.delimiter) == Some(cp) <==> cp <= k && ThroughDelimiter(cp, opts)
  {
    FoldsWhenDivided(k, opts);
    if Fold(k, opts.prefix, opts.delimiter).Some? { FoldIsThroughDelimiter(k, opts); }
    if cp <= k && ThroughDelimiter(cp, opts) {
      OccursInHead(k, |cp|, opts.delimiter, |cp| - |opts.delimiter|);
      assert k[..|cp|] == cp;
      assert Divided(k, opts);
      OneThroughDelimiter(k, cp, Fold(k, opts.prefix, opts.delimiter).value, opts);
    }
  }

  // ----- One page

  lemma {:induction false} InfosAreKnown(known: map<Str, Info>, ks: seq<Str>, o: Info)
    ensures o in InfosOf(known, ks) <==> exists k :: k in ks && k in known && known[k] == o
  {
    if ks != [] {
      var init, k := ks[..|ks| - 1], ks[|ks| - 1];
      InfosAreKnown(known, init, o);
      assert ks == init + [k];
    }
  }

  ghost predicate Distinct(ss: seq<Str>) {
    forall i, j :: 0 <= i < j < |ss| ==> ss[i] != ss[j]
  }

  lemma NewKeepsDistinct(ss: seq<Str>, s: Str)
    requires Distinct(ss) && s !in ss
    ensures Distinct(ss + [s])
  {
  }

  lemma {:induction false} FoldsAreDistinct(ks: seq<Str>, prefix: Str, delimiter: Str)
    ensures Distinct(Folds(ks, prefix, delimiter))
  {
    if ks != [] {
      var seen := Folds(ks[..|ks| - 1], prefix, delimiter);
      FoldsAreDistinct(ks[..|ks| - 1], prefix, delimiter);
      match Fold(ks[|ks| - 1], prefix, delimiter)
      case None =>
      case Some(cp) => if cp !in seen { NewKeepsDistinct(seen, cp); }
    }
  }

  /** Every object on a page is a stored one, with its metadata, that matches and is not divided. */
  lemma PageObjects(m: Objects, opts: ListOptions, o: Info)
    requires Keyed(m) && o in List(m, opts).objects
    ensures Matches(m, opts, o.key) && o == m[o.key].info && !Divided(o.key, opts)
  {
    PageParts(m, opts);
    var ks := Consumed(m, opts);
    InfosAreKnown(Snapshot(m, opts.prefix), Unfolded(ks, opts.prefix, opts.delimiter), o);
    UnfoldedAreKeys(ks, opts.prefix, opts.delimiter);
    var k :| k in Unfolded(ks, opts.prefix, opts.delimiter) && k in Snapshot(m, opts.prefix) &&
      Snapshot(m, opts.prefix)[k] == o;
    PendingHas(m, opts, k);
    FoldsWhenDivided(k, opts);
  }

  /** Every common prefix on a page is that of a matching key, goes through the first delimiter, and is there once. */
  lemma PagePrefixes(m: Objects, opts: ListOptions)
    ensures var cps := List(m, opts).prefixes;
      && (forall cp :: cp in cps ==> ThroughDelimiter(cp, opts) && exists k :: Matches(m, opts, k) && cp <= k)
      && forall i, j :: 0 <= i < j < |cps| ==> cps[i] != cps[j]
  {
    PageParts(m, opts);
    var ks := Consumed(m, opts);
    FoldsAreFolds(ks, opts.prefix, opts.delimiter);
    FoldsAreDistinct(ks, opts.prefix, opts.delimiter);
    forall cp | cp in List(m, opts).prefixes
      ensures ThroughDelimiter(cp, opts) && exists k :: Matches(m, opts, k) && cp <= k
    {
      var k :| k in ks && Fold(k, opts.prefix, opts.delimiter) == Some(cp);
      PendingHas(m, opts, k);
      FoldExactly(k, cp, opts);
      assert Matches(m, opts, k);
    }
  }

  /** A page that leaves keys behind is full: as many entries as asked for, or a thousand. */
  lemma PageIsFull(m: Objects, opts: ListOptions)
    ensures |List(m, opts).objects| + |List(m, opts).prefixes| <= if opts.limit <= 0 then 1000 else opts.limit
    ensures !List(m, opts).next.NoToken? ==>
      |List(m, opts).objects| + |List(m, opts).prefixes| == if opts.limit <= 0 then 1000 else opts.limit
  {
    PageWithinLimit(m, opts);
    PageParts(m, opts);
    if !List(m, opts).next.NoToken? {
      var us := Unfolded(Consumed(m, opts), opts.prefix, opts.delimiter);
      UnfoldedAreKeys(Consumed(m, opts), opts.prefix, opts.delimiter);
      forall k | k in us ensures k in Snapshot(m, opts.prefix) { PendingHas(m, opts, k); }
      InfosAsMany(Snapshot(m, opts.prefix), us);
    }
  }

  /** A token that does not decode is no token. */
  lemma UndecodableIsNone(m: Objects, opts: ListOptions)
    ensures List(m, opts.(token := Undecodable)) == List(m, opts.(token := NoToken))
  {
    NothingToPass(m, opts.(token := Undecodable));
    NothingToPass(m, opts.(token := NoToken));
  }

  lemma NothingToPass(m: Objects, opts: ListOptions)
    requires !opts.token.After?
    ensures Pending(m, opts.prefix, opts.token) == Sorted(Matching(m, opts.prefix))
  {
    var ks, all := Pending(m, opts.prefix, opts.token), Matching(m, opts.prefix);
    forall k ensures k in ks <==> k in all { PendingHas(m, opts, k); }
    EnumerationUnique(ks, Sorted(all), all);
  }

  // ----- Whole listings

  /** Of a key that stays while a listing is followed: returned once if it is not divided, and covered if it is. */
  lemma StableKeyListed(ms: seq<Objects>, opts: ListOptions, k: Str)
    requires forall m :: m in ms ==> Keyed(m) && k in m
    requires Completed(Traverse(ms, opts)) && !EndsEarly(ms[0], opts)
    requires opts.prefix <= k && Past(opts.token, k)
    ensures !Divided(k, opts) ==> multiset(Returned(ms, opts))[k] == 1
    ensures Divided(k, opts) ==>
      multiset(Returned(ms, opts))[k] == 0
      && exists cp :: cp in AllPrefixes(Traverse(ms, opts)) && cp <= k && ThroughDelimiter(cp, opts)
  {
    StableKeyReturnedOnce(ms, opts, k);
    FoldsWhenDivided(k, opts);
    if Divided(k, opts) { FoldIsThroughDelimiter(k, opts); }
  }

  /**
   A complete listing is exactly this: the objects are the matching keys that are not divided, ascending, each with its
   metadata, and the common prefixes are the parts of the divided ones through their first delimiter.
   */
  lemma ListingExactly(m: Objects, opts: ListOptions)
    requires Keyed(m) && !EndsEarly(m, opts)
    ensures var pages := TraverseAll(m, opts);
      && Ascending(KeysOf(AllObjects(pages)))
      && (forall o :: o in AllObjects(pages) <==>
        exists k :: Matches(m, opts, k) && !Divided(k, opts) && m[k].info == o)
      && (forall cp :: cp in AllPrefixes(pages) <==>
        ThroughDelimiter(cp, opts) && exists k :: Matches(m, opts, k) && cp <= k)
  {
    PagingCompleteness(m, opts);
    var ks := Pending(m, opts.prefix, opts.token);
    ObjectsExactly(m, opts, ks);
    PrefixesExactly(m, opts, ks);
  }

  lemma ObjectsExactly(m: Objects, opts: ListOptions, ks: seq<Str>)
    requires Keyed(m) && ks == Pending(m, opts.prefix, opts.token)
    ensures var infos := InfosOf(Snapshot(m, opts.prefix), Unfolded(ks, opts.prefix, opts.delimiter));
      && Ascending(KeysOf(infos))
      && forall o :: o in infos <==> exists k :: Matches(m, opts, k) && !Divided(k, opts) && m[k].info == o
  {
    var known, us := Snapshot(m, opts.prefix), Unfolded(ks, opts.prefix, opts.delimiter);
    UnfoldedAreKeys(ks, opts.prefix, opts.delimiter);
    forall k ensures k in us <==> Matches(m, opts, k) && !Divided(k, opts) {
      PendingHas(m, opts, k);
      if opts.prefix <= k { FoldsWhenDivided(k, opts); }
    }
    InfosName(known, us);
    UnfoldedAscends(ks, opts.prefix, opts.delimiter);
    forall o
      ensures o in InfosOf(known, us) <==> exists k :: Matches(m, opts, k) && !Divided(k, opts) && m[k].info == o {
      InfosAreKnown(known, us, o);
      if exists k :: Matches(m, opts, k) && !Divided(k, opts) && m[k].info == o {
        var k :| Matches(m, opts, k) && !Divided(k, opts) && m[k].info == o;
        assert k in us && known[k] == o;
      }
    }
  }

  lemma PrefixesExactly(m: Objects, opts: ListOptions, ks: seq<Str>)
    requires ks == Pending(m, opts.prefix, opts.token)
    ensures forall cp :: cp in SetOf(Folds(ks, opts.prefix, opts.delimiter)) <==>
      ThroughDelimiter(cp, opts) && exists k :: Matches(m, opts, k) && cp <= k
  {
    FoldsAreFolds(ks, opts.prefix, opts.delimiter);
    forall cp
      ensures (exists k :: k in ks && Fold(k, opts.prefix, opts.delimiter) == Some(cp)) <==>
        ThroughDelimiter(cp, opts) && exists k :: Matches(m, opts, k) && cp <= k
    {
      forall k ensures k in ks <==> Matches(m, opts, k) { PendingHas(m, opts, k); }
      forall k | Matches(m, opts, k)
        ensures Fold(k, opts.prefix, opts.delimiter) == Some(cp) <==> cp <= k && ThroughDelimiter(cp, opts)
      {
        FoldExactly(k, cp, opts);
      }
    }
  }
}
