/** The canonical form of a configured key prefix, and which key spaces two of them name. */
module Normalize {
  import opened Strings
  import opened Store
  import opened Requests
  import Prefixed

  // ----- Trimming and splitting

  function TrimLeft(drop: char -> bool, s: string): (r: string)
    ensures |r| <= |s|
  {
    if s == "" || !drop(s[0]) then s else TrimLeft(drop, s[1..])
  }

  function TrimRight(drop: char -> bool, s: string): (r: string)
    ensures |r| <= |s|
  {
    if s == "" || !drop(s[|s| - 1]) then s else TrimRight(drop, s[..|s| - 1])
  }

  function Trim(drop: char -> bool, s: string): string {
    TrimRight(drop, TrimLeft(drop, s))
  }

  predicate IsSlash(c: char) {
    c == '/'
  }

  /** strings.Split(s, "/") */
  function Split(s: string): (segments: seq<string>)
    ensures segments != []
  {
    if s == "" then
      [""]
    else
      var rest := Split(s[1..]);
      if s[0] == '/' then [""] + rest else [[s[0]] + rest[0]] + rest[1..]
  }

  predicate Usable(segment: string) {
    segment != "" && segment != "." && segment != ".."
  }

  predicate AllUsable(segments: seq<string>) {
    forall i :: 0 <= i < |segments| ==> Usable(segments[i])
  }

  function Core(space: char -> bool, raw: string): string {
    Trim(IsSlash, Trim(space, raw))
  }

  /** None is a refusal. */
  function Normalized(space: char -> bool, raw: string): Option<string> {
    var core := Core(space, raw);
    if core == "" then Some("") else if AllUsable(Split(core)) then Some(core + "/") else None
  }

  method NormalizePrefix(space: char -> bool, raw: string) returns (prefix: Option<string>)
    ensures prefix == Normalized(space, raw)
  {
    var core := Trim(IsSlash, Trim(space, raw));
    if core == "" {
      return Some("");
    }
    var segments := Split(core);
    for i := 0 to |segments|
      invariant forall j :: 0 <= j < i ==> Usable(segments[j])
    {
      if segments[i] == "" || segments[i] == "." || segments[i] == ".." {
        assert !Usable(segments[i]);
        return None;
      }
    }
    return Some(core + "/");
  }

  // ----- The shape of what is accepted

  /** Each segment with a slash after it. */
  function Path(segments: seq<string>): string {
    if segments == [] then "" else segments[0] + "/" + Path(segments[1..])
  }

  predicate SlashFree(segments: seq<string>) {
    forall i :: 0 <= i < |segments| ==> '/' !in segments[i]
  }

  lemma {:induction false} SplitIsPath(s: string)
    ensures Path(Split(s)) == s + "/"
    ensures SlashFree(Split(s))
  {
    if s == "" {
      assert [""][1..] == [];
    } else {
      var rest := Split(s[1..]);
      SplitIsPath(s[1..]);
      assert s + "/" == [s[0]] + (s[1..] + "/");
      if s[0] == '/' {
        assert ([""] + rest)[1..] == rest;
        assert Path([""] + rest) == "/" + Path(rest);
      } else {
        Lengthened(s[0], rest);
      }
    }
  }

  /** A character more in the first segment is a character more in the path. */
  lemma Lengthened(c: char, segments: seq<string>)
    requires segments != [] && SlashFree(segments) && c != '/'
    ensures var longer := [[c] + segments[0]] + segments[1..];
      SlashFree(longer) && Path(longer) == [c] + Path(segments)
  {
    var first, longer := [c] + segments[0], [[c] + segments[0]] + segments[1..];
    assert longer[1..] == segments[1..];
    assert first + "/" + Path(segments[1..]) == [c] + (segments[0] + "/" + Path(segments[1..]));
    assert '/' !in first;
    assert forall i :: 0 < i < |longer| ==> longer[i] == segments[i];
  }

  /** An accepted prefix is empty, or usable segments with one slash after each; no slash is lost or doubled. */
  lemma OutputShape(space: char -> bool, raw: string)
    requires Normalized(space, raw).Some? && Normalized(space, raw).value != ""
    ensures var segments := Split(Core(space, raw));
      segments != [] && AllUsable(segments) && SlashFree(segments) && Normalized(space, raw).value == Path(segments)
  {
    SplitIsPath(Core(space, raw));
  }

  // ----- Nesting

  lemma FirstSegment(a: string, x: string, b: string, y: string)
    requires '/' !in a && '/' !in b && a + "/" + x <= b + "/" + y
    ensures a == b && x <= y
  {
    var s, t := a + "/" + x, b + "/" + y;
    assert forall i :: 0 <= i < |s| ==> s[i] == t[i];
    assert s[|a|] == '/' && t[|b|] == '/';
    assert forall i :: 0 <= i < |a| ==> s[i] == a[i] && s[i] != '/';
    assert forall i :: 0 <= i < |b| ==> t[i] == b[i] && t[i] != '/';
    assert |a| == |b|;
    forall i | 0 <= i < |a| ensures a[i] == b[i] { assert s[i] == a[i] && t[i] == b[i]; }
    forall i | 0 <= i < |x| ensures x[i] == y[i] { assert s[|a| + 1 + i] == x[i] && t[|b| + 1 + i] == y[i]; }
  }

  /** One path is a prefix of another, as a string, exactly when its segments are the other's first segments. */
  lemma {:induction false} NestedIffSegmentsNested(a: seq<string>, b: seq<string>)
    requires SlashFree(a) && SlashFree(b)
    ensures Path(a) <= Path(b) <==> a <= b
  {
    if a != [] && b != [] {
      NestedIffSegmentsNested(a[1..], b[1..]);
      if Path(a) <= Path(b) {
        FirstSegment(a[0], Path(a[1..]), b[0], Path(b[1..]));
        assert a == [a[0]] + a[1..] && b == [b[0]] + b[1..];
      }
      if a <= b {
        assert a[0] == b[0] && a[1..] <= b[1..];
        assert Path(b) == a[0] + "/" + Path(b[1..]);
      }
    } else if a != [] {
      assert Path(a)[|a[0]|] == '/';
    }
  }

  lemma PathInjective(a: seq<string>, b: seq<string>)
    requires SlashFree(a) && SlashFree(b) && Path(a) == Path(b)
    ensures a == b
  {
    NestedIffSegmentsNested(a, b);
    NestedIffSegmentsNested(b, a);
  }

  // ----- What is accepted

  predicate All(drop: char -> bool, s: string) {
    forall i :: 0 <= i < |s| ==> drop(s[i])
  }

  lemma {:induction false} DropsLeft(drop: char -> bool, pad: string, s: string)
    requires All(drop, pad)
    ensures TrimLeft(drop, pad + s) == TrimLeft(drop, s)
  {
    if pad == "" {
      assert pad + s == s;
    } else {
      assert (pad + s)[1..] == pad[1..] + s;
      DropsLeft(drop, pad[1..], s);
    }
  }

  lemma {:induction false} DropsRight(drop: char -> bool, s: string, pad: string)
    requires All(drop, pad)
    ensures TrimRight(drop, s + pad) == TrimRight(drop, s)
  {
    if pad == "" {
      assert s + pad == s;
    } else {
      assert (s + pad)[..|s + pad| - 1] == s + pad[..|pad| - 1];
      DropsRight(drop, s, pad[..|pad| - 1]);
    }
  }

  lemma PaddingOff(drop: char -> bool, before: string, s: string, after: string)
    requires All(drop, before) && All(drop, after) && s != "" && !drop(s[0]) && !drop(s[|s| - 1])
    ensures Trim(drop, before + s + after) == s
  {
    assert before + s + after == before + (s + after);
    DropsLeft(drop, before, s + after);
    assert (s + after)[0] == s[0];
    DropsRight(drop, s, after);
  }

  /** The white space around, and the slashes within it, that an accepted spelling may add. */
  predicate Spelling(space: char -> bool, before: string, lead: string, core: string, tail: string, after: string) {
    && All(space, before) && All(space, after) && All(IsSlash, lead) && All(IsSlash, tail) && !space('/')
    && core != "" && !IsSlash(core[0]) && !IsSlash(core[|core| - 1])
    && (lead == "" ==> !space(core[0])) && (tail == "" ==> !space(core[|core| - 1]))
  }

  lemma SpellingCore(space: char -> bool, before: string, lead: string, core: string, tail: string, after: string)
    requires Spelling(space, before, lead, core, tail, after)
    ensures Core(space, before + (lead + core + tail) + after) == core
  {
    var s := lead + core + tail;
    assert s[0] == if lead == "" then core[0] else lead[0];
    assert s[|s| - 1] == if tail == "" then core[|core| - 1] else tail[|tail| - 1];
    PaddingOff(space, before, s, after);
    PaddingOff(IsSlash, lead, core, tail);
  }

  /** However it is padded, a path of usable segments is accepted and becomes the one prefix of its key space. */
  lemma SameKeySpace(space: char -> bool, before: string, lead: string, core: string, tail: string, after: string,
                     segments: seq<string>)
    requires Spelling(space, before, lead, core, tail, after)
    requires segments != [] && SlashFree(segments) && core + "/" == Path(segments)
    ensures Normalized(space, before + (lead + core + tail) + after) ==
      if forall i :: 0 <= i < |segments| ==> segments[i] != "" && segments[i] != "." && segments[i] != ".."
      then Some(Path(segments)) else None
  {
    SpellingCore(space, before, lead, core, tail, after);
    SplitIsPath(core);
    PathInjective(Split(core), segments);
  }

  lemma {:induction false} LeftDropped(drop: char -> bool, s: string) returns (pad: string)
    ensures s == pad + TrimLeft(drop, s) && All(drop, pad)
    ensures var r := TrimLeft(drop, s); r != "" ==> !drop(r[0])
  {
    if s == "" || !drop(s[0]) {
      pad := "";
    } else {
      var rest := LeftDropped(drop, s[1..]);
      pad := [s[0]] + rest;
      assert pad + TrimLeft(drop, s) == [s[0]] + (rest + TrimLeft(drop, s[1..])) == s;
    }
  }

  lemma {:induction false} RightDropped(drop: char -> bool, s: string) returns (pad: string)
    ensures s == TrimRight(drop, s) + pad && All(drop, pad)
    ensures var r := TrimRight(drop, s); r != "" ==> !drop(r[|r| - 1])
  {
    if s == "" || !drop(s[|s| - 1]) {
      pad := "";
    } else {
      var init, last := s[..|s| - 1], s[|s| - 1];
      var rest := RightDropped(drop, init);
      pad := rest + [last];
      assert TrimRight(drop, s) + pad == (TrimRight(drop, init) + rest) + [last] == s;
    }
  }

  lemma PaddedThrice(drop: char -> bool, s: string, before: string, after: string)
    requires s == before + TrimLeft(drop, s) && TrimLeft(drop, s) == Trim(drop, s) + after
    ensures s == before + Trim(drop, s) + after
    ensures Trim(drop, s) != "" ==> TrimLeft(drop, s)[0] == Trim(drop, s)[0]
  {
    assert before + (Trim(drop, s) + after) == before + Trim(drop, s) + after;
  }

  lemma BothDropped(drop: char -> bool, s: string) returns (before: string, after: string)
    ensures s == before + Trim(drop, s) + after && All(drop, before) && All(drop, after)
    ensures var r := Trim(drop, s); r != "" ==> !drop(r[0]) && !drop(r[|r| - 1])
  {
    before := LeftDropped(drop, s);
    after := RightDropped(drop, TrimLeft(drop, s));
    PaddedThrice(drop, s, before, after);
  }

  /** Every configured prefix is such a spelling, or blank: so these two laws are all there is to it. */
  lemma EverySpelling(space: char -> bool, raw: string)
    returns (before: string, lead: string, tail: string, after: string)
    requires !space('/')
    ensures raw == before + (lead + Core(space, raw) + tail) + after
    ensures if Core(space, raw) == "" then All(space, before) && All(IsSlash, lead + tail) && All(space, after)
      else Spelling(space, before, lead, Core(space, raw), tail, after)
  {
    before, after := BothDropped(space, raw);
    lead, tail := BothDropped(IsSlash, Trim(space, raw));
    var inner := lead + Core(space, raw) + tail;
    assert inner == Trim(space, raw);
  }

  /** A blank one, with or without slashes in it, names the whole bucket. */
  lemma BlankIsWholeBucket(space: char -> bool, before: string, slashes: string, after: string)
    requires !space('/') && All(space, before) && All(IsSlash, slashes) && All(space, after)
    ensures Normalized(space, before + slashes + after) == Some("")
  {
    assert before + slashes + after == before + (slashes + after);
    DropsLeft(space, before, slashes + after);
    if slashes == "" {
      assert slashes + after == after && after + "" == after;
      DropsLeft(space, after, "");
    } else {
      PaddingOff(space, before, slashes, after);
      assert slashes + "" == slashes;
      DropsLeft(IsSlash, slashes, "");
    }
  }

  // ----- Key spaces

  /** Keys are bytes: how a character is encoded. No encoding is a prefix of another character's. */
  ghost predicate Encoding(encode: char -> Str) {
    && (forall c :: encode(c) != [])
    && forall c, d :: encode(c) <= encode(d) ==> c == d
  }

  function Bytes(encode: char -> Str, s: string): Str {
    if s == "" then [] else encode(s[0]) + Bytes(encode, s[1..])
  }

  lemma {:induction false} BytesKeepPrefixes(encode: char -> Str, a: string, b: string)
    requires Encoding(encode)
    ensures Bytes(encode, a) <= Bytes(encode, b) <==> a <= b
  {
    if a != "" && b != "" {
      BytesKeepPrefixes(encode, a[1..], b[1..]);
      var x, y, e, f := Bytes(encode, a[1..]), Bytes(encode, b[1..]), encode(a[0]), encode(b[0]);
      assert a <= b <==> a[0] == b[0] && a[1..] <= b[1..] by { assert a == [a[0]] + a[1..] && b == [b[0]] + b[1..]; }
      SharedKeyNests(e, f, f + y);
      if e + x <= f + y { assert e <= f + y by { assert (f + y)[..|e|] == e; } }
      if e == f { assert e + x <= f + y <==> x <= y by { SamePrefixOff(e, x, y); } }
    } else if a != "" {
      assert encode(a[0]) != [];
    }
  }

  lemma SamePrefixOff(e: Str, x: Str, y: Str)
    ensures e + x <= e + y <==> x <= y
  {
    assert (e + x)[|e|..] == x && (e + y)[|e|..] == y;
    if e + x <= e + y {
      assert forall i :: 0 <= i < |x| ==> x[i] == (e + x)[|e| + i] == (e + y)[|e| + i] == y[i];
    }
  }

  /** Prefixes of one key are nested: two that are not share no key. */
  lemma SharedKeyNests(p: Str, q: Str, k: Str)
    ensures p <= k && q <= k ==> p <= q || q <= p
  {
    if p <= k && q <= k {
      if |p| <= |q| {
        assert q[..|p|] == k[..|p|];
      } else {
        assert p[..|q|] == k[..|q|];
      }
    }
  }

  /** What is done under one of two such prefixes leaves the other's view as it was. */
  lemma OtherViewUnchanged(p: Str, q: Str, m: Objects, m': Objects)
    requires !(p <= q) && !(q <= p) && Prefixed.SameOutside(p, m, m')
    ensures Prefixed.View(m', q) == Prefixed.View(m, q)
  {
    forall k ensures k in Prefixed.View(m', q) <==> k in Prefixed.View(m, q) {
      SharedKeyNests(p, q, q + k);
      Prefixed.InView(m, q, k);
      Prefixed.InView(m', q, k);
    }
    forall k | k in Prefixed.View(m, q) ensures Prefixed.View(m', q)[k] == Prefixed.View(m, q)[k] {
      SharedKeyNests(p, q, q + k);
      Prefixed.InView(m, q, k);
      Prefixed.InView(m', q, k);
    }
  }

  /**
   Two tenants whose accepted prefixes are not nested segment by segment: no run of requests through the one changes
   what the other sees.
   */
  lemma TenantsApart(space: char -> bool, encode: char -> Str, rawA: string, rawB: string,
                     digest: Str -> Str, m: Objects, ops: seq<Op>)
    requires Encoding(encode)
    requires Normalized(space, rawA).Some? && Normalized(space, rawA).value != ""
    requires Normalized(space, rawB).Some? && Normalized(space, rawB).value != ""
    requires var a, b := Split(Core(space, rawA)), Split(Core(space, rawB)); !(a <= b) && !(b <= a)
    ensures var p, q := Bytes(encode, Normalized(space, rawA).value), Bytes(encode, Normalized(space, rawB).value);
      var m' := Prefixed.WrappedRun(digest, p, m, Prefixed.AllUnder(p, ops)).0;
      Prefixed.View(m', q) == Prefixed.View(m, q)
  {
    var a, b := Split(Core(space, rawA)), Split(Core(space, rawB));
    OutputShape(space, rawA);
    OutputShape(space, rawB);
    NestedIffSegmentsNested(a, b);
    NestedIffSegmentsNested(b, a);
    BytesKeepPrefixes(encode, Path(a), Path(b));
    BytesKeepPrefixes(encode, Path(b), Path(a));
    var p, q := Bytes(encode, Path(a)), Bytes(encode, Path(b));
    assert p != [] by { assert [] <= q; }
    Prefixed.PrefixRefinement(digest, p, m, ops);
    OtherViewUnchanged(p, q, m, Prefixed.WrappedRun(digest, p, m, Prefixed.AllUnder(p, ops)).0);
  }

  // ----- Normalising again

  lemma {:induction false} LeftTrimmed(drop: char -> bool, s: string)
    ensures var r := TrimLeft(drop, s);
      && (r != "" ==> !drop(r[0]) && r[|r| - 1] == s[|s| - 1])
      && (s != "" && !drop(s[|s| - 1]) ==> r != "")
  {
    if s != "" && drop(s[0]) { LeftTrimmed(drop, s[1..]); }
  }

  lemma {:induction false} RightTrimmed(drop: char -> bool, s: string)
    ensures var r := TrimRight(drop, s); r != "" ==> !drop(r[|r| - 1]) && r[0] == s[0]
  {
    if s != "" && drop(s[|s| - 1]) { RightTrimmed(drop, s[..|s| - 1]); }
  }

  lemma CoreIsBare(space: char -> bool, raw: string)
    ensures var core := Core(space, raw); core != "" ==> !IsSlash(core[0]) && !IsSlash(core[|core| - 1])
  {
    LeftTrimmed(IsSlash, Trim(space, raw));
    RightTrimmed(IsSlash, TrimLeft(IsSlash, Trim(space, raw)));
  }

  lemma NothingToTrim(drop: char -> bool, s: string)
    requires s != "" && !drop(s[0]) && !drop(s[|s| - 1])
    ensures Trim(drop, s) == s
  {
  }

  /** The core with its slash back: trimmed of slashes it is the core. */
  lemma SlashOff(core: string)
    requires core != "" && !IsSlash(core[0]) && !IsSlash(core[|core| - 1])
    ensures Trim(IsSlash, core + "/") == core
  {
    var s := core + "/";
    assert s[0] == core[0] && IsSlash(s[|core|]) && s[..|core|] == core;
    assert TrimLeft(IsSlash, s) == s;
    assert TrimRight(IsSlash, s) == TrimRight(IsSlash, core);
  }

  lemma SpaceOff(space: char -> bool, s: string)
    requires s != "" && space(s[0]) && !space(s[|s| - 1])
    ensures var t := Trim(space, s); t != "" && |t| < |s| && t[|t| - 1] == s[|s| - 1]
  {
    LeftTrimmed(space, s);
    assert TrimLeft(space, s) == TrimLeft(space, s[1..]);
  }

  lemma TrailingSlashOff(s: string)
    requires s != "" && IsSlash(s[|s| - 1])
    ensures |Trim(IsSlash, s)| < |s|
  {
    LeftTrimmed(IsSlash, s);
  }

  lemma SecondCore(space: char -> bool, core: string)
    requires core != "" && !IsSlash(core[0]) && !IsSlash(core[|core| - 1]) && !space('/')
    ensures !space(core[0]) ==> Core(space, core + "/") == core
    ensures space(core[0]) ==> |Core(space, core + "/")| < |core|
  {
    if space(core[0]) {
      SpaceOff(space, core + "/");
      TrailingSlashOff(Trim(space, core + "/"));
    } else {
      NothingToTrim(space, core + "/");
      SlashOff(core);
    }
  }

  /**
   A second pass over an accepted prefix changes nothing exactly when the prefix does not start with white space; if it
   does and the pass accepts again, the result is strictly shorter.
   */
  lemma SecondPass(space: char -> bool, raw: string)
    requires !space('/') && Normalized(space, raw).Some? && Normalized(space, raw).value != ""
    ensures var once := Normalized(space, raw).value;
      && (Normalized(space, once) == Some(once) <==> !space(Core(space, raw)[0]))
      && (Normalized(space, once).Some? && Normalized(space, once).value != once ==>
        |Normalized(space, once).value| < |once|)
  {
    var core := Core(space, raw);
    CoreIsBare(space, raw);
    SecondCore(space, core);
  }

  /** Pass after pass: where it ends, at a prefix that no longer changes or at a refusal. */
  function Settled(space: char -> bool, prefix: string): Option<string>
    decreases |prefix|
  {
    match Normalized(space, prefix)
    case None => None
    case Some(next) => if |next| < |prefix| then Settled(space, next) else Some(next)
  }

  lemma {:induction false} PassesSettle(space: char -> bool, raw: string)
    requires !space('/') && Normalized(space, raw).Some?
    ensures var end := Settled(space, Normalized(space, raw).value); end.Some? ==> Normalized(space, end.value) == end
    decreases if Normalized(space, raw).Some? then |Normalized(space, raw).value| else 0
  {
    var once := Normalized(space, raw).value;
    if once != "" {
      SecondPass(space, raw);
      if Normalized(space, once).Some? && |Normalized(space, once).value| < |once| { PassesSettle(space, once); }
    }
  }

  /**
   White space behind the leading slash survives the first pass and not the second; a dot behind it is then refused.
   */
  lemma TwoPassesDiffer(space: char -> bool, segment: char)
    requires space(' ') && !space('/') && !space(segment) && segment != '/'
    ensures Normalized(space, ['/', ' ', segment]) == Some([' ', segment, '/'])
    ensures Normalized(space, [' ', segment, '/']) == if segment == '.' then None else Some([segment, '/'])
  {
    var raw, once := ['/', ' ', segment], [' ', segment, '/'];
    NothingToTrim(space, raw);
    assert raw[1..] == [' ', segment] && once[1..] == [segment, '/'];
    NothingToTrim(IsSlash, [' ', segment]);
    assert TrimLeft(IsSlash, raw) == TrimLeft(IsSlash, raw[1..]) == [' ', segment];
    assert Core(space, raw) == [' ', segment];
    assert TrimLeft(space, once) == TrimLeft(space, once[1..]) == [segment, '/'];
    NothingToTrim(space, [segment, '/']);
    SlashOff([segment]);
    assert [segment] + "/" == [segment, '/'];
    assert Core(space, once) == [segment];
    SplitOne([segment]);
    SplitOne([' ', segment]);
    assert [' ', segment][0] != ".."[0];
    assert [' ', segment] + "/" == once;
  }

  lemma {:induction false} SplitOne(s: string)
    requires '/' !in s
    ensures Split(s) == [s]
  {
    if s != "" {
      SplitOne(s[1..]);
      assert [s[0]] + s[1..] == s;
    }
  }
}
