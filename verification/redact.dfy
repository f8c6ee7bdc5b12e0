/** Replacing every secret in a text, one secret after another, and what is left when that is done. */
module Redact {
  import opened Strings

  /** "[redacted]" */
  const REDACTED: Str := [91, 114, 101, 100, 97, 99, 116, 101, 100, 93]

  /** strings.ReplaceAll: non-overlapping occurrences from the left. */
  function ReplaceAll(text: Str, secret: Str): Str
    requires secret != []
    decreases |text|
  {
    match Index(text, secret)
    case None => text
    case Some(i) => text[..i] + REDACTED + ReplaceAll(text[i + |secret|..], secret)
  }

  function Redacted(text: Str, secrets: seq<Str>): Str {
    if secrets == [] then
      text
    else
      var before := Redacted(text, secrets[..|secrets| - 1]);
      var secret := secrets[|secrets| - 1];
      if secret == [] then before else ReplaceAll(before, secret)
  }

  method Redact(input: Str, secrets: seq<Str>) returns (text: Str)
    ensures text == Redacted(input, secrets)
  {
    text := input;
    for i := 0 to |secrets|
      invariant text == Redacted(input, secrets[..i])
    {
      assert secrets[..i + 1][..i] == secrets[..i];
      if secrets[i] != [] {
        text := ReplaceAll(text, secrets[i]);
      }
    }
    assert secrets[..|secrets|] == secrets;
  }

  /** The secrets are taken in their order: the first is replaced before the others are looked for. */
  lemma {:induction false} FirstSecretFirst(text: Str, secret: Str, rest: seq<Str>)
    ensures Redacted(text, [secret] + rest) == Redacted(if secret == [] then text else ReplaceAll(text, secret), rest)
    decreases |rest|
  {
    var all := [secret] + rest;
    if rest == [] {
      assert all[..|all| - 1] == [];
    } else {
      assert all[..|all| - 1] == [secret] + rest[..|rest| - 1];
      FirstSecretFirst(text, secret, rest[..|rest| - 1]);
    }
  }

  // ----- Secrets that cannot be spelled with the help of the replacement

  /** Laid d places right of the replacement's start, the secret overlaps it and agrees with it there. */
  ghost predicate Clashes(secret: Str, d: int) {
    && -|secret| < d < |REDACTED|
    && forall j :: 0 <= j < |secret| && 0 <= d + j < |REDACTED| ==> secret[j] == REDACTED[d + j]
  }

  ghost predicate Apart(secret: Str) {
    secret != [] && forall d :: !Clashes(secret, d)
  }

  /** An overlap that reaches an end of the replacement covers its bracket. */
  lemma ClashHasBracket(secret: Str, d: int)
    requires Clashes(secret, d)
    ensures d <= 0 ==> 91 in secret
    ensures d + |secret| >= |REDACTED| ==> 93 in secret
  {
    if d <= 0 { assert secret[0 - d] == REDACTED[0]; }
    if d + |secret| >= |REDACTED| { assert secret[9 - d] == REDACTED[9]; }
  }

  lemma ClashInside(secret: Str, d: int)
    requires Clashes(secret, d) && 0 < d && d + |secret| < |REDACTED|
    ensures Contains(REDACTED[1..9], secret)
  {
    PieceOccurs(REDACTED, secret, d);
  }

  lemma PieceOccurs(whole: Str, piece: Str, d: nat)
    requires 0 < d && d + |piece| < |whole|
    requires forall j :: 0 <= j < |piece| ==> piece[j] == whole[d + j]
    ensures Contains(whole[1..|whole| - 1], piece)
  {
    var inner := whole[1..|whole| - 1];
    var part := inner[d - 1..d - 1 + |piece|];
    forall j | 0 <= j < |piece| ensures part[j] == piece[j] { assert part[j] == inner[d - 1 + j] == whole[d + j]; }
    assert part == piece;
    assert OccursAt(inner, piece, d - 1);
  }

  /** The usual case: no bracket in the secret, and it is not a part of "redacted". */
  lemma PlainSecretsAreApart(secret: Str)
    requires secret != [] && 91 !in secret && 93 !in secret && !Contains(REDACTED[1..9], secret)
    ensures Apart(secret)
  {
    forall d ensures !Clashes(secret, d) {
      if Clashes(secret, d) {
        ClashHasBracket(secret, d);
        ClashInside(secret, d);
      }
    }
  }

  lemma OccurrenceShows(text: Str, sub: Str, i: int, k: nat)
    requires k < |sub|
    ensures OccursAt(text, sub, i) ==> text[i + k] == sub[k]
  {
    if OccursAt(text, sub, i) { assert text[i..i + |sub|][k] == text[i + k]; }
  }

  /** An occurrence that overlaps the replacement is a clash. */
  lemma OverlapClashes(a: Str, b: Str, secret: Str, i: nat)
    requires OccursAt(a + REDACTED + b, secret, i) && |a| < i + |secret| && i < |a| + |REDACTED|
    ensures Clashes(secret, i - |a|)
  {
    var whole, d := a + REDACTED + b, i - |a|;
    forall j | 0 <= j < |secret| && 0 <= d + j < |REDACTED| ensures secret[j] == REDACTED[d + j] {
      OccurrenceShows(whole, secret, i, j);
      assert whole[|a| + (d + j)] == REDACTED[d + j];
    }
  }

  /** Around a replacement, a secret occurs wholly on one side, or clashes. */
  lemma OccursBeside(a: Str, b: Str, secret: Str, i: nat)
    requires secret != [] && OccursAt(a + REDACTED + b, secret, i)
    ensures Contains(a, secret) || Contains(b, secret) || !Apart(secret)
  {
    var whole := a + REDACTED + b;
    if i + |secret| <= |a| {
      assert whole[i..i + |secret|] == a[i..i + |secret|];
      assert OccursAt(a, secret, i);
    } else if i >= |a| + |REDACTED| {
      var at := i - |a| - |REDACTED|;
      assert whole[i..i + |secret|] == b[at..at + |secret|];
      assert OccursAt(b, secret, at);
    } else {
      OverlapClashes(a, b, secret, i);
    }
  }

  lemma ContainsInPart(text: Str, lo: nat, hi: nat, sub: Str, i: nat)
    requires lo <= hi <= |text| && OccursAt(text[lo..hi], sub, i)
    ensures OccursAt(text, sub, lo + i)
  {
    var part := text[lo..hi];
    forall j | 0 <= j < |sub| ensures text[lo + i..lo + i + |sub|][j] == sub[j] {
      assert part[i..i + |sub|][j] == part[i + j] == text[lo + i + j];
    }
  }

  lemma PartIsClean(text: Str, lo: nat, hi: nat, sub: Str)
    requires lo <= hi <= |text| && !Contains(text, sub)
    ensures !Contains(text[lo..hi], sub)
  {
    forall j ensures !OccursAt(text[lo..hi], sub, j) {
      if OccursAt(text[lo..hi], sub, j) { ContainsInPart(text, lo, hi, sub, j); }
    }
  }

  /** Before the leftmost occurrence there is none. */
  lemma HeadIsClean(text: Str, secret: Str, i: nat)
    requires secret != [] && Index(text, secret) == Some(i)
    ensures !Contains(text[..i], secret)
  {
    forall j ensures !OccursAt(text[..i], secret, j) {
      if OccursAt(text[..i], secret, j) {
        assert text[0..i] == text[..i];
        ContainsInPart(text, 0, i, secret, j);
      }
    }
  }

  /** What one replacement leaves absent around it stays absent. */
  lemma ReplaceStep(text: Str, secret: Str, i: nat, other: Str)
    requires secret != [] && Index(text, secret) == Some(i) && Apart(other)
    requires !Contains(text[..i], other) && !Contains(ReplaceAll(text[i + |secret|..], secret), other)
    ensures !Contains(ReplaceAll(text, secret), other)
  {
    AbsentAround(text[..i], ReplaceAll(text[i + |secret|..], secret), other);
  }

  /** Replacing one secret brings back no other. */
  lemma {:induction false} ReplaceKeepsAbsent(text: Str, secret: Str, other: Str)
    requires secret != [] && Apart(other) && !Contains(text, other)
    ensures !Contains(ReplaceAll(text, secret), other)
    decreases |text|
  {
    match Index(text, secret) {
      case None =>
      case Some(i) =>
        AbsentBeside(text, i, |secret|, other);
        ReplaceKeepsAbsent(text[i + |secret|..], secret, other);
        ReplaceStep(text, secret, i, other);
    }
  }

  lemma AbsentBeside(text: Str, i: nat, n: nat, other: Str)
    requires i + n <= |text| && !Contains(text, other)
    ensures !Contains(text[..i], other) && !Contains(text[i + n..], other)
  {
    PartIsClean(text, 0, i, other);
    PartIsClean(text, i + n, |text|, other);
    assert text[0..i] == text[..i] && text[i + n..|text|] == text[i + n..];
  }

  lemma AbsentAround(a: Str, b: Str, secret: Str)
    requires Apart(secret) && !Contains(a, secret) && !Contains(b, secret)
    ensures !Contains(a + REDACTED + b, secret)
  {
    forall i ensures !OccursAt(a + REDACTED + b, secret, i) {
      if OccursAt(a + REDACTED + b, secret, i) { OccursBeside(a, b, secret, i); }
    }
  }

  /** Replacing a secret removes it. */
  lemma {:induction false} ReplaceRemoves(text: Str, secret: Str)
    requires Apart(secret)
    ensures !Contains(ReplaceAll(text, secret), secret)
    decreases |text|
  {
    match Index(text, secret) {
      case None =>
      case Some(i) =>
        HeadIsClean(text, secret, i);
        ReplaceRemoves(text[i + |secret|..], secret);
        ReplaceStep(text, secret, i, secret);
    }
  }

  /** Pieces with a separator between each two. */
  function Joined(pieces: seq<Str>, separator: Str): Str {
    if pieces == [] then []
    else if |pieces| == 1 then pieces[0]
    else pieces[0] + separator + Joined(pieces[1..], separator)
  }

  /**
   Nothing but the secret is replaced: the text is pieces free of it with the secret between them, and the result is the
   same pieces with the replacement between them.
   */
  lemma {:induction false} ReplacesOnlyTheSecret(text: Str, secret: Str) returns (pieces: seq<Str>)
    requires secret != []
    ensures pieces != [] && forall i :: 0 <= i < |pieces| ==> !Contains(pieces[i], secret)
    ensures Joined(pieces, secret) == text
    ensures Joined(pieces, REDACTED) == ReplaceAll(text, secret)
    decreases |text|
  {
    match Index(text, secret) {
      case None => pieces := [text];
      case Some(i) =>
        HeadIsClean(text, secret, i);
        var rest := ReplacesOnlyTheSecret(text[i + |secret|..], secret);
        pieces := [text[..i]] + rest;
        JoinedFirst(text[..i], rest, secret);
        JoinedFirst(text[..i], rest, REDACTED);
        AroundOccurrence(text, secret, i);
    }
  }

  lemma AroundOccurrence(text: Str, sub: Str, i: nat)
    requires OccursAt(text, sub, i)
    ensures text == text[..i] + sub + text[i + |sub|..]
  {
    assert text == text[..i] + text[i..i + |sub|] + text[i + |sub|..];
  }

  lemma JoinedFirst(piece: Str, pieces: seq<Str>, separator: Str)
    requires pieces != []
    ensures Joined([piece] + pieces, separator) == piece + separator + Joined(pieces, separator)
  {
    assert ([piece] + pieces)[1..] == pieces;
  }

  ghost predicate AllApart(secrets: seq<Str>) {
    forall i :: 0 <= i < |secrets| ==> secrets[i] == [] || Apart(secrets[i])
  }

  /**
   In whatever order, nested or overlapping, and whatever the others are: a secret that stands apart is not left in the
   result.
   */
  lemma {:induction false} NoSecretSurvives(text: Str, secrets: seq<Str>, i: nat)
    requires i < |secrets| && Apart(secrets[i])
    ensures !Contains(Redacted(text, secrets), secrets[i])
    decreases |secrets|
  {
    var init, last := secrets[..|secrets| - 1], secrets[|secrets| - 1];
    if i == |init| {
      ReplaceRemoves(Redacted(text, init), last);
    } else {
      NoSecretSurvives(text, init, i);
      if last != [] { ReplaceKeepsAbsent(Redacted(text, init), last, secrets[i]); }
    }
  }

  lemma {:induction false} CleanTextUnchanged(text: Str, secrets: seq<Str>)
    requires forall i :: 0 <= i < |secrets| && secrets[i] != [] ==> !Contains(text, secrets[i])
    ensures Redacted(text, secrets) == text
  {
    if secrets != [] {
      CleanTextUnchanged(text, secrets[..|secrets| - 1]);
      assert secrets[|secrets| - 1] != [] ==> !Contains(text, secrets[|secrets| - 1]);
    }
  }

  /** Redacting again changes nothing. */
  lemma RedactionIdempotent(text: Str, secrets: seq<Str>)
    requires AllApart(secrets)
    ensures Redacted(Redacted(text, secrets), secrets) == Redacted(text, secrets)
  {
    forall i | 0 <= i < |secrets| && secrets[i] != [] ensures !Contains(Redacted(text, secrets), secrets[i]) {
      NoSecretSurvives(text, secrets, i);
    }
    CleanTextUnchanged(Redacted(text, secrets), secrets);
  }

  // ----- Secrets that clash

  ghost predicate Survives(text: Str, secrets: seq<Str>, secret: Str) {
    secret in secrets && Contains(Redacted(text, secrets), secret)
  }

  /** What a secret laid d places right of the replacement's start leaves behind its end. */
  function Overhang(secret: Str, d: int): Str
    requires d < |REDACTED|
  {
    if |REDACTED| - d < |secret| then secret[|REDACTED| - d..] else []
  }

  lemma OneSecret(text: Str, secret: Str)
    requires secret != []
    ensures Redacted(text, [secret]) == ReplaceAll(text, secret)
  {
    assert [secret][..0] == [];
  }

  lemma AbsentThenOther(text: Str, secret: Str, other: Str)
    requires secret != [] && other != [] && !Contains(text, secret)
    ensures Redacted(text, [secret, other]) == ReplaceAll(text, other)
  {
    OneSecret(text, secret);
    assert [secret, other][..1] == [secret];
  }

  lemma ShortTextUnchanged(text: Str, secret: Str)
    requires |text| < |secret|
    ensures ReplaceAll(text, secret) == text
  {
  }

  /** A secret in front of a rest too short to hold another is replaced, and the rest is kept. */
  lemma ReplaceFirst(secret: Str, rest: Str)
    requires |rest| < |secret|
    ensures ReplaceAll(secret + rest, secret) == REDACTED + rest
  {
    assert (secret + rest)[0..|secret|] == secret;
    IndexIs(secret + rest, secret, 0);
    assert (secret + rest)[..0] == [] && (secret + rest)[0 + |secret|..] == rest;
    ShortTextUnchanged(rest, secret);
    assert [] + REDACTED + rest == REDACTED + rest;
  }

  /** Laid at d and agreeing there, with its overhang behind: the secret occurs. */
  lemma ClashOccurs(secret: Str, d: nat)
    requires Clashes(secret, d)
    ensures Contains(REDACTED + Overhang(secret, d), secret)
  {
    var whole := REDACTED + Overhang(secret, d);
    var part := whole[d..d + |secret|];
    forall j | 0 <= j < |secret| ensures part[j] == secret[j] {
      assert part[j] == whole[d + j];
      if d + j < |REDACTED| { assert whole[d + j] == REDACTED[d + j]; }
    }
    assert part == secret;
    assert OccursAt(whole, secret, d);
  }

  /** A secret that starts inside the replacement comes back from itself and its overhang. */
  lemma ClashRight(secret: Str, d: nat) returns (text: Str)
    requires secret != [] && Clashes(secret, d)
    ensures text == secret + Overhang(secret, d) && Survives(text, [secret], secret)
  {
    text := secret + Overhang(secret, d);
    OneSecret(text, secret);
    ReplaceFirst(secret, Overhang(secret, d));
    ClashOccurs(secret, d);
  }

  function Repeat(c: byte, n: nat): (s: Str)
    ensures |s| == n && forall i :: 0 <= i < n ==> s[i] == c
  {
    seq(n, i => c)
  }

  /** Filler between two ends of the secret hides it: where its bracket would stand there is none. */
  lemma FillerHides(secret: Str, p: nat, c: byte, y: Str)
    requires 0 < p < |secret| && secret[p] == 91 && c != 91 && |y| < |secret| - p
    ensures !Contains(secret[..p] + Repeat(c, |secret|) + y, secret)
  {
    var text := secret[..p] + Repeat(c, |secret|) + y;
    forall i ensures !OccursAt(text, secret, i) {
      OccurrenceShows(text, secret, i, p);
      if 0 <= i < |secret| { assert text[i + p] == Repeat(c, |secret|)[i]; }
    }
  }

  /** The filler's own place is the first where it occurs. */
  lemma FillerFirst(x: Str, c: byte, n: nat, y: Str)
    requires 0 < |x| < n && x[|x| - 1] != c && |y| < n
    ensures ReplaceAll(x + Repeat(c, n) + y, Repeat(c, n)) == x + REDACTED + y
  {
    var filler := Repeat(c, n);
    var text := x + filler + y;
    assert text[|x|..|x| + n] == filler;
    assert text[|x| - 1] == x[|x| - 1];
    forall j | 0 <= j < |x| ensures !OccursAt(text, filler, j) {
      OccurrenceShows(text, filler, j, |x| - 1 - j);
    }
    IndexIs(text, filler, |x|);
    assert text[..|x|] == x && text[|x| + n..] == y;
    ShortTextUnchanged(y, filler);
  }

  lemma ClashBracket(secret: Str, d: int)
    requires Clashes(secret, d) && d <= 0 && secret != []
    ensures secret[-d] == 91
  {
    assert secret[-d] == REDACTED[d + -d];
  }

  /** A secret that ends inside the replacement comes back when another secret stood between its two ends. */
  lemma ClashLeft(secret: Str, d: int) returns (text: Str, other: Str)
    requires secret != [] && Clashes(secret, d) && d < 0
    ensures Survives(text, [secret, other], secret)
  {
    var p: nat := -d;
    ClashBracket(secret, d);
    var x, y := secret[..p], Overhang(secret, d);
    var c: byte := if x[p - 1] == 0 then 1 else 0;
    other := Repeat(c, |secret|);
    text := x + other + y;
    FillerHides(secret, p, c, y);
    FillerFirst(x, c, |secret|, y);
    AbsentThenOther(text, secret, other);
    ClashSpans(secret, d);
  }

  lemma ClashSpans(secret: Str, d: int)
    requires Clashes(secret, d) && d < 0
    ensures Contains(secret[..-d] + REDACTED + Overhang(secret, d), secret)
  {
    var whole := secret[..-d] + REDACTED + Overhang(secret, d);
    var part := whole[0..|secret|];
    forall j | 0 <= j < |secret| ensures part[j] == secret[j] {
      assert part[j] == whole[j];
      if 0 <= d + j < |REDACTED| { assert whole[j] == REDACTED[d + j]; }
    }
    assert part == secret;
    assert OccursAt(whole, secret, 0);
  }

  /** Exactly the secrets that stand apart are safe: every other one survives in some text beside some secrets. */
  lemma SurvivesExactlyIfClashing(secret: Str)
    requires secret != []
    ensures (exists text, secrets :: Survives(text, secrets, secret)) <==> !Apart(secret)
  {
    if Apart(secret) {
      forall text, secrets ensures !Survives(text, secrets, secret) {
        if secret in secrets {
          var i :| 0 <= i < |secrets| && secrets[i] == secret;
          NoSecretSurvives(text, secrets, i);
        }
      }
    } else {
      var d :| Clashes(secret, d);
      if d >= 0 {
        var text := ClashRight(secret, d);
        assert Survives(text, [secret], secret);
      } else {
        var text, other := ClashLeft(secret, d);
        assert Survives(text, [secret, other], secret);
      }
    }
  }

  /** Such as one that is part of "redacted", and one that a closing bracket lets straddle. */
  lemma ClashingSecretsSurvive()
    ensures var red := [114, 101, 100]; Contains(Redacted(red, [red]), red)
    ensures var secret := [100, 93, 120]; Contains(Redacted(secret + [120], [secret]), secret)
  {
    var red: Str, secret: Str := [114, 101, 100], [100, 93, 120];
    assert Clashes(red, 1);
    var text := ClashRight(red, 1);
    assert text == red;
    assert Clashes(secret, 8);
    text := ClashRight(secret, 8);
    assert secret[2..] == [120];
  }
}
