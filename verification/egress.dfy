/** Which addresses are on the public internet, as the IANA special-purpose registries have it. */
module Egress {
  import opened Strings

  // ----- Addresses as bits, most significant first

  type Bits = seq<bool>

  datatype Addr = Invalid | V4(bits: Bits) | V6(bits: Bits, zone: string)

  predicate Proper(a: Addr) {
    (a.V4? ==> |a.bits| == 32) && (a.V6? ==> |a.bits| == 128)
  }

  function BitsOf(n: nat, width: nat): (b: Bits)
    ensures |b| == width
  {
    if width == 0 then [] else BitsOf(n / 2, width - 1) + if n % 2 == 1 then [true] else [false]
  }

  function Octets(ns: seq<nat>): (b: Bits)
    ensures |b| == 8 * |ns|
  {
    if ns == [] then [] else BitsOf(ns[0], 8) + Octets(ns[1..])
  }

  function Groups(ns: seq<nat>): (b: Bits)
    ensures |b| == 16 * |ns|
  {
    if ns == [] then [] else BitsOf(ns[0], 16) + Groups(ns[1..])
  }

  /** ::ffff:0:0/96, the IPv4-mapped block. */
  const MAPPED: Bits := Groups([0, 0, 0, 0, 0, 0xffff])

  function Unmap(a: Addr): Addr {
    if a.V6? && MAPPED <= a.bits then V4(a.bits[96..]) else a
  }

  // ----- Prefixes

  /** The leading bits an address of the family must share. */
  datatype Prefix = Prefix4(lead: Bits) | Prefix6(lead: Bits)

  /** Prefix.Contains: the same family, no zone, and the same leading bits. */
  predicate Holds(p: Prefix, a: Addr) {
    (p.Prefix4? && a.V4? && p.lead <= a.bits) || (p.Prefix6? && a.V6? && a.zone == "" && p.lead <= a.bits)
  }

  function Value(b: Bits): nat {
    if b == [] then 0 else 2 * Value(b[..|b| - 1]) + if b[|b| - 1] then 1 else 0
  }

  /** v followed by k zero bits. */
  function ShiftLeft(v: nat, k: nat): nat {
    if k == 0 then v else 2 * ShiftLeft(v, k - 1)
  }

  lemma {:induction false} ValueInjective(a: Bits, b: Bits)
    requires |a| == |b| && Value(a) == Value(b)
    ensures a == b
  {
    if a != [] {
      ValueInjective(a[..|a| - 1], b[..|b| - 1]);
      assert a == a[..|a| - 1] + [a[|a| - 1]] && b == b[..|b| - 1] + [b[|b| - 1]];
    }
  }

  /** Sharing the leading bits is lying in the interval of addresses that start with them. */
  lemma {:induction false} PrefixIsInterval(lead: Bits, a: Bits)
    requires |lead| <= |a|
    ensures lead <= a <==> ShiftLeft(Value(lead), |a| - |lead|) <= Value(a) < ShiftLeft(Value(lead) + 1, |a| - |lead|)
  {
    if |lead| == |a| {
      if Value(lead) == Value(a) { ValueInjective(lead, a); }
      assert lead <= a ==> lead == a;
    } else {
      PrefixIsInterval(lead, a[..|a| - 1]);
      assert lead <= a <==> lead <= a[..|a| - 1];
    }
  }

  // ----- The registries

  /** An entry as it is written: leading octets or groups, zeros after them, and how many bits count. */
  datatype Cidr = Cidr4(octets: seq<nat>, bits: nat) | Cidr6(groups: seq<nat>, bits: nat)

  predicate WellFormed(c: Cidr) {
    match c
    case Cidr4(octets, bits) => bits <= 8 * |octets|
    case Cidr6(groups, bits) => 3 <= bits <= 16 * |groups| && groups[0] < 0x10000
  }

  function PrefixOf(c: Cidr): Prefix
    requires WellFormed(c)
  {
    match c
    case Cidr4(octets, bits) => Prefix4(Octets(octets)[..bits])
    case Cidr6(groups, bits) => Prefix6(Groups(groups)[..bits])
  }

  function Parsed(table: seq<Cidr>): (r: seq<Prefix>)
    requires forall i :: 0 <= i < |table| ==> WellFormed(table[i])
    ensures |r| == |table| && forall i :: 0 <= i < |r| ==> r[i] == PrefixOf(table[i])
  {
    if table == [] then [] else [PrefixOf(table[0])] + Parsed(table[1..])
  }

  const SPECIAL_V4: seq<Cidr> := [
    Cidr4([0], 8), Cidr4([10], 8), Cidr4([100, 64], 10), Cidr4([172, 16], 12), Cidr4([192, 0, 0], 24),
    Cidr4([192, 0, 2], 24), Cidr4([192, 31, 196], 24), Cidr4([192, 52, 193], 24), Cidr4([192, 88, 99], 24),
    Cidr4([192, 168], 16), Cidr4([192, 175, 48], 24), Cidr4([198, 18], 15), Cidr4([198, 51, 100], 24),
    Cidr4([203, 0, 113], 24), Cidr4([240], 4), Cidr4([255, 255, 255, 255], 32)
  ]

  const SPECIAL_V6: seq<Cidr> := [
    Cidr6([0, 0, 0, 0, 0, 0, 0, 0], 128), Cidr6([0, 0, 0, 0, 0, 0, 0, 1], 128), Cidr6([0x64, 0xff9b, 0, 0, 0, 0], 96),
    Cidr6([0x64, 0xff9b, 1], 48), Cidr6([0x100, 0, 0, 0], 64), Cidr6([0x100, 0, 0, 1], 64), Cidr6([0x2001, 0], 23),
    Cidr6([0x2001, 0xdb8], 32), Cidr6([0x2002], 16), Cidr6([0x3fff, 0], 20), Cidr6([0x5f00], 16), Cidr6([0xfc00], 7),
    Cidr6([0xfe80], 10)
  ]

  /** 2000::/3 */
  const GLOBAL_UNICAST: Bits := [false, false, true]

  /** What IsPublic reads: a registry of special-purpose prefixes, and the block IPv6 global unicast lies in. */
  datatype Rules = Rules(registry: seq<Prefix>, unicast: Bits)

  const IANA := Rules(Parsed(SPECIAL_V4 + SPECIAL_V6), GLOBAL_UNICAST)

  // ----- netip.Addr's own predicates, on an unmapped address

  /** 1111 1111, four flags, and the scope. */
  predicate MulticastScope(b: Bits, scope: Bits) {
    |b| >= 16 && b[..8] == ALL_ONES && b[12..16] == scope
  }

  const ALL_ONES: Bits := [true, true, true, true, true, true, true, true]

  /** 127.0.0.0/8 */
  const LOOPBACK_V4: Bits := [false, true, true, true, true, true, true, true]

  /** 224.0.0.0/4 */
  const MULTICAST_V4: Bits := [true, true, true, false]

  /** 224.0.0.0/24 */
  const LOCAL_MULTICAST_V4: Bits := MULTICAST_V4 + [false, false, false, false] + ZERO_OCTET + ZERO_OCTET

  const ZERO_OCTET: Bits := [false, false, false, false, false, false, false, false]

  /** 169.254.0.0/16 */
  const LINK_LOCAL_V4: Bits := [true, false, true, false, true, false, false, true, true, true, true, true, true, true,
    true, false]

  /** fe80::/10 */
  const LINK_LOCAL_V6: Bits := [true, true, true, true, true, true, true, false, true, false]

  predicate IsLoopback(a: Addr) {
    (a.V4? && LOOPBACK_V4 <= a.bits) || (a.V6? && Value(a.bits) == 1)
  }

  predicate IsMulticast(a: Addr) {
    (a.V4? && MULTICAST_V4 <= a.bits) || (a.V6? && ALL_ONES <= a.bits)
  }

  predicate IsLinkLocalUnicast(a: Addr) {
    (a.V4? && LINK_LOCAL_V4 <= a.bits) || (a.V6? && LINK_LOCAL_V6 <= a.bits)
  }

  predicate IsLinkLocalMulticast(a: Addr) {
    (a.V4? && LOCAL_MULTICAST_V4 <= a.bits) || (a.V6? && MulticastScope(a.bits, [false, false, true, false]))
  }

  predicate IsInterfaceLocalMulticast(a: Addr) {
    a.V6? && MulticastScope(a.bits, [false, false, false, true])
  }

  /** The zone counts here: a scoped :: is another address. */
  predicate IsUnspecified(a: Addr) {
    !a.Invalid? && !Zoned(a) && Value(a.bits) == 0
  }

  /** Link-local, the cloud metadata service among them, or multicast. */
  predicate Local(a: Addr) {
    IsLinkLocalUnicast(a) || IsLinkLocalMulticast(a) || IsMulticast(a) || IsInterfaceLocalMulticast(a)
  }

  /** Addresses no composition may admit. */
  predicate Scoped(a: Addr) {
    Local(a) || IsUnspecified(a)
  }

  /** The address of no host, whatever its zone. */
  predicate AllZero(a: Addr) {
    !a.Invalid? && Value(a.bits) == 0
  }

  lemma {:induction false} ZeroBits(b: Bits)
    requires Value(b) == 0
    ensures forall i :: 0 <= i < |b| ==> !b[i]
  {
    if b != [] {
      var init := b[..|b| - 1];
      ZeroBits(init);
      assert forall i :: 0 <= i < |init| ==> b[i] == init[i];
    }
  }

  /** An all-zero address escapes the check for unspecified addresses exactly when it carries a zone. */
  lemma UnspecifiedExactly(a: Addr)
    requires Proper(a) && AllZero(a)
    ensures !Local(a)
    ensures Scoped(a) <==> !Zoned(a)
  {
    ZeroBits(a.bits);
    assert !a.bits[0];
    assert !(ALL_ONES <= a.bits) && a.bits[..8] != ALL_ONES by { assert ALL_ONES[0] && a.bits[..8][0] == a.bits[0]; }
    assert !(MULTICAST_V4 <= a.bits) && !(LINK_LOCAL_V4 <= a.bits) && !(LINK_LOCAL_V6 <= a.bits) by {
      assert MULTICAST_V4[0] && LINK_LOCAL_V4[0] && LINK_LOCAL_V6[0];
    }
    assert !(LOCAL_MULTICAST_V4 <= a.bits) by { assert LOCAL_MULTICAST_V4[0] == MULTICAST_V4[0]; }
  }

  // ----- IsPublic

  predicate Listed(registry: seq<Prefix>, a: Addr) {
    exists i :: 0 <= i < |registry| && Holds(registry[i], a)
  }

  predicate Zoned(a: Addr) {
    a.V6? && a.zone != ""
  }

  /** A valid address with no zone that, unmapped, nothing speaks against. */
  predicate IsPublic(rules: Rules, address: Addr) {
    var a := Unmap(address);
    && !address.Invalid? && !Zoned(address)
    && (a.V6? ==> rules.unicast <= a.bits)
    && !IsLoopback(a) && !Scoped(a)
    && !Listed(rules.registry, a)
  }

  method CheckPublic(rules: Rules, address: Addr) returns (public: bool)
    ensures public <==> IsPublic(rules, address)
  {
    if address.Invalid? || Zoned(address) {
      return false;
    }
    var a := Unmap(address);
    if a.V6? && !Holds(Prefix6(rules.unicast), a) {
      return false;
    }
    if IsLoopback(a) || IsMulticast(a) || IsLinkLocalUnicast(a) || IsLinkLocalMulticast(a) ||
      IsInterfaceLocalMulticast(a) || IsUnspecified(a) {
      return false;
    }
    for i := 0 to |rules.registry|
      invariant forall j :: 0 <= j < i ==> !Holds(rules.registry[j], a)
    {
      if Holds(rules.registry[i], a) {
        return false;
      }
    }
    return true;
  }

  /** An IPv4-mapped address is judged as the IPv4 address in it; with a zone it is refused. */
  lemma MappedVerdict(rules: Rules, embedded: Bits, zone: string)
    requires |embedded| == 32
    ensures IsPublic(rules, V6(MAPPED + embedded, zone)) <==> zone == "" && IsPublic(rules, V4(embedded))
  {
    assert (MAPPED + embedded)[96..] == embedded;
  }

  // ----- The registries as intervals of numbers

  /** The addresses of one family between two numbers, the upper one excluded. */
  datatype Block = Block(v6: bool, lo: nat, hi: nat)

  function BlockOf(p: Prefix): Block {
    var rest := (if p.Prefix4? then 32 else 128) - |p.lead|;
    if rest < 0 then Block(p.Prefix6?, 0, 0)
    else Block(p.Prefix6?, ShiftLeft(Value(p.lead), rest), ShiftLeft(Value(p.lead) + 1, rest))
  }

  predicate Inside(b: Block, a: Addr) {
    && !a.Invalid? && !Zoned(a)
    && b.v6 == a.V6? && b.lo <= Value(a.bits) < b.hi
  }

  ghost predicate InUnion(prefixes: seq<Prefix>, a: Addr) {
    exists i :: 0 <= i < |prefixes| && Inside(BlockOf(prefixes[i]), a)
  }

  lemma HoldsIsInside(p: Prefix, a: Addr)
    requires Proper(a)
    ensures Holds(p, a) <==> Inside(BlockOf(p), a)
  {
    if !a.Invalid? && |p.lead| <= |a.bits| { PrefixIsInterval(p.lead, a.bits); }
  }

  /** A registry lists an address exactly when the address's number is in the union of the intervals of the entries. */
  lemma ListedIsUnion(registry: seq<Prefix>, a: Addr)
    requires Proper(a)
    ensures Listed(registry, a) <==> InUnion(registry, a)
  {
    forall i | 0 <= i < |registry| ensures Holds(registry[i], a) <==> Inside(BlockOf(registry[i]), a) {
      HoldsIsInside(registry[i], a);
    }
  }

  /** The classes netip.Addr answers for, where they are prefixes. */
  const CLASSES: seq<Prefix> :=
    [Prefix4(LOOPBACK_V4), Prefix4(LINK_LOCAL_V4), Prefix4(MULTICAST_V4), Prefix6(LINK_LOCAL_V6), Prefix6(ALL_ONES)]

  lemma ClassesAreIntervals(a: Addr)
    requires Proper(a) && !a.Invalid? && !Zoned(a)
    ensures IsLoopback(a) || Scoped(a) <==> Listed(CLASSES, a) || Value(a.bits) == 0 || (a.V6? && Value(a.bits) == 1)
  {
    assert IsLinkLocalMulticast(a) || IsInterfaceLocalMulticast(a) ==> IsMulticast(a);
    assert forall i :: 0 <= i < |CLASSES| && Holds(CLASSES[i], a) ==> IsLoopback(a) || Scoped(a);
    assert IsLoopback(a) ==> Holds(CLASSES[0], a) || Value(a.bits) == 1;
    assert IsLinkLocalUnicast(a) ==> Holds(CLASSES[1], a) || Holds(CLASSES[3], a);
    assert IsMulticast(a) ==> Holds(CLASSES[2], a) || Holds(CLASSES[4], a);
  }

  /** IsPublic is the complement of a union of intervals, within the unicast block for IPv6. */
  lemma PublicIsComplement(rules: Rules, address: Addr)
    requires Proper(address)
    ensures
      var a := Unmap(address);
      IsPublic(rules, address) <==>
        && !address.Invalid? && !Zoned(address)
        && (a.V6? ==> Inside(BlockOf(Prefix6(rules.unicast)), a) && Value(a.bits) != 1)
        && Value(a.bits) != 0
        && !InUnion(CLASSES, a) && !InUnion(rules.registry, a)
  {
    var a := Unmap(address);
    if !address.Invalid? && !Zoned(address) {
      ClassesAreIntervals(a);
      ListedIsUnion(CLASSES, a);
      ListedIsUnion(rules.registry, a);
      HoldsIsInside(Prefix6(rules.unicast), a);
    }
  }

  lemma {:induction false} ShiftGrows(v: nat, k: nat)
    requires v >= 1
    ensures ShiftLeft(v, k) >= v + k
  {
    if k > 0 { ShiftGrows(v, k - 1); }
  }

  lemma UnicastIsLarge(bits: Bits)
    requires |bits| == 128 && GLOBAL_UNICAST <= bits
    ensures Value(bits) > 1
  {
    assert GLOBAL_UNICAST[..2] == [false, false] && [false, false][..1] == [false];
    assert Value(GLOBAL_UNICAST) == 1;
    PrefixIsInterval(GLOBAL_UNICAST, bits);
    ShiftGrows(1, 125);
  }

  lemma NoClassInUnicast(a: Addr)
    requires Proper(a) && a.V6? && GLOBAL_UNICAST <= a.bits
    ensures !IsLoopback(a) && !Scoped(a)
  {
    UnicastIsLarge(a.bits);
    assert !a.bits[0];
    assert !(ALL_ONES <= a.bits) && a.bits[..8] != ALL_ONES by { assert ALL_ONES[0] && a.bits[..8][0] == a.bits[0]; }
    assert !(LINK_LOCAL_V6 <= a.bits) by { assert LINK_LOCAL_V6[0]; }
  }

  /** Inside 2000::/3 the address's own classes add nothing: the block and the registry decide. */
  lemma UnicastBlockDecides(registry: seq<Prefix>, a: Addr)
    requires Proper(a) && a.V6? && Unmap(a) == a
    ensures IsPublic(Rules(registry, GLOBAL_UNICAST), a) <==>
      !Zoned(a) && GLOBAL_UNICAST <= a.bits && !Listed(registry, a)
  {
    if GLOBAL_UNICAST <= a.bits { NoClassInUnicast(a); }
  }

  // ----- The IPv6 entries that the unicast block makes redundant

  /** n without its k low bits. */
  function Halved(n: nat, k: nat): nat {
    if k == 0 then n else Halved(n / 2, k - 1)
  }

  lemma {:induction false} HalvedIs(n: nat, k: nat, q: nat)
    ensures Halved(n, k) == q <==> ShiftLeft(q, k) <= n < ShiftLeft(q + 1, k)
    ensures n < ShiftLeft(q, k) ==> Halved(n, k) < q
  {
    if k > 0 { HalvedIs(n / 2, k - 1, q); }
  }

  lemma {:induction false} LeadingBits(n: nat, width: nat, k: nat)
    requires k <= width
    ensures BitsOf(n, width)[..k] == BitsOf(Halved(n, width - k), k)
  {
    if k < width {
      LeadingBits(n / 2, width - 1, k);
      assert BitsOf(n, width)[..k] == BitsOf(n / 2, width - 1)[..k];
    }
  }

  lemma ThreeBits(n: nat)
    requires n < 8
    ensures BitsOf(n, 3) == GLOBAL_UNICAST <==> n == 1
  {
    var b := BitsOf(n, 3);
    assert BitsOf(n / 2 / 2, 1) == [n / 2 / 2 % 2 == 1];
    assert BitsOf(n / 2, 2) == [n / 2 / 2 % 2 == 1, n / 2 % 2 == 1];
    assert b[0] == (n / 2 / 2 % 2 == 1) && b[1] == (n / 2 % 2 == 1) && b[2] == (n % 2 == 1);
    assert b == GLOBAL_UNICAST <==> !b[0] && !b[1] && b[2];
  }

  /** An entry lies in 2000::/3 exactly when its first group does. */
  predicate InUnicast(c: Cidr) {
    c.Cidr6? && c.groups != [] && 0x2000 <= c.groups[0] < 0x4000
  }

  lemma UnicastBounds()
    ensures ShiftLeft(1, 13) == 0x2000 && ShiftLeft(2, 13) == 0x4000 && ShiftLeft(8, 13) == 0x10000
  {
  }

  lemma GroupInUnicast(n: nat)
    requires n < 0x10000
    ensures BitsOf(n, 16)[..3] == GLOBAL_UNICAST <==> 0x2000 <= n < 0x4000
  {
    LeadingBits(n, 16, 3);
    HalvedIs(n, 13, 1);
    HalvedIs(n, 13, 8);
    UnicastBounds();
    ThreeBits(Halved(n, 13));
  }

  lemma EntryInUnicast(c: Cidr)
    requires WellFormed(c) && c.Cidr6?
    ensures InUnicast(c) <==> GLOBAL_UNICAST <= PrefixOf(c).lead
  {
    var first := BitsOf(c.groups[0], 16);
    GroupInUnicast(c.groups[0]);
    assert PrefixOf(c).lead[..3] == first[..3] by { assert Groups(c.groups)[..16] == first; }
    assert |PrefixOf(c).lead| >= 3 && |GLOBAL_UNICAST| == 3;
  }

  predicate AllWellFormed(table: seq<Cidr>) {
    forall i :: 0 <= i < |table| ==> WellFormed(table[i])
  }

  /** Whatever a table says of addresses in 2000::/3, the entries that lie in it say. */
  lemma OnlyUnicastEntriesMatter(table: seq<Cidr>, others: seq<Cidr>, a: Addr)
    requires AllWellFormed(table) && AllWellFormed(others)
    requires a.V6? ==> GLOBAL_UNICAST <= a.bits
    requires forall c :: c in table && (c.Cidr4? || InUnicast(c)) ==> c in others
    requires Listed(Parsed(table), a)
    ensures Listed(Parsed(others), a)
  {
    var i :| 0 <= i < |table| && Holds(Parsed(table)[i], a);
    var c := table[i];
    if c.Cidr6? { EntryInUnicast(c); }
    assert c in others;
    var j :| 0 <= j < |others| && others[j] == c;
    assert Parsed(others)[j] == PrefixOf(c);
  }

  lemma UnicastEntries()
    ensures |SPECIAL_V6| == 13
    ensures forall i :: 0 <= i < 13 ==> WellFormed(SPECIAL_V6[i]) && (InUnicast(SPECIAL_V6[i]) <==> 6 <= i < 10)
  {
  }

  lemma SpecialV4()
    ensures forall i :: 0 <= i < |SPECIAL_V4| ==> WellFormed(SPECIAL_V4[i]) && SPECIAL_V4[i].Cidr4?
  {
  }

  lemma KeptEntries(v4: seq<Cidr>, v6: seq<Cidr>)
    requires AllWellFormed(v4) && AllWellFormed(v6) && |v6| == 13
    requires forall i :: 0 <= i < 13 ==> (v6[i].Cidr4? || InUnicast(v6[i]) ==> 6 <= i < 10)
    ensures AllWellFormed(v4 + v6) && AllWellFormed(v4 + v6[6..10])
    ensures forall c :: c in v4 + v6 && (c.Cidr4? || InUnicast(c)) ==> c in v4 + v6[6..10]
    ensures forall c :: c in v4 + v6[6..10] ==> c in v4 + v6
  {
    forall c | c in v6 && (c.Cidr4? || InUnicast(c)) ensures c in v6[6..10] {
      var i :| 0 <= i < |v6| && v6[i] == c;
      assert v6[6..10][i - 6] == c;
    }
  }

  /** Of the IPv6 registry, 2001::/23, 2001:db8::/32, 2002::/16 and 3fff::/20 decide alone. */
  lemma RedundantEntries(address: Addr)
    ensures AllWellFormed(SPECIAL_V4 + SPECIAL_V6[6..10])
    ensures IsPublic(IANA, address) <==>
      IsPublic(Rules(Parsed(SPECIAL_V4 + SPECIAL_V6[6..10]), GLOBAL_UNICAST), address)
  {
    UnicastEntries();
    SpecialV4();
    KeptEntries(SPECIAL_V4, SPECIAL_V6);
    var all, kept := SPECIAL_V4 + SPECIAL_V6, SPECIAL_V4 + SPECIAL_V6[6..10];
    var a := Unmap(address);
    if a.V6? ==> GLOBAL_UNICAST <= a.bits {
      if Listed(Parsed(all), a) { OnlyUnicastEntriesMatter(all, kept, a); }
      if Listed(Parsed(kept), a) { OnlyUnicastEntriesMatter(kept, all, a); }
    }
  }
}
