/** The public internet by numbers: the verdict on every address, without bits, prefixes or tables. */
module Registry {
  import opened Egress

  // ----- What an entry as it is written stands for

  lemma {:induction false} BitsHaveValue(n: nat, width: nat)
    requires n < ShiftLeft(1, width)
    ensures Value(BitsOf(n, width)) == n
  {
    if width > 0 {
      BitsHaveValue(n / 2, width - 1);
      var b := BitsOf(n, width);
      assert b[..|b| - 1] == BitsOf(n / 2, width - 1);
    }
  }

  lemma {:induction false} ValueOfBoth(a: Bits, b: Bits)
    ensures Value(a + b) == ShiftLeft(Value(a), |b|) + Value(b)
    decreases |b|
  {
    if b == [] {
      assert a + b == a;
    } else {
      assert (a + b)[..|a + b| - 1] == a + b[..|b| - 1];
      ValueOfBoth(a, b[..|b| - 1]);
    }
  }

  /** The number whose digits these are, of the given width in bits, the most significant first. */
  function Number(digits: seq<nat>, width: nat): nat {
    if digits == [] then 0 else ShiftLeft(digits[0], width * (|digits| - 1)) + Number(digits[1..], width)
  }

  lemma {:induction false} OctetsHaveValue(ns: seq<nat>)
    requires forall i :: 0 <= i < |ns| ==> ns[i] < 256
    ensures Value(Octets(ns)) == Number(ns, 8)
  {
    if ns != [] {
      OctetsHaveValue(ns[1..]);
      assert ShiftLeft(1, 8) == 256;
      BitsHaveValue(ns[0], 8);
      ValueOfBoth(BitsOf(ns[0], 8), Octets(ns[1..]));
    }
  }

  lemma {:induction false} GroupsHaveValue(ns: seq<nat>)
    requires forall i :: 0 <= i < |ns| ==> ns[i] < 0x10000
    ensures Value(Groups(ns)) == Number(ns, 16)
  {
    if ns != [] {
      GroupsHaveValue(ns[1..]);
      Powers();
      BitsHaveValue(ns[0], 16);
      ValueOfBoth(BitsOf(ns[0], 16), Groups(ns[1..]));
    }
  }

  lemma {:induction false} LeadHasValue(b: Bits, k: nat)
    requires k <= |b|
    ensures Value(b[..k]) == Halved(Value(b), |b| - k)
    decreases |b|
  {
    if k == |b| {
      assert b[..k] == b;
    } else {
      var init := b[..|b| - 1];
      LeadHasValue(init, k);
      assert init[..k] == b[..k];
      assert Value(b) / 2 == Value(init);
    }
  }

  /** An IPv4 entry is the addresses whose number has its leading bits. */
  lemma CidrIsInterval(c: Cidr, a: Addr)
    requires c.Cidr4? && c.bits <= 8 * |c.octets| <= 32 && forall i :: 0 <= i < |c.octets| ==> c.octets[i] < 256
    requires a.V4? && |a.bits| == 32
    ensures var lead := Halved(Number(c.octets, 8), 8 * |c.octets| - c.bits);
      Holds(PrefixOf(c), a) <==> ShiftLeft(lead, 32 - c.bits) <= Value(a.bits) < ShiftLeft(lead + 1, 32 - c.bits)
  {
    OctetsHaveValue(c.octets);
    LeadHasValue(Octets(c.octets), c.bits);
    PrefixIsInterval(PrefixOf(c).lead, a.bits);
  }

  /** The same of an IPv6 entry of at most 32 bits, and the first two groups of an address. */
  lemma CidrIsInterval6(c: Cidr, a: Addr)
    requires c.Cidr6? && WellFormed(c) && c.bits <= 32 && forall i :: 0 <= i < |c.groups| ==> c.groups[i] < 0x10000
    requires a.V6? && |a.bits| == 128 && a.zone == ""
    ensures var lead := Halved(Number(c.groups, 16), 16 * |c.groups| - c.bits);
      Holds(PrefixOf(c), a) <==>
        ShiftLeft(lead, 32 - c.bits) <= Value(a.bits[..32]) < ShiftLeft(lead + 1, 32 - c.bits)
  {
    GroupsHaveValue(c.groups);
    LeadHasValue(Groups(c.groups), c.bits);
    var lead := PrefixOf(c).lead;
    assert lead <= a.bits <==> lead <= a.bits[..32];
    PrefixIsInterval(lead, a.bits[..32]);
  }

  // ----- IPv4

  datatype Range = Range(lo: nat, hi: nat)

  /** The special-purpose blocks of IPv4, the upper ends excluded. */
  const SPECIAL: seq<Range> := [
    Range(0x0000_0000, 0x0100_0000),    // 0.0.0.0/8
    Range(0x0A00_0000, 0x0B00_0000),    // 10.0.0.0/8
    Range(0x6440_0000, 0x6480_0000),    // 100.64.0.0/10
    Range(0xAC10_0000, 0xAC20_0000),    // 172.16.0.0/12
    Range(0xC000_0000, 0xC000_0100),    // 192.0.0.0/24
    Range(0xC000_0200, 0xC000_0300),    // 192.0.2.0/24
    Range(0xC01F_C400, 0xC01F_C500),    // 192.31.196.0/24
    Range(0xC034_C100, 0xC034_C200),    // 192.52.193.0/24
    Range(0xC058_6300, 0xC058_6400),    // 192.88.99.0/24
    Range(0xC0A8_0000, 0xC0A9_0000),    // 192.168.0.0/16
    Range(0xC0AF_3000, 0xC0AF_3100),    // 192.175.48.0/24
    Range(0xC612_0000, 0xC614_0000),    // 198.18.0.0/15
    Range(0xC633_6400, 0xC633_6500),    // 198.51.100.0/24
    Range(0xCB00_7100, 0xCB00_7200),    // 203.0.113.0/24
    Range(0xF000_0000, 0x1_0000_0000),  // 240.0.0.0/4
    Range(0xFFFF_FFFF, 0x1_0000_0000)   // 255.255.255.255/32
  ]

  /** The public IPv4 addresses, by number. */
  predicate PublicV4(n: nat) {
    && !(0x7F00_0000 <= n < 0x8000_0000) // loopback
    && !(0xA9FE_0000 <= n < 0xA9FF_0000) // link-local
    && !(0xE000_0000 <= n < 0xF000_0000) // multicast
    && !InRanges(SPECIAL, n)
  }

  predicate InRanges(ranges: seq<Range>, n: nat) {
    exists i :: 0 <= i < |ranges| && ranges[i].lo <= n < ranges[i].hi
  }

  lemma {:induction false} ShiftIsTimes(v: nat, k: nat)
    ensures ShiftLeft(v, k) == v * ShiftLeft(1, k)
  {
    if k > 0 { ShiftIsTimes(v, k - 1); }
  }

  /** The entry's number: up to four octets, read out. */
  function Dotted(o: seq<nat>): nat
    requires 1 <= |o| <= 4
  {
    match |o|
    case 1 => o[0]
    case 2 => 0x100 * o[0] + o[1]
    case 3 => 0x1_0000 * o[0] + 0x100 * o[1] + o[2]
    case _ => 0x100_0000 * o[0] + 0x1_0000 * o[1] + 0x100 * o[2] + o[3]
  }

  lemma DottedIsNumber(o: seq<nat>)
    requires 1 <= |o| <= 4
    ensures Number(o, 8) == Dotted(o)
  {
    Powers();
    ShiftIsTimes(o[0], 8 * (|o| - 1));
    if |o| > 1 { ShiftIsTimes(o[1], 8 * (|o| - 2)); }
    if |o| > 2 { ShiftIsTimes(o[2], 8 * (|o| - 3)); }
    if |o| > 1 { assert o[1..][0] == o[1] && o[1..][1..] == o[2..]; }
    if |o| > 2 { assert o[2..][0] == o[2] && o[2..][1..] == o[3..]; }
    if |o| > 3 { assert o[3..][0] == o[3] && o[3..][1..] == []; }
  }

  lemma Powers()
    ensures ShiftLeft(1, 0) == 1 && ShiftLeft(1, 1) == 2 && ShiftLeft(1, 4) == 0x10 && ShiftLeft(1, 6) == 0x40
    ensures ShiftLeft(1, 8) == 0x100 && ShiftLeft(1, 16) == 0x1_0000 && ShiftLeft(1, 17) == 0x2_0000
    ensures ShiftLeft(1, 20) == 0x10_0000 && ShiftLeft(1, 22) == 0x40_0000 && ShiftLeft(1, 24) == 0x100_0000
    ensures ShiftLeft(1, 28) == 0x1000_0000
  {
  }

  /** The addresses of an entry are those with these numbers. */
  ghost predicate Covers(c: Cidr, lo: nat, hi: nat) {
    && WellFormed(c) && c.Cidr4?
    && forall a: Addr :: a.V4? && |a.bits| == 32 ==> (Holds(PrefixOf(c), a) <==> lo <= Value(a.bits) < hi)
  }

  lemma LeadOf(n: nat, k: nat, lead: nat, unit: nat)
    requires unit == ShiftLeft(1, k) && lead * unit <= n < (lead + 1) * unit
    ensures Halved(n, k) == lead
  {
    HalvedIs(n, k, lead);
    ShiftIsTimes(lead, k);
    ShiftIsTimes(lead + 1, k);
  }

  lemma Span(lead: nat, k: nat, size: nat)
    requires size == ShiftLeft(1, k)
    ensures ShiftLeft(lead, k) == lead * size && ShiftLeft(lead + 1, k) == (lead + 1) * size
  {
    ShiftIsTimes(lead, k);
    ShiftIsTimes(lead + 1, k);
  }

  lemma EntryCovers(o: seq<nat>, bits: nat, lead: nat, unit: nat, size: nat, lo: nat, hi: nat)
    requires 1 <= |o| <= 4 && bits <= 8 * |o| && forall i :: 0 <= i < |o| ==> o[i] < 256
    requires unit == ShiftLeft(1, 8 * |o| - bits) && size == ShiftLeft(1, 32 - bits)
    requires lead * unit <= Dotted(o) < (lead + 1) * unit
    requires lo == lead * size && hi == (lead + 1) * size
    ensures Covers(Cidr4(o, bits), lo, hi)
  {
    var c := Cidr4(o, bits);
    DottedIsNumber(o);
    LeadOf(Dotted(o), 8 * |o| - bits, lead, unit);
    Span(lead, 32 - bits, size);
    LeadCovers(c, lead);
  }

  lemma LeadCovers(c: Cidr, lead: nat)
    requires c.Cidr4? && c.bits <= 8 * |c.octets| <= 32 && forall i :: 0 <= i < |c.octets| ==> c.octets[i] < 256
    requires lead == Halved(Number(c.octets, 8), 8 * |c.octets| - c.bits)
    ensures Covers(c, ShiftLeft(lead, 32 - c.bits), ShiftLeft(lead + 1, 32 - c.bits))
  {
    forall a: Addr | a.V4? && |a.bits| == 32
      ensures Holds(PrefixOf(c), a) <==>
        ShiftLeft(lead, 32 - c.bits) <= Value(a.bits) < ShiftLeft(lead + 1, 32 - c.bits)
    {
      CidrIsInterval(c, a);
    }
  }

  /** Entry i has these leading bits as a number, and place i of the ranges is what they span. */
  predicate At(i: nat, lead: nat, unit: nat, size: nat) {
    && i < |SPECIAL_V4| && i < |SPECIAL| && Written(SPECIAL_V4[i])
    && unit == ShiftLeft(1, 8 * |SPECIAL_V4[i].octets| - SPECIAL_V4[i].bits)
    && size == ShiftLeft(1, 32 - SPECIAL_V4[i].bits)
    && lead * unit <= Dotted(SPECIAL_V4[i].octets) < (lead + 1) * unit
    && SPECIAL[i] == Range(lead * size, (lead + 1) * size)
  }

  predicate Written(c: Cidr) {
    && c.Cidr4? && 1 <= |c.octets| <= 4 && c.bits <= 8 * |c.octets|
    && forall i :: 0 <= i < |c.octets| ==> c.octets[i] < 256
  }

  lemma Places0To3()
    ensures At(0, 0, 1, 0x100_0000) && At(1, 10, 1, 0x100_0000)
    ensures At(2, 0x191, 0x40, 0x40_0000) && At(3, 0xAC1, 0x10, 0x10_0000)
  {
    Powers();
  }

  lemma Places4To7()
    ensures At(4, 0xC0_0000, 1, 0x100) && At(5, 0xC0_0002, 1, 0x100)
    ensures At(6, 0xC0_1FC4, 1, 0x100) && At(7, 0xC0_34C1, 1, 0x100)
  {
    Powers();
  }

  lemma Places8To11()
    ensures At(8, 0xC0_5863, 1, 0x100) && At(9, 0xC0A8, 1, 0x1_0000)
    ensures At(10, 0xC0_AF30, 1, 0x100) && At(11, 0x6309, 2, 0x2_0000)
  {
    Powers();
  }

  lemma Places12To15()
    ensures At(12, 0xC6_3364, 1, 0x100) && At(13, 0xCB_0071, 1, 0x100)
    ensures At(14, 15, 0x10, 0x1000_0000) && At(15, 0xFFFF_FFFF, 1, 1)
  {
    Powers();
  }

  ghost predicate Placed(i: nat) {
    exists lead, unit, size :: At(i, lead, unit, size)
  }

  lemma AllPlaced()
    ensures forall i :: 0 <= i < 16 ==> Placed(i)
  {
    Places0To3();
    Places4To7();
    Places8To11();
    Places12To15();
  }

  lemma TableLengths()
    ensures |SPECIAL_V4| == 16 == |SPECIAL|
  {
  }

  lemma PlaceCovers(i: nat)
    requires Placed(i)
    ensures i < |SPECIAL_V4| && i < |SPECIAL| && Covers(SPECIAL_V4[i], SPECIAL[i].lo, SPECIAL[i].hi)
  {
    var lead, unit, size :| At(i, lead, unit, size);
    var c := SPECIAL_V4[i];
    EntryCovers(c.octets, c.bits, lead, unit, size, SPECIAL[i].lo, SPECIAL[i].hi);
  }

  lemma RangesOfTable()
    ensures |SPECIAL_V4| == |SPECIAL|
    ensures forall i :: 0 <= i < |SPECIAL_V4| ==> Covers(SPECIAL_V4[i], SPECIAL[i].lo, SPECIAL[i].hi)
  {
    TableLengths();
    AllPlaced();
    forall i | 0 <= i < |SPECIAL_V4| ensures Covers(SPECIAL_V4[i], SPECIAL[i].lo, SPECIAL[i].hi) { PlaceCovers(i); }
  }

  lemma ListedByRanges(v4: seq<Cidr>, v6: seq<Cidr>, ranges: seq<Range>, a: Addr)
    requires AllWellFormed(v4 + v6) && |v4| == |ranges| && a.V4? && |a.bits| == 32
    requires forall i :: 0 <= i < |v4| ==> Covers(v4[i], ranges[i].lo, ranges[i].hi)
    requires forall i :: 0 <= i < |v6| ==> v6[i].Cidr6?
    ensures Listed(Parsed(v4 + v6), a) <==> InRanges(ranges, Value(a.bits))
  {
    var table, registry := v4 + v6, Parsed(v4 + v6);
    forall i | 0 <= i < |table| ensures Holds(registry[i], a) <==> i < |v4| && Holds(PrefixOf(v4[i]), a) {
      assert table[i] == if i < |v4| then v4[i] else v6[i - |v4|];
    }
    if InRanges(ranges, Value(a.bits)) {
      var i :| 0 <= i < |ranges| && ranges[i].lo <= Value(a.bits) < ranges[i].hi;
      assert Holds(registry[i], a);
    }
  }

  lemma AllCidr6()
    ensures forall i :: 0 <= i < |SPECIAL_V6| ==> SPECIAL_V6[i].Cidr6?
  {
  }

  lemma SpecialExactly(a: Addr)
    requires a.V4? && |a.bits| == 32
    ensures Listed(IANA.registry, a) <==> InRanges(SPECIAL, Value(a.bits))
  {
    RangesOfTable();
    SpecialV4();
    UnicastEntries();
    AllCidr6();
    KeptEntries(SPECIAL_V4, SPECIAL_V6);
    ListedByRanges(SPECIAL_V4, SPECIAL_V6, SPECIAL, a);
  }

  // ----- The classes of an address

  lemma Loopback()
    ensures Value(LOOPBACK_V4) == 0x7F
  {
    assert LOOPBACK_V4 == BitsOf(0x7F, 8);
    Powers();
    BitsHaveValue(0x7F, 8);
  }

  lemma LinkLocal4()
    ensures Value(LINK_LOCAL_V4) == 0xA9FE
  {
    var first, second := LINK_LOCAL_V4[..8], LINK_LOCAL_V4[8..];
    assert first == BitsOf(0xA9, 8);
    assert second == BitsOf(0xFE, 8);
    Powers();
    BitsHaveValue(0xA9, 8);
    BitsHaveValue(0xFE, 8);
    ShiftIsTimes(0xA9, 8);
    ValueOfBoth(first, second);
    assert LINK_LOCAL_V4 == first + second;
  }

  lemma Multicast4()
    ensures Value(MULTICAST_V4) == 14
  {
    assert MULTICAST_V4 == BitsOf(14, 4);
    Powers();
    BitsHaveValue(14, 4);
  }

  lemma LeadRange(lead: Bits, v: nat, unit: nat, bits: Bits)
    requires |bits| == 32 && |lead| <= 32 && Value(lead) == v
    requires unit == ShiftLeft(1, 32 - |lead|)
    ensures lead <= bits <==> v * unit <= Value(bits) < (v + 1) * unit
  {
    PrefixIsInterval(lead, bits);
    ShiftIsTimes(v, 32 - |lead|);
    ShiftIsTimes(v + 1, 32 - |lead|);
  }

  lemma ClassRanges(a: Addr)
    requires a.V4? && |a.bits| == 32
    ensures LOOPBACK_V4 <= a.bits <==> 0x7F00_0000 <= Value(a.bits) < 0x8000_0000
    ensures LINK_LOCAL_V4 <= a.bits <==> 0xA9FE_0000 <= Value(a.bits) < 0xA9FF_0000
    ensures MULTICAST_V4 <= a.bits <==> 0xE000_0000 <= Value(a.bits) < 0xF000_0000
  {
    Loopback();
    LinkLocal4();
    Multicast4();
    Powers();
    LeadRange(LOOPBACK_V4, 0x7F, 0x100_0000, a.bits);
    LeadRange(LINK_LOCAL_V4, 0xA9FE, 0x1_0000, a.bits);
    LeadRange(MULTICAST_V4, 14, 0x1000_0000, a.bits);
  }

  /** The verdict on an IPv4 address, by its number. */
  lemma PublicV4Exactly(a: Addr)
    requires a.V4? && |a.bits| == 32
    ensures IsPublic(IANA, a) <==> PublicV4(Value(a.bits))
  {
    SpecialExactly(a);
    ClassRanges(a);
    assert IsLinkLocalMulticast(a) ==> IsMulticast(a);
    assert Value(a.bits) == 0 ==> InRanges(SPECIAL, Value(a.bits)) by { assert SPECIAL[0] == Range(0, 0x0100_0000); }
  }

  // ----- IPv6

  /** The public IPv6 addresses, by the number of their first two groups. */
  predicate PublicV6(h: nat) {
    0x2000_0000 <= h < 0x4000_0000 && !InRanges(SPECIAL6, h)
  }

  /** The special-purpose blocks within 2000::/3. */
  const SPECIAL6: seq<Range> := [
    Range(0x2001_0000, 0x2001_0200), // 2001::/23
    Range(0x2001_0db8, 0x2001_0db9), // 2001:db8::/32
    Range(0x2002_0000, 0x2003_0000), // 2002::/16
    Range(0x3fff_0000, 0x3fff_1000)  // 3fff::/20
  ]

  ghost predicate Covers6(c: Cidr, lo: nat, hi: nat) {
    && WellFormed(c) && c.Cidr6?
    && forall a: Addr ::
      a.V6? && |a.bits| == 128 && a.zone == "" ==> (Holds(PrefixOf(c), a) <==> lo <= Value(a.bits[..32]) < hi)
  }

  lemma PairIsNumber(g: seq<nat>)
    requires 1 <= |g| <= 2
    ensures Number(g, 16) == if |g| == 1 then g[0] else 0x1_0000 * g[0] + g[1]
  {
    Powers();
    if |g| == 1 {
      assert g[1..] == [];
      assert ShiftLeft(g[0], 16 * 0) == g[0];
    } else {
      ShiftIsTimes(g[0], 16);
      assert g[1..] == [g[1]] && [g[1]][1..] == [];
      assert Number([g[1]], 16) == ShiftLeft(g[1], 16 * 0) + Number([], 16);
    }
  }

  lemma Lead6(g: seq<nat>, k: nat, n: nat, lead: nat, unit: nat)
    requires 1 <= |g| <= 2 && n == if |g| == 1 then g[0] else 0x1_0000 * g[0] + g[1]
    requires unit == ShiftLeft(1, k) && lead * unit <= n < (lead + 1) * unit
    ensures Halved(Number(g, 16), k) == lead
  {
    PairIsNumber(g);
    LeadOf(n, k, lead, unit);
  }

  lemma EntryCovers6(g: seq<nat>, bits: nat, n: nat, lead: nat, unit: nat, size: nat, lo: nat, hi: nat)
    requires 1 <= |g| <= 2 && 3 <= bits <= 32 && bits <= 16 * |g| && forall i :: 0 <= i < |g| ==> g[i] < 0x10000
    requires n == if |g| == 1 then g[0] else 0x1_0000 * g[0] + g[1]
    requires unit == ShiftLeft(1, 16 * |g| - bits) && size == ShiftLeft(1, 32 - bits)
    requires lead * unit <= n < (lead + 1) * unit
    requires lo == lead * size && hi == (lead + 1) * size
    ensures Covers6(Cidr6(g, bits), lo, hi)
  {
    var c := Cidr6(g, bits);
    Lead6(g, 16 * |g| - bits, n, lead, unit);
    Span(lead, 32 - bits, size);
    LeadCovers6(c, lead);
  }

  lemma LeadCovers6(c: Cidr, lead: nat)
    requires c.Cidr6? && WellFormed(c) && c.bits <= 32 && forall i :: 0 <= i < |c.groups| ==> c.groups[i] < 0x10000
    requires lead == Halved(Number(c.groups, 16), 16 * |c.groups| - c.bits)
    ensures Covers6(c, ShiftLeft(lead, 32 - c.bits), ShiftLeft(lead + 1, 32 - c.bits))
  {
    forall a: Addr | a.V6? && |a.bits| == 128 && a.zone == ""
      ensures Holds(PrefixOf(c), a) <==>
        ShiftLeft(lead, 32 - c.bits) <= Value(a.bits[..32]) < ShiftLeft(lead + 1, 32 - c.bits)
    {
      CidrIsInterval6(c, a);
    }
  }

  lemma UnicastCovers()
    ensures Covers6(Cidr6([0x2001, 0], 23), 0x2001_0000, 0x2001_0200)
    ensures Covers6(Cidr6([0x2001, 0xdb8], 32), 0x2001_0db8, 0x2001_0db9)
    ensures Covers6(Cidr6([0x2002], 16), 0x2002_0000, 0x2003_0000)
    ensures Covers6(Cidr6([0x3fff, 0], 20), 0x3fff_0000, 0x3fff_1000)
  {
    Powers();
    assert ShiftLeft(1, 9) == 0x200 && ShiftLeft(1, 12) == 0x1000;
    EntryCovers6([0x2001, 0], 23, 0x2001_0000, 0x10_0080, 0x200, 0x200, 0x2001_0000, 0x2001_0200);
    EntryCovers6([0x2001, 0xdb8], 32, 0x2001_0db8, 0x2001_0db8, 1, 1, 0x2001_0db8, 0x2001_0db9);
    EntryCovers6([0x2002], 16, 0x2002, 0x2002, 1, 0x1_0000, 0x2002_0000, 0x2003_0000);
    EntryCovers6([0x3fff, 0], 20, 0x3fff_0000, 0x3_fff0, 0x1000, 0x1000, 0x3fff_0000, 0x3fff_1000);
  }

  lemma KeptTable()
    ensures SPECIAL_V6[6..10] ==
      [Cidr6([0x2001, 0], 23), Cidr6([0x2001, 0xdb8], 32), Cidr6([0x2002], 16), Cidr6([0x3fff, 0], 20)]
  {
    UnicastEntries();
  }

  lemma ListedByRanges6(v4: seq<Cidr>, v6: seq<Cidr>, ranges: seq<Range>, a: Addr)
    requires AllWellFormed(v4 + v6) && |v6| == |ranges| && a.V6? && |a.bits| == 128 && a.zone == ""
    requires forall i :: 0 <= i < |v6| ==> Covers6(v6[i], ranges[i].lo, ranges[i].hi)
    requires forall i :: 0 <= i < |v4| ==> v4[i].Cidr4?
    ensures Listed(Parsed(v4 + v6), a) <==> InRanges(ranges, Value(a.bits[..32]))
  {
    var table, registry := v4 + v6, Parsed(v4 + v6);
    forall i | 0 <= i < |table|
      ensures Holds(registry[i], a) <==> i >= |v4| && Holds(PrefixOf(v6[i - |v4|]), a)
    {
      assert table[i] == if i < |v4| then v4[i] else v6[i - |v4|];
    }
    if InRanges(ranges, Value(a.bits[..32])) {
      var i :| 0 <= i < |ranges| && ranges[i].lo <= Value(a.bits[..32]) < ranges[i].hi;
      assert Holds(registry[|v4| + i], a);
    }
  }

  lemma Places6(covers: (Cidr, nat, nat) -> bool)
    requires covers(Cidr6([0x2001, 0], 23), 0x2001_0000, 0x2001_0200)
    requires covers(Cidr6([0x2001, 0xdb8], 32), 0x2001_0db8, 0x2001_0db9)
    requires covers(Cidr6([0x2002], 16), 0x2002_0000, 0x2003_0000)
    requires covers(Cidr6([0x3fff, 0], 20), 0x3fff_0000, 0x3fff_1000)
    ensures |SPECIAL_V6[6..10]| == |SPECIAL6|
    ensures forall i :: 0 <= i < |SPECIAL6| ==> covers(SPECIAL_V6[6..10][i], SPECIAL6[i].lo, SPECIAL6[i].hi)
  {
    KeptTable();
  }

  lemma UnicastRange(a: Addr)
    requires a.V6? && |a.bits| == 128
    ensures GLOBAL_UNICAST <= a.bits <==> 0x2000_0000 <= Value(a.bits[..32]) < 0x4000_0000
  {
    assert GLOBAL_UNICAST <= a.bits <==> GLOBAL_UNICAST <= a.bits[..32];
    PrefixIsInterval(GLOBAL_UNICAST, a.bits[..32]);
    UnicastValue();
  }

  lemma UnicastValue()
    ensures Value(GLOBAL_UNICAST) == 1 && ShiftLeft(1, 29) == 0x2000_0000 && ShiftLeft(2, 29) == 0x4000_0000
  {
    assert GLOBAL_UNICAST[..2] == [false, false] && [false, false][..1] == [false];
    Power29();
    ShiftIsTimes(2, 29);
  }

  lemma Power29()
    ensures ShiftLeft(1, 29) == 0x2000_0000
  {
    Powers();
    assert ShiftLeft(1, 29) == 2 * ShiftLeft(1, 28);
  }

  lemma {:induction false} LastDigit(digits: seq<nat>, width: nat)
    requires digits != [] && forall i :: 0 <= i < |digits| - 1 ==> digits[i] == 0
    ensures Number(digits, width) == digits[|digits| - 1]
  {
    if |digits| == 1 {
      assert digits[1..] == [];
      assert ShiftLeft(digits[0], width * 0) == digits[0];
    } else {
      ShiftIsTimes(0, width * (|digits| - 1));
      LastDigit(digits[1..], width);
    }
  }

  lemma KeptExactly(a: Addr)
    requires a.V6? && |a.bits| == 128 && a.zone == "" && AllWellFormed(SPECIAL_V4 + SPECIAL_V6[6..10])
    ensures Listed(Parsed(SPECIAL_V4 + SPECIAL_V6[6..10]), a) <==> InRanges(SPECIAL6, Value(a.bits[..32]))
  {
    UnicastCovers();
    Places6((c: Cidr, lo: nat, hi: nat) => Covers6(c, lo, hi));
    SpecialV4();
    ListedByRanges6(SPECIAL_V4, SPECIAL_V6[6..10], SPECIAL6, a);
  }

  lemma PublicV6Exactly(a: Addr)
    requires a.V6? && |a.bits| == 128 && Unmap(a) == a && a.zone == ""
    ensures IsPublic(IANA, a) <==> PublicV6(Value(a.bits[..32]))
  {
    RedundantEntries(a);
    UnicastBlockDecides(Parsed(SPECIAL_V4 + SPECIAL_V6[6..10]), a);
    UnicastRange(a);
    KeptExactly(a);
  }

  lemma LeadIsNumber(lead: Bits, bits: Bits)
    requires |lead| <= |bits|
    ensures lead <= bits <==> Value(bits[..|lead|]) == Value(lead)
  {
    assert lead <= bits <==> bits[..|lead|] == lead;
    if Value(bits[..|lead|]) == Value(lead) { ValueInjective(bits[..|lead|], lead); }
  }

  lemma MappedValue()
    ensures Value(MAPPED) == 0xffff
  {
    GroupsHaveValue([0, 0, 0, 0, 0, 0xffff]);
    LastDigit([0, 0, 0, 0, 0, 0xffff], 16);
  }

  lemma MappedHasNumber(a: Addr)
    requires a.V6? && |a.bits| == 128
    ensures MAPPED <= a.bits <==> Value(a.bits[..96]) == 0xffff
  {
    MappedValue();
    LeadIsNumber(MAPPED, a.bits);
  }

  /**
   Of every address there is: the registries, the unicast block, the mapped form, zones and classes come to this and
   nothing else.
   */
  lemma PublicByNumber(a: Addr)
    requires Proper(a)
    ensures IsPublic(IANA, a) <==>
      match a
      case Invalid => false
      case V4(bits) => PublicV4(Value(bits))
      case V6(bits, zone) =>
        && zone == ""
        && if Value(bits[..96]) == 0xffff then PublicV4(Value(bits[96..])) else PublicV6(Value(bits[..32]))
  {
    match a {
      case Invalid =>
      case V4(_) => PublicV4Exactly(a);
      case V6(bits, zone) =>
        MappedHasNumber(a);
        if MAPPED <= bits {
          assert bits == MAPPED + bits[96..];
          MappedVerdict(IANA, bits[96..], zone);
          PublicV4Exactly(V4(bits[96..]));
        } else if zone == "" {
          PublicV6Exactly(a);
        }
    }
  }

  // ----- The addresses no composition may admit, by number

  lemma LinkLocal6()
    ensures Value(LINK_LOCAL_V6) == 0x3fa
  {
    var first, second := LINK_LOCAL_V6[..8], LINK_LOCAL_V6[8..];
    assert first == BitsOf(0xfe, 8);
    assert second == BitsOf(2, 2);
    Powers();
    assert ShiftLeft(1, 2) == 4;
    BitsHaveValue(0xfe, 8);
    BitsHaveValue(2, 2);
    assert ShiftLeft(0xfe, 2) == 0x3f8;
    ValueOfBoth(first, second);
    assert LINK_LOCAL_V6 == first + second;
  }

  lemma AllOnes()
    ensures Value(ALL_ONES) == 0xff
  {
    assert ALL_ONES == BitsOf(0xff, 8);
    Powers();
    BitsHaveValue(0xff, 8);
  }

  lemma ClassRanges6(a: Addr)
    requires a.V6? && |a.bits| == 128
    ensures LINK_LOCAL_V6 <= a.bits <==> 0xfe80_0000 <= Value(a.bits[..32]) < 0xfec0_0000
    ensures ALL_ONES <= a.bits <==> 0xff00_0000 <= Value(a.bits[..32]) < 0x1_0000_0000
  {
    assert LINK_LOCAL_V6 <= a.bits <==> LINK_LOCAL_V6 <= a.bits[..32];
    assert ALL_ONES <= a.bits <==> ALL_ONES <= a.bits[..32];
    Powers();
    LinkLocal6();
    AllOnes();
    LeadRange(LINK_LOCAL_V6, 0x3fa, 0x40_0000, a.bits[..32]);
    LeadRange(ALL_ONES, 0xff, 0x100_0000, a.bits[..32]);
  }

  /** Link-local, multicast, or the unspecified address, which a zone makes another. */
  lemma ScopedByNumber(a: Addr)
    requires Proper(a) && !a.Invalid?
    ensures Scoped(a) <==>
      match a
      case V4(bits) =>
        var n := Value(bits);
        n == 0 || 0xA9FE_0000 <= n < 0xA9FF_0000 || 0xE000_0000 <= n < 0xF000_0000
      case V6(bits, zone) =>
        var h := Value(bits[..32]);
        (zone == "" && Value(bits) == 0) || 0xfe80_0000 <= h < 0xfec0_0000 || 0xff00_0000 <= h < 0x1_0000_0000
  {
    if a.V4? { ClassRanges(a); } else { ClassRanges6(a); }
    assert IsLinkLocalMulticast(a) || IsInterfaceLocalMulticast(a) ==> IsMulticast(a);
  }
}
