/** The IPv6 special-purpose prefix list and `isSpecialPrefix` (src/ipv6.ts). */
module Ipv6Special {
  import opened Wrappers
  import opened JsText
  import opened Bits
  import opened Ipv6

  /**
   * The entries of `SPECIAL_PREFIXES` (src/ipv6.ts:69-84), the special-purpose
   * blocks of RFC 6890 and its successors, each as the groups on either side
   * of its `::` and its length.
   */
  const SPECIAL_PREFIX_FORMS: seq<(seq<nat>, seq<nat>, nat)> := [
    ([], [], 128), // ::/128
    ([], [1], 128), // ::1/128
    ([], [0xffff, 0, 0], 96), // ::ffff:0:0/96
    ([], [0xffff, 0, 0, 0], 96), // ::ffff:0:0:0/96
    ([0x64, 0xff9b], [], 96), // 64:ff9b::/96
    ([0x64, 0xff9b, 1], [], 48), // 64:ff9b:1::/48
    ([0x100], [], 64), // 100::/64
    ([0x2001, 0x20], [], 28), // 2001:20::/28
    ([0x2001, 0xdb8], [], 32), // 2001:db8::/32
    ([0x2002], [], 16), // 2002::/16
    ([0xfc00], [], 7), // fc00::/7
    ([0xfe80], [], 10), // fe80::/10
    ([0xff00], [], 8), // ff00::/8
    ([0x2001, 2], [], 48) // 2001:2::/48
  ]

  /** The texts those entries spell; see SpecialPrefixSpelling0 to SpecialPrefixSpelling13. */
  const SPECIAL_PREFIX_TEXTS: seq<string> :=
    seq(|SPECIAL_PREFIX_FORMS|, i requires 0 <= i < |SPECIAL_PREFIX_FORMS| =>
      PrefixText(SPECIAL_PREFIX_FORMS[i].0, SPECIAL_PREFIX_FORMS[i].1, SPECIAL_PREFIX_FORMS[i].2))

  lemma SpecialPrefixSpelling0()
    ensures SPECIAL_PREFIX_TEXTS[0] == "::/128"
  {
  }

  lemma SpecialPrefixSpelling1()
    ensures SPECIAL_PREFIX_TEXTS[1] == "::1/128"
  {
  }

  lemma SpecialPrefixSpelling2()
    ensures SPECIAL_PREFIX_TEXTS[2] == "::ffff:0:0/96"
  {
  }

  lemma SpecialPrefixSpelling3()
    ensures SPECIAL_PREFIX_TEXTS[3] == "::ffff:0:0:0/96"
  {
  }

  lemma SpecialPrefixSpelling4()
    ensures SPECIAL_PREFIX_TEXTS[4] == "64:ff9b::/96"
  {
  }

  lemma SpecialPrefixSpelling5()
    ensures SPECIAL_PREFIX_TEXTS[5] == "64:ff9b:1::/48"
  {
  }

  lemma SpecialPrefixSpelling6()
    ensures SPECIAL_PREFIX_TEXTS[6] == "100::/64"
  {
  }

  lemma SpecialPrefixSpelling7()
    ensures SPECIAL_PREFIX_TEXTS[7] == "2001:20::/28"
  {
  }

  lemma SpecialPrefixSpelling8()
    ensures SPECIAL_PREFIX_TEXTS[8] == "2001:db8::/32"
  {
  }

  lemma SpecialPrefixSpelling9()
    ensures SPECIAL_PREFIX_TEXTS[9] == "2002::/16"
  {
  }

  lemma SpecialPrefixSpelling10()
    ensures SPECIAL_PREFIX_TEXTS[10] == "fc00::/7"
  {
  }

  lemma SpecialPrefixSpelling11()
    ensures SPECIAL_PREFIX_TEXTS[11] == "fe80::/10"
  {
  }

  lemma SpecialPrefixSpelling12()
    ensures SPECIAL_PREFIX_TEXTS[12] == "ff00::/8"
  {
  }

  lemma SpecialPrefixSpelling13()
    ensures SPECIAL_PREFIX_TEXTS[13] == "2001:2::/48"
  {
  }

  /** The prefixes those texts construct (`.map((prefix) => new Ipv6Prefix(prefix))`), see SpecialPrefixTexts. */
  const SPECIAL_PREFIXES: seq<Ipv6Prefix> := [
    Ipv6Prefix(0x0, 128),
    Ipv6Prefix(0x1, 128),
    Ipv6Prefix(0xffff_0000_0000, 96),
    Ipv6Prefix(0xffff_0000_0000_0000, 96),
    Ipv6Prefix(0x64_ff9b_0000_0000_0000_0000_0000_0000, 96),
    Ipv6Prefix(0x64_ff9b_0001_0000_0000_0000_0000_0000, 48),
    Ipv6Prefix(0x100_0000_0000_0000_0000_0000_0000_0000, 64),
    Ipv6Prefix(0x2001_0020_0000_0000_0000_0000_0000_0000, 28),
    Ipv6Prefix(0x2001_0db8_0000_0000_0000_0000_0000_0000, 32),
    Ipv6Prefix(0x2002_0000_0000_0000_0000_0000_0000_0000, 16),
    Ipv6Prefix(0xfc00_0000_0000_0000_0000_0000_0000_0000, 7),
    Ipv6Prefix(0xfe80_0000_0000_0000_0000_0000_0000_0000, 10),
    Ipv6Prefix(0xff00_0000_0000_0000_0000_0000_0000_0000, 8),
    Ipv6Prefix(0x2001_0002_0000_0000_0000_0000_0000_0000, 48)
  ]

  /** The powers of two behind the host parts of the listed lengths. */
  lemma Pow2Of80()
    ensures Pow2(80) == 0x1_0000_0000_0000_0000_0000
  {
    Pow2Of64();
    Pow2Of16Plus(64);
  }

  lemma Pow2Of96()
    ensures Pow2(96) == 0x1_0000_0000_0000_0000_0000_0000
  {
    Pow2Of80();
    Pow2Of16Plus(80);
  }

  lemma Pow2Of100()
    ensures Pow2(100) == 0x10_0000_0000_0000_0000_0000_0000
  {
    Pow2Of96();
    Pow2Add(96, 4);
  }

  lemma Pow2Of112()
    ensures Pow2(112) == 0x1_0000_0000_0000_0000_0000_0000_0000
  {
    Pow2Of96();
    Pow2Of16Plus(96);
  }

  lemma Pow2Of118()
    ensures Pow2(118) == 0x40_0000_0000_0000_0000_0000_0000_0000
  {
    Pow2Of112();
    Pow2Add(112, 6);
  }

  lemma Pow2Of120()
    ensures Pow2(120) == 0x100_0000_0000_0000_0000_0000_0000_0000
  {
    Pow2Of112();
    Pow2Add(112, 8);
  }

  lemma Pow2Of121()
    ensures Pow2(121) == 0x200_0000_0000_0000_0000_0000_0000_0000
  {
    Pow2Of120();
    Pow2Add(120, 1);
  }

  /**
   * The numbers behind one entry written as `left::right/len`: its groups are
   * 16-bit, it leaves room for the `::`, its groups spell the network of `p`,
   * that network has its host bits clear, and `range` is its block.
   */
  predicate EntryValue(left: seq<nat>, right: seq<nat>, len: nat, p: Ipv6Prefix, range: (nat, nat))
  {
    && (forall j :: 0 <= j < |left| ==> left[j] <= 0xffff)
    && (forall j :: 0 <= j < |right| ==> right[j] <= 0xffff)
    && SideCount(left) + SideCount(right) < 8 && len <= 128
    && p.length == len
    && FromDigits(left + ZeroGroups(8 - |left| - |right|) + right, 0x1_0000) == p.address
    && ClearLow(p.address, 128 - len) == p.address
    && range == (p.address, p.address + Pow2(128 - len))
  }

  lemma Entry0(left: seq<nat>, right: seq<nat>, len: nat, p: Ipv6Prefix, range: (nat, nat))
    requires left == [] && right == [] && len == 128
    requires p == Ipv6Prefix(0x0, 128) && range == (0x0, 0x1)
    ensures EntryValue(left, right, len, p, range)
  {
    var gs := left + ZeroGroups(8 - |left| - |right|) + right;
    assert gs == [0, 0, 0, 0, 0, 0, 0, 0];
    FromDigits8(gs, 0x1_0000);
    assert FromDigits(gs, 0x1_0000) == p.address;
    ClearLowAligned(0x0, 0, p.address);
  }

  lemma Entry1(left: seq<nat>, right: seq<nat>, len: nat, p: Ipv6Prefix, range: (nat, nat))
    requires left == [] && right == [1] && len == 128
    requires p == Ipv6Prefix(0x1, 128) && range == (0x1, 0x2)
    ensures EntryValue(left, right, len, p, range)
  {
    var gs := left + ZeroGroups(8 - |left| - |right|) + right;
    assert gs == [0, 0, 0, 0, 0, 0, 0, 1];
    FromDigits8(gs, 0x1_0000);
    assert FromDigits(gs, 0x1_0000) == p.address;
    ClearLowAligned(0x1, 0, p.address);
  }

  lemma Entry2(left: seq<nat>, right: seq<nat>, len: nat, p: Ipv6Prefix, range: (nat, nat))
    requires left == [] && right == [0xffff, 0, 0] && len == 96
    requires p == Ipv6Prefix(0xffff_0000_0000, 96) && range == (0xffff_0000_0000, 0x1_0000_0000_0000)
    ensures EntryValue(left, right, len, p, range)
  {
    var gs := left + ZeroGroups(8 - |left| - |right|) + right;
    assert gs == [0, 0, 0, 0, 0, 0xffff, 0, 0];
    FromDigits8(gs, 0x1_0000);
    assert FromDigits(gs, 0x1_0000) == p.address;
    Pow2Of32();
    ClearLowAligned(0xffff, 32, p.address);
  }

  lemma Entry3(left: seq<nat>, right: seq<nat>, len: nat, p: Ipv6Prefix, range: (nat, nat))
    requires left == [] && right == [0xffff, 0, 0, 0] && len == 96
    requires p == Ipv6Prefix(0xffff_0000_0000_0000, 96) && range == (0xffff_0000_0000_0000, 0xffff_0001_0000_0000)
    ensures EntryValue(left, right, len, p, range)
  {
    var gs := left + ZeroGroups(8 - |left| - |right|) + right;
    assert gs == [0, 0, 0, 0, 0xffff, 0, 0, 0];
    FromDigits8(gs, 0x1_0000);
    assert FromDigits(gs, 0x1_0000) == p.address;
    Pow2Of32();
    ClearLowAligned(0xffff_0000, 32, p.address);
  }

  lemma Entry4(left: seq<nat>, right: seq<nat>, len: nat, p: Ipv6Prefix, range: (nat, nat))
    requires left == [0x64, 0xff9b] && right == [] && len == 96
    requires p == Ipv6Prefix(0x64_ff9b_0000_0000_0000_0000_0000_0000, 96) && range == (0x64_ff9b_0000_0000_0000_0000_0000_0000, 0x64_ff9b_0000_0000_0000_0001_0000_0000)
    ensures EntryValue(left, right, len, p, range)
  {
    var gs := left + ZeroGroups(8 - |left| - |right|) + right;
    assert gs == [0x64, 0xff9b, 0, 0, 0, 0, 0, 0];
    FromDigits8(gs, 0x1_0000);
    assert FromDigits(gs, 0x1_0000) == p.address;
    Pow2Of32();
    ClearLowAligned(0x64_ff9b_0000_0000_0000_0000, 32, p.address);
  }

  lemma Entry5(left: seq<nat>, right: seq<nat>, len: nat, p: Ipv6Prefix, range: (nat, nat))
    requires left == [0x64, 0xff9b, 1] && right == [] && len == 48
    requires p == Ipv6Prefix(0x64_ff9b_0001_0000_0000_0000_0000_0000, 48) && range == (0x64_ff9b_0001_0000_0000_0000_0000_0000, 0x64_ff9b_0002_0000_0000_0000_0000_0000)
    ensures EntryValue(left, right, len, p, range)
  {
    var gs := left + ZeroGroups(8 - |left| - |right|) + right;
    assert gs == [0x64, 0xff9b, 1, 0, 0, 0, 0, 0];
    FromDigits8(gs, 0x1_0000);
    assert FromDigits(gs, 0x1_0000) == p.address;
    Pow2Of80();
    ClearLowAligned(0x64_ff9b_0001, 80, p.address);
  }

  lemma Entry6(left: seq<nat>, right: seq<nat>, len: nat, p: Ipv6Prefix, range: (nat, nat))
    requires left == [0x100] && right == [] && len == 64
    requires p == Ipv6Prefix(0x100_0000_0000_0000_0000_0000_0000_0000, 64) && range == (0x100_0000_0000_0000_0000_0000_0000_0000, 0x100_0000_0000_0001_0000_0000_0000_0000)
    ensures EntryValue(left, right, len, p, range)
  {
    var gs := left + ZeroGroups(8 - |left| - |right|) + right;
    assert gs == [0x100, 0, 0, 0, 0, 0, 0, 0];
    FromDigits8(gs, 0x1_0000);
    assert FromDigits(gs, 0x1_0000) == p.address;
    Pow2Of64();
    ClearLowAligned(0x100_0000_0000_0000, 64, p.address);
  }

  lemma Entry7(left: seq<nat>, right: seq<nat>, len: nat, p: Ipv6Prefix, range: (nat, nat))
    requires left == [0x2001, 0x20] && right == [] && len == 28
    requires p == Ipv6Prefix(0x2001_0020_0000_0000_0000_0000_0000_0000, 28) && range == (0x2001_0020_0000_0000_0000_0000_0000_0000, 0x2001_0030_0000_0000_0000_0000_0000_0000)
    ensures EntryValue(left, right, len, p, range)
  {
    var gs := left + ZeroGroups(8 - |left| - |right|) + right;
    assert gs == [0x2001, 0x20, 0, 0, 0, 0, 0, 0];
    FromDigits8(gs, 0x1_0000);
    assert FromDigits(gs, 0x1_0000) == p.address;
    Pow2Of100();
    ClearLowAligned(0x200_1002, 100, p.address);
  }

  lemma Entry8(left: seq<nat>, right: seq<nat>, len: nat, p: Ipv6Prefix, range: (nat, nat))
    requires left == [0x2001, 0xdb8] && right == [] && len == 32
    requires p == Ipv6Prefix(0x2001_0db8_0000_0000_0000_0000_0000_0000, 32) && range == (0x2001_0db8_0000_0000_0000_0000_0000_0000, 0x2001_0db9_0000_0000_0000_0000_0000_0000)
    ensures EntryValue(left, right, len, p, range)
  {
    var gs := left + ZeroGroups(8 - |left| - |right|) + right;
    assert gs == [0x2001, 0xdb8, 0, 0, 0, 0, 0, 0];
    FromDigits8(gs, 0x1_0000);
    assert FromDigits(gs, 0x1_0000) == p.address;
    Pow2Of96();
    ClearLowAligned(0x2001_0db8, 96, p.address);
  }

  lemma Entry9(left: seq<nat>, right: seq<nat>, len: nat, p: Ipv6Prefix, range: (nat, nat))
    requires left == [0x2002] && right == [] && len == 16
    requires p == Ipv6Prefix(0x2002_0000_0000_0000_0000_0000_0000_0000, 16) && range == (0x2002_0000_0000_0000_0000_0000_0000_0000, 0x2003_0000_0000_0000_0000_0000_0000_0000)
    ensures EntryValue(left, right, len, p, range)
  {
    var gs := left + ZeroGroups(8 - |left| - |right|) + right;
    assert gs == [0x2002, 0, 0, 0, 0, 0, 0, 0];
    FromDigits8(gs, 0x1_0000);
    assert FromDigits(gs, 0x1_0000) == p.address;
    Pow2Of112();
    ClearLowAligned(0x2002, 112, p.address);
  }

  lemma Entry10(left: seq<nat>, right: seq<nat>, len: nat, p: Ipv6Prefix, range: (nat, nat))
    requires left == [0xfc00] && right == [] && len == 7
    requires p == Ipv6Prefix(0xfc00_0000_0000_0000_0000_0000_0000_0000, 7) && range == (0xfc00_0000_0000_0000_0000_0000_0000_0000, 0xfe00_0000_0000_0000_0000_0000_0000_0000)
    ensures EntryValue(left, right, len, p, range)
  {
    var gs := left + ZeroGroups(8 - |left| - |right|) + right;
    assert gs == [0xfc00, 0, 0, 0, 0, 0, 0, 0];
    FromDigits8(gs, 0x1_0000);
    assert FromDigits(gs, 0x1_0000) == p.address;
    Pow2Of121();
    ClearLowAligned(0x7e, 121, p.address);
  }

  lemma Entry11(left: seq<nat>, right: seq<nat>, len: nat, p: Ipv6Prefix, range: (nat, nat))
    requires left == [0xfe80] && right == [] && len == 10
    requires p == Ipv6Prefix(0xfe80_0000_0000_0000_0000_0000_0000_0000, 10) && range == (0xfe80_0000_0000_0000_0000_0000_0000_0000, 0xfec0_0000_0000_0000_0000_0000_0000_0000)
    ensures EntryValue(left, right, len, p, range)
  {
    var gs := left + ZeroGroups(8 - |left| - |right|) + right;
    assert gs == [0xfe80, 0, 0, 0, 0, 0, 0, 0];
    FromDigits8(gs, 0x1_0000);
    assert FromDigits(gs, 0x1_0000) == p.address;
    Pow2Of118();
    ClearLowAligned(0x3fa, 118, p.address);
  }

  lemma Entry12(left: seq<nat>, right: seq<nat>, len: nat, p: Ipv6Prefix, range: (nat, nat))
    requires left == [0xff00] && right == [] && len == 8
    requires p == Ipv6Prefix(0xff00_0000_0000_0000_0000_0000_0000_0000, 8) && range == (0xff00_0000_0000_0000_0000_0000_0000_0000, 0x1_0000_0000_0000_0000_0000_0000_0000_0000)
    ensures EntryValue(left, right, len, p, range)
  {
    var gs := left + ZeroGroups(8 - |left| - |right|) + right;
    assert gs == [0xff00, 0, 0, 0, 0, 0, 0, 0];
    FromDigits8(gs, 0x1_0000);
    assert FromDigits(gs, 0x1_0000) == p.address;
    Pow2Of120();
    ClearLowAligned(0xff, 120, p.address);
  }

  lemma Entry13(left: seq<nat>, right: seq<nat>, len: nat, p: Ipv6Prefix, range: (nat, nat))
    requires left == [0x2001, 2] && right == [] && len == 48
    requires p == Ipv6Prefix(0x2001_0002_0000_0000_0000_0000_0000_0000, 48) && range == (0x2001_0002_0000_0000_0000_0000_0000_0000, 0x2001_0002_0001_0000_0000_0000_0000_0000)
    ensures EntryValue(left, right, len, p, range)
  {
    var gs := left + ZeroGroups(8 - |left| - |right|) + right;
    assert gs == [0x2001, 2, 0, 0, 0, 0, 0, 0];
    FromDigits8(gs, 0x1_0000);
    assert FromDigits(gs, 0x1_0000) == p.address;
    Pow2Of80();
    ClearLowAligned(0x2001_0002_0000, 80, p.address);
  }

  lemma EntryAt(i: nat)
    requires i < 14
    ensures EntryValue(SPECIAL_PREFIX_FORMS[i].0, SPECIAL_PREFIX_FORMS[i].1, SPECIAL_PREFIX_FORMS[i].2,
                       SPECIAL_PREFIXES[i], SPECIAL_RANGES[i])
  {
    var (left, right, len) := SPECIAL_PREFIX_FORMS[i];
    var p := SPECIAL_PREFIXES[i];
    var range := SPECIAL_RANGES[i];
    if i == 0 {
      Entry0(left, right, len, p, range);
    } else if i == 1 {
      Entry1(left, right, len, p, range);
    } else if i == 2 {
      Entry2(left, right, len, p, range);
    } else if i == 3 {
      Entry3(left, right, len, p, range);
    } else if i == 4 {
      Entry4(left, right, len, p, range);
    } else if i == 5 {
      Entry5(left, right, len, p, range);
    } else if i == 6 {
      Entry6(left, right, len, p, range);
    } else if i == 7 {
      Entry7(left, right, len, p, range);
    } else if i == 8 {
      Entry8(left, right, len, p, range);
    } else if i == 9 {
      Entry9(left, right, len, p, range);
    } else if i == 10 {
      Entry10(left, right, len, p, range);
    } else if i == 11 {
      Entry11(left, right, len, p, range);
    } else if i == 12 {
      Entry12(left, right, len, p, range);
    } else {
      Entry13(left, right, len, p, range);
    }
  }

  /** An entry whose numbers check out constructs its prefix from its text. */
  lemma EntryPrefix(left: seq<nat>, right: seq<nat>, len: nat, p: Ipv6Prefix, range: (nat, nat))
    requires EntryValue(left, right, len, p, range)
    ensures Constructs(PrefixText(left, right, len), p)
  {
    CompressedValue(left, right);
    CompressedPrefix(left, right, len, p.address);
  }

  /** The `i`-th text constructs the `i`-th prefix. */
  lemma SpecialPrefixAt(i: nat)
    requires i < 14
    ensures Constructs(SPECIAL_PREFIX_TEXTS[i], SPECIAL_PREFIXES[i])
  {
    var (left, right, len) := SPECIAL_PREFIX_FORMS[i];
    EntryAt(i);
    EntryPrefix(left, right, len, SPECIAL_PREFIXES[i], SPECIAL_RANGES[i]);
  }

  /** Every special-prefix text is well formed and constructs the listed prefix, so building the list never throws. */
  lemma SpecialPrefixTexts()
    ensures |SPECIAL_PREFIX_TEXTS| == |SPECIAL_PREFIXES| == 14
    ensures forall i :: 0 <= i < 14 ==> Constructs(SPECIAL_PREFIX_TEXTS[i], SPECIAL_PREFIXES[i])
  {
    forall i | 0 <= i < 14
      ensures Constructs(SPECIAL_PREFIX_TEXTS[i], SPECIAL_PREFIXES[i])
    {
      SpecialPrefixAt(i);
    }
  }

  /**
   * `specialPrefixes.some((p) => p.includesAddress(address))`: the first
   * prefix whose test throws or holds decides; an empty list gives false.
   */
  function SomeIncludes(ps: seq<Ipv6Prefix>, address: string): Result<bool>
    requires forall i :: 0 <= i < |ps| ==> ps[i].length <= 128
  {
    if ps == [] then Ok(false)
    else
      match IncludesAddress(ps[0], address)
      case Err(e) => Err(e)
      case Ok(b) => if b then Ok(true) else SomeIncludes(ps[1..], address)
  }

  /** The address lies in the block of prefix `p`: its top `length` bits are the network's. */
  predicate InBlock(p: Ipv6Prefix, v: nat)
    requires p.length <= 128
  {
    ClearLow(p.address, 128 - p.length) == ClearLow(v, 128 - p.length)
  }

  /** `.some` over a non-empty list throws exactly when the address does not parse, and otherwise says whether some block holds it. */
  lemma {:induction false} SomeIncludesExists(ps: seq<Ipv6Prefix>, address: string)
    requires ps != []
    requires forall i :: 0 <= i < |ps| ==> ps[i].length <= 128
    ensures AddressValue(address).Err? ==> SomeIncludes(ps, address) == Err(AddressValue(address).message)
    ensures AddressValue(address).Ok? ==>
      SomeIncludes(ps, address) == Ok(exists i :: 0 <= i < |ps| && InBlock(ps[i], AddressValue(address).value))
  {
    if AddressValue(address).Ok? {
      var v := AddressValue(address).value;
      if !InBlock(ps[0], v) && |ps| > 1 {
        SomeIncludesExists(ps[1..], address);
        if exists i :: 0 <= i < |ps| && InBlock(ps[i], v) {
          var i :| 0 <= i < |ps| && InBlock(ps[i], v);
          assert ps[1..][i - 1] == ps[i];
        }
        if exists i :: 0 <= i < |ps| - 1 && InBlock(ps[1..][i], v) {
          var i :| 0 <= i < |ps| - 1 && InBlock(ps[1..][i], v);
          assert InBlock(ps[i + 1], v);
        }
      }
    }
  }

  /** `isSpecialPrefix(prefix)`: the whole argument, parsed as an address, falls in one of the special-purpose blocks. */
  function IsSpecialPrefix(prefix: string): Result<bool>
  {
    SpecialPrefixLengths();
    SomeIncludes(SPECIAL_PREFIXES, prefix)
  }

  lemma SpecialPrefixLengths()
    ensures |SPECIAL_PREFIXES| == 14
    ensures forall i :: 0 <= i < |SPECIAL_PREFIXES| ==> SPECIAL_PREFIXES[i].length <= 128
  {
  }

  /** The special-purpose blocks as half-open numeric ranges `[low, high)` of 128-bit addresses. */
  const SPECIAL_RANGES: seq<(nat, nat)> := [
    (0x0, 0x1), // ::/128
    (0x1, 0x2), // ::1/128
    (0xffff_0000_0000, 0x1_0000_0000_0000), // ::ffff:0:0/96
    (0xffff_0000_0000_0000, 0xffff_0001_0000_0000), // ::ffff:0:0:0/96
    (0x64_ff9b_0000_0000_0000_0000_0000_0000, 0x64_ff9b_0000_0000_0000_0001_0000_0000), // 64:ff9b::/96
    (0x64_ff9b_0001_0000_0000_0000_0000_0000, 0x64_ff9b_0002_0000_0000_0000_0000_0000), // 64:ff9b:1::/48
    (0x100_0000_0000_0000_0000_0000_0000_0000, 0x100_0000_0000_0001_0000_0000_0000_0000), // 100::/64
    (0x2001_0020_0000_0000_0000_0000_0000_0000, 0x2001_0030_0000_0000_0000_0000_0000_0000), // 2001:20::/28
    (0x2001_0db8_0000_0000_0000_0000_0000_0000, 0x2001_0db9_0000_0000_0000_0000_0000_0000), // 2001:db8::/32
    (0x2002_0000_0000_0000_0000_0000_0000_0000, 0x2003_0000_0000_0000_0000_0000_0000_0000), // 2002::/16
    (0xfc00_0000_0000_0000_0000_0000_0000_0000, 0xfe00_0000_0000_0000_0000_0000_0000_0000), // fc00::/7
    (0xfe80_0000_0000_0000_0000_0000_0000_0000, 0xfec0_0000_0000_0000_0000_0000_0000_0000), // fe80::/10
    (0xff00_0000_0000_0000_0000_0000_0000_0000, 0x1_0000_0000_0000_0000_0000_0000_0000_0000), // ff00::/8
    (0x2001_0002_0000_0000_0000_0000_0000_0000, 0x2001_0002_0001_0000_0000_0000_0000_0000) // 2001:2::/48
  ]

  predicate InSpecialRange(v: nat)
  {
    exists i :: 0 <= i < |SPECIAL_RANGES| && SPECIAL_RANGES[i].0 <= v < SPECIAL_RANGES[i].1
  }

  /** The `i`-th range starts at the `i`-th network and spans its `2^(128 - length)` addresses. */
  lemma SpecialRangeSize(i: nat)
    requires i < 14
    ensures SPECIAL_RANGES[i].0 == SPECIAL_PREFIXES[i].address
    ensures SPECIAL_RANGES[i].1 == SPECIAL_PREFIXES[i].address + Pow2(128 - SPECIAL_PREFIXES[i].length)
  {
    EntryAt(i);
  }

  /** The block of the `i`-th special prefix is the `i`-th range. */
  lemma SpecialBlockRange(i: nat, v: nat)
    requires i < 14
    ensures SPECIAL_PREFIXES[i].length <= 128
    ensures InBlock(SPECIAL_PREFIXES[i], v) <==> SPECIAL_RANGES[i].0 <= v < SPECIAL_RANGES[i].1
  {
    var p := SPECIAL_PREFIXES[i];
    SpecialNetworkAligned(i);
    SpecialRangeSize(i);
    ClearLowRange(v, p.address, 128 - p.length);
  }

  /** Each special network has its host bits clear, as every constructed prefix does. */
  lemma SpecialNetworkAligned(i: nat)
    requires i < 14
    ensures SPECIAL_PREFIXES[i].length <= 128
    ensures ClearLow(SPECIAL_PREFIXES[i].address, 128 - SPECIAL_PREFIXES[i].length) == SPECIAL_PREFIXES[i].address
  {
    EntryAt(i);
  }

  /**
   * `isSpecialPrefix` throws the address error when the whole argument does
   * not parse as an address, and otherwise holds exactly when that address is
   * in a special range.
   */
  lemma IsSpecialPrefixRanges(prefix: string)
    ensures AddressValue(prefix).Err? ==> IsSpecialPrefix(prefix) == Err(AddressValue(prefix).message)
    ensures AddressValue(prefix).Ok? ==> IsSpecialPrefix(prefix) == Ok(InSpecialRange(AddressValue(prefix).value))
  {
    SpecialPrefixLengths();
    SomeIncludesExists(SPECIAL_PREFIXES, prefix);
    if AddressValue(prefix).Ok? {
      var v := AddressValue(prefix).value;
      forall i | 0 <= i < 14
        ensures InBlock(SPECIAL_PREFIXES[i], v) <==> SPECIAL_RANGES[i].0 <= v < SPECIAL_RANGES[i].1
      {
        SpecialBlockRange(i, v);
      }
    }
  }

  /** For an address written with one `::`, `isSpecialPrefix` is the range test on the number of its expanded groups. */
  lemma CompressedIsSpecial(left: seq<nat>, right: seq<nat>)
    requires (forall i :: 0 <= i < |left| ==> left[i] <= 0xffff)
    requires (forall i :: 0 <= i < |right| ==> right[i] <= 0xffff)
    requires SideCount(left) + SideCount(right) < 8
    ensures IsSpecialPrefix(CompressedText(left, right))
      == Ok(InSpecialRange(FromDigits(left + ZeroGroups(8 - |left| - |right|) + right, 0x1_0000)))
  {
    CompressedValue(left, right);
    IsSpecialPrefixRanges(CompressedText(left, right));
  }

  /** 2001:db8::1 (documentation) and fe80::1 (link-local) are special; 2001:4860:4860::8888 is not. */
  lemma SpecialRangeExamples()
    ensures InSpecialRange(FromDigits([0x2001, 0xdb8, 0, 0, 0, 0, 0, 1], 0x1_0000))
    ensures InSpecialRange(FromDigits([0xfe80, 0, 0, 0, 0, 0, 0, 1], 0x1_0000))
    ensures !InSpecialRange(FromDigits([0x2001, 0x4860, 0x4860, 0, 0, 0, 0, 0x8888], 0x1_0000))
  {
    FromDigits8([0x2001, 0xdb8, 0, 0, 0, 0, 0, 1], 0x1_0000);
    assert SPECIAL_RANGES[8].0 <= 0x2001_0db8_0000_0000_0000_0000_0000_0001 < SPECIAL_RANGES[8].1;
    FromDigits8([0xfe80, 0, 0, 0, 0, 0, 0, 1], 0x1_0000);
    assert SPECIAL_RANGES[11].0 <= 0xfe80_0000_0000_0000_0000_0000_0000_0001 < SPECIAL_RANGES[11].1;
    FromDigits8([0x2001, 0x4860, 0x4860, 0, 0, 0, 0, 0x8888], 0x1_0000);
    forall i | 0 <= i < |SPECIAL_RANGES|
      ensures !(SPECIAL_RANGES[i].0 <= 0x2001_4860_4860_0000_0000_0000_0000_8888 < SPECIAL_RANGES[i].1)
    {
    }
  }
}
