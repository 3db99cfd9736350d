/** The IPv4 special-purpose prefix list and `isSpecialPrefix` (src/ipv4.ts). */
module Ipv4Special {
  import opened Wrappers
  import opened JsText
  import opened Bits
  import opened Ipv4

  /**
   * The texts of `SPECIAL_PREFIXES` (src/ipv4.ts:54-69): the special-purpose
   * blocks of RFC 6890 together with the multicast (224.0.0.0/4) and reserved
   * (240.0.0.0/4) blocks. Each is written as the decimal dotted quad and length
   * it spells, see SpecialPrefixSpelling0 to SpecialPrefixSpelling4.
   */
  const SPECIAL_PREFIX_TEXTS: seq<string> := [
    DottedText(0, 0, 0, 0, 8),
    DottedText(10, 0, 0, 0, 8),
    DottedText(100, 64, 0, 0, 10),
    DottedText(127, 0, 0, 0, 8),
    DottedText(169, 254, 0, 0, 16),
    DottedText(172, 16, 0, 0, 12),
    DottedText(192, 0, 0, 0, 24),
    DottedText(192, 0, 2, 0, 24),
    DottedText(192, 88, 99, 0, 24),
    DottedText(192, 168, 0, 0, 16),
    DottedText(198, 18, 0, 0, 15),
    DottedText(198, 51, 100, 0, 24),
    DottedText(203, 0, 113, 0, 24),
    DottedText(224, 0, 0, 0, 4),
    DottedText(240, 0, 0, 0, 4)
  ]

  /** The texts spelled out, as the source lists them. */
  lemma SpecialPrefixSpelling0()
    ensures SPECIAL_PREFIX_TEXTS[0] == "0.0.0.0/8"
    ensures SPECIAL_PREFIX_TEXTS[1] == "10.0.0.0/8"
    ensures SPECIAL_PREFIX_TEXTS[2] == "100.64.0.0/10"
  {
  }

  lemma SpecialPrefixSpelling1()
    ensures SPECIAL_PREFIX_TEXTS[3] == "127.0.0.0/8"
    ensures SPECIAL_PREFIX_TEXTS[4] == "169.254.0.0/16"
    ensures SPECIAL_PREFIX_TEXTS[5] == "172.16.0.0/12"
  {
  }

  lemma SpecialPrefixSpelling2()
    ensures SPECIAL_PREFIX_TEXTS[6] == "192.0.0.0/24"
    ensures SPECIAL_PREFIX_TEXTS[7] == "192.0.2.0/24"
    ensures SPECIAL_PREFIX_TEXTS[8] == "192.88.99.0/24"
  {
  }

  lemma SpecialPrefixSpelling3()
    ensures SPECIAL_PREFIX_TEXTS[9] == "192.168.0.0/16"
    ensures SPECIAL_PREFIX_TEXTS[10] == "198.18.0.0/15"
    ensures SPECIAL_PREFIX_TEXTS[11] == "198.51.100.0/24"
  {
  }

  lemma SpecialPrefixSpelling4()
    ensures SPECIAL_PREFIX_TEXTS[12] == "203.0.113.0/24"
    ensures SPECIAL_PREFIX_TEXTS[13] == "224.0.0.0/4"
    ensures SPECIAL_PREFIX_TEXTS[14] == "240.0.0.0/4"
  {
  }

  /** The prefixes those texts construct (`.map((prefix) => new Ipv4Prefix(prefix))`), see SpecialPrefixTexts. */
  const SPECIAL_PREFIXES: seq<Ipv4Prefix> := [
    Ipv4Prefix(0x00000000, 8), Ipv4Prefix(0x0A000000, 8), Ipv4Prefix(0x64400000, 10),
    Ipv4Prefix(0x7F000000, 8), Ipv4Prefix(0xA9FE0000, 16), Ipv4Prefix(0xAC100000, 12),
    Ipv4Prefix(0xC0000000, 24), Ipv4Prefix(0xC0000200, 24), Ipv4Prefix(0xC0586300, 24),
    Ipv4Prefix(0xC0A80000, 16), Ipv4Prefix(0xC6120000, 15), Ipv4Prefix(0xC6336400, 24),
    Ipv4Prefix(0xCB007100, 24), Ipv4Prefix(0xE0000000, 4), Ipv4Prefix(0xF0000000, 4)
  ]

  lemma SpecialPrefix0()
    ensures Constructs(SPECIAL_PREFIX_TEXTS[0], SPECIAL_PREFIXES[0])
  {
    HostBlockSizes();
    FromDigits4(0, 0, 0, 0, 256);
    DottedPrefix(SPECIAL_PREFIX_TEXTS[0], 0, 0, 0, 0, 8, 0x00000000, 0);
  }

  lemma SpecialPrefix1()
    ensures Constructs(SPECIAL_PREFIX_TEXTS[1], SPECIAL_PREFIXES[1])
  {
    HostBlockSizes();
    FromDigits4(10, 0, 0, 0, 256);
    DottedPrefix(SPECIAL_PREFIX_TEXTS[1], 10, 0, 0, 0, 8, 0x0A000000, 10);
  }

  lemma SpecialPrefix2()
    ensures Constructs(SPECIAL_PREFIX_TEXTS[2], SPECIAL_PREFIXES[2])
  {
    HostBlockSizes();
    FromDigits4(100, 64, 0, 0, 256);
    DottedPrefix(SPECIAL_PREFIX_TEXTS[2], 100, 64, 0, 0, 10, 0x64400000, 401);
  }

  lemma SpecialPrefix3()
    ensures Constructs(SPECIAL_PREFIX_TEXTS[3], SPECIAL_PREFIXES[3])
  {
    HostBlockSizes();
    FromDigits4(127, 0, 0, 0, 256);
    DottedPrefix(SPECIAL_PREFIX_TEXTS[3], 127, 0, 0, 0, 8, 0x7F000000, 127);
  }

  lemma SpecialPrefix4()
    ensures Constructs(SPECIAL_PREFIX_TEXTS[4], SPECIAL_PREFIXES[4])
  {
    HostBlockSizes();
    FromDigits4(169, 254, 0, 0, 256);
    DottedPrefix(SPECIAL_PREFIX_TEXTS[4], 169, 254, 0, 0, 16, 0xA9FE0000, 43518);
  }

  lemma SpecialPrefix5()
    ensures Constructs(SPECIAL_PREFIX_TEXTS[5], SPECIAL_PREFIXES[5])
  {
    HostBlockSizes();
    FromDigits4(172, 16, 0, 0, 256);
    DottedPrefix(SPECIAL_PREFIX_TEXTS[5], 172, 16, 0, 0, 12, 0xAC100000, 2753);
  }

  lemma SpecialPrefix6()
    ensures Constructs(SPECIAL_PREFIX_TEXTS[6], SPECIAL_PREFIXES[6])
  {
    FromDigits4(192, 0, 0, 0, 256);
    DottedPrefix(SPECIAL_PREFIX_TEXTS[6], 192, 0, 0, 0, 24, 0xC0000000, 12582912);
  }

  lemma SpecialPrefix7()
    ensures Constructs(SPECIAL_PREFIX_TEXTS[7], SPECIAL_PREFIXES[7])
  {
    FromDigits4(192, 0, 2, 0, 256);
    DottedPrefix(SPECIAL_PREFIX_TEXTS[7], 192, 0, 2, 0, 24, 0xC0000200, 12582914);
  }

  lemma SpecialPrefix8()
    ensures Constructs(SPECIAL_PREFIX_TEXTS[8], SPECIAL_PREFIXES[8])
  {
    FromDigits4(192, 88, 99, 0, 256);
    DottedPrefix(SPECIAL_PREFIX_TEXTS[8], 192, 88, 99, 0, 24, 0xC0586300, 12605539);
  }

  lemma SpecialPrefix9()
    ensures Constructs(SPECIAL_PREFIX_TEXTS[9], SPECIAL_PREFIXES[9])
  {
    HostBlockSizes();
    FromDigits4(192, 168, 0, 0, 256);
    DottedPrefix(SPECIAL_PREFIX_TEXTS[9], 192, 168, 0, 0, 16, 0xC0A80000, 49320);
  }

  lemma SpecialPrefix10()
    ensures Constructs(SPECIAL_PREFIX_TEXTS[10], SPECIAL_PREFIXES[10])
  {
    HostBlockSizes();
    FromDigits4(198, 18, 0, 0, 256);
    DottedPrefix(SPECIAL_PREFIX_TEXTS[10], 198, 18, 0, 0, 15, 0xC6120000, 25353);
  }

  lemma SpecialPrefix11()
    ensures Constructs(SPECIAL_PREFIX_TEXTS[11], SPECIAL_PREFIXES[11])
  {
    FromDigits4(198, 51, 100, 0, 256);
    DottedPrefix(SPECIAL_PREFIX_TEXTS[11], 198, 51, 100, 0, 24, 0xC6336400, 12989284);
  }

  lemma SpecialPrefix12()
    ensures Constructs(SPECIAL_PREFIX_TEXTS[12], SPECIAL_PREFIXES[12])
  {
    FromDigits4(203, 0, 113, 0, 256);
    DottedPrefix(SPECIAL_PREFIX_TEXTS[12], 203, 0, 113, 0, 24, 0xCB007100, 13303921);
  }

  lemma SpecialPrefix13()
    ensures Constructs(SPECIAL_PREFIX_TEXTS[13], SPECIAL_PREFIXES[13])
  {
    HostBlockSizes();
    FromDigits4(224, 0, 0, 0, 256);
    DottedPrefix(SPECIAL_PREFIX_TEXTS[13], 224, 0, 0, 0, 4, 0xE0000000, 14);
  }

  lemma SpecialPrefix14()
    ensures Constructs(SPECIAL_PREFIX_TEXTS[14], SPECIAL_PREFIXES[14])
  {
    HostBlockSizes();
    FromDigits4(240, 0, 0, 0, 256);
    DottedPrefix(SPECIAL_PREFIX_TEXTS[14], 240, 0, 0, 0, 4, 0xF0000000, 15);
  }

  /** Every special-prefix text is well formed and constructs the listed prefix, so building the list never throws. */
  lemma SpecialPrefixTexts()
    ensures |SPECIAL_PREFIX_TEXTS| == |SPECIAL_PREFIXES| == 15
    ensures forall i :: 0 <= i < 15 ==> Constructs(SPECIAL_PREFIX_TEXTS[i], SPECIAL_PREFIXES[i])
  {
    forall i | 0 <= i < 15
      ensures Constructs(SPECIAL_PREFIX_TEXTS[i], SPECIAL_PREFIXES[i])
    {
      SpecialPrefixAt(i);
    }
  }

  lemma SpecialPrefixAt(i: nat)
    requires i < 15
    ensures Constructs(SPECIAL_PREFIX_TEXTS[i], SPECIAL_PREFIXES[i])
  {
    if i == 0 { SpecialPrefix0();
    } else if i == 1 { SpecialPrefix1();
    } else if i == 2 { SpecialPrefix2();
    } else if i == 3 { SpecialPrefix3();
    } else if i == 4 { SpecialPrefix4();
    } else if i == 5 { SpecialPrefix5();
    } else if i == 6 { SpecialPrefix6();
    } else if i == 7 { SpecialPrefix7();
    } else if i == 8 { SpecialPrefix8();
    } else if i == 9 { SpecialPrefix9();
    } else if i == 10 { SpecialPrefix10();
    } else if i == 11 { SpecialPrefix11();
    } else if i == 12 { SpecialPrefix12();
    } else if i == 13 { SpecialPrefix13();
    } else { SpecialPrefix14();
    }
  }

  /**
   * `specialPrefixes.some((p) => p.includesAddress(address))`: the first
   * prefix whose test throws or holds decides; an empty list gives false.
   */
  function SomeIncludes(ps: seq<Ipv4Prefix>, address: string): Result<bool>
    requires forall i :: 0 <= i < |ps| ==> ps[i].length <= 32
  {
    if ps == [] then Ok(false)
    else
      match IncludesAddress(ps[0], address)
      case Err(e) => Err(e)
      case Ok(b) => if b then Ok(true) else SomeIncludes(ps[1..], address)
  }

  /** The address lies in the block of prefix `p`: its top `length` bits are the network's. */
  predicate InBlock(p: Ipv4Prefix, v: nat)
    requires p.length <= 32
  {
    ClearLow(p.address, 32 - p.length) == ClearLow(v, 32 - p.length)
  }

  /** `.some` over a non-empty list throws exactly when the address does not parse, and otherwise says whether some block holds it. */
  lemma {:induction false} SomeIncludesExists(ps: seq<Ipv4Prefix>, address: string)
    requires ps != []
    requires forall i :: 0 <= i < |ps| ==> ps[i].length <= 32
    ensures AddressValue(address).Err? ==> SomeIncludes(ps, address) == Err(InvalidAddress(address))
    ensures AddressValue(address).Ok? ==>
      SomeIncludes(ps, address) == Ok(exists i :: 0 <= i < |ps| && InBlock(ps[i], AddressValue(address).value))
  {
    if AddressValue(address).Ok? {
      var v := AddressValue(address).value;
      if !InBlock(ps[0], v) && |ps| > 1 {
        SomeIncludesExists(ps[1..], address);
        if exists i :: 0 <= i < |ps| && InBlock(ps[i], v) {
          var i :| 0 <= i < |ps| && InBlock(ps[i], v);
          assert ps[1..][i - 1] == ps[i];
        }
        if exists i :: 0 <= i < |ps| - 1 && InBlock(ps[1..][i], v) {
          var i :| 0 <= i < |ps| - 1 && InBlock(ps[1..][i], v);
          assert InBlock(ps[i + 1], v);
        }
      }
    }
  }

  /** `isSpecialPrefix(prefix)`: the whole argument, parsed as an address, falls in one of the special-purpose blocks. */
  function IsSpecialPrefix(prefix: string): Result<bool>
  {
    SpecialPrefixLengths();
    SomeIncludes(SPECIAL_PREFIXES, prefix)
  }

  lemma SpecialPrefixLengths()
    ensures |SPECIAL_PREFIXES| == 15
    ensures forall i :: 0 <= i < |SPECIAL_PREFIXES| ==> SPECIAL_PREFIXES[i].length <= 32
  {
  }

  /** The special-purpose blocks as half-open numeric ranges `[low, high)` of 32-bit addresses. */
  const SPECIAL_RANGES: seq<(nat, nat)> := [
    (0x0, 0x100_0000), // 0.0.0.0/8
    (0xA00_0000, 0xB00_0000), // 10.0.0.0/8
    (0x6440_0000, 0x6480_0000), // 100.64.0.0/10
    (0x7F00_0000, 0x8000_0000), // 127.0.0.0/8
    (0xA9FE_0000, 0xA9FF_0000), // 169.254.0.0/16
    (0xAC10_0000, 0xAC20_0000), // 172.16.0.0/12
    (0xC000_0000, 0xC000_0100), // 192.0.0.0/24
    (0xC000_0200, 0xC000_0300), // 192.0.2.0/24
    (0xC058_6300, 0xC058_6400), // 192.88.99.0/24
    (0xC0A8_0000, 0xC0A9_0000), // 192.168.0.0/16
    (0xC612_0000, 0xC614_0000), // 198.18.0.0/15
    (0xC633_6400, 0xC633_6500), // 198.51.100.0/24
    (0xCB00_7100, 0xCB00_7200), // 203.0.113.0/24
    (0xE000_0000, 0xF000_0000), // 224.0.0.0/4
    (0xF000_0000, 0x1_0000_0000) // 240.0.0.0/4
  ]

  predicate InSpecialRange(v: nat)
  {
    exists i :: 0 <= i < |SPECIAL_RANGES| && SPECIAL_RANGES[i].0 <= v < SPECIAL_RANGES[i].1
  }

  lemma HostBlockSizes()
    ensures Pow2(8) == 0x100 && Pow2(16) == 0x1_0000 && Pow2(17) == 0x2_0000 && Pow2(20) == 0x10_0000
    ensures Pow2(22) == 0x40_0000 && Pow2(24) == 0x100_0000 && Pow2(28) == 0x1000_0000
  {
    Pow2Of16Plus(1);
    Pow2Of16Plus(4);
    Pow2Of16Plus(6);
    Pow2Of16Plus(8);
    Pow2Of16Plus(12);
  }

  /** The `i`-th range starts at the `i`-th network and spans its `2^(32 - length)` addresses. */
  lemma SpecialRangeSize(i: nat)
    requires i < 15
    ensures SPECIAL_RANGES[i].0 == SPECIAL_PREFIXES[i].address
    ensures SPECIAL_RANGES[i].1 == SPECIAL_PREFIXES[i].address + Pow2(32 - SPECIAL_PREFIXES[i].length)
  {
    HostBlockSizes();
    if i == 0 {
    } else if i == 1 {
    } else if i == 2 {
    } else if i == 3 {
    } else if i == 4 {
    } else if i == 5 {
    } else if i == 6 {
    } else if i == 7 {
    } else if i == 8 {
    } else if i == 9 {
    } else if i == 10 {
    } else if i == 11 {
    } else if i == 12 {
    } else if i == 13 {
    } else {
    }
  }

  /** The block of the `i`-th special prefix is the `i`-th range. */
  lemma SpecialBlockRange(i: nat, v: nat)
    requires i < 15
    ensures SPECIAL_PREFIXES[i].length <= 32
    ensures InBlock(SPECIAL_PREFIXES[i], v) <==> SPECIAL_RANGES[i].0 <= v < SPECIAL_RANGES[i].1
  {
    var p := SPECIAL_PREFIXES[i];
    SpecialNetworkAligned(i);
    SpecialRangeSize(i);
    ClearLowRange(v, p.address, 32 - p.length);
  }

  /** Each special network has its host bits clear, as every constructed prefix does. */
  lemma SpecialNetworkAligned(i: nat)
    requires i < 15
    ensures SPECIAL_PREFIXES[i].length <= 32
    ensures ClearLow(SPECIAL_PREFIXES[i].address, 32 - SPECIAL_PREFIXES[i].length) == SPECIAL_PREFIXES[i].address
  {
    SpecialPrefixAt(i);
    NetworkAddress(SPECIAL_PREFIX_TEXTS[i]);
  }

  /**
   * `isSpecialPrefix` throws the address error when the whole argument does
   * not parse as an address, and otherwise holds exactly when that address is
   * in a special range.
   */
  lemma IsSpecialPrefixRanges(prefix: string)
    ensures AddressValue(prefix).Err? ==> IsSpecialPrefix(prefix) == Err(InvalidAddress(prefix))
    ensures AddressValue(prefix).Ok? ==> IsSpecialPrefix(prefix) == Ok(InSpecialRange(AddressValue(prefix).value))
  {
    SpecialPrefixLengths();
    SomeIncludesExists(SPECIAL_PREFIXES, prefix);
    if AddressValue(prefix).Ok? {
      var v := AddressValue(prefix).value;
      forall i | 0 <= i < 15
        ensures InBlock(SPECIAL_PREFIXES[i], v) <==> SPECIAL_RANGES[i].0 <= v < SPECIAL_RANGES[i].1
      {
        SpecialBlockRange(i, v);
      }
    }
  }

  /** For a dotted quad `a.b.c.d` written in decimal, `isSpecialPrefix` is the range test on its number. */
  lemma QuadIsSpecial(a: nat, b: nat, c: nat, d: nat)
    requires a <= 255 && b <= 255 && c <= 255 && d <= 255
    ensures IsSpecialPrefix(QuadText(a, b, c, d)) == Ok(InSpecialRange(FromDigits([a, b, c, d], 256)))
  {
    QuadValue(a, b, c, d);
    IsSpecialPrefixRanges(QuadText(a, b, c, d));
  }

  /** 10.1.2.3 and 192.168.0.1 are private-use addresses; 8.8.8.8 is public. */
  lemma SpecialRangeExamples()
    ensures InSpecialRange(FromDigits([10, 1, 2, 3], 256))
    ensures InSpecialRange(FromDigits([192, 168, 0, 1], 256))
    ensures !InSpecialRange(FromDigits([8, 8, 8, 8], 256))
  {
    FromDigits4(10, 1, 2, 3, 256);
    assert SPECIAL_RANGES[1].0 <= 0x0A01_0203 < SPECIAL_RANGES[1].1;
    FromDigits4(192, 168, 0, 1, 256);
    assert SPECIAL_RANGES[9].0 <= 0xC0A8_0001 < SPECIAL_RANGES[9].1;
    FromDigits4(8, 8, 8, 8, 256);
    forall i | 0 <= i < |SPECIAL_RANGES|
      ensures !(SPECIAL_RANGES[i].0 <= 0x0808_0808 < SPECIAL_RANGES[i].1)
    {
    }
  }
}
