/** IPv6 address parsing with `::` compression, and prefixes (src/ipv6.ts). */
module Ipv6 {
  import opened Wrappers
  import opened JsText
  import opened Bits

  function InvalidAddress(address: string): string
  {
    "Invalid IPv6 address: " + address
  }

  /** One colon-separated group: `Number.parseInt(part || '0', 16)`, refused when NaN or outside 0..0xffff. */
  function GroupValue(part: string): (r: Option<nat>)
    ensures r.Some? ==> r.value <= 0xffff
  {
    match ParseInt(if part == "" then "0" else part, 16)
    case None => None
    case Some(v) => if 0 > v || 0xffff < v then None else Some(v)
  }

  predicate ValidGroups(parts: seq<string>)
  {
    forall i :: 0 <= i < |parts| ==> GroupValue(parts[i]).Some?
  }

  function Groups(parts: seq<string>): (gs: seq<nat>)
    requires ValidGroups(parts)
    ensures |gs| == |parts|
  {
    seq(|parts|, i requires 0 <= i < |parts| => GroupValue(parts[i]).value)
  }

  lemma GroupsSnoc(parts: seq<string>, i: nat)
    requires i < |parts| && ValidGroups(parts[..i]) && GroupValue(parts[i]).Some?
    ensures ValidGroups(parts[..i + 1])
    ensures Groups(parts[..i + 1]) == Groups(parts[..i]) + [GroupValue(parts[i]).value]
  {
    assert parts[..i + 1] == parts[..i] + [parts[i]];
  }

  /** `new Array(n).fill('0')`. */
  function ZeroParts(n: nat): seq<string>
  {
    seq(n, _ => "0")
  }

  /**
   * The `::` step of `addressToBigInt`: more than one `::` is an error; with
   * one, each side is split on ':' and the `8 - left - right` groups between
   * them are written out as "0" (an error when the two sides already have 8
   * parts or more). An address without `::` is kept as written.
   */
  function ExpandAddress(address: string): Result<string>
  {
    var halves := Split(address, "::");
    if |halves| > 2 then Err(InvalidAddress(address))
    else if |halves| == 2 then
      var left, right := Split(halves[0], ":"), Split(halves[1], ":");
      if |left| + |right| >= 8 then Err(InvalidAddress(address))
      else Ok(Join(left + ZeroParts(8 - |left| - |right|) + right, ":"))
    else Ok(address)
  }

  /**
   * What `addressToBigInt` computes: after the `::` step the address must
   * have exactly eight colon-separated groups, each reading as 0..0xffff (an
   * empty group reads as 0); the result is the 128-bit big-endian number of
   * those groups. The error after the `::` step names the expanded address.
   */
  function AddressValue(address: string): Result<nat>
  {
    match ExpandAddress(address)
    case Err(e) => Err(e)
    case Ok(full) =>
      var parts := Split(full, ":");
      if |parts| != 8 || !ValidGroups(parts) then Err(InvalidAddress(full))
      else Ok(FromDigits(Groups(parts), 0x1_0000))
  }

  /** `addressToBigInt`: expand `::`, then shift the result left by 16 bits and OR in each group. */
  method AddressToBigInt(address: string) returns (r: Result<nat>)
    ensures r == AddressValue(address)
  {
    var largeParts := Split(address, "::");
    if |largeParts| > 2 {
      return Err(InvalidAddress(address));
    }
    var full := address;
    if |largeParts| == 2 {
      var leftParts, rightParts := Split(largeParts[0], ":"), Split(largeParts[1], ":");
      if |leftParts| + |rightParts| >= 8 {
        return Err(InvalidAddress(address));
      }
      var zeroArray := ZeroParts(8 - |leftParts| - |rightParts|);
      full := Join(leftParts + zeroArray + rightParts, ":");
    }
    assert ExpandAddress(address) == Ok(full);
    var parts := Split(full, ":");
    if 8 != |parts| {
      return Err(InvalidAddress(full));
    }
    var result: nat := 0;
    for i := 0 to |parts|
      invariant ValidGroups(parts[..i])
      invariant result == FromDigits(Groups(parts[..i]), 0x1_0000)
    {
      var value := ParseInt(if parts[i] == "" then "0" else parts[i], 16);
      if value.None? || 0 > value.value || 0xffff < value.value {
        assert !ValidGroups(parts) by {
          assert GroupValue(parts[i]).None?;
        }
        return Err(InvalidAddress(full));
      }
      GroupsSnoc(parts, i);
      FromDigitsSnoc(Groups(parts[..i]), value.value, 0x1_0000);
      // the low 16 bits of `result << 16n` are zero and `value < 0x10000`, so OR is addition
      result := result * 0x1_0000 + value.value;
    }
    assert parts[..8] == parts;
    return Ok(result);
  }

  /** A successful parse is the number of the eight 16-bit groups of the expanded address. */
  lemma AddressValueGroups(address: string)
    requires AddressValue(address).Ok?
    ensures var full := ExpandAddress(address).value;
      && |Split(full, ":")| == 8 && ValidGroups(Split(full, ":"))
      && AddressValue(address).value == FromDigits(Groups(Split(full, ":")), 0x1_0000)
  {
  }

  /** A successful parse is below 2^128. */
  lemma AddressValueBound(address: string)
    requires AddressValue(address).Ok?
    ensures AddressValue(address).value < 0x1_0000_0000_0000_0000_0000_0000_0000_0000
  {
    AddressValueGroups(address);
    var gs := Groups(Split(ExpandAddress(address).value, ":"));
    Pow2Of16();
    FromDigitsBelow(gs, 16);
    Pow2Of128();
  }

  /** Two `::` or more are refused. */
  lemma AddressTwoCompressions(address: string)
    requires |Split(address, "::")| > 2
    ensures AddressValue(address) == Err(InvalidAddress(address))
  {
  }

  /** With `::`, the two sides must leave room for at least one zero group. */
  lemma AddressCompressionFull(address: string)
    requires |Split(address, "::")| == 2
    requires |Split(Split(address, "::")[0], ":")| + |Split(Split(address, "::")[1], ":")| >= 8
    ensures AddressValue(address) == Err(InvalidAddress(address))
  {
  }

  /** Without `::`, the address is refused unless it has exactly eight colon-separated parts. */
  lemma AddressPartCount(address: string)
    requires |Split(address, "::")| == 1 && |Split(address, ":")| != 8
    ensures AddressValue(address) == Err(InvalidAddress(address))
  {
  }

  /**
   * The `::` step always produces exactly eight groups: the two sides' parts
   * with the zero groups between them. So the later count check can only
   * refuse an address written without `::`.
   */
  lemma ExpandedGroups(address: string)
    requires |Split(address, "::")| == 2 && ExpandAddress(address).Ok?
    ensures var halves := Split(address, "::");
      var left, right := Split(halves[0], ":"), Split(halves[1], ":");
      && |left| + |right| < 8
      && Split(ExpandAddress(address).value, ":") == left + ZeroParts(8 - |left| - |right|) + right
      && |Split(ExpandAddress(address).value, ":")| == 8
  {
    var halves := Split(address, "::");
    var left, right := Split(halves[0], ":"), Split(halves[1], ":");
    var parts := left + ZeroParts(8 - |left| - |right|) + right;
    SplitPartsNoSep(halves[0], ':');
    SplitPartsNoSep(halves[1], ':');
    forall i | 0 <= i < |parts|
      ensures ':' !in parts[i]
    {
      if i < |left| {
        assert parts[i] in left;
      } else if i >= |parts| - |right| {
        assert parts[i] == right[i - (|parts| - |right|)];
        assert parts[i] in right;
      }
    }
    SplitJoin(parts, ':');
  }

  // Addresses written from their groups.

  /** The groups in lower-case hexadecimal without leading zeros, as `toString(16)` writes them. */
  function HexParts(gs: seq<nat>): (ps: seq<string>)
    ensures |ps| == |gs|
    ensures forall i :: 0 <= i < |gs| ==> ps[i] == Numeral(gs[i], 16)
  {
    if gs == [] then [] else [Numeral(gs[0], 16)] + HexParts(gs[1..])
  }

  /** `g1:g2:...:gn` in hexadecimal. */
  function GroupsText(gs: seq<nat>): string
  {
    Join(HexParts(gs), ":")
  }

  /** `l1:...:lm::r1:...:rn`: the groups on either side of a `::`. */
  function CompressedText(left: seq<nat>, right: seq<nat>): string
  {
    GroupsText(left) + "::" + GroupsText(right)
  }

  /** The parts a side of `::` splits into: an empty side is one empty part. */
  function SideParts(gs: seq<nat>): seq<string>
  {
    if gs == [] then [""] else HexParts(gs)
  }

  /** The values `addressToBigInt` reads from a side: an empty side reads as one zero group. */
  function SideGroups(gs: seq<nat>): seq<nat>
  {
    if gs == [] then [0] else gs
  }

  predicate NoDoubleColon(s: string)
  {
    forall k :: 0 <= k < |s| - 1 ==> !(s[k] == ':' && s[k + 1] == ':')
  }

  lemma MatchDoubleColon(s: string, k: nat)
    ensures MatchAt(s, "::", k, 0) <==> k + 1 < |s| && s[k] == ':' && s[k + 1] == ':'
  {
    assert MatchAt(s, "::", k, 2);
  }

  /** Joining non-empty colon-free parts with ':' never puts two colons side by side, nor a colon at either end. */
  lemma {:induction false} JoinColonShape(parts: seq<string>)
    requires forall i :: 0 <= i < |parts| ==> parts[i] != "" && ':' !in parts[i]
    ensures var s := Join(parts, ":");
      NoDoubleColon(s) && (s != "" ==> s[0] != ':' && s[|s| - 1] != ':')
  {
    if |parts| == 1 {
      assert parts[0][0] in parts[0];
      assert parts[0][|parts[0]| - 1] in parts[0];
    } else if |parts| > 1 {
      var a, rest := parts[0], parts[1..];
      JoinColonShape(rest);
      var j := Join(rest, ":");
      assert j != "" && j[0] == rest[0][0] by {
        if |rest| > 1 {
          assert j == rest[0] + ":" + Join(rest[1..], ":");
        }
      }
      var s := a + ":" + j;
      assert Join(parts, ":") == s;
      assert a[0] in a;
      assert s[0] == a[0];
      assert s[|s| - 1] == j[|j| - 1];
      forall k | 0 <= k < |s| - 1
        ensures !(s[k] == ':' && s[k + 1] == ':')
      {
        if k < |a| {
          assert s[k] == a[k] && a[k] in a;
        } else if k == |a| {
          assert s[k + 1] == j[0];
        } else {
          assert s[k] == j[k - |a| - 1] && s[k + 1] == j[k - |a|];
        }
      }
    }
  }

  lemma {:induction false} JoinExcludes(parts: seq<string>, sep: string, c: char)
    requires c !in sep
    requires forall i :: 0 <= i < |parts| ==> c !in parts[i]
    ensures c !in Join(parts, sep)
  {
    if |parts| > 1 {
      JoinExcludes(parts[1..], sep, c);
    }
  }

  /** The hexadecimal groups are non-empty and hold no colon and no slash. */
  lemma HexPartsPlain(gs: seq<nat>)
    ensures forall i :: 0 <= i < |gs| ==> HexParts(gs)[i] != "" && ':' !in HexParts(gs)[i] && '/' !in HexParts(gs)[i]
  {
    forall i | 0 <= i < |gs|
      ensures ':' !in HexParts(gs)[i] && '/' !in HexParts(gs)[i]
    {
      AllDigitsExcludes(Numeral(gs[i], 16), 16, ':');
      AllDigitsExcludes(Numeral(gs[i], 16), 16, '/');
    }
  }

  /** Groups of at most 0xffff written in hexadecimal read back as themselves. */
  lemma HexPartsRead(gs: seq<nat>)
    requires forall i :: 0 <= i < |gs| ==> gs[i] <= 0xffff
    ensures ValidGroups(HexParts(gs)) && Groups(HexParts(gs)) == gs
  {
    forall i | 0 <= i < |gs|
      ensures GroupValue(HexParts(gs)[i]) == Some(gs[i])
    {
      ParseIntDigits(Numeral(gs[i], 16), 16);
    }
  }

  /** A side of `::` written from its groups splits on ':' into its parts, and holds no `::` and no '/'. */
  lemma SideSplit(gs: seq<nat>)
    ensures Split(GroupsText(gs), ":") == SideParts(gs)
    ensures var s := GroupsText(gs);
      NoDoubleColon(s) && (s != "" ==> s[0] != ':' && s[|s| - 1] != ':') && '/' !in s
  {
    HexPartsPlain(gs);
    JoinColonShape(HexParts(gs));
    JoinExcludes(HexParts(gs), ":", '/');
    if gs != [] {
      SplitJoin(HexParts(gs), ':');
    }
  }

  /** A `::` between two sides with no `::` of their own, the left one not ending in ':', splits the text in two. */
  lemma DoubleColonSplit(l: string, r: string)
    requires NoDoubleColon(l) && (l != "" ==> l[|l| - 1] != ':') && NoDoubleColon(r)
    ensures Split(l + "::" + r, "::") == [l, r]
  {
    var s := l + "::" + r;
    forall k | 0 <= k < |l|
      ensures !MatchAt(s, "::", k, 0)
    {
      MatchDoubleColon(s, k);
      if k < |l| - 1 {
        assert s[k] == l[k] && s[k + 1] == l[k + 1];
      } else {
        assert s[k] == l[|l| - 1];
      }
    }
    SplitFirst(l, "::", r);
    forall k | 0 <= k < |r|
      ensures !MatchAt(r, "::", k, 0)
    {
      MatchDoubleColon(r, k);
    }
    SplitNoMatch(r, "::");
  }

  /** Eight groups written out in full parse to the number they spell. */
  lemma FullGroupsValue(gs: seq<nat>)
    requires |gs| == 8 && forall i :: 0 <= i < 8 ==> gs[i] <= 0xffff
    ensures AddressValue(GroupsText(gs)).Ok?
    ensures AddressValue(GroupsText(gs)).value == FromDigits(gs, 0x1_0000)
  {
    var s := GroupsText(gs);
    SideSplit(gs);
    HexPartsRead(gs);
    forall k | 0 <= k < |s|
      ensures !MatchAt(s, "::", k, 0)
    {
      MatchDoubleColon(s, k);
    }
    SplitNoMatch(s, "::");
  }

  /** The number of parts a side of `::` splits into. */
  function SideCount(gs: seq<nat>): nat
  {
    if gs == [] then 1 else |gs|
  }

  function ZeroGroups(n: nat): seq<nat>
  {
    seq(n, _ => 0)
  }

  lemma GroupsAppend(a: seq<string>, b: seq<string>)
    requires ValidGroups(a) && ValidGroups(b)
    ensures ValidGroups(a + b) && Groups(a + b) == Groups(a) + Groups(b)
  {
    var c := a + b;
    forall i | 0 <= i < |c|
      ensures GroupValue(c[i]).Some?
    {
      if i < |a| {
        assert c[i] == a[i];
      } else {
        assert c[i] == b[i - |a|];
      }
    }
    var x, y := Groups(c), Groups(a) + Groups(b);
    forall i | 0 <= i < |c|
      ensures x[i] == y[i]
    {
      if i < |a| {
        assert c[i] == a[i];
      } else {
        assert c[i] == b[i - |a|];
      }
    }
    assert x == y;
  }

  lemma SideGroupsRead(gs: seq<nat>)
    requires forall i :: 0 <= i < |gs| ==> gs[i] <= 0xffff
    ensures ValidGroups(SideParts(gs)) && Groups(SideParts(gs)) == SideGroups(gs)
  {
    HexPartsRead(gs);
    if gs == [] {
      ParseIntDigits("0", 16);
      assert GroupValue(SideParts(gs)[0]) == Some(0);
    }
  }

  lemma SideColonFree(gs: seq<nat>)
    ensures forall i :: 0 <= i < |SideParts(gs)| ==> ':' !in SideParts(gs)[i]
  {
    HexPartsPlain(gs);
  }

  lemma ZeroPartsRead(k: nat)
    ensures ValidGroups(ZeroParts(k)) && Groups(ZeroParts(k)) == ZeroGroups(k)
  {
    ParseIntDigits("0", 16);
    assert GroupValue("0") == Some(0);
  }

  lemma ZeroFill(left: seq<nat>, right: seq<nat>, k: nat)
    requires SideCount(left) + k + SideCount(right) == 8
    ensures SideGroups(left) + ZeroGroups(k) + SideGroups(right) == left + ZeroGroups(8 - |left| - |right|) + right
  {
    var x, y := SideGroups(left) + ZeroGroups(k) + SideGroups(right), left + ZeroGroups(8 - |left| - |right|) + right;
    assert |x| == |y|;
    forall i | 0 <= i < |x|
      ensures x[i] == y[i]
    {
    }
  }

  lemma ColonFreeAppend(a: seq<string>, b: seq<string>)
    requires forall i :: 0 <= i < |a| ==> ':' !in a[i]
    requires forall i :: 0 <= i < |b| ==> ':' !in b[i]
    ensures forall i :: 0 <= i < |a + b| ==> ':' !in (a + b)[i]
  {
    forall i | 0 <= i < |a + b|
      ensures ':' !in (a + b)[i]
    {
      if i < |a| {
        assert (a + b)[i] == a[i];
      } else {
        assert (a + b)[i] == b[i - |a|];
      }
    }
  }

  /** The expanded parts of a compressed address read as its groups with zeros filled in. */
  lemma ExpandedParts(left: seq<nat>, right: seq<nat>, k: nat)
    requires (forall i :: 0 <= i < |left| ==> left[i] <= 0xffff)
    requires (forall i :: 0 <= i < |right| ==> right[i] <= 0xffff)
    requires SideCount(left) + k + SideCount(right) == 8
    ensures var parts := SideParts(left) + ZeroParts(k) + SideParts(right);
      && Split(Join(parts, ":"), ":") == parts
      && ValidGroups(parts)
      && Groups(parts) == left + ZeroGroups(8 - |left| - |right|) + right
  {
    ExpandedSplit(left, right, k);
    ExpandedValues(left, right, k);
  }

  lemma ExpandedSplit(left: seq<nat>, right: seq<nat>, k: nat)
    ensures var parts := SideParts(left) + ZeroParts(k) + SideParts(right);
      Split(Join(parts, ":"), ":") == parts
  {
    var sl, zs, sr := SideParts(left), ZeroParts(k), SideParts(right);
    SideColonFree(left);
    SideColonFree(right);
    assert forall i :: 0 <= i < |zs| ==> ':' !in zs[i];
    ColonFreeAppend(sl, zs);
    ColonFreeAppend(sl + zs, sr);
    SplitJoin(sl + zs + sr, ':');
  }

  lemma ExpandedValues(left: seq<nat>, right: seq<nat>, k: nat)
    requires (forall i :: 0 <= i < |left| ==> left[i] <= 0xffff)
    requires (forall i :: 0 <= i < |right| ==> right[i] <= 0xffff)
    requires SideCount(left) + k + SideCount(right) == 8
    ensures var parts := SideParts(left) + ZeroParts(k) + SideParts(right);
      && ValidGroups(parts)
      && Groups(parts) == left + ZeroGroups(8 - |left| - |right|) + right
  {
    var sl, zs, sr := SideParts(left), ZeroParts(k), SideParts(right);
    SideGroupsRead(left);
    SideGroupsRead(right);
    ZeroPartsRead(k);
    GroupsAppend(sl, zs);
    GroupsAppend(sl + zs, sr);
    ZeroFill(left, right, k);
  }

  /**
   * An address written with one `::` parses to the number of its groups with
   * the missing ones filled in as zero, provided the two sides split into
   * fewer than eight parts (an empty side counts as one part).
   */
  lemma CompressedValue(left: seq<nat>, right: seq<nat>)
    requires (forall i :: 0 <= i < |left| ==> left[i] <= 0xffff)
    requires (forall i :: 0 <= i < |right| ==> right[i] <= 0xffff)
    requires SideCount(left) + SideCount(right) < 8
    ensures AddressValue(CompressedText(left, right)).Ok?
    ensures AddressValue(CompressedText(left, right)).value
      == FromDigits(left + ZeroGroups(8 - |left| - |right|) + right, 0x1_0000)
  {
    var text, l, r := CompressedText(left, right), GroupsText(left), GroupsText(right);
    SideSplit(left);
    SideSplit(right);
    DoubleColonSplit(l, r);
    var k := 8 - SideCount(left) - SideCount(right);
    var sl, sr := SideParts(left), SideParts(right);
    ExpandedParts(left, right, k);
    var parts := sl + ZeroParts(k) + sr;
    assert |sl| == SideCount(left) && |sr| == SideCount(right);
    ExpandTwoSides(text, l, r, sl, sr, k);
    PartsValue(text, Join(parts, ":"), parts);
  }

  lemma ExpandTwoSides(address: string, l: string, r: string, sl: seq<string>, sr: seq<string>, k: nat)
    requires Split(address, "::") == [l, r] && Split(l, ":") == sl && Split(r, ":") == sr
    requires |sl| + k + |sr| == 8 && k > 0
    ensures ExpandAddress(address) == Ok(Join(sl + ZeroParts(k) + sr, ":"))
  {
  }

  lemma PartsValue(address: string, full: string, parts: seq<string>)
    requires ExpandAddress(address) == Ok(full)
    requires Split(full, ":") == parts && |parts| == 8 && ValidGroups(parts)
    ensures AddressValue(address) == Ok(FromDigits(Groups(parts), 0x1_0000))
  {
  }

  /**
   * A `::` that stands for a single zero group at either end is refused:
   * the empty side still counts as a part, so seven groups beside it leave
   * no room. (Section 2.2 of RFC 4291 allows this form.)
   */
  lemma CompressedOneGroupRefused(gs: seq<nat>)
    requires |gs| == 7
    ensures AddressValue(CompressedText(gs, [])) == Err(InvalidAddress(CompressedText(gs, [])))
    ensures AddressValue(CompressedText([], gs)) == Err(InvalidAddress(CompressedText([], gs)))
  {
    SideSplit(gs);
    SideSplit([]);
    DoubleColonSplit(GroupsText(gs), GroupsText([]));
    DoubleColonSplit(GroupsText([]), GroupsText(gs));
  }

  // Prefixes.

  /**
   * `new Ipv6Prefix(prefix)`: the network address is the parsed address with
   * its `128 - length` low bits cleared. The length part is taken as a plain
   * decimal number 0..128.
   */
  datatype Ipv6Prefix = Ipv6Prefix(address: nat, length: nat)

  predicate IsPrefixText(prefix: string)
  {
    |Split(prefix, "/")| >= 2 && IsDecimalAtMost(Split(prefix, "/")[1], 128)
  }

  function NewIpv6Prefix(prefix: string): (r: Result<Ipv6Prefix>)
    requires IsPrefixText(prefix)
    ensures r.Ok? ==> r.value.length <= 128
  {
    var parts := Split(prefix, "/");
    var length := DigitsValue(parts[1], 10);
    match AddressValue(parts[0])
    case Err(e) => Err(e)
    case Ok(a) => Ok(Ipv6Prefix(ClearLow(a, 128 - length), length))
  }

  /** `this.address & this.mask` equals `address & this.mask`. */
  function IncludesAddress(p: Ipv6Prefix, address: string): Result<bool>
    requires p.length <= 128
  {
    match AddressValue(address)
    case Err(e) => Err(e)
    case Ok(b) => Ok(ClearLow(p.address, 128 - p.length) == ClearLow(b, 128 - p.length))
  }

  /** The network address of a prefix has its host bits clear, lies at most 2^(128-len) - 1 below the parsed address and keeps its top `len` bits. */
  lemma NetworkAddress(prefix: string)
    requires IsPrefixText(prefix) && NewIpv6Prefix(prefix).Ok?
    ensures var p := NewIpv6Prefix(prefix).value;
      var a := AddressValue(Split(prefix, "/")[0]).value;
      && ClearLow(p.address, 128 - p.length) == p.address
      && p.address <= a < p.address + Pow2(128 - p.length)
      && Shr(p.address, 128 - p.length) == Shr(a, 128 - p.length)
      && p.address < 0x1_0000_0000_0000_0000_0000_0000_0000_0000
  {
    var parts := Split(prefix, "/");
    var a := AddressValue(parts[0]).value;
    var p := NewIpv6Prefix(prefix).value;
    assert p.address == ClearLow(a, 128 - p.length);
    ClearLowFacts(a, 128 - p.length);
    AddressValueBound(parts[0]);
  }

  /** `includesAddress` holds exactly when the address agrees with the network on the top `length` bits. */
  lemma IncludesTopBits(p: Ipv6Prefix, address: string)
    requires p.length <= 128 && AddressValue(address).Ok?
    ensures IncludesAddress(p, address)
      == Ok(Shr(p.address, 128 - p.length) == Shr(AddressValue(address).value, 128 - p.length))
  {
    ClearLowAgree(p.address, AddressValue(address).value, 128 - p.length);
  }

  /** A prefix contains the address it was built from, in particular its own network address. */
  lemma IncludesOwnAddress(prefix: string)
    requires IsPrefixText(prefix) && NewIpv6Prefix(prefix).Ok?
    ensures IncludesAddress(NewIpv6Prefix(prefix).value, Split(prefix, "/")[0]) == Ok(true)
  {
    var p := NewIpv6Prefix(prefix).value;
    var a := AddressValue(Split(prefix, "/")[0]).value;
    ClearLowIdempotent(a, 128 - p.length);
  }

  /** `l1:...::...:rn/len`, the groups in hexadecimal and the length in decimal. */
  function PrefixText(left: seq<nat>, right: seq<nat>, len: nat): string
  {
    CompressedText(left, right) + "/" + Numeral(len, 10)
  }

  /** `new Ipv6Prefix(text)` succeeds and yields `p`. */
  predicate Constructs(text: string, p: Ipv6Prefix)
  {
    IsPrefixText(text) && NewIpv6Prefix(text) == Ok(p)
  }

  /** A prefix text whose compressed address parses to a network with its host bits clear constructs that network unchanged. */
  lemma CompressedPrefix(left: seq<nat>, right: seq<nat>, len: nat, network: nat)
    requires len <= 128
    requires AddressValue(CompressedText(left, right)).Ok? && AddressValue(CompressedText(left, right)).value == network
    requires ClearLow(network, 128 - len) == network
    ensures Constructs(PrefixText(left, right, len), Ipv6Prefix(network, len))
  {
    PrefixSplit(left, right, len);
    PrefixOf(PrefixText(left, right, len), CompressedText(left, right), Numeral(len, 10), network);
  }

  lemma PrefixOf(text: string, address: string, length: string, network: nat)
    requires Split(text, "/") == [address, length] && IsDecimalAtMost(length, 128)
    requires AddressValue(address).Ok? && AddressValue(address).value == network
    requires ClearLow(network, 128 - DigitsValue(length, 10)) == network
    ensures Constructs(text, Ipv6Prefix(network, DigitsValue(length, 10)))
  {
  }

  lemma PrefixSplit(left: seq<nat>, right: seq<nat>, len: nat)
    ensures Split(PrefixText(left, right, len), "/") == [CompressedText(left, right), Numeral(len, 10)]
    ensures IsDecimalAtMost(Numeral(len, 10), 128) <==> len <= 128
  {
    var address := CompressedText(left, right);
    var length := Numeral(len, 10);
    SideSplit(left);
    SideSplit(right);
    assert '/' !in address;
    AllDigitsExcludes(length, 10, '/');
    SplitCons(address, '/', length);
    SplitNoSep(length, '/');
  }
}
