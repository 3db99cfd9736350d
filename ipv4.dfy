/** IPv4 dotted-quad parsing, prefixes and the special-purpose list (src/ipv4.ts). */
module Ipv4 {
  import opened Wrappers
  import opened JsText
  import opened Bits

  function InvalidAddress(address: string): string
  {
    "Invalid IPv4 address: " + address
  }

  /** One dotted part: `Number.parseInt(part, 10)`, refused when NaN or outside 0..255. */
  function OctetValue(part: string): (r: Option<nat>)
    ensures r.Some? ==> r.value <= 255
  {
    match ParseInt(part, 10)
    case None => None
    case Some(v) => if 0 > v || 255 < v then None else Some(v)
  }

  predicate ValidOctets(parts: seq<string>)
  {
    forall i :: 0 <= i < |parts| ==> OctetValue(parts[i]).Some?
  }

  function Octets(parts: seq<string>): (os: seq<nat>)
    requires ValidOctets(parts)
    ensures |os| == |parts|
  {
    seq(|parts|, i requires 0 <= i < |parts| => OctetValue(parts[i]).value)
  }

  lemma OctetsSnoc(parts: seq<string>, i: nat)
    requires i < |parts| && ValidOctets(parts[..i]) && OctetValue(parts[i]).Some?
    ensures ValidOctets(parts[..i + 1])
    ensures Octets(parts[..i + 1]) == Octets(parts[..i]) + [OctetValue(parts[i]).value]
  {
    assert parts[..i + 1] == parts[..i] + [parts[i]];
  }

  /**
   * What `addressToBigInt` computes: an error unless the address has exactly
   * four dot-separated parts each reading as 0..255, otherwise the 32-bit
   * big-endian number of those octets.
   */
  function AddressValue(address: string): Result<nat>
  {
    var parts := Split(address, ".");
    if |parts| != 4 || !ValidOctets(parts) then Err(InvalidAddress(address))
    else Ok(FromDigits(Octets(parts), 256))
  }

  /** `addressToBigInt`: shift the result left by 8 bits and OR in each octet. */
  method AddressToBigInt(address: string) returns (r: Result<nat>)
    ensures r == AddressValue(address)
  {
    var parts := Split(address, ".");
    if 4 != |parts| {
      return Err(InvalidAddress(address));
    }
    var result: nat := 0;
    for i := 0 to |parts|
      invariant ValidOctets(parts[..i])
      invariant result == FromDigits(Octets(parts[..i]), 256)
    {
      var value := ParseInt(parts[i], 10);
      if value.None? || 0 > value.value || 255 < value.value {
        assert !ValidOctets(parts) by {
          assert OctetValue(parts[i]).None?;
        }
        return Err(InvalidAddress(address));
      }
      OctetsSnoc(parts, i);
      FromDigitsSnoc(Octets(parts[..i]), value.value, 256);
      // the low 8 bits of `result << 8n` are zero and `value < 256`, so OR is addition
      result := result * 256 + value.value;
    }
    assert parts[..4] == parts;
    return Ok(result);
  }

  /** A successful parse is the big-endian number of its four octets, below 2^32. */
  lemma AddressValueOctets(address: string)
    requires AddressValue(address).Ok?
    ensures var os := Octets(Split(address, "."));
      && |os| == 4 && (forall i :: 0 <= i < 4 ==> os[i] <= 255)
      && AddressValue(address).value == ((os[0] * 256 + os[1]) * 256 + os[2]) * 256 + os[3]
      && AddressValue(address).value < 0x1_0000_0000
  {
    var os := Octets(Split(address, "."));
    assert os == os[..3] + [os[3]];
    assert os[..3] == os[..2] + [os[2]];
    assert os[..2] == os[..1] + [os[1]];
    assert os[..1] == [] + [os[0]];
    FromDigitsSnoc(os[..3], os[3], 256);
    FromDigitsSnoc(os[..2], os[2], 256);
    FromDigitsSnoc(os[..1], os[1], 256);
    FromDigitsSnoc([], os[0], 256);
  }

  lemma AddressValueBound(address: string)
    requires AddressValue(address).Ok?
    ensures AddressValue(address).value < 0x1_0000_0000
  {
    AddressValueOctets(address);
  }

  /** The address is refused unless it has exactly four dot-separated parts. */
  lemma AddressPartCount(address: string)
    requires |Split(address, ".")| != 4
    ensures AddressValue(address) == Err(InvalidAddress(address))
  {
  }

  /** The address is refused when any part is NaN or outside 0..255. */
  lemma AddressBadOctet(address: string, i: nat)
    requires i < |Split(address, ".")|
    requires OctetValue(Split(address, ".")[i]).None?
    ensures AddressValue(address).Err?
  {
  }

  /**
   * `new Ipv4Prefix(prefix)`: the network address is the parsed address with
   * its `32 - length` low bits cleared. The length part is taken as a plain
   * decimal number 0..32.
   */
  datatype Ipv4Prefix = Ipv4Prefix(address: nat, length: nat)

  predicate IsPrefixText(prefix: string)
  {
    |Split(prefix, "/")| >= 2 && IsDecimalAtMost(Split(prefix, "/")[1], 32)
  }

  function NewIpv4Prefix(prefix: string): (r: Result<Ipv4Prefix>)
    requires IsPrefixText(prefix)
    ensures r.Ok? ==> r.value.length <= 32
  {
    var parts := Split(prefix, "/");
    var length := DigitsValue(parts[1], 10);
    match AddressValue(parts[0])
    case Err(e) => Err(e)
    case Ok(a) => Ok(Ipv4Prefix(ClearLow(a, 32 - length), length))
  }

  /** `this.address & this.mask` equals `address & this.mask`. */
  function IncludesAddress(p: Ipv4Prefix, address: string): Result<bool>
    requires p.length <= 32
  {
    match AddressValue(address)
    case Err(e) => Err(e)
    case Ok(b) => Ok(ClearLow(p.address, 32 - p.length) == ClearLow(b, 32 - p.length))
  }

  /** The network address of a prefix has its host bits clear, lies at most 2^(32-len) - 1 below the parsed address and keeps its top `len` bits. */
  lemma NetworkAddress(prefix: string)
    requires IsPrefixText(prefix) && NewIpv4Prefix(prefix).Ok?
    ensures var p := NewIpv4Prefix(prefix).value;
      var a := AddressValue(Split(prefix, "/")[0]).value;
      && ClearLow(p.address, 32 - p.length) == p.address
      && p.address <= a < p.address + Pow2(32 - p.length)
      && Shr(p.address, 32 - p.length) == Shr(a, 32 - p.length)
      && p.address < 0x1_0000_0000
  {
    var parts := Split(prefix, "/");
    var length := DigitsValue(parts[1], 10);
    var a := AddressValue(parts[0]).value;
    var p := NewIpv4Prefix(prefix).value;
    assert p == Ipv4Prefix(ClearLow(a, 32 - length), length);
    ClearLowIdempotent(a, 32 - length);
    ClearLowBounds(a, 32 - length);
    ClearLowShr(a, 32 - length);
    AddressValueBound(parts[0]);
  }

  /** `includesAddress` holds exactly when the address agrees with the network on the top `length` bits. */
  lemma IncludesTopBits(p: Ipv4Prefix, address: string)
    requires p.length <= 32 && AddressValue(address).Ok?
    ensures IncludesAddress(p, address)
      == Ok(Shr(p.address, 32 - p.length) == Shr(AddressValue(address).value, 32 - p.length))
  {
    ClearLowAgree(p.address, AddressValue(address).value, 32 - p.length);
  }

  /** A prefix contains the address it was built from, in particular its own network address. */
  lemma IncludesOwnAddress(prefix: string)
    requires IsPrefixText(prefix) && NewIpv4Prefix(prefix).Ok?
    ensures IncludesAddress(NewIpv4Prefix(prefix).value, Split(prefix, "/")[0]) == Ok(true)
  {
    var p := NewIpv4Prefix(prefix).value;
    var a := AddressValue(Split(prefix, "/")[0]).value;
    ClearLowIdempotent(a, 32 - p.length);
  }

  /** `a.b.c.d`, each number in plain decimal. */
  function QuadText(a: nat, b: nat, c: nat, d: nat): string
  {
    Numeral(a, 10) + "." + Numeral(b, 10) + "." + Numeral(c, 10) + "." + Numeral(d, 10)
  }

  /** `a.b.c.d/len`, each number in plain decimal. */
  function DottedText(a: nat, b: nat, c: nat, d: nat, len: nat): string
  {
    QuadText(a, b, c, d) + "/" + Numeral(len, 10)
  }

  /** `new Ipv4Prefix(text)` succeeds and yields `p`. */
  predicate Constructs(text: string, p: Ipv4Prefix)
  {
    IsPrefixText(text) && NewIpv4Prefix(text) == Ok(p)
  }

  /** A decimal numeral holds no separator. */
  lemma NumeralNoSeparator(n: nat)
    ensures '.' !in Numeral(n, 10) && '/' !in Numeral(n, 10)
  {
    AllDigitsExcludes(Numeral(n, 10), 10, '.');
    AllDigitsExcludes(Numeral(n, 10), 10, '/');
  }

  /** The decimal numeral of 0..255 reads back as that octet. */
  lemma NumeralOctet(n: nat)
    requires n <= 255
    ensures OctetValue(Numeral(n, 10)) == Some(n)
  {
    ParseIntDigits(Numeral(n, 10), 10);
  }

  /** Four dot-free parts joined by dots split back into those parts. */
  lemma DottedQuad(a: string, b: string, c: string, d: string)
    requires '.' !in a && '.' !in b && '.' !in c && '.' !in d
    ensures Split(a + "." + b + "." + c + "." + d, ".") == [a, b, c, d]
  {
    var parts := [a, b, c, d];
    assert Join(parts[3..], ".") == d;
    assert Join(parts[2..], ".") == c + "." + d;
    assert Join(parts[1..], ".") == b + "." + c + "." + d;
    assert Join(parts, ".") == a + "." + b + "." + c + "." + d;
    SplitJoin(parts, '.');
  }

  lemma QuadSplit(a: nat, b: nat, c: nat, d: nat)
    ensures Split(QuadText(a, b, c, d), ".") == [Numeral(a, 10), Numeral(b, 10), Numeral(c, 10), Numeral(d, 10)]
    ensures '/' !in QuadText(a, b, c, d)
  {
    var sa, sb, sc, sd := Numeral(a, 10), Numeral(b, 10), Numeral(c, 10), Numeral(d, 10);
    NumeralNoSeparator(a);
    NumeralNoSeparator(b);
    NumeralNoSeparator(c);
    NumeralNoSeparator(d);
    DottedQuad(sa, sb, sc, sd);
  }

  lemma FourOctets(sa: string, sb: string, sc: string, sd: string, a: nat, b: nat, c: nat, d: nat)
    requires OctetValue(sa) == Some(a) && OctetValue(sb) == Some(b)
    requires OctetValue(sc) == Some(c) && OctetValue(sd) == Some(d)
    ensures ValidOctets([sa, sb, sc, sd]) && Octets([sa, sb, sc, sd]) == [a, b, c, d]
  {
    var parts := [sa, sb, sc, sd];
    assert ValidOctets(parts) by {
      forall i | 0 <= i < 4
        ensures OctetValue(parts[i]).Some?
      {
        if i == 0 {} else if i == 1 {} else if i == 2 {} else {}
      }
    }
  }

  lemma QuadOctets(a: nat, b: nat, c: nat, d: nat)
    requires a <= 255 && b <= 255 && c <= 255 && d <= 255
    ensures ValidOctets([Numeral(a, 10), Numeral(b, 10), Numeral(c, 10), Numeral(d, 10)])
    ensures Octets([Numeral(a, 10), Numeral(b, 10), Numeral(c, 10), Numeral(d, 10)]) == [a, b, c, d]
  {
    NumeralOctet(a);
    NumeralOctet(b);
    NumeralOctet(c);
    NumeralOctet(d);
    FourOctets(Numeral(a, 10), Numeral(b, 10), Numeral(c, 10), Numeral(d, 10), a, b, c, d);
  }

  /** The address of a dotted quad written in plain decimal is the big-endian number of its octets. */
  lemma QuadValue(a: nat, b: nat, c: nat, d: nat)
    requires a <= 255 && b <= 255 && c <= 255 && d <= 255
    ensures AddressValue(QuadText(a, b, c, d)).Ok?
    ensures AddressValue(QuadText(a, b, c, d)).value == FromDigits([a, b, c, d], 256)
  {
    QuadSplit(a, b, c, d);
    QuadOctets(a, b, c, d);
    OctetsValue(QuadText(a, b, c, d), [Numeral(a, 10), Numeral(b, 10), Numeral(c, 10), Numeral(d, 10)]);
  }

  lemma OctetsValue(address: string, parts: seq<string>)
    requires Split(address, ".") == parts && |parts| == 4 && ValidOctets(parts)
    ensures AddressValue(address) == Ok(FromDigits(Octets(parts), 256))
  {
  }

  /** A text `a.b.c.d/len` whose address is `q` blocks of `2^(32 - len)` constructs that network unchanged. */
  lemma DottedPrefix(text: string, a: nat, b: nat, c: nat, d: nat, len: nat, network: nat, q: nat)
    requires text == DottedText(a, b, c, d, len)
    requires a <= 255 && b <= 255 && c <= 255 && d <= 255 && len <= 32
    requires FromDigits([a, b, c, d], 256) == network
    requires q * Pow2(32 - len) == network
    ensures Constructs(text, Ipv4Prefix(network, len))
  {
    var quad := QuadText(a, b, c, d);
    var length := Numeral(len, 10);
    QuadSplit(a, b, c, d);
    QuadValue(a, b, c, d);
    AllDigitsExcludes(length, 10, '/');
    SplitCons(quad, '/', length);
    SplitNoSep(length, '/');
    assert Split(text, "/") == [quad, length];
    ClearLowMultiple(q, 32 - len);
  }
}
