/** Classification of reserved AS numbers (src/asn.ts). */
module Asn {

  /**
   * Whether an AS number is reserved: 0, AS_TRANS 23456 (RFC 6793), the block
   * 64496..131071 (documentation, private use and reserved 16/32-bit numbers)
   * and the 32-bit private-use range from 4200000000 (RFC 6996).
   */
  predicate IsSpecialAsn(asn: int)
  {
    if asn == 0 then true
    else if asn == 23456 then true
    else if 64496 <= asn <= 131071 then true
    else if asn >= 4200000000 then true
    else false
  }

  /** The usable AS numbers are exactly the three gaps between the reserved ranges. */
  lemma UsableAsnRanges(asn: nat)
    ensures !IsSpecialAsn(asn) <==>
      (1 <= asn <= 23455 || 23457 <= asn <= 64495 || 131072 <= asn <= 4199999999)
  {
  }

  lemma SpecialAsnBoundaries()
    ensures IsSpecialAsn(0) && IsSpecialAsn(23456)
    ensures !IsSpecialAsn(64495) && IsSpecialAsn(64496)
    ensures IsSpecialAsn(131071) && !IsSpecialAsn(131072)
    ensures !IsSpecialAsn(4199999999) && IsSpecialAsn(4200000000)
  {
  }

  lemma ReservedBlocks(asn: int)
    ensures 64496 <= asn <= 131071 ==> IsSpecialAsn(asn)
    ensures asn >= 4200000000 ==> IsSpecialAsn(asn)
  {
  }
}
