/** Prefix matching of IP addresses (base/ip_address.cc), on the bits of the address. */
module IpPrefixes {

  type Address = seq<bv8>

  const IPV4_MAPPED_PREFIX: Address := [0, 0, 0, 0, 0, 0, 0, 0, 0, 0, 0xFF, 0xFF]

  predicate IsIPv4(a: Address) {
    |a| == 4
  }

  predicate IsIPv6(a: Address) {
    |a| == 16
  }

  predicate IsValid(a: Address) {
    IsIPv4(a) || IsIPv6(a)
  }

  // ---- bits ----

  /** b << n, kept to eight bits. */
  function Shl(b: bv8, n: nat): bv8 {
    if n == 0 then b else Shl(b, n - 1) << 1
  }

  predicate TopBit(b: bv8) {
    b & 0x80 != 0
  }

  /** Bit j of a byte, the most significant being bit 0. */
  predicate Bit(b: bv8, j: nat) {
    TopBit(Shl(b, j))
  }

  /** Bit n of an address in network order. */
  predicate AddressBit(a: Address, n: nat)
    requires n < 8 * |a|
  {
    Bit(a[n / 8], n % 8)
  }

  ghost predicate SameBits(a: Address, b: Address, from: nat, n: nat)
    requires n <= 8 * |a| && n <= 8 * |b|
  {
    forall k :: from <= k < n ==> AddressBit(a, k) == AddressBit(b, k)
  }

  /** The first n bits of the two addresses agree. */
  ghost predicate SamePrefix(a: Address, b: Address, n: nat)
    requires n <= 8 * |a| && n <= 8 * |b|
  {
    SameBits(a, b, 0, n)
  }

  /** The first r bits of two bytes agree, spelled out. */
  predicate FirstBits(x: bv8, y: bv8, r: nat) {
    (r > 0 ==> Bit(x, 0) == Bit(y, 0)) && (r > 1 ==> Bit(x, 1) == Bit(y, 1)) &&
    (r > 2 ==> Bit(x, 2) == Bit(y, 2)) && (r > 3 ==> Bit(x, 3) == Bit(y, 3)) &&
    (r > 4 ==> Bit(x, 4) == Bit(y, 4)) && (r > 5 ==> Bit(x, 5) == Bit(y, 5)) &&
    (r > 6 ==> Bit(x, 6) == Bit(y, 6)) && (r > 7 ==> Bit(x, 7) == Bit(y, 7))
  }

  lemma FirstBitsIff(x: bv8, y: bv8, r: nat)
    requires r <= 8
    ensures FirstBits(x, y, r) <==> forall j :: 0 <= j < r ==> Bit(x, j) == Bit(y, j)
  {
    if FirstBits(x, y, r) {
      forall j | 0 <= j < r ensures Bit(x, j) == Bit(y, j) {
        assert j == 0 || j == 1 || j == 2 || j == 3 || j == 4 || j == 5 || j == 6 || j == 7;
      }
    }
  }

  /** The eight bits of a byte, shifted out one after the other. */
  lemma Shifts(b: bv8)
    ensures Shl(b, 0) == b && Shl(b, 1) == b << 1 && Shl(b, 2) == b << 2 && Shl(b, 3) == b << 3
    ensures Shl(b, 4) == b << 4 && Shl(b, 5) == b << 5 && Shl(b, 6) == b << 6 && Shl(b, 7) == b << 7
  {
  }

  lemma EqualIffBits(x: bv8, y: bv8)
    ensures x == y <==> FirstBits(x, y, 8)
  {
    Shifts(x);
    Shifts(y);
  }

  function Masked(b: bv8, mask: bv8): bv8 {
    b & mask
  }

  method MaskedEqual(x: bv8, y: bv8, r: nat) returns (equal: bool)
    requires 0 < r < 8
    ensures equal <==> FirstBits(x, y, r)
  {
    var mask := Shl(0xFF, 8 - r);
    MaskComparesBits(x, y, r, mask);
    equal := Masked(x, mask) == Masked(y, mask);
  }

  /** Masking with the r high bits compares exactly the first r bits. */
  lemma MaskComparesBits(x: bv8, y: bv8, r: nat, mask: bv8)
    requires 0 < r < 8 && mask == Shl(0xFF, 8 - r)
    ensures Masked(x, mask) == Masked(y, mask) <==> FirstBits(x, y, r)
  {
    hide FirstBits, Shl, Masked;
    if r == 1 {
      Mask1(x, y);
    } else if r == 2 {
      Mask2(x, y);
    } else if r == 3 {
      Mask3(x, y);
    } else if r == 4 {
      Mask4(x, y);
    } else if r == 5 {
      Mask5(x, y);
    } else if r == 6 {
      Mask6(x, y);
    } else {
      Mask7(x, y);
    }
  }

  lemma Mask1(x: bv8, y: bv8)
    ensures Masked(x, Shl(0xFF, 7)) == Masked(y, Shl(0xFF, 7)) <==> FirstBits(x, y, 1)
  {
    Shifts(x);
    Shifts(y);
    Shifts(0xFF);
  }

  lemma Mask2(x: bv8, y: bv8)
    ensures Masked(x, Shl(0xFF, 6)) == Masked(y, Shl(0xFF, 6)) <==> FirstBits(x, y, 2)
  {
    Shifts(x);
    Shifts(y);
    Shifts(0xFF);
  }

  lemma Mask3(x: bv8, y: bv8)
    ensures Masked(x, Shl(0xFF, 5)) == Masked(y, Shl(0xFF, 5)) <==> FirstBits(x, y, 3)
  {
    Shifts(x);
    Shifts(y);
    Shifts(0xFF);
  }

  lemma Mask4(x: bv8, y: bv8)
    ensures Masked(x, Shl(0xFF, 4)) == Masked(y, Shl(0xFF, 4)) <==> FirstBits(x, y, 4)
  {
    Shifts(x);
    Shifts(y);
    Shifts(0xFF);
  }

  lemma Mask5(x: bv8, y: bv8)
    ensures Masked(x, Shl(0xFF, 3)) == Masked(y, Shl(0xFF, 3)) <==> FirstBits(x, y, 5)
  {
    Shifts(x);
    Shifts(y);
    Shifts(0xFF);
  }

  lemma Mask6(x: bv8, y: bv8)
    ensures Masked(x, Shl(0xFF, 2)) == Masked(y, Shl(0xFF, 2)) <==> FirstBits(x, y, 6)
  {
    Shifts(x);
    Shifts(y);
    Shifts(0xFF);
  }

  lemma Mask7(x: bv8, y: bv8)
    ensures Masked(x, Shl(0xFF, 1)) == Masked(y, Shl(0xFF, 1)) <==> FirstBits(x, y, 7)
  {
    Shifts(x);
    Shifts(y);
    Shifts(0xFF);
  }

  /** The bits of x ^ y are those in which the bytes differ. */
  lemma XorShowsDifference(d: bv8, x: bv8, y: bv8, j: nat)
    requires d == x ^ y && j < 8
    ensures Bit(d, j) <==> Bit(x, j) != Bit(y, j)
  {
    if j < 4 {
      XorHighBits(d, x, y);
    } else {
      XorLowBits(d, x, y);
    }
  }

  lemma XorHighBits(d: bv8, x: bv8, y: bv8)
    requires d == x ^ y
    ensures Bit(d, 0) <==> Bit(x, 0) != Bit(y, 0)
    ensures Bit(d, 1) <==> Bit(x, 1) != Bit(y, 1)
    ensures Bit(d, 2) <==> Bit(x, 2) != Bit(y, 2)
    ensures Bit(d, 3) <==> Bit(x, 3) != Bit(y, 3)
  {
    Shifts(x);
    Shifts(y);
    Shifts(d);
  }

  lemma XorLowBits(d: bv8, x: bv8, y: bv8)
    requires d == x ^ y
    ensures Bit(d, 4) <==> Bit(x, 4) != Bit(y, 4)
    ensures Bit(d, 5) <==> Bit(x, 5) != Bit(y, 5)
    ensures Bit(d, 6) <==> Bit(x, 6) != Bit(y, 6)
    ensures Bit(d, 7) <==> Bit(x, 7) != Bit(y, 7)
  {
    Shifts(x);
    Shifts(y);
    Shifts(d);
  }

  // ---- from bytes to bits of an address ----

  /** Whole bytes first, then the bits of one more byte. */
  lemma PrefixByBytes(a: Address, b: Address, bytes: nat, r: nat)
    requires r < 8 && 8 * bytes + r <= 8 * |a| && 8 * bytes + r <= 8 * |b|
    ensures SamePrefix(a, b, 8 * bytes + r) <==>
      (forall i :: 0 <= i < bytes ==> a[i] == b[i]) && (r > 0 ==> FirstBits(a[bytes], b[bytes], r))
  {
    var n := 8 * bytes + r;
    if SamePrefix(a, b, n) {
      forall i | 0 <= i < bytes ensures a[i] == b[i] {
        ByteFromBits(a, b, i, 8, n);
        EqualIffBits(a[i], b[i]);
      }
      if r > 0 {
        ByteFromBits(a, b, bytes, r, n);
      }
    }
    if (forall i :: 0 <= i < bytes ==> a[i] == b[i]) && (r > 0 ==> FirstBits(a[bytes], b[bytes], r)) {
      forall k | 0 <= k < n ensures AddressBit(a, k) == AddressBit(b, k) {
        if k / 8 == bytes {
          FirstBitsIff(a[bytes], b[bytes], r);
        }
      }
    }
  }

  lemma ByteFromBits(a: Address, b: Address, i: nat, r: nat, n: nat)
    requires 0 < r <= 8 && 8 * i + r <= n && n <= 8 * |a| && n <= 8 * |b| && SamePrefix(a, b, n)
    ensures FirstBits(a[i], b[i], r)
  {
    forall j | 0 <= j < r ensures Bit(a[i], j) == Bit(b[i], j) {
      assert (8 * i + j) / 8 == i && (8 * i + j) % 8 == j;
      assert AddressBit(a, 8 * i + j) == AddressBit(b, 8 * i + j);
    }
    FirstBitsIff(a[i], b[i], r);
  }

  method IPAddressPrefixCheck(ipAddress: Address, ipPrefix: Address, prefixLengthInBits: nat) returns (r: bool)
    requires prefixLengthInBits <= 8 * |ipAddress| && prefixLengthInBits <= 8 * |ipPrefix|
    ensures r <==> SamePrefix(ipAddress, ipPrefix, prefixLengthInBits)
  {
    var bytes, remaining := prefixLengthInBits / 8, prefixLengthInBits % 8;
    PrefixByBytes(ipAddress, ipPrefix, bytes, remaining);
    for i := 0 to bytes
      invariant forall k :: 0 <= k < i ==> ipAddress[k] == ipPrefix[k]
    {
      if ipAddress[i] != ipPrefix[i] {
        return false;
      }
    }
    if remaining != 0 {
      var same := MaskedEqual(ipAddress[bytes], ipPrefix[bytes], remaining);
      if !same {
        return false;
      }
    }
    r := true;
  }

  // ---- common prefix ----

  /** n is the length of the longest common prefix. */
  ghost predicate IsCommonPrefix(a: Address, b: Address, n: nat)
    requires |a| == |b|
  {
    n <= 8 * |a| && SamePrefix(a, b, n) && (n < 8 * |a| ==> AddressBit(a, n) != AddressBit(b, n))
  }

  /** The first bit, at or after bit 0, in which two different bytes differ. */
  method FirstDifference(x: bv8, y: bv8) returns (j: nat)
    requires x != y
    ensures j < 8 && Bit(x, j) != Bit(y, j) && forall k :: 0 <= k < j ==> Bit(x, k) == Bit(y, k)
  {
    ghost var d := x ^ y;
    var diff := x ^ y;
    j := 0;
    while j < 8
      invariant j <= 8 && diff == Shl(d, j) && forall k :: 0 <= k < j ==> Bit(x, k) == Bit(y, k)
    {
      XorShowsDifference(d, x, y, j);
      if diff & 0x80 != 0 {
        return;
      }
      diff := diff << 1;
      j := j + 1;
    }
    FirstBitsIff(x, y, 8);
    EqualIffBits(x, y);
    assert false;
  }

  method CommonPrefixLength(a1: Address, a2: Address) returns (n: nat)
    requires |a1| == |a2|
    ensures IsCommonPrefix(a1, a2, n)
  {
    var i := 0;
    while i < |a1|
      invariant i <= |a1| && forall k :: 0 <= k < i ==> a1[k] == a2[k]
    {
      if a1[i] != a2[i] {
        var j := FirstDifference(a1[i], a2[i]);
        FirstBitsIff(a1[i], a2[i], j);
        PrefixByBytes(a1, a2, i, j);
        assert (8 * i + j) / 8 == i && (8 * i + j) % 8 == j;
        return 8 * i + j;
      }
      i := i + 1;
    }
    PrefixByBytes(a1, a2, i, 0);
    n := 8 * |a1|;
  }

  /** A prefix of n bits matches exactly when the common prefix is at least n bits long. */
  lemma MatchIffCommonPrefix(a: Address, b: Address, common: nat, n: nat)
    requires |a| == |b| && n <= 8 * |a| && IsCommonPrefix(a, b, common)
    ensures SamePrefix(a, b, n) <==> n <= common
  {
  }

  const ALL_ONES: bv8 := 0xFF

  /** MaskPrefixLength: the number of leading one bits. */
  method MaskPrefixLength(mask: Address) returns (n: nat)
    ensures n <= 8 * |mask| && forall k :: 0 <= k < n ==> AddressBit(mask, k)
    ensures n < 8 * |mask| ==> !AddressBit(mask, n)
  {
    var allOnes := seq(|mask|, _ => ALL_ONES);
    n := CommonPrefixLength(mask, allOnes);
    forall k | 0 <= k < 8 * |mask| ensures AddressBit(allOnes, k) {
      OnesAllSet(k % 8);
    }
    assert forall k :: 0 <= k < n ==> AddressBit(mask, k) == AddressBit(allOnes, k);
  }

  lemma OnesAllSet(j: nat)
    requires j < 8
    ensures Bit(ALL_ONES, j)
  {
    Shifts(ALL_ONES);
    assert j == 0 || j == 1 || j == 2 || j == 3 || j == 4 || j == 5 || j == 6 || j == 7;
  }

  // ---- IPv4-mapped addresses (section 2.5.5.2 of RFC 4291) ----

  function ConvertIPv4ToIPv4MappedIPv6(a: Address): (r: Address)
    requires IsIPv4(a)
    ensures IsIPv6(r) && IsIPv4MappedIPv6(r) && ConvertIPv4MappedIPv6ToIPv4(r) == a
  {
    assert (IPV4_MAPPED_PREFIX + a)[12..] == a;
    IPV4_MAPPED_PREFIX + a
  }

  predicate IsIPv4MappedIPv6(a: Address) {
    IsIPv6(a) && IPV4_MAPPED_PREFIX <= a
  }

  function ConvertIPv4MappedIPv6ToIPv4(a: Address): (r: Address)
    requires IsIPv4MappedIPv6(a)
    ensures IsIPv4(r) && IPV4_MAPPED_PREFIX + r == a
  {
    a[|IPV4_MAPPED_PREFIX|..]
  }

  /** Every valid address as an IPv6 address. */
  function Widened(a: Address): Address
    requires IsValid(a)
  {
    if IsIPv4(a) then ConvertIPv4ToIPv4MappedIPv6(a) else a
  }

  /** Mapping both sides shifts the prefix by 96 bits and changes nothing else. */
  lemma MappingKeepsPrefix(a: Address, b: Address, n: nat)
    requires IsIPv4(a) && IsIPv4(b) && n <= 32
    ensures SamePrefix(a, b, n) <==> SamePrefix(Widened(a), Widened(b), 96 + n)
  {
    var a', b' := Widened(a), Widened(b);
    forall k | 0 <= k < 32
      ensures AddressBit(a', 96 + k) == AddressBit(a, k) && AddressBit(b', 96 + k) == AddressBit(b, k)
    {
      assert (96 + k) / 8 == 12 + k / 8 && (96 + k) % 8 == k % 8;
    }
    if SamePrefix(a, b, n) {
      forall k | 0 <= k < 96 + n ensures AddressBit(a', k) == AddressBit(b', k) {
        if k < 96 {
          assert a'[k / 8] == b'[k / 8];
        } else {
          assert AddressBit(a, k - 96) == AddressBit(b, k - 96);
          assert AddressBit(a', 96 + (k - 96)) == AddressBit(b', 96 + (k - 96));
        }
      }
    }
    if SamePrefix(a', b', 96 + n) {
      forall k | 0 <= k < n ensures AddressBit(a, k) == AddressBit(b, k) {
        assert AddressBit(a', 96 + k) == AddressBit(b', 96 + k);
      }
    }
  }

  /** For every mix of families, matching is matching of the widened addresses. */
  method IPAddressMatchesPrefix(ipAddress: Address, ipPrefix: Address, prefixLengthInBits: nat) returns (r: bool)
    requires IsValid(ipAddress) && IsValid(ipPrefix) && prefixLengthInBits <= 8 * |ipPrefix|
    ensures r <==> SamePrefix(Widened(ipAddress), Widened(ipPrefix),
                              if IsIPv4(ipPrefix) then 96 + prefixLengthInBits else prefixLengthInBits)
    decreases if |ipAddress| == |ipPrefix| then 0 else 1
  {
    if |ipAddress| != |ipPrefix| {
      if IsIPv4(ipAddress) {
        r := IPAddressMatchesPrefix(ConvertIPv4ToIPv4MappedIPv6(ipAddress), ipPrefix, prefixLengthInBits);
      } else {
        r := IPAddressMatchesPrefix(ipAddress, ConvertIPv4ToIPv4MappedIPv6(ipPrefix), 96 + prefixLengthInBits);
      }
      return;
    }
    if IsIPv4(ipAddress) {
      MappingKeepsPrefix(ipAddress, ipPrefix, prefixLengthInBits);
    }
    r := IPAddressPrefixCheck(ipAddress, ipPrefix, prefixLengthInBits);
  }
}
