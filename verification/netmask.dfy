/** Netmasks (ipaddr/address.go, `IsValidNetMask` and `ToCIDR`): an address
    is a netmask when, reading its 32 bits from the most significant bit of
    octet 0, no 1 bit follows a 0 bit; its CIDR prefix length is the number
    of leading 1 bits. */
module Netmask {
  import opened Address

  // ---------------------------------------------------------------------
  // Bits, in the order the library scans them.

  /** The one-bit mask that tests bit `j` of an octet: `0x80`, shifted right
      once per step as the library's inner loops do. */
  function Probe(j: nat): bv8
  {
    if j == 0 then 0x80 else Probe(j - 1) >> 1
  }

  /** Bit `j` of an octet, counting from its most significant bit. */
  predicate OctetBit(x: bv8, j: nat)
    requires j < 8
  {
    x & Probe(j) != 0
  }

  /** Bit `k` of the address, counting from the most significant bit of
      octet 0. */
  predicate Bit(a: IP4Address, k: nat)
    requires k < 32
  {
    OctetBit(a[k / 8], k % 8)
  }

  /** The probes for bits 0..7 are the eight single-bit octets, and one more
      shift leaves nothing. */
  lemma ProbeValues()
    ensures Probe(0) == 0x80 && Probe(1) == 0x40 && Probe(2) == 0x20 && Probe(3) == 0x10
    ensures Probe(4) == 0x08 && Probe(5) == 0x04 && Probe(6) == 0x02 && Probe(7) == 0x01
    ensures Probe(8) == 0
  {
    assert Probe(0) == 0x80 && Probe(1) == 0x40 && Probe(2) == 0x20 && Probe(3) == 0x10;
    assert Probe(4) == 0x08 && Probe(5) == 0x04 && Probe(6) == 0x02 && Probe(7) == 0x01;
  }

  /** The inner loops run while the probe is non-zero (`> 0` on an unsigned
      octet): exactly 8 times. */
  lemma ProbeNonZero(j: nat)
    requires j <= 8
    ensures Probe(j) != 0 <==> j < 8
  {
    ProbeValues();
  }

  /** One shift of the probe for bit `j` gives the probe for bit `j + 1`,
      which is zero after bit 7. */
  lemma ProbeNext(j: nat, mask: bv8)
    requires j < 8 && mask == Probe(j)
    ensures mask >> 1 == Probe(j + 1)
    ensures mask >> 1 != 0 <==> j + 1 < 8
  {
    ProbeNonZero(j + 1);
  }

  /** Bit `8 * i + j` of an address is bit `j` of octet `i`. */
  lemma BitOfOctet(a: IP4Address, i: nat, j: nat)
    requires i < 4 && j < 8
    ensures Bit(a, 8 * i + j) == OctetBit(a[i], j)
  {
    assert (8 * i + j) / 8 == i && (8 * i + j) % 8 == j;
  }

  /** Two octets with the same eight bits are equal. */
  lemma OctetFromBits(x: bv8, y: bv8)
    requires forall j :: 0 <= j < 8 ==> (OctetBit(x, j) <==> OctetBit(y, j))
    ensures x == y
  {
    ProbeValues();
    assert OctetBit(x, 0) <==> OctetBit(y, 0);
    assert OctetBit(x, 1) <==> OctetBit(y, 1);
    assert OctetBit(x, 2) <==> OctetBit(y, 2);
    assert OctetBit(x, 3) <==> OctetBit(y, 3);
    assert OctetBit(x, 4) <==> OctetBit(y, 4);
    assert OctetBit(x, 5) <==> OctetBit(y, 5);
    assert OctetBit(x, 6) <==> OctetBit(y, 6);
    assert OctetBit(x, 7) <==> OctetBit(y, 7);
  }

  /** An address is determined by its 32 bits. */
  lemma BitsDetermine(a: IP4Address, b: IP4Address)
    requires forall k :: 0 <= k < 32 ==> (Bit(a, k) <==> Bit(b, k))
    ensures a == b
  {
    forall i | 0 <= i < 4 ensures a[i] == b[i] {
      forall j | 0 <= j < 8 ensures OctetBit(a[i], j) <==> OctetBit(b[i], j) {
        BitOfOctet(a, i, j);
        BitOfOctet(b, i, j);
        assert Bit(a, 8 * i + j) <==> Bit(b, 8 * i + j);
      }
      OctetFromBits(a[i], b[i]);
    }
  }

  // ---------------------------------------------------------------------
  // Valid netmasks and their prefix length.

  /** No 1 bit follows a 0 bit among the first `n` bits. */
  predicate ValidUpTo(a: IP4Address, n: nat)
    requires n <= 32
  {
    forall i, j :: 0 <= i < j < n && !Bit(a, i) ==> !Bit(a, j)
  }

  /** A netmask: once a 0 bit has been seen, no 1 bit follows. */
  predicate ValidNetmask(a: IP4Address)
  {
    ValidUpTo(a, 32)
  }

  /** The number of consecutive 1 bits from bit `k` on. */
  function LeadingOnes(a: IP4Address, k: nat): (n: nat)
    requires k <= 32
    ensures k + n <= 32
    decreases 32 - k
  {
    if k < 32 && Bit(a, k) then 1 + LeadingOnes(a, k + 1) else 0
  }

  /** The run counted by `LeadingOnes` is all 1 bits and ends at a 0 bit or
      at the end of the address. */
  lemma {:induction false} LeadingOnesSpec(a: IP4Address, k: nat)
    requires k <= 32
    ensures forall p :: k <= p < k + LeadingOnes(a, k) ==> Bit(a, p)
    ensures k + LeadingOnes(a, k) < 32 ==> !Bit(a, k + LeadingOnes(a, k))
    decreases 32 - k
  {
    if k < 32 && Bit(a, k) {
      LeadingOnesSpec(a, k + 1);
    }
  }

  /** The CIDR prefix length of a netmask, or -1 for an invalid netmask. */
  function Cidr(a: IP4Address): int
  {
    if ValidNetmask(a) then LeadingOnes(a, 0) else -1
  }

  /** `Cidr` is -1 exactly for invalid netmasks; for a valid one it is the
      `n` in 0..32 such that precisely bits 0..n-1 are set. */
  lemma CidrSpec(a: IP4Address)
    ensures Cidr(a) == -1 <==> !ValidNetmask(a)
    ensures ValidNetmask(a) ==>
      (0 <= Cidr(a) <= 32 && forall k :: 0 <= k < 32 ==> (Bit(a, k) <==> k < Cidr(a)))
  {
    if ValidNetmask(a) {
      var n := LeadingOnes(a, 0);
      LeadingOnesSpec(a, 0);
      forall k | n < k < 32 ensures !Bit(a, k) {
        assert !Bit(a, n);
      }
    }
  }

  /** A valid netmask whose bits 0..n-1 are set and whose bit n (if any) is
      clear has CIDR `n`. */
  lemma CidrExact(a: IP4Address, n: nat)
    requires ValidNetmask(a) && n <= 32
    requires forall p :: 0 <= p < n ==> Bit(a, p)
    requires n < 32 ==> !Bit(a, n)
    ensures Cidr(a) == n
  {
    CidrSpec(a);
    var c := Cidr(a);
    if n < 32 {
      assert Bit(a, n) <==> n < c;
    }
    if c < 32 {
      assert Bit(a, c) <==> c < n;
    }
  }

  /** Extending the checked prefix by one bit: the new bit may be 1 only if
      the bit before it is 1. */
  lemma ValidUpToNext(a: IP4Address, n: nat)
    requires n < 32
    ensures ValidUpTo(a, n + 1) <==> ValidUpTo(a, n) && (n == 0 || Bit(a, n - 1) || !Bit(a, n))
  {
    if ValidUpTo(a, n) && (n == 0 || Bit(a, n - 1) || !Bit(a, n)) {
      forall i, j | 0 <= i < j < n + 1 && !Bit(a, i) ensures !Bit(a, j) {
        if j == n && i < n - 1 {
          assert !Bit(a, n - 1);
        }
      }
    }
  }

  /** A violation among the first `m` bits is a violation of the whole. */
  lemma ValidUpToShrink(a: IP4Address, m: nat, n: nat)
    requires m <= n <= 32
    ensures ValidUpTo(a, n) ==> ValidUpTo(a, m)
  {
  }

  // ---------------------------------------------------------------------
  // The netmask of a prefix length.

  /** The `uint32` netmask with `n` leading ones, `0xffffffff << (32 - n)`
      (0 when `n` is 0, since a shift by the full width clears the word). */
  function CidrMask(n: nat): bv32
    requires n <= 32
  {
    0xFFFF_FFFF << (32 - n)
  }

  /** The address form of `CidrMask(n)`. */
  function MaskOfLength(n: nat): IP4Address
    requires n <= 32
  {
    FromBigEndian(CidrMask(n))
  }

  /** The octet with its `c` most significant bits set. */
  function OctetMask(c: nat): bv8
    requires c <= 8
  {
    0xFF << (8 - c)
  }

  lemma OctetMaskBit(c: nat, j: nat)
    requires c <= 8 && j < 8
    ensures OctetBit(OctetMask(c), j) <==> j < c
  {
    ProbeValues();
  }

  /** How many of the `n` leading ones fall in an octet whose first bit is
      `n - d` bits in: between 0 and 8. */
  function Clamp(d: int): nat
  {
    if d < 0 then 0 else if d > 8 then 8 else d
  }

  // Octet `i` of the netmask of length `n`, one range of `n` at a time:
  // no ones in the octet, some, or all eight.

  lemma MaskOctetClear0(n: nat, i: nat)
    requires n <= 32 && i == 0 && n == 0
    ensures MaskOfLength(n)[i] == OctetMask(Clamp(n - 8 * i))
  {
  }

  lemma MaskOctetPart0(n: nat, i: nat)
    requires n <= 32 && i == 0 && 0 < n < 8
    ensures MaskOfLength(n)[i] == OctetMask(Clamp(n - 8 * i))
  {
  }

  lemma MaskOctetFull0(n: nat, i: nat)
    requires n <= 32 && i == 0 && 8 <= n
    ensures MaskOfLength(n)[i] == OctetMask(Clamp(n - 8 * i))
  {
  }

  lemma MaskOctetClear1(n: nat, i: nat)
    requires n <= 32 && i == 1 && n <= 8
    ensures MaskOfLength(n)[i] == OctetMask(Clamp(n - 8 * i))
  {
  }

  lemma MaskOctetPart1(n: nat, i: nat)
    requires n <= 32 && i == 1 && 8 < n < 16
    ensures MaskOfLength(n)[i] == OctetMask(Clamp(n - 8 * i))
  {
  }

  lemma MaskOctetFull1(n: nat, i: nat)
    requires n <= 32 && i == 1 && 16 <= n
    ensures MaskOfLength(n)[i] == OctetMask(Clamp(n - 8 * i))
  {
  }

  lemma MaskOctetClear2(n: nat, i: nat)
    requires n <= 32 && i == 2 && n <= 16
    ensures MaskOfLength(n)[i] == OctetMask(Clamp(n - 8 * i))
  {
  }

  lemma MaskOctetPart2(n: nat, i: nat)
    requires n <= 32 && i == 2 && 16 < n < 24
    ensures MaskOfLength(n)[i] == OctetMask(Clamp(n - 8 * i))
  {
  }

  lemma MaskOctetFull2(n: nat, i: nat)
    requires n <= 32 && i == 2 && 24 <= n
    ensures MaskOfLength(n)[i] == OctetMask(Clamp(n - 8 * i))
  {
  }

  lemma MaskOctetClear3(n: nat, i: nat)
    requires n <= 32 && i == 3 && n <= 24
    ensures MaskOfLength(n)[i] == OctetMask(Clamp(n - 8 * i))
  {
  }

  lemma MaskOctetPart3(n: nat, i: nat)
    requires n <= 32 && i == 3 && 24 < n < 32
    ensures MaskOfLength(n)[i] == OctetMask(Clamp(n - 8 * i))
  {
  }

  lemma MaskOctetFull3(n: nat, i: nat)
    requires n <= 32 && i == 3 && n == 32
    ensures MaskOfLength(n)[i] == OctetMask(Clamp(n - 8 * i))
  {
  }

  /** Octet `i` of the netmask of length `n` holds the ones of bits
      `8 * i .. 8 * i + 7` that are below `n`. */
  lemma MaskOctet(n: nat, i: nat)
    requires n <= 32 && i < 4
    ensures MaskOfLength(n)[i] == OctetMask(Clamp(n - 8 * i))
  {
    if i == 0 && n == 0 {
      MaskOctetClear0(n, i);
    } else if i == 0 && n < 8 {
      MaskOctetPart0(n, i);
    } else if i == 0 {
      MaskOctetFull0(n, i);
    } else if i == 1 && n <= 8 {
      MaskOctetClear1(n, i);
    } else if i == 1 && n < 16 {
      MaskOctetPart1(n, i);
    } else if i == 1 {
      MaskOctetFull1(n, i);
    } else if i == 2 && n <= 16 {
      MaskOctetClear2(n, i);
    } else if i == 2 && n < 24 {
      MaskOctetPart2(n, i);
    } else if i == 2 {
      MaskOctetFull2(n, i);
    } else if i == 3 && n <= 24 {
      MaskOctetClear3(n, i);
    } else if i == 3 && n < 32 {
      MaskOctetPart3(n, i);
    } else if i == 3 {
      MaskOctetFull3(n, i);
    }
  }

  /** Bit `k` of the netmask of length `n` is set exactly when `k < n`. */
  lemma MaskBits(n: nat, k: nat)
    requires n <= 32 && k < 32
    ensures Bit(MaskOfLength(n), k) <==> k < n
  {
    var i, j := k / 8, k % 8;
    MaskOctet(n, i);
    OctetMaskBit(Clamp(n - 8 * i), j);
  }

  /** The netmask of every prefix length `n` is valid and has CIDR `n`. */
  lemma MaskOfLengthSpec(n: nat)
    requires n <= 32
    ensures ValidNetmask(MaskOfLength(n))
    ensures Cidr(MaskOfLength(n)) == n
  {
    var m := MaskOfLength(n);
    forall k | 0 <= k < 32 ensures Bit(m, k) <==> k < n {
      MaskBits(n, k);
    }
    assert ValidNetmask(m);
    CidrExact(m, n);
  }

  /** Every valid netmask is the netmask of its own prefix length. */
  lemma ValidNetmaskIsMask(a: IP4Address)
    requires ValidNetmask(a)
    ensures 0 <= Cidr(a) <= 32 && a == MaskOfLength(Cidr(a))
  {
    CidrSpec(a);
    var n := Cidr(a);
    forall k | 0 <= k < 32 ensures Bit(a, k) <==> Bit(MaskOfLength(n), k) {
      MaskBits(n, k);
    }
    BitsDetermine(a, MaskOfLength(n));
  }

  /** The valid netmasks are exactly the 33 words `0xffffffff << (32 - n)`. */
  lemma ValidNetmaskIff(a: IP4Address)
    ensures ValidNetmask(a) <==> exists n :: 0 <= n <= 32 && a == MaskOfLength(n)
  {
    if ValidNetmask(a) {
      ValidNetmaskIsMask(a);
    }
    if exists n :: 0 <= n <= 32 && a == MaskOfLength(n) {
      var n :| 0 <= n <= 32 && a == MaskOfLength(n);
      MaskOfLengthSpec(n);
    }
  }

  // ---------------------------------------------------------------------
  // The two scans.

  /** What the validity scan answers when it resumes at bit `p`, `zeroes`
      saying whether a 0 bit has been seen. */
  predicate Scan(a: IP4Address, p: nat, zeroes: bool)
    requires p <= 32
    decreases 32 - p
  {
    if p == 32 then true
    else if !Bit(a, p) then Scan(a, p + 1, true)
    else if zeroes then false
    else Scan(a, p + 1, zeroes)
  }

  /** Resumed with a correct flag after a valid prefix, the scan decides
      `ValidNetmask`. */
  lemma {:induction false} ScanSpec(a: IP4Address, p: nat, zeroes: bool)
    requires p <= 32 && ValidUpTo(a, p)
    requires zeroes <==> (p > 0 && !Bit(a, p - 1))
    ensures Scan(a, p, zeroes) == ValidNetmask(a)
    decreases 32 - p
  {
    if p < 32 {
      ValidUpToNext(a, p);
      if Bit(a, p) && zeroes {
        ValidUpToShrink(a, p + 1, 32);
      } else {
        ScanSpec(a, p + 1, !Bit(a, p));
      }
    }
  }

  /** The validity scan resumed at bit `j` of octet `i`, the loops' view of
      `Scan`. */
  predicate ScanFrom(a: IP4Address, i: nat, j: nat, zeroes: bool)
    requires i <= 4 && j <= 8
    decreases 4 - i, 8 - j
  {
    if i == 4 then true
    else if j == 8 then ScanFrom(a, i + 1, 0, zeroes)
    else if !OctetBit(a[i], j) then ScanFrom(a, i, j + 1, true)
    else if zeroes then false
    else ScanFrom(a, i, j + 1, zeroes)
  }

  /** `ScanFrom` answers what `Scan` answers. */
  lemma {:induction false} ScanFromSpec(a: IP4Address, i: nat, j: nat, zeroes: bool)
    requires i <= 4 && j <= 8 && (i == 4 ==> j == 0)
    ensures ScanFrom(a, i, j, zeroes) == Scan(a, 8 * i + j, zeroes)
    decreases 4 - i, 8 - j
  {
    if i < 4 {
      if j == 8 {
        ScanFromSpec(a, i + 1, 0, zeroes);
      } else {
        BitOfOctet(a, i, j);
        ScanFromSpec(a, i, j + 1, true);
        ScanFromSpec(a, i, j + 1, zeroes);
      }
    }
  }

  /** One step of the validity scan, bit `j` of octet `i` tested with the
      probe `mask`. */
  lemma ScanFromStep(a: IP4Address, i: nat, j: nat, zeroes: bool, b: bv8, mask: bv8)
    requires i < 4 && j < 8 && b == a[i] && mask == Probe(j)
    ensures b & mask == 0 ==> ScanFrom(a, i, j, zeroes) == ScanFrom(a, i, j + 1, true)
    ensures b & mask != 0 && zeroes ==> !ScanFrom(a, i, j, zeroes)
    ensures b & mask != 0 && !zeroes ==> ScanFrom(a, i, j, zeroes) == ScanFrom(a, i, j + 1, zeroes)
  {
    ProbeTest(b, j, mask);
    ScanFromUnfold(a, i, j, zeroes);
  }

  /** Testing with the probe reads the bit. */
  lemma ProbeTest(b: bv8, j: nat, mask: bv8)
    requires j < 8 && mask == Probe(j)
    ensures b & mask != 0 <==> OctetBit(b, j)
  {
  }

  lemma ScanFromUnfold(a: IP4Address, i: nat, j: nat, zeroes: bool)
    requires i < 4 && j < 8
    ensures ScanFrom(a, i, j, zeroes) ==
      if !OctetBit(a[i], j) then ScanFrom(a, i, j + 1, true)
      else !zeroes && ScanFrom(a, i, j + 1, zeroes)
  {
  }

  /** Past the last bit of octet `i` the scan goes on with octet `i + 1`. */
  lemma ScanFromNextOctet(a: IP4Address, i: nat, zeroes: bool)
    requires i < 4
    ensures ScanFrom(a, i, 8, zeroes) == ScanFrom(a, i + 1, 0, zeroes)
  {
  }

  /** The scan from the first bit with no 0 seen decides `ValidNetmask`. */
  lemma ScanFromValid(a: IP4Address)
    ensures ScanFrom(a, 0, 0, false) == ValidNetmask(a)
  {
    ScanSpec(a, 0, false);
    ScanFromSpec(a, 0, 0, false);
  }

  /** Go's `IsValidNetMask`: walks the bits from the most significant down,
      remembering whether a 0 has been seen, and fails at the first 1 after
      a 0. */
  method IsValidNetMask(addr: IP4Address) returns (valid: bool)
    ensures valid == ValidNetmask(addr)
  {
    ghost var answer := ValidNetmask(addr);
    ScanFromValid(addr);
    var zeroes := false;
    for i := 0 to IP4AddressSize
      invariant ScanFrom(addr, i, 0, zeroes) == answer
    {
      var b := addr[i];
      var mask: bv8 := 0x80;
      ghost var j := 0;
      ProbeNonZero(j);
      while mask != 0
        invariant 0 <= j <= 8 && mask == Probe(j)
        invariant mask != 0 <==> j < 8
        invariant ScanFrom(addr, i, j, zeroes) == answer
        decreases 8 - j
      {
        ScanFromStep(addr, i, j, zeroes, b, mask);
        if b & mask == 0 {
          zeroes := true;
        } else if zeroes {
          return false;
        }
        ProbeNext(j, mask);
        mask := mask >> 1;
        j := j + 1;
      }
      ScanFromNextOctet(addr, i, zeroes);
    }
    return true;
  }

  /** The number of consecutive 1 bits from bit `j` of octet `i` on, the
      counting scan's view of `LeadingOnes`. */
  function OnesFrom(a: IP4Address, i: nat, j: nat): nat
    requires i <= 4 && j <= 8
    decreases 4 - i, 8 - j
  {
    if i == 4 then 0
    else if j == 8 then OnesFrom(a, i + 1, 0)
    else if OctetBit(a[i], j) then 1 + OnesFrom(a, i, j + 1)
    else 0
  }

  /** `OnesFrom` counts what `LeadingOnes` counts. */
  lemma {:induction false} OnesFromSpec(a: IP4Address, i: nat, j: nat)
    requires i <= 4 && j <= 8 && (i == 4 ==> j == 0)
    ensures OnesFrom(a, i, j) == LeadingOnes(a, 8 * i + j)
    decreases 4 - i, 8 - j
  {
    if i < 4 {
      if j == 8 {
        OnesFromSpec(a, i + 1, 0);
      } else {
        BitOfOctet(a, i, j);
        if OctetBit(a[i], j) {
          OnesFromSpec(a, i, j + 1);
        }
      }
    }
  }

  /** One step of the counting scan, bit `j` of octet `i` tested with the
      probe `mask`. */
  lemma OnesFromStep(a: IP4Address, i: nat, j: nat, b: bv8, mask: bv8)
    requires i < 4 && j < 8 && b == a[i] && mask == Probe(j)
    ensures b & mask == 0 ==> OnesFrom(a, i, j) == 0
    ensures b & mask != 0 ==> OnesFrom(a, i, j) == 1 + OnesFrom(a, i, j + 1)
  {
    ProbeTest(b, j, mask);
  }

  /** Past the last bit of octet `i` the count goes on with octet `i + 1`. */
  lemma OnesFromNextOctet(a: IP4Address, i: nat)
    requires i < 4
    ensures OnesFrom(a, i, 8) == OnesFrom(a, i + 1, 0)
  {
  }

  /** Go's `ToCIDR`: -1 for an invalid netmask, otherwise the number of 1
      bits counted up to the first 0. */
  method ToCIDR(addr: IP4Address) returns (cidr: int)
    ensures cidr == Cidr(addr)
  {
    var valid := IsValidNetMask(addr);
    if !valid {
      return -1;
    }
    ghost var total := OnesFrom(addr, 0, 0);
    OnesFromSpec(addr, 0, 0);
    cidr := 0;
    for i := 0 to IP4AddressSize
      invariant cidr + OnesFrom(addr, i, 0) == total
    {
      var b := addr[i];
      var mask: bv8 := 0x80;
      ghost var j := 0;
      ProbeNonZero(j);
      while mask != 0
        invariant 0 <= j <= 8 && mask == Probe(j)
        invariant mask != 0 <==> j < 8
        invariant cidr + OnesFrom(addr, i, j) == total
        decreases 8 - j
      {
        OnesFromStep(addr, i, j, b, mask);
        if b & mask == 0 {
          return cidr;
        }
        cidr := cidr + 1;
        ProbeNext(j, mask);
        mask := mask >> 1;
        j := j + 1;
      }
      OnesFromNextOctet(addr, i);
    }
  }

  // ---------------------------------------------------------------------
  // Examples.

  /** 255.255.224.0 is the netmask of a /19. */
  lemma ExampleValidMask()
    ensures ValidNetmask([255, 255, 224, 0]) && Cidr([255, 255, 224, 0]) == 19
  {
    assert MaskOfLength(19) == [255, 255, 224, 0];
    MaskOfLengthSpec(19);
  }

  /** 255.255.0.224 has 1 bits after 0 bits: not a netmask, CIDR -1. */
  lemma ExampleInvalidMask()
    ensures !ValidNetmask([255, 255, 0, 224]) && Cidr([255, 255, 0, 224]) == -1
  {
    var a: IP4Address := [255, 255, 0, 224];
    BitOfOctet(a, 2, 0);
    BitOfOctet(a, 3, 0);
    ProbeValues();
    assert !Bit(a, 16) && Bit(a, 24);
  }

  /** 0.0.0.0 and 255.255.255.255 are the netmasks of a /0 and a /32. */
  lemma ExampleExtremeMasks()
    ensures Cidr([0, 0, 0, 0]) == 0 && Cidr([255, 255, 255, 255]) == 32
  {
    assert MaskOfLength(0) == [0, 0, 0, 0];
    assert MaskOfLength(32) == [255, 255, 255, 255];
    MaskOfLengthSpec(0);
    MaskOfLengthSpec(32);
  }
}
