/** IPv4 networks (ipaddr/network.go): an address together with a netmask,
    the lowest and highest address of the range the mask leaves free,
    membership, the `address/cidr` text and the parsers for netmasks and
    networks. */
module Network {
  import opened Results
  import opened Text
  import opened Address
  import opened Netmask
  import opened Numbers

  const BitsPerByte: nat := 8

  /** Go's `IP4Network`: the address as written (its host bits are kept)
      and the netmask. */
  datatype IP4Network = IP4Network(address: IP4Address, netmask: IP4Address)

  // ---------------------------------------------------------------------
  // Network and broadcast addresses.

  /** An octet with the bits its mask octet leaves to hosts cleared. */
  function HostsCleared(x: bv8, m: bv8): bv8
  {
    x & m
  }

  /** An octet with the bits its mask octet leaves to hosts set. */
  function HostsSet(x: bv8, m: bv8): bv8
  {
    x | !m
  }

  /** The lowest address of the network: each octet of the address with the
      host bits of the mask cleared. */
  function NetworkOf(net: IP4Network): IP4Address
  {
    var a, m := net.address, net.netmask;
    [HostsCleared(a[0], m[0]), HostsCleared(a[1], m[1]), HostsCleared(a[2], m[2]), HostsCleared(a[3], m[3])]
  }

  /** The highest address of the network: each octet of the address with the
      host bits of the mask set. */
  function BroadcastOf(net: IP4Network): IP4Address
  {
    var a, m := net.address, net.netmask;
    [HostsSet(a[0], m[0]), HostsSet(a[1], m[1]), HostsSet(a[2], m[2]), HostsSet(a[3], m[3])]
  }

  /** Octet `i` of the network address. */
  lemma NetworkOctet(net: IP4Network, i: nat)
    requires i < IP4AddressSize
    ensures NetworkOf(net)[i] == HostsCleared(net.address[i], net.netmask[i])
  {
  }

  /** Octet `i` of the broadcast address. */
  lemma BroadcastOctet(net: IP4Network, i: nat)
    requires i < IP4AddressSize
    ensures BroadcastOf(net)[i] == HostsSet(net.address[i], net.netmask[i])
  {
  }

  /** Go's `NetworkAddress`: fills a fresh address octet by octet. */
  method NetworkAddress(net: IP4Network) returns (addr: IP4Address)
    ensures addr == NetworkOf(net)
  {
    ghost var target := NetworkOf(net);
    var a := new bv8[IP4AddressSize];
    for i := 0 to IP4AddressSize
      invariant forall k :: 0 <= k < i ==> a[k] == target[k]
    {
      NetworkOctet(net, i);
      a[i] := HostsCleared(net.address[i], net.netmask[i]);
    }
    SameOctets(a[..], target);
    return a[..];
  }

  /** Go's `BroadcastAddress`: fills a fresh address octet by octet. */
  method BroadcastAddress(net: IP4Network) returns (addr: IP4Address)
    ensures addr == BroadcastOf(net)
  {
    ghost var target := BroadcastOf(net);
    var a := new bv8[IP4AddressSize];
    for i := 0 to IP4AddressSize
      invariant forall k :: 0 <= k < i ==> a[k] == target[k]
    {
      BroadcastOctet(net, i);
      a[i] := HostsSet(net.address[i], net.netmask[i]);
    }
    SameOctets(a[..], target);
    return a[..];
  }

  /** Go's `NetworkNetwork`: the same network, written with its network
      address. */
  method NetworkNetwork(net: IP4Network) returns (r: IP4Network)
    ensures r.address == NetworkOf(net) && r.netmask == net.netmask
    ensures NetworkOf(r) == NetworkOf(net) && BroadcastOf(r) == BroadcastOf(net)
  {
    var address := NetworkAddress(net);
    r := IP4Network(address, net.netmask);
    SameRange(net, r);
  }

  /** Go's `BroadcastNetwork`: the same network, written with its broadcast
      address. */
  method BroadcastNetwork(net: IP4Network) returns (r: IP4Network)
    ensures r.address == BroadcastOf(net) && r.netmask == net.netmask
    ensures NetworkOf(r) == NetworkOf(net) && BroadcastOf(r) == BroadcastOf(net)
  {
    var address := BroadcastAddress(net);
    r := IP4Network(address, net.netmask);
    SameRange(net, r);
  }

  /** Two octets that agree under the mask give the same ends of the
      range. */
  lemma SameOctetRange(x: bv8, y: bv8, m: bv8)
    requires HostsCleared(y, m) == HostsCleared(x, m)
    ensures HostsSet(y, m) == HostsSet(x, m)
  {
  }

  /** An octet's lowest and highest values under the mask agree with it
      under the mask. */
  lemma OctetKept(x: bv8, y: bv8, m: bv8)
    requires y == HostsCleared(x, m) || y == HostsSet(x, m)
    ensures HostsCleared(y, m) == HostsCleared(x, m)
  {
  }

  /** Replacing the address by its network or broadcast address keeps the
      range. */
  lemma SameRange(net: IP4Network, r: IP4Network)
    requires r.netmask == net.netmask
    requires r.address == NetworkOf(net) || r.address == BroadcastOf(net)
    ensures NetworkOf(r) == NetworkOf(net) && BroadcastOf(r) == BroadcastOf(net)
  {
    forall k | 0 <= k < IP4AddressSize
      ensures NetworkOf(r)[k] == NetworkOf(net)[k] && BroadcastOf(r)[k] == BroadcastOf(net)[k]
    {
      var x, y, m := net.address[k], r.address[k], net.netmask[k];
      NetworkOctet(r, k);
      NetworkOctet(net, k);
      BroadcastOctet(r, k);
      BroadcastOctet(net, k);
      OctetKept(x, y, m);
      SameOctetRange(x, y, m);
    }
  }

  // ---------------------------------------------------------------------
  // Membership.

  /** `addr` lies, as a number, between the network and the broadcast
      address. */
  predicate InNetwork(net: IP4Network, addr: IP4Address)
  {
    ValueOf(NetworkOf(net)) <= ValueOf(addr) <= ValueOf(BroadcastOf(net))
  }

  /** Go's `Contains`: compares the `uint32` forms of the address and of
      the two ends of the network. */
  method Contains(net: IP4Network, addr: IP4Address) returns (contained: bool)
    ensures contained <==> InNetwork(net, addr)
  {
    var netNetworkAddress := NetworkAddress(net);
    var netBroadcastAddress := BroadcastAddress(net);
    var netNetworkValue := ToUint32(netNetworkAddress);
    var netBroadcastValue := ToUint32(netBroadcastAddress);
    var addrValue := ToUint32(addr);
    NumericOfBigEndian(netNetworkAddress);
    NumericOfBigEndian(netBroadcastAddress);
    NumericOfBigEndian(addr);
    return WordLe(netNetworkValue, addrValue) && WordLe(addrValue, netBroadcastValue);
  }

  lemma OctetRangeOrder(x: bv8, m: bv8)
    ensures HostsCleared(x, m) <= x <= HostsSet(x, m)
  {
  }

  /** Octet by octet, the network address is below and the broadcast
      address above the address and every address with its network part. */
  lemma OctetsBetween(net: IP4Network, addr: IP4Address)
    requires NetworkOf(IP4Network(addr, net.netmask)) == NetworkOf(net)
    ensures forall k :: 0 <= k < IP4AddressSize ==> NetworkOf(net)[k] <= addr[k]
    ensures forall k :: 0 <= k < IP4AddressSize ==> addr[k] <= BroadcastOf(net)[k]
  {
    forall k | 0 <= k < IP4AddressSize
      ensures NetworkOf(net)[k] <= addr[k] <= BroadcastOf(net)[k]
    {
      NetworkOctet(IP4Network(addr, net.netmask), k);
      NetworkOctet(net, k);
      BroadcastOctet(net, k);
      OctetRangeOrder(addr[k], net.netmask[k]);
      SameOctetRange(net.address[k], addr[k], net.netmask[k]);
    }
  }

  /** Every address with the network part of `net` is in `net`, whatever
      the mask. */
  lemma SamePrefixContained(net: IP4Network, addr: IP4Address)
    requires NetworkOf(IP4Network(addr, net.netmask)) == NetworkOf(net)
    ensures InNetwork(net, addr)
  {
    OctetsBetween(net, addr);
    ValueOfMonotone(NetworkOf(net), addr);
    ValueOfMonotone(addr, BroadcastOf(net));
  }

  /** The network address is the lowest and the broadcast address the
      highest address of the network: both, and the address the network
      was written with, are in it. */
  lemma EndsContained(net: IP4Network)
    ensures ValueOf(NetworkOf(net)) <= ValueOf(BroadcastOf(net))
    ensures InNetwork(net, NetworkOf(net))
    ensures InNetwork(net, BroadcastOf(net))
    ensures InNetwork(net, net.address)
  {
    var n := IP4Network(NetworkOf(net), net.netmask);
    var b := IP4Network(BroadcastOf(net), net.netmask);
    SameRange(net, n);
    SameRange(net, b);
    SamePrefixContained(net, NetworkOf(net));
    SamePrefixContained(net, BroadcastOf(net));
    SamePrefixContained(net, net.address);
  }

  // ---------------------------------------------------------------------
  // Text.

  /** The CIDR regex at ipaddr/network.go:10, anchored at both ends:
      `[0-9]`, `1[0-9]`, `2[0-9]` or `3[0-2]`. */
  predicate IsCidrText(s: string)
  {
    (|s| == 1 && IsDigit(s[0])) ||
    (|s| == 2 && s[0] == '1' && IsDigit(s[1])) ||
    (|s| == 2 && s[0] == '2' && IsDigit(s[1])) ||
    (|s| == 2 && s[0] == '3' && '0' <= s[1] <= '2')
  }

  /** The CIDR regex accepts exactly the `%d` renderings of 0 to 32. */
  lemma CidrTextIff(s: string)
    ensures IsCidrText(s) <==> Canonical(s) && DecimalValue(s) <= 32
  {
    if IsCidrText(s) {
      if |s| == 2 {
        TwoDigits(s);
      }
    }
    if Canonical(s) {
      if |s| >= 4 {
        LongDecimal(s);
      } else if |s| == 3 {
        ThreeDigits(s);
      } else if |s| == 2 {
        TwoDigits(s);
      }
    }
  }

  /** `%d` of a prefix length is CIDR text that reads back as that length. */
  lemma CidrTextOf(n: nat)
    requires n <= 32
    ensures IsCidrText(DecimalText(n)) && DecimalValue(DecimalText(n)) == n
  {
    DecimalRoundTrip(n);
    CidrTextIff(DecimalText(n));
  }

  /** What `CreateIP4Netmask` answers for `text`: a prefix length gives the
      netmask of that length; dotted text must parse as an address that is a
      valid netmask. */
  function ParseNetmask(text: string): Result<IP4Address>
  {
    var t := TrimSpace(text);
    if IsCidrText(t) then
      CidrTextIff(t);
      Ok(MaskOfLength(DecimalValue(t)))
    else if IsAddressText(t) then
      match ParseAddress(t)
      case Err(e) => Err(e)
      case Ok(a) => if ValidNetmask(a) then Ok(a) else Err(InvalidNetmask)
    else Err(InvalidNetmask)
  }

  /** The host bits of a prefix length: the shift `CreateIP4Netmask`
      applies is the one in `CidrMask`. */
  lemma HostBits(cidr: nat, hostBits: int)
    requires cidr <= 32 && hostBits == IP4AddressSize * BitsPerByte - cidr
    ensures 0 <= hostBits <= 32 && hostBits == 32 - cidr
  {
  }

  /** Go's `CreateIP4Netmask`: a CIDR is turned into
      `0xffffffff << (32 - cidr)`; dotted text is parsed as an address and
      must pass `IsValidNetMask`. */
  method CreateIP4Netmask(netmask: string) returns (r: Result<IP4Address>)
    ensures r == ParseNetmask(netmask)
  {
    var text := TrimSpace(netmask);
    if IsCidrText(text) {
      CidrTextIff(text);
      var cidr := DecimalValue(text);
      var value: bv32 := 0xFFFF_FFFF;
      var hostBits := IP4AddressSize * BitsPerByte - cidr;
      HostBits(cidr, hostBits);
      value := value << hostBits;
      r := CreateIP4AddressFromUint32(value);
      return;
    }
    if IsAddressText(text) {
      var address := CreateIP4Address(text);
      if address.Err? {
        return Err(address.error);
      }
      var valid := IsValidNetMask(address.value);
      if !valid {
        return Err(InvalidNetmask);
      }
      return address;
    }
    return Err(InvalidNetmask);
  }

  /** What `CreateIP4Network` answers for `text`: exactly one slash after
      trimming, an address before it and a netmask after it; the first
      error met is passed on unchanged. */
  function ParseNetwork(text: string): Result<IP4Network>
  {
    var t := TrimSpace(text);
    if Count(t, '/') != 1 then Err(ExpectedOneSlash)
    else
      SplitSpec(t, '/');
      var parts := Split(t, '/');
      match ParseAddress(parts[0])
      case Err(e) => Err(e)
      case Ok(address) =>
        match ParseNetmask(parts[1])
        case Err(e) => Err(e)
        case Ok(netmask) => Ok(IP4Network(address, netmask))
  }

  /** Go's `CreateIP4Network`. */
  method CreateIP4Network(network: string) returns (r: Result<IP4Network>)
    ensures r == ParseNetwork(network)
  {
    var text := TrimSpace(network);
    if Count(text, '/') != 1 {
      return Err(ExpectedOneSlash);
    }
    SplitSpec(text, '/');
    var parts := Split(text, '/');
    var address := CreateIP4Address(parts[0]);
    if address.Err? {
      return Err(address.error);
    }
    var netmask := CreateIP4Netmask(parts[1]);
    if netmask.Err? {
      return Err(netmask.error);
    }
    return Ok(IP4Network(address.value, netmask.value));
  }

  /** Go's `String` on a network: the address, a slash and the prefix
      length of the netmask (`%d` of `ToCIDR`, so `-1` for an invalid
      mask). */
  function String(net: IP4Network): string
  {
    Address.String(net.address) + "/" + IntText(Cidr(net.netmask))
  }

  // ---------------------------------------------------------------------
  // What the parsers promise.

  /** Text the address regex accepts carries no slash. */
  lemma AddressTextNoSlash(s: string)
    requires IsAddressText(s)
    ensures '/' !in s
  {
    RenderAccepted(s);
    StringHasNoSlash(OctetsOf(s));
  }

  /** Trimmed text the address regex accepts parses without error. */
  lemma MatchedAddressParses(t: string)
    requires IsAddressText(t) && Trimmed(t)
    ensures ParseAddress(t).Ok?
  {
    ParseMatchedAddress(t);
  }

  /** Trimmed text the address regex accepts parses to its octets. */
  lemma ParseMatchedAddress(t: string)
    requires IsAddressText(t) && Trimmed(t)
    ensures ParseAddress(t) == Ok(OctetsOf(t))
  {
    AddressTextNoSlash(t);
    CandidateOfTrimmed(t);
  }

  /** Every netmask `CreateIP4Netmask` returns is valid. */
  lemma ParseNetmaskValid(text: string)
    ensures ParseNetmask(text).Ok? ==> ValidNetmask(ParseNetmask(text).value)
  {
    var t := TrimSpace(text);
    if IsCidrText(t) {
      CidrTextIff(t);
      MaskOfLengthSpec(DecimalValue(t));
      assert ParseNetmask(text) == Ok(MaskOfLength(DecimalValue(t)));
    } else if IsAddressText(t) {
      match ParseAddress(t)
      case Err(_) =>
      case Ok(a) => assert ParseNetmask(text).Ok? ==> ParseNetmask(text).value == a && ValidNetmask(a);
    }
  }

  /** The only error `CreateIP4Netmask` reports is `InvalidNetmask`: dotted
      text that matches the regex always parses as an address. */
  lemma ParseNetmaskError(text: string)
    ensures ParseNetmask(text).Err? ==> ParseNetmask(text).error == InvalidNetmask
  {
    var t := TrimSpace(text);
    TrimSpaceTrimmed(text);
    if !IsCidrText(t) && IsAddressText(t) {
      MatchedAddressParses(t);
    }
  }

  /** `CreateIP4Netmask` succeeds exactly on a prefix length from 0 to 32 or
      on a dotted address that is a valid netmask; dotted text gives its
      octets. */
  lemma ParseNetmaskIff(text: string)
    ensures ParseNetmask(text).Ok? <==>
      IsCidrText(TrimSpace(text)) ||
      (IsAddressText(TrimSpace(text)) && ValidNetmask(OctetsOf(TrimSpace(text))))
    ensures !IsCidrText(TrimSpace(text)) && ParseNetmask(text).Ok? ==>
      ParseNetmask(text).value == OctetsOf(TrimSpace(text))
  {
    var t := TrimSpace(text);
    TrimSpaceTrimmed(text);
    if !IsCidrText(t) && IsAddressText(t) {
      ParseMatchedAddress(t);
    }
  }

  /** A prefix length written in decimal gives the netmask of that length,
      whose `ToCIDR` is the length again. */
  lemma ParseCidr(n: nat)
    requires n <= 32
    ensures ParseNetmask(DecimalText(n)) == Ok(MaskOfLength(n))
    ensures Cidr(MaskOfLength(n)) == n
  {
    var t := DecimalText(n);
    DecimalCanonical(n);
    DigitsTrimmed(t);
    CidrTextOf(n);
    MaskOfLengthSpec(n);
  }

  /** Decimal digits are neither white space nor a slash. */
  lemma DigitsTrimmed(t: string)
    requires Canonical(t)
    ensures TrimSpace(t) == t && '/' !in t
  {
    assert IsDigit(t[0]) && IsDigit(t[|t| - 1]);
    assert Trimmed(t);
    TrimSpaceOfTrimmed(t);
  }

  /** `%d` of a number is canonical decimal text. */
  lemma DecimalCanonical(n: nat)
    ensures Canonical(DecimalText(n))
  {
    DecimalRoundTrip(n);
  }

  /** Every network `CreateIP4Network` returns has a valid netmask. */
  lemma ParseNetworkValid(text: string)
    requires ParseNetwork(text).Ok?
    ensures ValidNetmask(ParseNetwork(text).value.netmask)
  {
    var t := TrimSpace(text);
    SplitSpec(t, '/');
    var q := Split(t, '/')[1];
    ParseNetmaskValid(q);
    assert ParseNetmask(q).Ok? && ParseNetwork(text).value.netmask == ParseNetmask(q).value;
  }

  /** `CreateIP4Network` refuses text without exactly one slash with
      `ExpectedOneSlash`; otherwise it can only fail with the address's
      `InvalidAddress` or the netmask's `InvalidNetmask` (the part before the
      slash holds no further slash). */
  lemma ParseNetworkErrors(text: string)
    ensures ParseNetwork(text) == Err(ExpectedOneSlash) <==> Count(TrimSpace(text), '/') != 1
    ensures ParseNetwork(text).Err? ==>
      ParseNetwork(text).error in {ExpectedOneSlash, InvalidAddress, InvalidNetmask}
  {
    var t := TrimSpace(text);
    if Count(t, '/') == 1 {
      SplitSpec(t, '/');
      var parts := Split(t, '/');
      CountSpec(parts[0], '/');
      ParseErrors(parts[0]);
      assert Count(TrimSpace(parts[0]), '/') <= 1 by {
        TrimSpaceCount(parts[0]);
      }
      ParseNetmaskError(parts[1]);
    }
  }

  /** Trimming never adds a slash. */
  lemma TrimSpaceCount(s: string)
    requires '/' !in s
    ensures '/' !in TrimSpace(s) && Count(TrimSpace(s), '/') == 0
  {
    TrimSpaceKeepsOut(s, '/');
    CountSpec(TrimSpace(s), '/');
  }

  /** The text of a network with a valid netmask parses back to the same
      network: the address keeps its host bits and the prefix length gives
      the netmask back. */
  lemma ParseNetworkString(net: IP4Network)
    requires ValidNetmask(net.netmask)
    ensures ParseNetwork(String(net)) == Ok(net)
  {
    var a, m := net.address, net.netmask;
    ValidNetmaskIsMask(m);
    var n := Cidr(m);
    var p, q := Address.String(a), DecimalText(n);
    assert String(net) == p + "/" + q;
    StringShape(a);
    DecimalCanonical(n);
    DigitsTrimmed(q);
    NetworkTextShape(p, q);
    ParseString(a);
    ParseCidr(n);
  }

  /** `CreateIP4Network` on `p/q` passes on the error of the address `p`
      unchanged, whatever white space surrounds either part. */
  lemma ParseNetworkAddressError(p: string, q: string)
    requires '/' !in p && '/' !in q && ParseAddress(p).Err?
    ensures ParseNetwork(p + "/" + q) == Err(ParseAddress(p).error)
  {
    NetworkTextParts(p, q);
    ParseAddressTrim(TrimLeft(p), p);
  }

  /** `CreateIP4Network` on `p/q` with a good address passes on the error of
      the netmask `q` unchanged. */
  lemma ParseNetworkNetmaskError(p: string, q: string)
    requires '/' !in p && '/' !in q && ParseAddress(p).Ok? && ParseNetmask(q).Err?
    ensures ParseNetwork(p + "/" + q) == Err(ParseNetmask(q).error)
  {
    NetworkTextParts(p, q);
    ParseAddressTrim(TrimLeft(p), p);
    ParseNetmaskTrim(TrimRight(q), q);
  }

  /** `CreateIP4Network` on `p/q` with a good address and netmask returns
      the two. */
  lemma ParseNetworkParts(p: string, q: string)
    requires '/' !in p && '/' !in q && ParseAddress(p).Ok? && ParseNetmask(q).Ok?
    ensures ParseNetwork(p + "/" + q) == Ok(IP4Network(ParseAddress(p).value, ParseNetmask(q).value))
  {
    NetworkTextParts(p, q);
    ParseAddressTrim(TrimLeft(p), p);
    ParseNetmaskTrim(TrimRight(q), q);
  }

  /** The netmask parser sees only the trimmed text. */
  lemma ParseNetmaskTrim(x: string, y: string)
    requires TrimSpace(x) == TrimSpace(y)
    ensures ParseNetmask(x) == ParseNetmask(y)
  {
    var t := TrimSpace(x);
    // one case per branch of `ParseNetmask`
    if IsCidrText(t) {
    } else if IsAddressText(t) {
    } else {
    }
  }

  /** Trimming `p/q` with slash-free `p` and `q` trims the outer ends only:
      it splits at its only slash into `p` without its leading and `q`
      without its trailing white space, and each part trims as before.
      The white space next to the slash is left for the part parsers. */
  lemma NetworkTextParts(p: string, q: string)
    requires '/' !in p && '/' !in q
    ensures TrimSpace(p + "/" + q) == TrimLeft(p) + "/" + TrimRight(q)
    ensures Count(TrimSpace(p + "/" + q), '/') == 1
    ensures Split(TrimSpace(p + "/" + q), '/') == [TrimLeft(p), TrimRight(q)]
    ensures TrimSpace(TrimLeft(p)) == TrimSpace(p) && TrimSpace(TrimRight(q)) == TrimSpace(q)
  {
    var l, r := TrimLeft(p), TrimRight(q);
    var a, b := p[..|p| - |l|], q[|r|..];
    var m := l + "/" + r;
    SlashTrimmed(l, r);
    Regroup(p, q, a, l, r, b);
    TrimSpaceOfPadded(a, m, b);
    SliceKeepsOut(p, |p| - |l|, |p|, '/');
    SliceKeepsOut(q, 0, |r|, '/');
    SplitParts(l, r);
    TrimSpacePadded(a, l, []);
    TrimSpacePadded([], r, b);
  }

  /** Two slash-free pieces joined by a slash hold one slash and split
      back into the two pieces. */
  lemma SplitParts(l: string, r: string)
    requires '/' !in l && '/' !in r
    ensures Count(l + "/" + r, '/') == 1
    ensures Split(l + "/" + r, '/') == [l, r]
  {
    OneSlash(l, r);
    SplitFirst(l, '/', r);
    SplitNone(r, '/');
  }

  /** Text around a slash, with no space at its outer ends, has nothing to
      trim. */
  lemma SlashTrimmed(l: string, r: string)
    requires l == [] || !IsSpace(l[0])
    requires r == [] || !IsSpace(r[|r| - 1])
    ensures Trimmed(l + "/" + r)
  {
    var m := l + "/" + r;
    assert m[0] == (if l == [] then '/' else l[0]);
    assert m[|m| - 1] == (if r == [] then '/' else r[|r| - 1]);
  }

  /** `p/q` regrouped around its middle, for `p = a + l` and `q = r + b`. */
  lemma Regroup(p: string, q: string, a: string, l: string, r: string, b: string)
    requires |l| <= |p| && l == p[|p| - |l|..] && a == p[..|p| - |l|]
    requires |r| <= |q| && r == q[..|r|] && b == q[|r|..]
    ensures p == a + l + [] && q == [] + r + b
    ensures p + "/" + q == a + (l + "/" + r) + b
  {
    assert p == a + l;
    assert q == r + b;
  }

  /** `p/q` with slash-free, trimmed, non-empty `p` and `q` is its own
      trimming and splits at its only slash into `p` and `q`. */
  lemma NetworkTextShape(p: string, q: string)
    requires p != [] && q != [] && Trimmed(p) && Trimmed(q) && '/' !in p && '/' !in q
    ensures TrimSpace(p + "/" + q) == p + "/" + q
    ensures Count(p + "/" + q, '/') == 1
    ensures Split(p + "/" + q, '/') == [p, q]
  {
    var s := p + "/" + q;
    assert s[0] == p[0] && s[|s| - 1] == q[|q| - 1];
    TrimSpaceOfTrimmed(s);
    OneSlash(p, q);
    SplitFirst(p, '/', q);
    SplitNone(q, '/');
  }

  // ---------------------------------------------------------------------
  // Examples (the cases of ipaddr/network_test.go).

  /** 192.168.123.123/19 spans 192.168.96.0 to 192.168.127.255;
      192.168.12.34/255.255.248.0 spans 192.168.8.0 to 192.168.15.255. */
  lemma ExampleEnds(n19: IP4Network, n21: IP4Network)
    requires n19 == IP4Network([192, 168, 123, 123], [255, 255, 224, 0])
    requires n21 == IP4Network([192, 168, 12, 34], [255, 255, 248, 0])
    ensures NetworkOf(n19) == [192, 168, 96, 0] && BroadcastOf(n19) == [192, 168, 127, 255]
    ensures NetworkOf(n21) == [192, 168, 8, 0] && BroadcastOf(n21) == [192, 168, 15, 255]
  {
  }

  /** 192.168.1.123/19 contains 192.168.2.34 but not 192.168.100.123. */
  lemma ExampleContains(net: IP4Network, inside: IP4Address, outside: IP4Address)
    requires net == IP4Network([192, 168, 1, 123], [255, 255, 224, 0])
    requires inside == [192, 168, 2, 34] && outside == [192, 168, 100, 123]
    ensures InNetwork(net, inside) && !InNetwork(net, outside)
  {
    assert NetworkOf(IP4Network(inside, net.netmask)) == NetworkOf(net);
    SamePrefixContained(net, inside);
    assert BroadcastOf(net) == [192, 168, 31, 255];
    ValueOfFour(outside);
    ValueOfFour(BroadcastOf(net));
  }

  lemma ExampleOctetTexts(x: bv8, t: string)
    requires (x, t) == (255, "255") || (x, t) == (248, "248") || (x, t) == (0, "0")
    ensures OctetText(x) == t
  {
    if x == 255 {
      assert DecimalText(25) == "25";
    } else if x == 248 {
      assert DecimalText(24) == "24";
    }
  }

  /** 255.255.248.0 and 255.255.0.248 render as written. */
  lemma ExampleMaskText(m: IP4Address, t: string)
    requires (m, t) == ([255, 255, 248, 0], "255.255.248.0") || (m, t) == ([255, 255, 0, 248], "255.255.0.248")
    ensures Address.String(m) == t
  {
    ExampleOctetTexts(255, "255");
    ExampleOctetTexts(248, "248");
    ExampleOctetTexts(0, "0");
  }

  /** "19" is the netmask 255.255.224.0, whose prefix length is 19. */
  lemma ExampleNetmaskCidr(text: string, m: IP4Address)
    requires text == "19" && m == [255, 255, 224, 0]
    ensures ParseNetmask(text) == Ok(m) && Cidr(m) == 19
  {
    assert DecimalText(19) == text;
    assert MaskOfLength(19) == m;
    ParseCidr(19);
  }

  /** "255.255.248.0" is the netmask 255.255.248.0, whose prefix length is
      21. */
  lemma ExampleNetmaskDotted(text: string, m: IP4Address)
    requires text == "255.255.248.0" && m == [255, 255, 248, 0]
    ensures ParseNetmask(text) == Ok(m) && Cidr(m) == 21
  {
    ExampleMaskText(m, text);
    StringShape(m);
    TrimSpaceOfTrimmed(text);
    assert MaskOfLength(21) == m;
    MaskOfLengthSpec(21);
    ParseNetmaskIff(text);
  }

  /** "35" is neither a prefix length nor an address. */
  lemma ExampleNetmaskTooLong(text: string)
    requires text == "35"
    ensures ParseNetmask(text) == Err(InvalidNetmask)
  {
    Example35Trimmed(text);
    Example35NotCidr(text);
    Example35NotAddress(text);
    ParseNetmaskIff(text);
    ParseNetmaskError(text);
  }

  lemma Example35Trimmed(text: string)
    requires text == "35"
    ensures TrimSpace(text) == text
  {
    TrimSpaceOfTrimmed(text);
  }

  lemma Example35NotCidr(text: string)
    requires text == "35"
    ensures !IsCidrText(text)
  {
  }

  lemma Example35NotAddress(text: string)
    requires text == "35"
    ensures !IsAddressText(text)
  {
    assert '.' !in text;
    SplitNone(text, '.');
  }

  /** 1.2.3.4 is an address but has 1 bits after 0 bits. */
  lemma ExampleNetmaskNotContiguous(text: string, a: IP4Address)
    requires text == "1.2.3.4" && a == [1, 2, 3, 4]
    ensures ParseNetmask(text) == Err(InvalidNetmask)
  {
    ExampleSmallText(text, a);
    StringShape(a);
    TrimSpaceOfTrimmed(text);
    ExampleNotContiguous(a);
    ParseNetmaskIff(text);
    ParseNetmaskError(text);
  }

  lemma ExampleSmallText(text: string, a: IP4Address)
    requires text == "1.2.3.4" && a == [1, 2, 3, 4]
    ensures Address.String(a) == text
  {
    assert DecimalText(1) == "1" && DecimalText(2) == "2";
    assert DecimalText(3) == "3" && DecimalText(4) == "4";
  }

  lemma ExampleNotContiguous(a: IP4Address)
    requires a == [1, 2, 3, 4]
    ensures !ValidNetmask(a)
  {
    BitOfOctet(a, 0, 0);
    BitOfOctet(a, 0, 7);
    ProbeValues();
    assert !Bit(a, 0) && Bit(a, 7);
  }

  /** 192.168.1.123 with netmask 255.255.224.0 prints as
      "192.168.1.123/19". */
  lemma ExampleNetworkString(net: IP4Network, text: string)
    requires net == IP4Network([192, 168, 1, 123], [255, 255, 224, 0])
    requires text == "192.168.1.123/19"
    ensures String(net) == text
  {
    ExampleString(net.address);
    ExampleValidMask();
    assert IntText(19) == "19";
  }

  /** "192.168.1.123/21" is 192.168.1.123 with netmask 255.255.248.0, its
      host bits kept. */
  lemma ExampleParseCidrNetwork(text: string, net: IP4Network)
    requires text == "192.168.1.123/21"
    requires net == IP4Network([192, 168, 1, 123], [255, 255, 248, 0])
    ensures ParseNetwork(text) == Ok(net)
  {
    ExampleString(net.address);
    assert MaskOfLength(21) == net.netmask;
    MaskOfLengthSpec(21);
    assert IntText(21) == "21";
    assert String(net) == text;
    ParseNetworkString(net);
  }

  /** The text of an address or a netmask, as it sits on one side of the
      slash: non-empty, trimmed, without a slash. */
  predicate IsPart(s: string)
  {
    s != [] && Trimmed(s) && '/' !in s
  }

  lemma AddressIsPart(a: IP4Address)
    ensures IsPart(Address.String(a))
  {
    StringShape(a);
  }

  lemma ExampleAddressPart(p: string, a: IP4Address)
    requires p == "192.168.1.123" && a == [192, 168, 1, 123]
    ensures IsPart(p) && ParseAddress(p) == Ok(a)
  {
    ExampleString(a);
    AddressIsPart(a);
    ParseString(a);
  }

  lemma ExampleMaskPart(q: string, m: IP4Address)
    requires q == "255.255.248.0" && m == [255, 255, 248, 0]
    ensures IsPart(q) && ParseNetmask(q) == Ok(m)
  {
    ExampleMaskText(m, q);
    AddressIsPart(m);
    ExampleNetmaskDotted(q, m);
  }

  /** "192.168.1.123/255.255.248.0" is the same network (the texts below
      are given as the parts on either side of the slash). */
  lemma ExampleParseDottedNetwork(p: string, q: string, net: IP4Network)
    requires p == "192.168.1.123" && q == "255.255.248.0"
    requires net == IP4Network([192, 168, 1, 123], [255, 255, 248, 0])
    ensures ParseNetwork(p + "/" + q) == Ok(net)
  {
    ExampleAddressPart(p, net.address);
    ExampleMaskPart(q, net.netmask);
    ParseNetworkParts(p, q);
  }

  /** "192.168.1.123/35": the prefix length is out of range. */
  lemma ExampleNetworkBadCidr(p: string, q: string)
    requires p == "192.168.1.123" && q == "35"
    ensures ParseNetwork(p + "/" + q) == Err(InvalidNetmask)
  {
    ExampleAddressPart(p, [192, 168, 1, 123]);
    Example35Part(q);
    ParseNetworkNetmaskError(p, q);
  }

  lemma Example35Part(q: string)
    requires q == "35"
    ensures IsPart(q) && ParseNetmask(q) == Err(InvalidNetmask)
  {
    Example35IsPart(q);
    ExampleNetmaskTooLong(q);
  }

  /** "192.168.1.123 / 255.255.248.0" is the same network again: the space
      on either side of the slash is trimmed by the part parsers. */
  lemma ExampleSpacedNetwork(p: string, q: string, net: IP4Network)
    requires p == "192.168.1.123" && q == "255.255.248.0"
    requires net == IP4Network([192, 168, 1, 123], [255, 255, 248, 0])
    ensures ParseNetwork(p + " / " + q) == Ok(net)
  {
    ExampleAddressPart(p, net.address);
    ExampleMaskPart(q, net.netmask);
    SpacedParts(p, q);
    ParseNetworkParts(p + " ", " " + q);
  }

  /** A space on either side of the slash goes to the part next to it,
      where the part parsers trim it away. */
  lemma SpacedParts(p: string, q: string)
    requires '/' !in p && '/' !in q
    ensures p + " / " + q == (p + " ") + "/" + (" " + q)
    ensures '/' !in p + " " && '/' !in " " + q
    ensures ParseAddress(p + " ") == ParseAddress(p)
    ensures ParseNetmask(" " + q) == ParseNetmask(q)
  {
    assert " / " == " " + "/" + " ";
    Regroup5(p, " ", "/", " ", q);
    assert p + " " == [] + p + " ";
    assert " " + q == " " + q + [];
    ParseAddressPadded([], p, " ");
    ParseNetmaskPadded(" ", q, []);
  }

  /** Concatenation is associative, five pieces at a time. */
  lemma Regroup5(x: string, y: string, z: string, w: string, v: string)
    ensures x + (y + z + w) + v == (x + y) + z + (w + v)
  {
  }

  /** White space around an address part does not change its parse. */
  lemma ParseAddressPadded(a: string, x: string, b: string)
    requires AllSpace(a) && AllSpace(b)
    ensures ParseAddress(a + x + b) == ParseAddress(x)
  {
    TrimSpacePadded(a, x, b);
    ParseAddressTrim(a + x + b, x);
  }

  /** White space around a netmask part does not change its parse. */
  lemma ParseNetmaskPadded(a: string, x: string, b: string)
    requires AllSpace(a) && AllSpace(b)
    ensures ParseNetmask(a + x + b) == ParseNetmask(x)
  {
    TrimSpacePadded(a, x, b);
    ParseNetmaskTrim(a + x + b, x);
  }

  /** "/24": there is no address before the slash. */
  lemma ExampleNetworkNoAddress(p: string, q: string)
    requires p == "" && q == "24"
    ensures ParseNetwork(p + "/" + q) == Err(InvalidAddress)
  {
    ParseEmpty(p);
    assert '/' !in q;
    ParseNetworkAddressError(p, q);
  }

  lemma ParseEmpty(p: string)
    requires p == []
    ensures '/' !in p && ParseAddress(p) == Err(InvalidAddress)
  {
    CandidateOfTrimmed(p);
    SplitNone(p, '.');
  }

  /** "192.168.1.123/255.255.0.248": the netmask is not contiguous. */
  lemma ExampleNetworkBadMask(p: string, q: string)
    requires p == "192.168.1.123" && q == "255.255.0.248"
    ensures ParseNetwork(p + "/" + q) == Err(InvalidNetmask)
  {
    ExampleAddressPart(p, [192, 168, 1, 123]);
    ExampleBadMaskPart(q, [255, 255, 0, 248]);
    ParseNetworkNetmaskError(p, q);
  }

  lemma Example35IsPart(q: string)
    requires q == "35"
    ensures IsPart(q)
  {
    assert q[0] == '3' && q[1] == '5';
  }

  lemma ExampleBadMaskPart(q: string, m: IP4Address)
    requires q == "255.255.0.248" && m == [255, 255, 0, 248]
    ensures IsPart(q) && ParseNetmask(q) == Err(InvalidNetmask)
  {
    ExampleMaskText(m, q);
    StringShape(m);
    AddressIsPart(m);
    ExampleBadMaskBits(m);
    TrimSpaceOfTrimmed(q);
    ParseNetmaskIff(q);
    ParseNetmaskError(q);
  }

  lemma ExampleBadMaskBits(m: IP4Address)
    requires m == [255, 255, 0, 248]
    ensures !ValidNetmask(m)
  {
    BitOfOctet(m, 2, 0);
    BitOfOctet(m, 3, 0);
    ProbeValues();
    assert !Bit(m, 16) && Bit(m, 24);
  }

  /** "100.200.300.400/255.255.248.0": the address is out of range. */
  lemma ExampleNetworkBadAddress(p: string, q: string)
    requires p == "100.200.300.400" && q == "255.255.248.0"
    ensures ParseNetwork(p + "/" + q) == Err(InvalidAddress)
  {
    ExampleBadAddressPart(p);
    ExampleMaskPart(q, [255, 255, 248, 0]);
    ParseNetworkAddressError(p, q);
  }

  lemma ExampleBadAddressPart(p: string)
    requires p == "100.200.300.400"
    ensures IsPart(p) && ParseAddress(p) == Err(InvalidAddress)
  {
    ExampleRefusedShape(p);
    assert p[0] == '1';
    ExampleOutOfRange(p);
  }
}
