/** IPv4 addresses (ipaddr/address.go): a fixed 4-byte value, its big-endian
    `uint32` form and its dotted-decimal text. The netmask predicates on
    addresses are in module `Netmask`, the number an address stands for in
    module `Numbers`. */
module Address {
  import opened Results
  import opened Text

  const IP4AddressSize: nat := 4

  /** Go's `IP4Address`, a `[4]byte` value; octet 0 is the most significant. */
  type IP4Address = s: seq<bv8> | |s| == 4 witness [0, 0, 0, 0]

  // ---------------------------------------------------------------------
  // The big-endian `uint32` form.

  /** The address read as a big-endian 32-bit word. */
  function BigEndian(a: IP4Address): bv32
  {
    (a[0] as bv32 << 24) | (a[1] as bv32 << 16) | (a[2] as bv32 << 8) | a[3] as bv32
  }

  /** The four bytes of a 32-bit word, most significant first. */
  function FromBigEndian(v: bv32): IP4Address
  {
    [((v >> 24) & 0xFF) as bv8, ((v >> 16) & 0xFF) as bv8, ((v >> 8) & 0xFF) as bv8, (v & 0xFF) as bv8]
  }

  /** Reading an address as a word and splitting the word again gives the
      address back, and the other way round: the two forms are in one-to-one
      correspondence. */
  lemma BigEndianRoundTrip(a: IP4Address, v: bv32)
    ensures FromBigEndian(BigEndian(a)) == a
    ensures BigEndian(FromBigEndian(v)) == v
    ensures FromBigEndian(v) == a <==> BigEndian(a) == v
  {
  }

  /** Go's `CreateIP4AddressFromBytes`: exactly four bytes are accepted, and
      they become the octets in order. */
  method CreateIP4AddressFromBytes(value: seq<bv8>) returns (r: Result<IP4Address>)
    ensures r.Ok? <==> |value| == IP4AddressSize
    ensures r.Ok? ==> r.value == value
    ensures r.Err? ==> r.error == WrongLength(|value|)
  {
    if |value| != IP4AddressSize {
      return Err(WrongLength(|value|));
    }
    var address := new bv8[IP4AddressSize];
    forall i | 0 <= i < IP4AddressSize {
      address[i] := value[i];
    }
    return Ok(address[..]);
  }

  /** `v` after `i` of the right shifts by 8 that
      `CreateIP4AddressFromUint32` performs. */
  function Shifted(v: bv32, i: nat): bv32
  {
    if i == 0 then v else if i == 1 then v >> 8 else if i == 2 then v >> 16 else if i == 3 then v >> 24 else 0
  }

  lemma ShiftStep0(v: bv32, i: nat)
    requires i == 0
    ensures Shifted(v, i) >> 8 == Shifted(v, i + 1) && (Shifted(v, i) & 0xFF) as bv8 == FromBigEndian(v)[3 - i]
  {
  }

  lemma ShiftStep1(v: bv32, i: nat)
    requires i == 1
    ensures Shifted(v, i) >> 8 == Shifted(v, i + 1) && (Shifted(v, i) & 0xFF) as bv8 == FromBigEndian(v)[3 - i]
  {
  }

  lemma ShiftStep2(v: bv32, i: nat)
    requires i == 2
    ensures Shifted(v, i) >> 8 == Shifted(v, i + 1) && (Shifted(v, i) & 0xFF) as bv8 == FromBigEndian(v)[3 - i]
  {
  }

  lemma ShiftStep3(v: bv32, i: nat)
    requires i == 3
    ensures Shifted(v, i) >> 8 == Shifted(v, i + 1) && (Shifted(v, i) & 0xFF) as bv8 == FromBigEndian(v)[3 - i]
  {
  }

  /** Round `i` of `CreateIP4AddressFromUint32`: the low byte of the
      shifted word is octet `3 - i`, and one more shift gives the next word. */
  lemma ShiftStep(v: bv32, i: nat)
    requires i < 4
    ensures Shifted(v, i) >> 8 == Shifted(v, i + 1)
    ensures (Shifted(v, i) & 0xFF) as bv8 == FromBigEndian(v)[3 - i]
  {
    if i == 0 {
      ShiftStep0(v, i);
    } else if i == 1 {
      ShiftStep1(v, i);
    } else if i == 2 {
      ShiftStep2(v, i);
    } else {
      ShiftStep3(v, i);
    }
  }

  /** Four bytes that agree with an address position by position are it. */
  lemma SameOctets(s: seq<bv8>, a: IP4Address)
    requires |s| == 4 && forall k :: 0 <= k < 4 ==> s[k] == a[k]
    ensures s == a
  {
  }

  /** Go's `CreateIP4AddressFromUint32`: never fails, and puts the most
      significant byte of `value` in octet 0. */
  method CreateIP4AddressFromUint32(value: bv32) returns (r: Result<IP4Address>)
    ensures r == Ok(FromBigEndian(value))
  {
    ghost var target := FromBigEndian(value);
    var bytes := new bv8[IP4AddressSize];
    var rest := value;
    for i := 0 to IP4AddressSize
      invariant rest == Shifted(value, i)
      invariant forall k :: IP4AddressSize - i <= k < IP4AddressSize ==> bytes[k] == target[k]
    {
      ShiftStep(value, i);
      bytes[IP4AddressSize - i - 1] := (rest & 0xFF) as bv8;
      rest := rest >> 8;
    }
    SameOctets(bytes[..], target);
    r := CreateIP4AddressFromBytes(bytes[..]);
  }

  /** The word `ToUint32` has built after shifting in the first `n` octets. */
  function BigEndianPrefix(a: IP4Address, n: nat): bv32
    requires n <= 4
  {
    if n == 0 then 0
    else if n == 1 then a[0] as bv32
    else if n == 2 then (a[0] as bv32 << 8) | a[1] as bv32
    else if n == 3 then (a[0] as bv32 << 16) | (a[1] as bv32 << 8) | a[2] as bv32
    else BigEndian(a)
  }

  lemma ShiftInThird(x0: bv8, x1: bv8, x2: bv8)
    ensures (((x0 as bv32 << 8) | x1 as bv32) << 8) | x2 as bv32
         == (x0 as bv32 << 16) | (x1 as bv32 << 8) | x2 as bv32
  {
  }

  lemma ShiftInFourth(x0: bv8, x1: bv8, x2: bv8, x3: bv8)
    ensures (((x0 as bv32 << 16) | (x1 as bv32 << 8) | x2 as bv32) << 8) | x3 as bv32
         == (x0 as bv32 << 24) | (x1 as bv32 << 16) | (x2 as bv32 << 8) | x3 as bv32
  {
  }

  /** Round `n` of `ToUint32`: shifting the partial word left by 8 and
      or-ing in octet `n` gives the partial word of `n + 1` octets. */
  lemma PrefixStep(a: IP4Address, n: nat)
    requires n < 4
    ensures BigEndianPrefix(a, n + 1) == (BigEndianPrefix(a, n) << 8) | a[n] as bv32
  {
    if n == 2 {
      ShiftInThird(a[0], a[1], a[2]);
    } else if n == 3 {
      ShiftInFourth(a[0], a[1], a[2], a[3]);
    }
  }

  /** Go's `ToUint32`: shifts each octet in from the right. */
  method ToUint32(addr: IP4Address) returns (value: bv32)
    ensures value == BigEndian(addr)
  {
    value := 0;
    for i := 0 to IP4AddressSize
      invariant value == BigEndianPrefix(addr, i)
    {
      PrefixStep(addr, i);
      value := value << 8;
      value := value | addr[i] as bv32;
    }
  }

  // ---------------------------------------------------------------------
  // Dotted-decimal text.

  /** One group of the address regex at ipaddr/address.go:37, alternative by
      alternative: `25[0-5]`, `2[0-4]\d`, `1\d\d`, `[1-9]\d` or `\d`, where
      `\d` is an ASCII digit. */
  predicate IsOctetText(s: string)
  {
    (|s| == 3 && s[0] == '2' && s[1] == '5' && '0' <= s[2] <= '5') ||
    (|s| == 3 && s[0] == '2' && '0' <= s[1] <= '4' && IsDigit(s[2])) ||
    (|s| == 3 && s[0] == '1' && IsDigit(s[1]) && IsDigit(s[2])) ||
    (|s| == 2 && '1' <= s[0] <= '9' && IsDigit(s[1])) ||
    (|s| == 1 && IsDigit(s[0]))
  }

  /** The whole address regex, anchored at both ends: four octet groups, a
      dot between neighbours and none at the end. (`\.?\b` admits a missing
      dot only where a word boundary follows, and between two digits there
      is none; after a final dot there is no boundary before the end.) */
  predicate IsAddressText(s: string)
  {
    var parts := Split(s, '.');
    |parts| == IP4AddressSize && forall k :: 0 <= k < IP4AddressSize ==> IsOctetText(parts[k])
  }

  /** Go's `byte(v)`: the low 8 bits of an `int`, that is the octet whose
      number is `v` modulo 256. */
  function ToByte(v: int): bv8
  {
    OctetOf(v % 256)
  }

  /** The octet whose number is `n`, reached from 0 by `n` increments. */
  function OctetOf(n: nat): bv8
    requires n < 256
  {
    if n == 0 then 0 else OctetOf(n - 1) + 1
  }

  /** The octet an octet group stands for (`strconv.Atoi`, then `byte`). */
  function OctetValue(s: string): bv8
    requires IsOctetText(s)
  {
    OctetTextDigits(s);
    ToByte(DecimalValue(s))
  }

  /** The octets of text the regex accepts, group by group. */
  function OctetsOf(s: string): IP4Address
    requires IsAddressText(s)
  {
    var parts := Split(s, '.');
    [OctetValue(parts[0]), OctetValue(parts[1]), OctetValue(parts[2]), OctetValue(parts[3])]
  }

  /** Octet `k` of accepted text is the value of its group `k`. */
  lemma OctetsOfGroups(s: string)
    requires IsAddressText(s)
    ensures forall k :: 0 <= k < IP4AddressSize ==>
      IsOctetText(Split(s, '.')[k]) && OctetsOf(s)[k] == OctetValue(Split(s, '.')[k])
  {
  }

  /** The text `CreateIP4Address` validates: the trimmed input, cut at its
      only slash if it has one. */
  function Candidate(text: string): string
  {
    var t := TrimSpace(text);
    if Count(t, '/') == 1 then Split(t, '/')[0] else t
  }

  /** What `CreateIP4Address` answers for `text`. */
  function ParseAddress(text: string): Result<IP4Address>
  {
    if Count(TrimSpace(text), '/') > 1 then Err(TooManySlashes)
    else if IsAddressText(Candidate(text)) then Ok(OctetsOf(Candidate(text)))
    else Err(InvalidAddress)
  }

  /** Go's `CreateIP4Address`: trims the text, refuses more than one slash,
      drops what follows a single slash, matches the address regex and
      stores the value of each group in the next octet. */
  method CreateIP4Address(address: string) returns (r: Result<IP4Address>)
    ensures r == ParseAddress(address)
  {
    var addr := new bv8[IP4AddressSize];
    var text := TrimSpace(address);
    var slashCount := Count(text, '/');
    if slashCount > 1 {
      return Err(TooManySlashes);
    }
    if slashCount > 0 {
      text := Split(text, '/')[0];
    }
    if !IsAddressText(text) {
      return Err(InvalidAddress);
    }
    var parts := Split(text, '.');
    ghost var target := OctetsOf(text);
    OctetsOfGroups(text);
    for i := 0 to |parts|
      invariant forall k :: 0 <= k < i ==> addr[k] == target[k]
    {
      OctetTextDigits(parts[i]);
      var octetValue := DecimalValue(parts[i]);
      addr[i] := ToByte(octetValue);
    }
    SameOctets(addr[..], target);
    return Ok(addr[..]);
  }

  /** Go's `String` on an address: `"%d.%d.%d.%d"` of the four octets. */
  function String(a: IP4Address): string
  {
    OctetText(a[0]) + "." + OctetText(a[1]) + "." + OctetText(a[2]) + "." + OctetText(a[3])
  }

  /** `%d` of one octet. */
  function OctetText(x: bv8): string
  {
    DecimalText(x as int)
  }

  /** The four groups of an address's text. */
  function OctetTexts(a: IP4Address): seq<string>
  {
    [OctetText(a[0]), OctetText(a[1]), OctetText(a[2]), OctetText(a[3])]
  }

  // ---------------------------------------------------------------------
  // What the text form satisfies.

  lemma OctetTextDigits(s: string)
    requires IsOctetText(s)
    ensures AllDigits(s) && 1 <= |s| <= 3
  {
  }

  /** A canonical digit string of four or more digits is at least 1000. */
  lemma {:induction false} LongDecimal(s: string)
    requires Canonical(s) && |s| >= 4
    ensures DecimalValue(s) >= 1000
    decreases |s|
  {
    var init := s[..|s| - 1];
    assert init[0] == s[0];
    if |s| == 4 {
      CanonicalPositive(s[..1]);
      assert s[..1] == init[..1] && init[..2][..1] == s[..1];
      assert DecimalValue(init[..2]) >= 10;
    } else {
      LongDecimal(init);
    }
  }

  lemma TwoDigits(s: string)
    requires |s| == 2 && AllDigits(s)
    ensures DecimalValue(s) == DigitValue(s[0]) * 10 + DigitValue(s[1])
  {
    var first := s[..1];
    assert first == [s[0]] && first[..0] == [];
    assert DecimalValue(first) == DigitValue(s[0]);
  }

  lemma ThreeDigits(s: string)
    requires |s| == 3 && AllDigits(s)
    ensures DecimalValue(s) == DigitValue(s[0]) * 100 + DigitValue(s[1]) * 10 + DigitValue(s[2])
  {
    var init := s[..2];
    assert init[0] == s[0] && init[1] == s[1];
    TwoDigits(init);
  }

  /** An octet group is exactly the `%d` rendering of a number from 0 to
      255. */
  lemma OctetTextIff(s: string)
    ensures IsOctetText(s) <==> Canonical(s) && DecimalValue(s) <= 255
  {
    if Canonical(s) {
      if |s| >= 4 {
        LongDecimal(s);
      } else if |s| == 3 {
        ThreeDigits(s);
      } else if |s| == 2 {
        TwoDigits(s);
      }
    }
  }

  /** The rendering of an octet is an octet group whose value is the octet. */
  lemma OctetTextSpec(x: bv8)
    ensures IsOctetText(OctetText(x))
    ensures OctetValue(OctetText(x)) == x
    ensures '.' !in OctetText(x) && '/' !in OctetText(x)
    ensures !IsSpace(OctetText(x)[0]) && !IsSpace(OctetText(x)[|OctetText(x)| - 1])
  {
    OctetTextMatches(x);
    OctetTextDigitsOnly(x);
  }

  lemma OctetTextMatches(x: bv8)
    ensures IsOctetText(OctetText(x)) && OctetValue(OctetText(x)) == x
  {
    OctetTextIsGroup(x);
    var t := OctetText(x);
    DecimalRoundTrip(x as int);
    assert DecimalValue(t) == x as int;
    ByteOfOctet(x);
  }

  lemma OctetTextIsGroup(x: bv8)
    ensures IsOctetText(OctetText(x))
  {
    var n := x as int;
    OctetBounds(x);
    DecimalRoundTrip(n);
    OctetTextIff(DecimalText(n));
  }

  lemma OctetTextDigitsOnly(x: bv8)
    ensures '.' !in OctetText(x) && '/' !in OctetText(x)
    ensures !IsSpace(OctetText(x)[0]) && !IsSpace(OctetText(x)[|OctetText(x)| - 1])
  {
    var t := DecimalText(x as int);
    DecimalRoundTrip(x as int);
    assert AllDigits(t);
    assert IsDigit(t[0]) && IsDigit(t[|t| - 1]);
  }

  lemma ByteOfOctet(x: bv8)
    ensures ToByte(x as int) == x
  {
    OctetBounds(x);
    assert (x as int) % 256 == x as int;
    OctetOfValue(x as int);
    OctetSame(OctetOf(x as int), x);
  }

  lemma OctetBounds(x: bv8)
    ensures 0 <= x as int < 256
  {
  }

  lemma OctetIncrement(x: bv8)
    requires x as int < 255
    ensures (x + 1) as int == x as int + 1
  {
  }

  lemma OctetSame(x: bv8, y: bv8)
    requires x as int == y as int
    ensures x == y
  {
  }

  /** `OctetOf(n)` stands for `n`. */
  lemma {:induction false} OctetOfValue(n: nat)
    requires n < 256
    ensures OctetOf(n) as int == n
  {
    if n > 0 {
      OctetOfValue(n - 1);
      OctetIncrement(OctetOf(n - 1));
    }
  }

  /** An octet group renders back from the octet it stands for. */
  lemma OctetValueSpec(s: string)
    requires IsOctetText(s)
    ensures OctetText(OctetValue(s)) == s
  {
    OctetTextIff(s);
    OctetTextDigits(s);
    ByteInRange(DecimalValue(s));
    CanonicalRoundTrip(s);
  }

  lemma ByteInRange(v: nat)
    requires v <= 255
    ensures ToByte(v) as int == v
  {
    assert v % 256 == v;
    OctetOfValue(v);
  }

  /** An address's text is its four groups joined with dots. */
  lemma StringIsJoin(a: IP4Address)
    ensures String(a) == Join(OctetTexts(a), '.')
  {
    JoinFour(OctetText(a[0]), OctetText(a[1]), OctetText(a[2]), OctetText(a[3]), '.');
  }

  /** Splitting an address's text at its dots gives back the four groups. */
  lemma SplitString(a: IP4Address)
    ensures Split(String(a), '.') == OctetTexts(a)
  {
    var t := OctetTexts(a);
    forall k | 0 <= k < |t|
      ensures '.' !in t[k]
    {
      OctetTextDigitsOnly(a[k]);
    }
    StringIsJoin(a);
    SplitJoin(t, '.');
  }

  /** The groups of an address's text are the renderings of its octets. */
  lemma StringGroups(a: IP4Address)
    ensures |Split(String(a), '.')| == IP4AddressSize
    ensures forall k :: 0 <= k < IP4AddressSize ==> Split(String(a), '.')[k] == OctetText(a[k])
  {
    SplitString(a);
  }

  /** An address's text matches the regex and its groups give the octets
      back. */
  lemma StringMatches(a: IP4Address)
    ensures IsAddressText(String(a)) && OctetsOf(String(a)) == a
  {
    StringGroups(a);
    forall k | 0 <= k < IP4AddressSize
      ensures IsOctetText(OctetText(a[k])) && OctetValue(OctetText(a[k])) == a[k]
    {
      OctetTextSpec(a[k]);
    }
  }

  lemma StringHasNoSlash(a: IP4Address)
    ensures '/' !in String(a)
  {
    OctetTextSpec(a[0]);
    OctetTextSpec(a[1]);
    OctetTextSpec(a[2]);
    OctetTextSpec(a[3]);
  }

  lemma StringTrimmed(a: IP4Address)
    ensures Trimmed(String(a)) && String(a) != []
  {
    OctetTextSpec(a[0]);
    OctetTextSpec(a[3]);
    var s := String(a);
    assert s[0] == OctetText(a[0])[0];
    assert s[|s| - 1] == OctetText(a[3])[|OctetText(a[3])| - 1];
  }

  /** An address's text matches the regex, carries no slash and nothing for
      `TrimSpace` to remove. */
  lemma StringShape(a: IP4Address)
    ensures IsAddressText(String(a))
    ensures OctetsOf(String(a)) == a
    ensures '/' !in String(a)
    ensures Trimmed(String(a)) && String(a) != []
  {
    StringMatches(a);
    StringHasNoSlash(a);
    StringTrimmed(a);
  }

  /** Text without a slash that `TrimSpace` leaves alone is its own
      candidate. */
  lemma CandidateOfTrimmed(s: string)
    requires Trimmed(s) && '/' !in s
    ensures TrimSpace(s) == s && Count(s, '/') == 0 && Candidate(s) == s
  {
    TrimSpaceOfTrimmed(s);
    CountSpec(s, '/');
  }

  /** Parsing the text of an address gives the address back. */
  lemma ParseString(a: IP4Address)
    ensures ParseAddress(String(a)) == Ok(a)
  {
    StringShape(a);
    CandidateOfTrimmed(String(a));
  }

  /** Text the regex accepts is the rendering of the octets read from it. */
  lemma RenderAccepted(s: string)
    requires IsAddressText(s)
    ensures String(OctetsOf(s)) == s
  {
    var parts := Split(s, '.');
    var a := OctetsOf(s);
    OctetsOfGroups(s);
    forall k | 0 <= k < IP4AddressSize
      ensures OctetText(a[k]) == parts[k]
    {
      OctetValueSpec(parts[k]);
    }
    assert OctetTexts(a) == parts;
    StringIsJoin(a);
    SplitSpec(s, '.');
  }

  /** A successful parse accepted exactly the text of the address it
      returns: no padding, no leading zeros. */
  lemma ParseAccepted(text: string)
    requires ParseAddress(text).Ok?
    ensures String(ParseAddress(text).value) == Candidate(text)
  {
    RenderAccepted(Candidate(text));
  }

  /** The regex accepts exactly the texts of addresses. */
  lemma AddressTextIff(s: string)
    ensures IsAddressText(s) <==> exists a: IP4Address :: String(a) == s
  {
    if IsAddressText(s) {
      RenderAccepted(s);
      assert String(OctetsOf(s)) == s;
    }
    if exists a: IP4Address :: String(a) == s {
      var a: IP4Address :| String(a) == s;
      StringShape(a);
    }
  }

  /** The parser refuses the text exactly when it has more than one slash
      (after trimming), or its candidate does not match the regex. */
  lemma ParseErrors(text: string)
    ensures ParseAddress(text) == Err(TooManySlashes) <==> Count(TrimSpace(text), '/') > 1
    ensures ParseAddress(text) == Err(InvalidAddress) <==>
      Count(TrimSpace(text), '/') <= 1 && !IsAddressText(Candidate(text))
  {
  }

  /** Trimming `p + "/" + q` where `p` starts and ends with non-space keeps
      `p` and the slash. */
  lemma TrimAroundSlash(p: string, q: string)
    requires p != [] && Trimmed(p)
    ensures exists j :: 0 <= j <= |q| && TrimSpace(p + "/" + q) == p + "/" + q[..j]
  {
    var x := p + "/" + q;
    assert x[0] == p[0];
    var r := TrimRight(x);
    assert x[|p|] == '/';
    assert |r| > |p|;
    var j := |r| - |p| - 1;
    assert r == p + "/" + q[..j];
  }

  lemma OneSlash(p: string, q: string)
    requires '/' !in p && '/' !in q
    ensures Count(p + "/" + q, '/') == 1
  {
    CountAppend(p + "/", q, '/');
    CountAppend(p, "/", '/');
    CountSpec(p, '/');
    CountSpec(q, '/');
  }

  /** Whatever follows a single slash is dropped unread: the result is that
      of the text before it. */
  lemma SlashSuffixIgnored(p: string, q: string)
    requires p != [] && Trimmed(p) && '/' !in p && '/' !in q
    ensures ParseAddress(p + "/" + q) == ParseAddress(p)
  {
    TrimAroundSlash(p, q);
    var j :| 0 <= j <= |q| && TrimSpace(p + "/" + q) == p + "/" + q[..j];
    var rest := q[..j];
    assert '/' !in rest;
    OneSlash(p, rest);
    SplitFirst(p, '/', rest);
    assert Candidate(p + "/" + q) == p;
    CandidateOfTrimmed(p);
    SameCandidate(p + "/" + q, p);
  }

  /** Texts with at most one slash each and the same candidate parse
      alike. */
  lemma SameCandidate(x: string, y: string)
    requires Count(TrimSpace(x), '/') <= 1 && Count(TrimSpace(y), '/') <= 1
    requires Candidate(x) == Candidate(y)
    ensures ParseAddress(x) == ParseAddress(y)
  {
  }

  /** `CreateIP4Address` reads only the trimmed text: texts that trim alike
      parse alike. */
  lemma ParseAddressTrim(x: string, y: string)
    requires TrimSpace(x) == TrimSpace(y)
    ensures ParseAddress(x) == ParseAddress(y)
  {
    assert Candidate(x) == Candidate(y);
  }

  // ---------------------------------------------------------------------
  // Examples.

  /** 0xc0a8017b is 192.168.1.123, both ways. */
  lemma ExampleWord()
    ensures FromBigEndian(0xc0a8017b) == [192, 168, 1, 123]
    ensures BigEndian([192, 168, 1, 123]) == 0xc0a8017b
  {
  }

  /** 192.168.1.123 renders as "192.168.1.123". */
  lemma ExampleString(a: IP4Address)
    requires a == [192, 168, 1, 123]
    ensures String(a) == "192.168.1.123"
  {
    ExampleOctetText(192, "192");
    ExampleOctetText(168, "168");
    ExampleOctetText(1, "1");
    ExampleOctetText(123, "123");
  }

  lemma ExampleOctetText(x: bv8, t: string)
    requires (x, t) == (192, "192") || (x, t) == (168, "168") || (x, t) == (1, "1") || (x, t) == (123, "123")
    ensures OctetText(x) == t
  {
    if x == 192 {
      assert DecimalText(19) == "19";
    } else if x == 168 {
      assert DecimalText(16) == "16";
    } else if x == 123 {
      assert DecimalText(12) == "12";
    }
  }

  /** "192.168.1.123" parses to 192.168.1.123. */
  lemma ExampleParse(text: string, a: IP4Address)
    requires text == "192.168.1.123" && a == [192, 168, 1, 123]
    ensures ParseAddress(text) == Ok(a)
  {
    ExampleString(a);
    ParseString(a);
  }

  /** "192.168.1.123/24" parses to 192.168.1.123 too: the prefix length is
      not read. */
  lemma ExampleParseSlash(text: string, a: IP4Address)
    requires text == "192.168.1.123/24" && a == [192, 168, 1, 123]
    ensures ParseAddress(text) == Ok(a)
  {
    var q := "24";
    ExampleString(a);
    assert String(a) + "/" + q == text;
    StringShape(a);
    SlashSuffixIgnored(String(a), q);
    ParseString(a);
  }

  /** "192.168.1.123 " parses, as its trailing space is trimmed, but
      "192.168.1.123 /24" does not: the space before the slash is kept, and
      the last group "123 " does not match. */
  lemma ExampleSpaceBeforeSlash(p: string, q: string, a: IP4Address)
    requires p == "192.168.1.123 " && q == "24" && a == [192, 168, 1, 123]
    ensures ParseAddress(p) == Ok(a)
    ensures ParseAddress(p + "/" + q) == Err(InvalidAddress)
  {
    ExampleString(a);
    StringShape(a);
    assert p == [] + String(a) + " ";
    TrimSpacePadded([], String(a), " ");
    ParseAddressTrim(p, String(a));
    ParseString(a);
    SpacedCandidate(p, q);
    ExampleGroups(p, ["192", "168", "1", "123 "]);
    assert !IsOctetText(Split(p, '.')[3]);
  }

  /** The candidate of "192.168.1.123 /24" is the text before the slash,
      space included. */
  lemma SpacedCandidate(p: string, q: string)
    requires p == "192.168.1.123 " && q == "24"
    ensures Count(TrimSpace(p + "/" + q), '/') == 1 && Candidate(p + "/" + q) == p
  {
    var s := p + "/" + q;
    assert s[0] == '1' && s[|s| - 1] == '4';
    assert '/' !in p && '/' !in q;
    CandidateAtSlash(p, q);
  }

  /** With nothing to trim around it, the candidate of `p/q` is `p`,
      whatever white space `p` ends with. */
  lemma CandidateAtSlash(p: string, q: string)
    requires '/' !in p && '/' !in q && Trimmed(p + "/" + q)
    ensures Count(TrimSpace(p + "/" + q), '/') == 1 && Candidate(p + "/" + q) == p
  {
    TrimSpaceOfTrimmed(p + "/" + q);
    OneSlash(p, q);
    SplitFirst(p, '/', q);
  }

  /** The groups of "192.168.1.123 " and of "100.200.300.400". */
  lemma ExampleGroups(text: string, parts: seq<string>)
    requires (text == "192.168.1.123 " && parts == ["192", "168", "1", "123 "]) ||
             (text == "100.200.300.400" && parts == ["100", "200", "300", "400"])
    ensures Split(text, '.') == parts
  {
    JoinFour(parts[0], parts[1], parts[2], parts[3], '.');
    assert Join(parts, '.') == text;
    SplitJoin(parts, '.');
  }

  /** "100.200.300.400" has no slash and no surrounding space. */
  lemma ExampleRefusedShape(text: string)
    requires text == "100.200.300.400"
    ensures Trimmed(text) && '/' !in text
  {
    var s := "100" + "." + "200" + "." + "300" + "." + "400";
    assert s == text;
    assert s[0] == '1' && s[|s| - 1] == '0';
  }

  /** "100.200.300.400" is its own candidate and does not match the regex. */
  lemma ExampleNotAddressText(text: string)
    requires text == "100.200.300.400"
    ensures Candidate(text) == text && Count(TrimSpace(text), '/') == 0
    ensures !IsAddressText(text)
  {
    assert !IsOctetText("300");
    ExampleGroups(text, ["100", "200", "300", "400"]);
    assert !IsOctetText(Split(text, '.')[2]);
    ExampleRefusedShape(text);
    CandidateOfTrimmed(text);
  }

  /** "100.200.300.400" is refused: 300 is not an octet. */
  lemma ExampleOutOfRange(text: string)
    requires text == "100.200.300.400"
    ensures ParseAddress(text) == Err(InvalidAddress)
  {
    ExampleNotAddressText(text);
  }
}
