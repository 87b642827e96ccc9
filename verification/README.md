# go-ipaddr, IPv4 core, in Dafny

This project models the IPv4 part of the Go package `ipaddr` together with its
network iterator, and proves properties of the model:

- `IP4Address`: four octets. It can be built from a byte slice, from a
  `uint32` or from dotted-decimal text, and turned back into a `uint32` or
  text. It also carries the netmask tests `IsValidNetMask` and `ToCIDR`.
- `IP4Network`: an address with a netmask. It provides the network and
  broadcast addresses, membership (`Contains`), the `address/cidr` text and
  the parsers `CreateIP4Netmask` and `CreateIP4Network`.
- `IP4NetworkIterator`: a cursor that walks the addresses of a network from
  the network address to the broadcast address, optionally skipping both
  ends.

Octets are `bv8` and Go's `uint32` is `bv32`, so Go's shifts, masks and
wrap-around are native. `IP4Address` is a sequence of exactly four octets.
`Numeric` reads a word as the natural number it stands for, big-endian, and
`ValueOf` does the same for octets.

Files:

- `results.dfy`: the error kinds and the `Result`, `Option` and `Outcome`
  wrappers.
- `text.dfy`: the library helpers the core calls, written out by hand.
  These are `strings.TrimSpace`, `Count` and `Split`, and the decimal
  conversion behind `strconv.Atoi` and `%d`.
- `numbers.dfy`: the numbers that octets and words stand for.
- `address.dfy`: address construction, parsing and rendering.
- `netmask.dfy`: `IsValidNetMask`, `ToCIDR` and the masks of a prefix length.
- `network.dfy`: networks, membership and the two parsers.
- `iterator.dfy`: `Iterate` and the iterator class with `Inc`, `Dec` and
  `Next`.

Go code that loops or fills a local array is a `method` proved against a
specification function. This covers `CreateIP4AddressFromUint32`,
`ToUint32`, `CreateIP4Address`, `IsValidNetMask`, `ToCIDR`,
`NetworkAddress` and `BroadcastAddress`. The properties the library
promises are then proved about those functions.

The iterator is a class whose methods change `started` and `address` in
place. Each method's contract relates the new fields to a function of the
old ones (`IncOf`, `DecOf`, `Advance`). What a run of `Next` calls hands out
is proved about those functions:

- the addresses still to come (`Pending`) shrink by their first element on
  every call;
- calling `Next` until it hands out nothing yields exactly `Iteration`, the
  numbers from network to broadcast address, without the two ends when only
  hosts are wanted.

## Model

| member | source | states |
|---|---|---|
| `Address.CreateIP4AddressFromBytes` | ipaddr/address.go:40-47 | fails exactly when the input does not hold four bytes, with the length it got; otherwise the address is the input bytes in order |
| `Address.CreateIP4AddressFromUint32` | ipaddr/address.go:50-57 | never fails; the shifting loop yields the big-endian octets of the word, most significant first |
| `Address.ToUint32` | ipaddr/address.go:135-143 | the shift-and-or loop yields the big-endian word of the four octets |
| `Address.BigEndianRoundTrip` | ipaddr/address.go:50-57 | word to octets and octets to word are inverse in both directions |
| `Address.ExampleWord` | ipaddr/address.go:50-57 | `0xc0a8017b` is `192.168.1.123` and back |
| `Address.CreateIP4Address` | ipaddr/address.go:60-92 | the parse loop stores group k's value in octet k, so the result agrees with `ParseAddress` on every input: trim, refuse two or more slashes, cut at one slash, match the regex |
| `Address.ParseErrors` | ipaddr/address.go:62-80 | the too-many-slashes error is returned exactly when the trimmed text holds more than one slash; the invalid-address error exactly when the text left after the cut does not match the address regex |
| `Address.SlashSuffixIgnored` | ipaddr/address.go:69-71 | for text before the slash that is non-empty and has no surrounding white space, whatever slash-free text follows the one slash is dropped unread: the result is that of the text before the slash |
| `Address.ParseAddressTrim` | ipaddr/address.go:62 | only the trimmed text is read: texts that trim alike parse alike |
| `Address.ExampleSpaceBeforeSlash` | ipaddr/address.go:62-80 | `"192.168.1.123 "` parses, but `"192.168.1.123 /24"` is an invalid address: only the outer ends are trimmed, so the space before the slash stays in the last group |
| `Address.ExampleParseSlash` | ipaddr/address.go:69-71 | `"192.168.1.123/24"` parses as `192.168.1.123` |
| `Address.OctetTextIff` | ipaddr/address.go:37 | an octet group of the regex is exactly the canonical decimal text (no leading zero) of a number up to 255 |
| `Address.AddressTextIff` | ipaddr/address.go:37 | the regex accepts exactly the texts that render some address |
| `Address.ParseAccepted` | ipaddr/address.go:73-89 | an accepted address renders back to the very text that was parsed |
| `Address.ExampleParse` | ipaddr/address.go:60-92 | `"192.168.1.123"` parses as `192.168.1.123` |
| `Address.ExampleNotAddressText` | ipaddr/address.go:73-80 | `"100.200.300.400"` has no slash and does not match the regex |
| `Address.ExampleOutOfRange` | ipaddr/address.go:73-80 | `"100.200.300.400"` is refused as an invalid address |
| `Address.StringShape` | ipaddr/address.go:145-147 | the rendered text matches the regex, names the same octets, has no slash and no surrounding space |
| `Address.StringGroups` | ipaddr/address.go:145-147 | the rendering has four dot-separated groups, group k being the unpadded decimal of octet k |
| `Address.ParseString` | ipaddr/address.go:145-147 | parsing the rendering gives back the address |
| `Address.RenderAccepted` | ipaddr/address.go:145-147 | text the regex accepts is the rendering of the octets it names |
| `Address.OctetTextSpec` | ipaddr/address.go:146 | the `%d` of an octet is a regex group of that value, with neither dot nor slash |
| `Address.ExampleString` | ipaddr/address.go:145-147 | `192.168.1.123` renders as `"192.168.1.123"` |
| `Netmask.IsValidNetMask` | ipaddr/address.go:95-113 | the nested bit scan with its `zeroes` flag answers `ValidNetmask`: no set bit follows a clear bit, most significant first |
| `Netmask.ScanFromValid` | ipaddr/address.go:95-113 | the scan, resumed octet by octet and bit by bit, decides exactly `ValidNetmask` |
| `Netmask.ValidNetmaskIff` | ipaddr/address.go:95-113 | a mask is valid exactly when it is the mask of some prefix length 0 to 32 |
| `Netmask.ValidNetmaskIsMask` | ipaddr/address.go:95-133 | a valid mask is the mask of its own `ToCIDR` |
| `Netmask.ToCIDR` | ipaddr/address.go:116-133 | the counting loop returns `Cidr`: -1 for an invalid mask, otherwise the leading ones |
| `Netmask.CidrSpec` | ipaddr/address.go:116-133 | -1 exactly for invalid masks; otherwise a count from 0 to 32 such that bit k is set exactly below it |
| `Netmask.CidrExact` | ipaddr/address.go:116-133 | a valid mask whose first n bits are set and whose bit n is clear has prefix length n |
| `Netmask.ExampleValidMask` | ipaddr/address.go:95-133 | `255.255.224.0` is valid, with prefix length 19 |
| `Netmask.ExampleInvalidMask` | ipaddr/address.go:95-133 | `255.255.0.224` is invalid, with `ToCIDR` -1 |
| `Netmask.ExampleExtremeMasks` | ipaddr/address.go:116-133 | all-zero gives 0 and all-ones gives 32 |
| `Netmask.MaskBits` | ipaddr/network.go:94-97 | bit k of `0xffffffff << (32 - n)` is set exactly when k < n; n = 0 gives no bits |
| `Netmask.MaskOfLengthSpec` | ipaddr/network.go:94-100 | the mask built from prefix length n is valid and its `ToCIDR` is n |
| `Network.NetworkAddress` | ipaddr/network.go:47-55 | the loop yields the octet-wise address AND netmask |
| `Network.BroadcastAddress` | ipaddr/network.go:64-73 | the loop yields the octet-wise address OR NOT netmask |
| `Network.NetworkNetwork` | ipaddr/network.go:57-62 | replaces only the address, by the network address; the netmask and both ends of the range are unchanged |
| `Network.BroadcastNetwork` | ipaddr/network.go:75-80 | replaces only the address, by the broadcast address; the netmask and both ends of the range are unchanged |
| `Network.SameRange` | ipaddr/network.go:57-80 | a network whose address is either end of another's range, with the same mask, has the same range |
| `Network.ExampleEnds` | ipaddr/network.go:47-73 | `192.168.123.123/19` spans `192.168.96.0` to `192.168.127.255`, and `192.168.12.34/21` spans `192.168.8.0` to `192.168.15.255` |
| `Network.Contains` | ipaddr/network.go:36-45 | answers `InNetwork`, the numeric comparison of the address with network and broadcast address |
| `Network.EndsContained` | ipaddr/network.go:36-73 | the network address is numerically at most the broadcast address, and both ends and the address itself are contained |
| `Network.SamePrefixContained` | ipaddr/network.go:36-45 | an address whose network part equals the network's is contained |
| `Network.ExampleContains` | ipaddr/network.go:36-45 | `192.168.1.123/19` contains `192.168.2.34` and not `192.168.100.123` |
| `Network.CidrTextIff` | ipaddr/network.go:10 | the CIDR regex accepts exactly the canonical decimals 0 to 32 |
| `Network.CidrTextOf` | ipaddr/network.go:10 | the `%d` of every n from 0 to 32 matches the CIDR regex and reads back as n |
| `Network.CreateIP4Netmask` | ipaddr/network.go:82-126 | agrees with `ParseNetmask` on every input: a CIDR gives its mask, matched dotted text must parse and be a valid mask, anything else fails |
| `Network.ParseNetmaskTrim` | ipaddr/network.go:83 | only the trimmed text is read: texts that trim alike give the same netmask or error |
| `Network.ParseNetmaskIff` | ipaddr/network.go:82-126 | succeeds exactly on CIDR text or on matching dotted text that names a valid mask; dotted success returns the octets written |
| `Network.ParseNetmaskValid` | ipaddr/network.go:82-126 | every netmask returned is valid |
| `Network.ParseNetmaskError` | ipaddr/network.go:109-125 | the only error is the invalid-netmask one, because matched dotted text always parses |
| `Network.ParseCidr` | ipaddr/network.go:86-106 | the decimal text of n in 0..32 gives the mask of prefix length n, whose `ToCIDR` is n |
| `Network.ExampleNetmaskCidr` | ipaddr/network.go:86-106 | `"19"` gives `255.255.224.0` |
| `Network.ExampleNetmaskDotted` | ipaddr/network.go:109-122 | `"255.255.248.0"` is accepted, with prefix length 21 |
| `Network.ExampleNetmaskTooLong` | ipaddr/network.go:124-125 | `"35"` matches neither regex and fails |
| `Network.ExampleNetmaskNotContiguous` | ipaddr/network.go:116-119 | `"1.2.3.4"` parses as an address but is refused as a mask |
| `Network.CreateIP4Network` | ipaddr/network.go:128-155 | agrees with `ParseNetwork` on every input: exactly one slash, an address before it, a netmask after it, and the first error passed on unchanged |
| `Network.ParseNetworkErrors` | ipaddr/network.go:128-149 | the one-slash error is returned exactly when the trimmed text does not hold one slash; no other error kinds than the three of the parsers occur |
| `Network.NetworkTextParts` | ipaddr/network.go:129-137 | trimming `p/q` with slash-free `p` and `q` cuts white space from the outer ends only, leaves the one slash, and splits into the two parts; each part trims as it did before |
| `Network.ParseNetworkParts` | ipaddr/network.go:137-154 | for any slash-free parts, with or without white space around them, that both parse, the network is the parsed address, host bits kept, with the parsed netmask |
| `Network.ParseNetworkAddressError` | ipaddr/network.go:140-143 | for any slash-free parts, an address error is passed on unchanged |
| `Network.ParseNetworkNetmaskError` | ipaddr/network.go:146-149 | for any slash-free parts, a netmask error after a good address is passed on unchanged |
| `Network.ParseNetworkValid` | ipaddr/network.go:146-154 | every parsed network carries a valid netmask |
| `Network.ParseNetworkString` | ipaddr/network.go:32-34 | for a valid mask, parsing the `address/cidr` text gives back the network |
| `Network.ExampleNetworkString` | ipaddr/network.go:32-34 | `192.168.1.123` with `255.255.224.0` renders as `"192.168.1.123/19"` |
| `Network.ExampleParseCidrNetwork` | ipaddr/network.go:128-155 | `"192.168.1.123/21"` gives that address, unmasked, with `255.255.248.0` |
| `Network.ExampleParseDottedNetwork` | ipaddr/network.go:128-155 | `"192.168.1.123/255.255.248.0"` gives that address with that mask |
| `Network.ExampleSpacedNetwork` | ipaddr/network.go:128-155 | `"192.168.1.123 / 255.255.248.0"` gives the same network as without the spaces |
| `Network.ExampleNetworkNoAddress` | ipaddr/network.go:140-143 | `"/24"` fails as an invalid address |
| `Network.ExampleNetworkBadCidr` | ipaddr/network.go:146-149 | `"192.168.1.123/35"` fails as an invalid netmask |
| `Network.ExampleNetworkBadMask` | ipaddr/network.go:146-149 | `"192.168.1.123/255.255.0.248"` fails as an invalid netmask |
| `Network.ExampleNetworkBadAddress` | ipaddr/network.go:140-143 | `"100.200.300.400/255.255.248.0"` fails as an invalid address |
| `Iterator.Iterate` | ipaddr/network.go:18-30 | a fresh, unstarted iterator whose six fields are the given `hostsOnly`, not started, the network address as position and as start, the netmask and the broadcast address, all as big-endian words; its pending numbers are exactly `Iteration(net, hostsOnly)` |
| `Iterator.IterateStart` | ipaddr/network.go:22-29 | the fields set up lie in the network, carry the netmask unchanged, and leave exactly `Iteration(net, hostsOnly)` pending |
| `Iterator.IterationAll` | iterator.go:38-63 | without `HostsOnly`: exactly the contained addresses, broadcast minus network plus one of them, strictly ascending |
| `Iterator.IterationHosts` | iterator.go:41-53 | with `HostsOnly`: exactly the contained addresses other than the two ends, so none for /31 and /32 |
| `Iterator.ExampleIteration` | iterator.go:38-63 | a /29 gives 8 addresses `.120` to `.127`, or 6 hosts `.121` to `.126` |
| `Iterator.IP4NetworkIterator.constructor` | iterator.go:13-20 | the six fields as given |
| `Iterator.IP4NetworkIterator.Inc` | iterator.go:22-28 | fails and changes nothing at the broadcast address, otherwise moves one address up; only `address` is written |
| `Iterator.IncValid` | iterator.go:22-28 | `Inc` keeps the position between network and broadcast address, and its step adds exactly one, with no wrap-around |
| `Iterator.IP4NetworkIterator.Dec` | iterator.go:30-36 | fails and changes nothing at the network address, otherwise moves one address down; only `address` is written |
| `Iterator.DecValid` | iterator.go:30-36 | `Dec` keeps the position in the network, and its step subtracts exactly one, with no wrap-around |
| `Numbers.NumericInc` | iterator.go:26 | below the top word, `+= 1` raises the number by one |
| `Numbers.NumericDec` | iterator.go:34 | above zero, `-= 1` lowers the number by one |
| `Iterator.IP4NetworkIterator.Step` | iterator.go:39-45 | the first two branches of `Next`: start, skipping the network address for hosts only, or move one up |
| `Iterator.IP4NetworkIterator.Next` | iterator.go:38-63 | moves as `Advance`; hands out nothing exactly when it was already at the broadcast address or reaches it with `HostsOnly`; otherwise hands out the network at the new position with the iterator's netmask |
| `Iterator.AdvanceFirst` | iterator.go:39-45 | the position after the move is the first number pending, or the broadcast address when hosts are wanted and none are pending |
| `Iterator.NextAtEnd` | iterator.go:46-48 | started at the broadcast address, `Next` hands out nothing, changes nothing, and nothing is pending |
| `Iterator.NextStops` | iterator.go:50-53 | reaching the broadcast address with `HostsOnly` hands out nothing, and nothing was pending |
| `Iterator.NextHandsOut` | iterator.go:56-62 | otherwise the number handed out is the first pending one and the rest stay pending |
| `Iterator.NextPending` | iterator.go:38-63 | from every valid position, `Next` keeps the position in the network and hands out the first pending number, leaving the rest pending, or nothing once nothing is pending; the netmask is the iterator's |
| `Iterator.CollectPending` | iterator.go:38-63 | calling `Next` until it hands out nothing hands out exactly the pending numbers, in order |
| `Iterator.NextNoneFinal` | iterator.go:44-53 | once `Next` has handed out nothing, the position rests at the broadcast address, and every later call hands out nothing and changes nothing |
| `Text.TrimSpaceSpec` | ipaddr/address.go:62 | the trimmed text is a slice of the input with only white space cut from either end |
| `Text.TrimSpaceTrimmed` | ipaddr/address.go:62 | the result neither starts nor ends with white space |
| `Text.TrimSpaceIdempotent` | ipaddr/address.go:62 | trimming twice is trimming once |
| `Text.CountSpec` | ipaddr/address.go:63 | the count is the character's multiplicity, zero exactly when it is absent |
| `Text.SplitSpec` | ipaddr/address.go:70 | one more part than separators, no part holds the separator, and joining the parts gives the text back |
| `Text.SplitJoin` | ipaddr/network.go:137 | splitting parts joined by a separator they lack gives the parts back |
| `Text.DecimalRoundTrip` | ipaddr/address.go:87 | the decimal text of n is canonical and reads back as n |
| `Text.CanonicalRoundTrip` | ipaddr/address.go:146 | canonical digits are the decimal text of their value |

## Left out

- IPv6 is not modelled: `IP6Address`, `IPVersion`, the `IPAddress` interface
  and the `Version` methods (ipaddr/address.go:11-35) only return constants.
- The `IP4NetworkIteration` interface (iterator.go:7-11) is not modelled. It
  has no behaviour, and the iterator's `Next` does not satisfy its signature.
- Go's `regexp` engine is not modelled. The two regexes are written as
  grammar predicates: `IsAddressText` and `IsOctetText` for
  ipaddr/address.go:37, and `IsCidrText` for ipaddr/network.go:10.
- `strconv.Atoi` is modelled as decimal conversion of digit text. Its error
  branch (ipaddr/network.go:89-91) cannot be reached after the regex has
  matched, so it is not modelled.
- `fmt.Sprintf` is written out as `%d` rendering. `fmt.Errorf` messages
  become the kinds of the `Error` datatype:
  - wrong length;
  - too many slashes;
  - invalid address;
  - invalid netmask;
  - expected one slash;
  - no more addresses.
- The error branch of `regexp.Match` (ipaddr/address.go:74-76) only reports
  a malformed pattern, and the pattern is fixed, so it is not modelled.
- The `SplitN(address, "/", 1)` branch (ipaddr/address.go:82-84) is dead: no
  slash is left by then. It is not modelled.
- The `CreateIP4AddressFromUint32` calls in `CreateIP4Netmask` and `Next`
  ignore or test errors that never occur, because the function always
  succeeds. The model shows that instead of modelling the branches.
- The error of `Inc` inside `Next` is discarded by `Step`, as in Go. It can
  only arise on the first call when the network and broadcast addresses are
  the same and only hosts are wanted. `Next` then hands out nothing, as in
  Go.
- Strings are sequences of characters, not UTF-8 bytes. Invalid UTF-8 and
  its handling by `strings.TrimSpace` are not modelled. The white space
  trimmed is the Unicode White_Space set.
- Go's `[4]byte` arrays are values. The model uses four-element sequences.
  Methods with pointer receivers that do not write (`ToUint32`, `String`,
  `NetworkAddress`, ...) take the value.
- `Iterator.Iterate`: Go returns the iterator struct by value, so each
  caller holds its own copy. The model returns a fresh object instead. It is
  not shared with anything else, but assigning it copies the reference, not
  the fields.
- `Iterator.IP4NetworkIterator.Next`: its contract ties the call to `Advance`,
  `Stops` and `Current`, the parts of `NextOf`. The properties about the
  pending addresses (`NextPending`, `CollectPending`, `NextNoneFinal`) are
  proved about `NextOf` rather than repeated in the method's contract.
- `Iterator.IP4NetworkIterator.Next`: Go tests `address == broadcastAddress`
  in its third branch. The model returns early for a started iterator at the
  broadcast address before calling `Step`. This gives the same outcome,
  because the second branch has already excluded every other started case.
