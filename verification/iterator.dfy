/** Walking the addresses of a network one at a time.

    The iterator keeps its position as a 32-bit word and moves it with
    `Inc`/`Dec`; `Next` hands out one network per address until the
    broadcast address is passed. Its behaviour is specified by `Pending`,
    the numbers of the addresses the remaining calls of `Next` will hand
    out. */
module Iterator {
  import opened Results
  import opened Address
  import opened Numbers
  import opened Network

  /** The integers `lo`, `lo + 1`, ..., `hi - 1`. */
  function Range(lo: int, hi: int): (r: seq<int>)
    ensures |r| == if lo < hi then hi - lo else 0
    ensures forall i :: 0 <= i < |r| ==> r[i] == lo + i
    decreases hi - lo
  {
    if lo >= hi then [] else [lo] + Range(lo + 1, hi)
  }

  /** A non-empty range starts at its lower bound, and dropping that
      element starts it one later. */
  lemma RangeTail(lo: int, hi: int)
    requires lo < hi
    ensures Range(lo, hi) != [] && Range(lo, hi)[0] == lo
    ensures Range(lo, hi)[1..] == Range(lo + 1, hi)
  {
  }

  /** A range holds exactly the integers between its bounds. */
  lemma RangeMembers(lo: int, hi: int, x: int)
    ensures x in Range(lo, hi) <==> lo <= x < hi
  {
    if lo <= x < hi {
      assert Range(lo, hi)[x - lo] == x;
    }
  }

  /** The numbers of the addresses a fresh iterator over `net` hands out:
      every address from the network address to the broadcast address,
      or only those strictly between them when `hostsOnly` is set. */
  function Iteration(net: IP4Network, hostsOnly: bool): seq<int>
  {
    var first, last := ValueOf(NetworkOf(net)), ValueOf(BroadcastOf(net));
    if hostsOnly then Range(first + 1, last) else Range(first, last + 1)
  }

  /** Iterating the whole network visits exactly its addresses, each once
      and in increasing order. */
  lemma IterationAll(net: IP4Network, addr: IP4Address)
    ensures ValueOf(addr) in Iteration(net, false) <==> InNetwork(net, addr)
    ensures |Iteration(net, false)| == ValueOf(BroadcastOf(net)) - ValueOf(NetworkOf(net)) + 1
    ensures forall i, j :: 0 <= i < j < |Iteration(net, false)| ==> Iteration(net, false)[i] < Iteration(net, false)[j]
  {
    var first, last := ValueOf(NetworkOf(net)), ValueOf(BroadcastOf(net));
    RangeMembers(first, last + 1, ValueOf(addr));
    EndsContained(net);
  }

  /** Iterating the hosts only visits the addresses of the network other
      than the network and the broadcast address. */
  lemma IterationHosts(net: IP4Network, addr: IP4Address)
    ensures ValueOf(addr) in Iteration(net, true) <==>
      InNetwork(net, addr) && addr != NetworkOf(net) && addr != BroadcastOf(net)
    ensures |Iteration(net, true)| == if ValueOf(BroadcastOf(net)) - ValueOf(NetworkOf(net)) >= 2
      then ValueOf(BroadcastOf(net)) - ValueOf(NetworkOf(net)) - 1 else 0
  {
    var first, last := ValueOf(NetworkOf(net)), ValueOf(BroadcastOf(net));
    RangeMembers(first + 1, last, ValueOf(addr));
    if ValueOf(addr) == first {
      ValueOfInjective(addr, NetworkOf(net));
    }
    if ValueOf(addr) == last {
      ValueOfInjective(addr, BroadcastOf(net));
    }
  }

  /** 192.168.1.123/29 runs from 192.168.1.120 to 192.168.1.127: eight
      addresses, six of them hosts, the hosts from .121 to .126. */
  lemma ExampleIteration(net: IP4Network)
    requires net == IP4Network([192, 168, 1, 123], [255, 255, 255, 248])
    ensures |Iteration(net, false)| == 8 && |Iteration(net, true)| == 6
    ensures Iteration(net, false)[0] == ValueOf([192, 168, 1, 120])
    ensures Iteration(net, false)[7] == ValueOf([192, 168, 1, 127])
    ensures Iteration(net, true)[0] == ValueOf([192, 168, 1, 121])
    ensures Iteration(net, true)[5] == ValueOf([192, 168, 1, 126])
  {
    var first, last := NetworkOf(net), BroadcastOf(net);
    assert first == [192, 168, 1, 120] && last == [192, 168, 1, 127];
    ValueOfFour(first);
    ValueOfFour(last);
    ValueOfFour([192, 168, 1, 121]);
    ValueOfFour([192, 168, 1, 126]);
  }

  /** The fields of an iterator at one moment. */
  datatype IteratorState = IteratorState(
    hostsOnly: bool,
    started: bool,
    address: bv32,
    netmask: bv32,
    networkAddress: bv32,
    broadcastAddress: bv32)

  /** The position lies between the two ends of the network. */
  predicate Valid(s: IteratorState)
  {
    Numeric(s.networkAddress) <= Numeric(s.address) <= Numeric(s.broadcastAddress)
  }

  /** The number the next call of `Next` may hand out: the position itself
      before the first call (one past it when the network address is to be
      skipped), the one after it from then on. */
  function First(s: IteratorState): int
  {
    if s.started || (s.address == s.networkAddress && s.hostsOnly) then Numeric(s.address) + 1
    else Numeric(s.address)
  }

  /** One past the last number handed out. */
  function End(s: IteratorState): int
  {
    if s.hostsOnly then Numeric(s.broadcastAddress) else Numeric(s.broadcastAddress) + 1
  }

  /** What the remaining calls of `Next` hand out, in order. */
  function Pending(s: IteratorState): seq<int>
  {
    Range(First(s), End(s))
  }

  /** `Inc` on the fields: one address up unless at the broadcast
      address. */
  function IncOf(s: IteratorState): IteratorState
  {
    if s.address == s.broadcastAddress then s else s.(address := Succ(s.address))
  }

  /** `Dec` on the fields: one address down unless at the network
      address. */
  function DecOf(s: IteratorState): IteratorState
  {
    if s.address == s.networkAddress then s else s.(address := Pred(s.address))
  }

  /** Where `Next` moves the position before deciding what to hand out. */
  function Advance(s: IteratorState): IteratorState
  {
    if !s.started then
      var t := s.(started := true);
      if t.address == t.networkAddress && t.hostsOnly then IncOf(t) else t
    else if s.address != s.broadcastAddress then IncOf(s)
    else s
  }

  /** Whether `Next` from `s` hands out nothing: it was already started
      at the broadcast address, or it has just reached the broadcast
      address and only hosts are wanted. */
  predicate Stops(s: IteratorState)
  {
    (s.started && s.address == s.broadcastAddress) ||
    (Advance(s).address == s.broadcastAddress && s.hostsOnly)
  }

  /** The network at the position of `t`, with the iterator's netmask. */
  function Current(t: IteratorState): IP4Network
  {
    IP4Network(FromBigEndian(t.address), FromBigEndian(t.netmask))
  }

  /** `Next` on the fields: the new fields, and the network handed out. */
  function NextOf(s: IteratorState): (IteratorState, Option<IP4Network>)
  {
    (Advance(s), if Stops(s) then None else Some(Current(Advance(s))))
  }

  /** Below the broadcast address the position moves up without wrapping
      around and stays in the network. */
  lemma StepUp(n: bv32, a: bv32, b: bv32)
    requires Numeric(n) <= Numeric(a) <= Numeric(b) && a != b
    ensures Numeric(Succ(a)) == Numeric(a) + 1 <= Numeric(b)
  {
    NumericInjective(a, b);
    NumericBound(b);
    NumericExtremes();
    NumericInc(a);
  }

  /** Above the network address the position moves down without wrapping
      around and stays in the network. */
  lemma StepDown(n: bv32, a: bv32, b: bv32)
    requires Numeric(n) <= Numeric(a) <= Numeric(b) && a != n
    ensures Numeric(n) <= Numeric(Pred(a)) == Numeric(a) - 1
  {
    NumericInjective(a, n);
    NumericExtremes();
    NumericDec(a);
  }

  /** `Inc` keeps the position in the network and, when it moves, adds
      one to its number. */
  lemma IncValid(s: IteratorState)
    requires Valid(s)
    ensures Valid(IncOf(s))
    ensures s.address != s.broadcastAddress ==> Numeric(IncOf(s).address) == Numeric(s.address) + 1
  {
    if s.address != s.broadcastAddress {
      StepUp(s.networkAddress, s.address, s.broadcastAddress);
    }
  }

  /** `Dec` keeps the position in the network and, when it moves, takes
      one from its number. */
  lemma DecValid(s: IteratorState)
    requires Valid(s)
    ensures Valid(DecOf(s))
    ensures s.address != s.networkAddress ==> Numeric(DecOf(s).address) == Numeric(s.address) - 1
  {
    if s.address != s.networkAddress {
      StepDown(s.networkAddress, s.address, s.broadcastAddress);
    }
  }

  /** Before the first call, or below the broadcast address, `Next` moves
      the position to the first pending number, or to the broadcast
      address when nothing is pending. */
  lemma AdvanceFirst(s: IteratorState)
    requires Valid(s) && !(s.started && s.address == s.broadcastAddress)
    ensures Valid(Advance(s)) && Advance(s).started
    ensures Numeric(Advance(s).address) == First(s) ||
      (Advance(s).address == s.broadcastAddress && s.hostsOnly && First(s) >= End(s))
  {
    var t := s.(started := true);
    if !s.started && s.address == s.networkAddress && s.hostsOnly {
      IncValid(t);
      if s.address == s.broadcastAddress {
        assert Numeric(s.address) + 1 > Numeric(s.broadcastAddress);
      }
    } else if s.started {
      IncValid(s);
    }
  }

  /** Once the broadcast address has been reached after the first call,
      nothing is pending and `Next` changes nothing. */
  lemma NextAtEnd(s: IteratorState)
    requires Valid(s) && s.started && s.address == s.broadcastAddress
    ensures NextOf(s) == (s, None) && Pending(s) == []
    ensures NextSpec(s, NextOf(s).0, NextOf(s).1)
  {
  }

  /** A number handed out is the first pending one, and the rest stay
      pending. */
  lemma HandOut(s: IteratorState, t: IteratorState)
    requires Valid(s) && Valid(t) && t.started
    requires t.hostsOnly == s.hostsOnly && t.broadcastAddress == s.broadcastAddress
    requires Numeric(t.address) == First(s)
    requires !(t.address == t.broadcastAddress && t.hostsOnly)
    ensures First(s) < End(s) && Pending(s) != [] && Pending(s)[0] == Numeric(t.address)
    ensures Pending(t) == Pending(s)[1..]
  {
    NumericInjective(t.address, t.broadcastAddress);
    RangeTail(First(s), End(s));
  }

  /** Stopping at the broadcast address when only hosts are wanted: nothing
      was pending and nothing is. */
  lemma StopAtBroadcast(s: IteratorState, t: IteratorState)
    requires t.started && t.hostsOnly && s.hostsOnly
    requires t.address == t.broadcastAddress && t.broadcastAddress == s.broadcastAddress
    requires Numeric(t.address) == First(s) || First(s) >= End(s)
    ensures Pending(s) == [] && Pending(t) == []
  {
  }

  /** `Next` stopping at the broadcast address when only hosts are
      wanted: nothing was pending and nothing is. */
  lemma NextStops(s: IteratorState)
    requires Valid(s) && !(s.started && s.address == s.broadcastAddress)
    requires Advance(s).address == s.broadcastAddress && s.hostsOnly
    ensures NextOf(s).1.None? && Pending(s) == []
    ensures NextSpec(s, NextOf(s).0, NextOf(s).1)
  {
    var t := Advance(s);
    AdvanceFirst(s);
    StopAtBroadcast(s, t);
  }

  /** `Next` handing out an address: the first pending one. */
  lemma NextHandsOut(s: IteratorState)
    requires Valid(s) && !(s.started && s.address == s.broadcastAddress)
    requires !(Advance(s).address == s.broadcastAddress && s.hostsOnly)
    ensures NextOf(s).1.Some? && Pending(s) != []
    ensures NextSpec(s, NextOf(s).0, NextOf(s).1)
  {
    var t := Advance(s);
    AdvanceFirst(s);
    HandOut(s, t);
    assert NextOf(s) == (t, Some(IP4Network(FromBigEndian(t.address), FromBigEndian(t.netmask))));
  }

  /** What a call of `Next` from `s` to `t` handing out `r` must do: keep
      the position in the network, hand out the first pending number
      and leave the rest pending, or, once nothing is pending, hand out
      nothing and leave nothing pending; a network handed out carries the
      iterator's netmask. */
  predicate NextSpec(s: IteratorState, t: IteratorState, r: Option<IP4Network>)
  {
    && Valid(t)
    && (Pending(s) == [] ==> r.None? && Pending(t) == [])
    && (Pending(s) != [] ==> r.Some? && ValueOf(r.value.address) == Pending(s)[0] && Pending(t) == Pending(s)[1..])
    && (r.Some? ==> r.value.netmask == FromBigEndian(s.netmask))
  }

  /** `Next` meets `NextSpec` from every position in the network. */
  lemma NextPending(s: IteratorState)
    requires Valid(s)
    ensures NextSpec(s, NextOf(s).0, NextOf(s).1)
  {
    if s.started && s.address == s.broadcastAddress {
      NextAtEnd(s);
    } else if Advance(s).address == s.broadcastAddress && s.hostsOnly {
      NextStops(s);
    } else {
      NextHandsOut(s);
    }
  }

  /** The numbers `Next` hands out, called over and over until it hands
      out nothing, as a caller's loop over an iterator does. */
  function Collect(s: IteratorState): seq<int>
    requires Valid(s)
    decreases |Pending(s)|
  {
    NextPending(s);
    var (t, r) := NextOf(s);
    if r.None? then [] else [ValueOf(r.value.address)] + Collect(t)
  }

  /** Calling `Next` until it hands out nothing hands out exactly what was
      pending. */
  lemma {:induction false} CollectPending(s: IteratorState)
    requires Valid(s)
    ensures Collect(s) == Pending(s)
    decreases |Pending(s)|
  {
    NextPending(s);
    var (t, r) := NextOf(s);
    if r.Some? {
      CollectPending(t);
    }
  }

  /** Once `Next` has handed out nothing, the position rests at the
      broadcast address, and every later call hands out nothing and
      changes nothing. */
  lemma NextNoneFinal(s: IteratorState)
    requires NextOf(s).1.None?
    ensures NextOf(s).0.started && NextOf(s).0.address == s.broadcastAddress
    ensures NextOf(NextOf(s).0) == (NextOf(s).0, None)
  {
  }

  /** Go's `IP4NetworkIterator`: the position and the bounds are kept as
      `uint32` words. */
  class IP4NetworkIterator {
    var hostsOnly: bool
    var started: bool
    var address: bv32
    var netmask: bv32
    var networkAddress: bv32
    var broadcastAddress: bv32

    constructor (hostsOnly: bool, started: bool, address: bv32, netmask: bv32,
                 networkAddress: bv32, broadcastAddress: bv32)
      ensures State() == IteratorState(hostsOnly, started, address, netmask, networkAddress, broadcastAddress)
    {
      this.hostsOnly := hostsOnly;
      this.started := started;
      this.address := address;
      this.netmask := netmask;
      this.networkAddress := networkAddress;
      this.broadcastAddress := broadcastAddress;
    }

    /** The fields as a value. */
    function State(): IteratorState
      reads this
    {
      IteratorState(hostsOnly, started, address, netmask, networkAddress, broadcastAddress)
    }

    /** Go's `Inc`: moves to the next address, refusing to move past the
        broadcast address (`IncValid` says what this does to the number of
        the position). */
    method Inc() returns (r: Outcome)
      modifies this`address
      ensures State() == IncOf(old(State()))
      ensures r == if old(address) == broadcastAddress then Fail(NoMoreAddresses) else Pass
    {
      ghost var s := State();
      if address == broadcastAddress {
        assert State() == IncOf(s);
        return Fail(NoMoreAddresses);
      }
      address := Succ(address);
      assert State() == IncOf(s);
      r := Pass;
    }

    /** Go's `Dec`: moves to the previous address, refusing to move below
        the network address (`DecValid` says what this does to the number
        of the position). */
    method Dec() returns (r: Outcome)
      modifies this`address
      ensures State() == DecOf(old(State()))
      ensures r == if old(address) == networkAddress then Fail(NoMoreAddresses) else Pass
    {
      ghost var s := State();
      if address == networkAddress {
        assert State() == DecOf(s);
        return Fail(NoMoreAddresses);
      }
      address := Pred(address);
      assert State() == DecOf(s);
      r := Pass;
    }

    /** The first two branches of Go's `Next`: start the iterator,
        skipping the network address when only hosts are wanted, or move
        on from a position below the broadcast address. */
    method Step()
      modifies this`started, this`address
      ensures State() == Advance(old(State()))
    {
      if !started {
        started := true;
        if address == networkAddress && hostsOnly {
          var _ := Inc();
        }
      } else if started && address != broadcastAddress {
        var _ := Inc();
      }
    }

    /** Go's `Next`: the network of the next address, or `None` once the
        addresses are used up. The branch that returns `nil` for a started
        iterator at the broadcast address is taken first; the other two
        are `Step`. From a position in the network `Next` meets
        `NextSpec` (see `NextPending`). */
    method Next() returns (r: Option<IP4Network>)
      modifies this`started, this`address
      ensures State() == Advance(old(State()))
      ensures r.None? <==> Stops(old(State()))
      ensures r.Some? ==> r.value == Current(State())
    {
      if started && address == broadcastAddress {
        return None;
      }
      Step();

      if address == broadcastAddress {
        if hostsOnly {
          return None;
        }
      }

      var a := CreateIP4AddressFromUint32(address);
      var m := CreateIP4AddressFromUint32(netmask);
      r := Some(IP4Network(a.value, m.value));
    }
  }

  /** Go's `Iterate`: an iterator positioned at the network address, not
      yet started, that will hand out `Iteration(net, hostsOnly)`. */
  method Iterate(net: IP4Network, hostsOnly: bool) returns (it: IP4NetworkIterator)
    ensures fresh(it) && Valid(it.State())
    ensures it.State() == IteratorState(hostsOnly, false, BigEndian(NetworkOf(net)), BigEndian(net.netmask),
                                        BigEndian(NetworkOf(net)), BigEndian(BroadcastOf(net)))
    ensures FromBigEndian(it.netmask) == net.netmask
    ensures Pending(it.State()) == Iteration(net, hostsOnly)
  {
    var networkAddress := NetworkAddress(net);
    var broadcastAddress := BroadcastAddress(net);
    var network := ToUint32(networkAddress);
    var mask := ToUint32(net.netmask);
    var broadcast := ToUint32(broadcastAddress);
    IterateStart(net, hostsOnly, network, mask, broadcast);
    it := new IP4NetworkIterator(hostsOnly, false, network, mask, network, broadcast);
  }

  /** The fields `Iterate` sets up lie in the network, and what they leave
      pending is the iteration of the network. */
  lemma IterateStart(net: IP4Network, hostsOnly: bool, network: bv32, mask: bv32, broadcast: bv32)
    requires network == BigEndian(NetworkOf(net)) && broadcast == BigEndian(BroadcastOf(net))
    requires mask == BigEndian(net.netmask)
    ensures Valid(IteratorState(hostsOnly, false, network, mask, network, broadcast))
    ensures FromBigEndian(mask) == net.netmask
    ensures Pending(IteratorState(hostsOnly, false, network, mask, network, broadcast)) == Iteration(net, hostsOnly)
  {
    NumericOfBigEndian(NetworkOf(net));
    NumericOfBigEndian(BroadcastOf(net));
    BigEndianRoundTrip(net.netmask, mask);
    EndsContained(net);
  }
}
