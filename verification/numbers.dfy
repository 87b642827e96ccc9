/** The number a 32-bit word stands for. Go compares and steps addresses as
    `uint32` values; here a word's number is read off its four octets in
    base 256, most significant first, so that counting and ordering can be
    stated with unbounded integers. */
module Numbers {
  import opened Address

  /** The number a big-endian byte string stands for. */
  function ValueOf(s: seq<bv8>): nat
  {
    if s == [] then 0 else ValueOf(s[..|s| - 1]) * 256 + s[|s| - 1] as int
  }

  /** The number a 32-bit word stands for. */
  function Numeric(v: bv32): nat
  {
    ValueOf(FromBigEndian(v))
  }

  // ---------------------------------------------------------------------
  // Single octets.

  lemma OctetLe(x: bv8, y: bv8)
    requires x <= y
    ensures x as int <= y as int
  {
  }

  // ---------------------------------------------------------------------
  // Byte strings.

  /** `t` copies of the octet `x`. */
  function Repeat(x: bv8, t: nat): (r: seq<bv8>)
    ensures |r| == t && forall i :: 0 <= i < t ==> r[i] == x
  {
    if t == 0 then [] else Repeat(x, t - 1) + [x]
  }

  /** Appending an octet shifts the number one place and adds the octet. */
  lemma ValueOfSnoc(p: seq<bv8>, x: bv8)
    ensures ValueOf(p + [x]) == ValueOf(p) * 256 + x as int
  {
    assert (p + [x])[..|p|] == p;
  }

  /** A leading zero octet does not change the number. */
  lemma {:induction false} ValueOfLeadingZero(p: seq<bv8>)
    ensures ValueOf([0] + p) == ValueOf(p)
    decreases |p|
  {
    if p != [] {
      var n := |p| - 1;
      ValueOfLeadingZero(p[..n]);
      assert [0] + p == ([0] + p[..n]) + [p[n]];
      assert p == p[..n] + [p[n]];
      ValueOfSnoc([0] + p[..n], p[n]);
      ValueOfSnoc(p[..n], p[n]);
    }
  }

  lemma ValueOfCarryBase(p: seq<bv8>, x: bv8)
    requires x != 0xFF
    ensures ValueOf(p + [x + 1] + Repeat(0, 0)) == ValueOf(p + [x] + Repeat(0xFF, 0)) + 1
  {
    assert p + [x + 1] + Repeat(0, 0) == p + [x + 1];
    assert p + [x] + Repeat(0xFF, 0) == p + [x];
    ValueOfSnoc(p, x + 1);
    ValueOfSnoc(p, x);
    OctetBounds(x);
    OctetIncrement(x);
  }

  lemma ValueOfCarryStep(u: seq<bv8>, w: seq<bv8>)
    requires ValueOf(u) == ValueOf(w) + 1
    ensures ValueOf(u + [0]) == ValueOf(w + [0xFF]) + 1
  {
    ValueOfSnoc(u, 0);
    ValueOfSnoc(w, 0xFF);
  }

  /** One more repeated octet goes at the end. */
  lemma RepeatSnoc(q: seq<bv8>, y: bv8, t: nat)
    requires t > 0
    ensures q + Repeat(y, t) == (q + Repeat(y, t - 1)) + [y]
  {
    assert Repeat(y, t) == Repeat(y, t - 1) + [y];
  }

  /** Adding one with a carry: `p, x, 0xFF, ..., 0xFF` plus one is
      `p, x + 1, 0, ..., 0`. */
  lemma {:induction false} ValueOfCarry(p: seq<bv8>, x: bv8, t: nat)
    requires x != 0xFF
    ensures ValueOf(p + [x + 1] + Repeat(0, t)) == ValueOf(p + [x] + Repeat(0xFF, t)) + 1
  {
    if t == 0 {
      ValueOfCarryBase(p, x);
    } else {
      ValueOfCarry(p, x, t - 1);
      ValueOfCarryStep(p + [x + 1] + Repeat(0, t - 1), p + [x] + Repeat(0xFF, t - 1));
      RepeatSnoc(p + [x + 1], 0, t);
      RepeatSnoc(p + [x], 0xFF, t);
    }
  }

  /** A base-256 number splits uniquely into its last digit and the rest. */
  lemma DigitSplit(a: nat, x: int, b: nat, y: int)
    requires 0 <= x < 256 && 0 <= y < 256
    requires a * 256 + x == b * 256 + y
    ensures a == b && x == y
  {
  }

  /** Byte strings of one length with the same number are equal. */
  lemma {:induction false} ValueOfInjective(s: seq<bv8>, t: seq<bv8>)
    requires |s| == |t| && ValueOf(s) == ValueOf(t)
    ensures s == t
    decreases |s|
  {
    if s != [] {
      var n := |s| - 1;
      OctetBounds(s[n]);
      OctetBounds(t[n]);
      DigitSplit(ValueOf(s[..n]), s[n] as int, ValueOf(t[..n]), t[n] as int);
      ValueOfInjective(s[..n], t[..n]);
      OctetSame(s[n], t[n]);
      assert s == s[..n] + [s[n]] && t == t[..n] + [t[n]];
    }
  }

  function Pow256(n: nat): nat
  {
    if n == 0 then 1 else 256 * Pow256(n - 1)
  }

  /** `n` octets stand for a number below `256^n`. */
  lemma {:induction false} ValueOfBound(s: seq<bv8>)
    ensures ValueOf(s) < Pow256(|s|)
    decreases |s|
  {
    if s != [] {
      ValueOfBound(s[..|s| - 1]);
      OctetBounds(s[|s| - 1]);
    }
  }

  // ---------------------------------------------------------------------
  // Words.

  /** The number of an address's word is the number of its octets. */
  lemma NumericOfBigEndian(a: IP4Address)
    ensures Numeric(BigEndian(a)) == ValueOf(a)
  {
    BigEndianRoundTrip(a, BigEndian(a));
  }

  /** Every word stands for a number below 2^32. */
  lemma NumericBound(v: bv32)
    ensures Numeric(v) < 0x1_0000_0000
  {
    ValueOfBound(FromBigEndian(v));
    assert Pow256(4) == 0x1_0000_0000;
  }

  /** A run of `t` zero octets stands for 0, a run of `t` all-ones octets
      for `256^t - 1`. */
  lemma {:induction false} ValueOfRepeat(t: nat)
    ensures ValueOf(Repeat(0, t)) == 0
    ensures ValueOf(Repeat(0xFF, t)) == Pow256(t) - 1
  {
    if t > 0 {
      ValueOfRepeat(t - 1);
      ValueOfSnoc(Repeat(0, t - 1), 0);
      ValueOfSnoc(Repeat(0xFF, t - 1), 0xFF);
    }
  }

  /** The zero word stands for 0 and the all-ones word for 2^32 - 1. */
  lemma NumericExtremes()
    ensures Numeric(0) == 0
    ensures Numeric(0xFFFF_FFFF) == 0xFFFF_FFFF
  {
    ValueOfRepeat(4);
    assert FromBigEndian(0) == Repeat(0, 4);
    assert FromBigEndian(0xFFFF_FFFF) == Repeat(0xFF, 4);
    assert Pow256(4) == 0x1_0000_0000;
  }

  /** Distinct words stand for distinct numbers. */
  lemma NumericInjective(v: bv32, w: bv32)
    ensures Numeric(v) == Numeric(w) <==> v == w
  {
    if Numeric(v) == Numeric(w) {
      ValueOfInjective(FromBigEndian(v), FromBigEndian(w));
      BigEndianRoundTrip(FromBigEndian(v), v);
      BigEndianRoundTrip(FromBigEndian(w), w);
    }
  }

  lemma IncCarry0(v: bv32)
    requires FromBigEndian(v)[3] != 0xFF
    ensures FromBigEndian(v) == FromBigEndian(v)[..3] + [FromBigEndian(v)[3]] + Repeat(0xFF, 0)
    ensures FromBigEndian(v + 1) == FromBigEndian(v)[..3] + [FromBigEndian(v)[3] + 1] + Repeat(0, 0)
  {
  }

  lemma IncCarry1(v: bv32)
    requires FromBigEndian(v)[3] == 0xFF && FromBigEndian(v)[2] != 0xFF
    ensures FromBigEndian(v) == FromBigEndian(v)[..2] + [FromBigEndian(v)[2]] + Repeat(0xFF, 1)
    ensures FromBigEndian(v + 1) == FromBigEndian(v)[..2] + [FromBigEndian(v)[2] + 1] + Repeat(0, 1)
  {
  }

  lemma IncCarry2(v: bv32)
    requires FromBigEndian(v)[3] == 0xFF && FromBigEndian(v)[2] == 0xFF && FromBigEndian(v)[1] != 0xFF
    ensures FromBigEndian(v) == FromBigEndian(v)[..1] + [FromBigEndian(v)[1]] + Repeat(0xFF, 2)
    ensures FromBigEndian(v + 1) == FromBigEndian(v)[..1] + [FromBigEndian(v)[1] + 1] + Repeat(0, 2)
  {
  }

  lemma IncCarry3(v: bv32)
    requires FromBigEndian(v)[3] == 0xFF && FromBigEndian(v)[2] == 0xFF && FromBigEndian(v)[1] == 0xFF
    requires v != 0xFFFF_FFFF
    ensures FromBigEndian(v)[0] != 0xFF
    ensures FromBigEndian(v) == [] + [FromBigEndian(v)[0]] + Repeat(0xFF, 3)
    ensures FromBigEndian(v + 1) == [] + [FromBigEndian(v)[0] + 1] + Repeat(0, 3)
  {
  }

  lemma NumericInc0(v: bv32)
    requires FromBigEndian(v)[3] != 0xFF
    ensures Numeric(v + 1) == Numeric(v) + 1
  {
    var a := FromBigEndian(v);
    IncCarry0(v);
    ValueOfCarry(a[..3], a[3], 0);
  }

  lemma NumericInc1(v: bv32)
    requires FromBigEndian(v)[3] == 0xFF && FromBigEndian(v)[2] != 0xFF
    ensures Numeric(v + 1) == Numeric(v) + 1
  {
    var a := FromBigEndian(v);
    IncCarry1(v);
    ValueOfCarry(a[..2], a[2], 1);
  }

  lemma NumericInc2(v: bv32)
    requires FromBigEndian(v)[3] == 0xFF && FromBigEndian(v)[2] == 0xFF && FromBigEndian(v)[1] != 0xFF
    ensures Numeric(v + 1) == Numeric(v) + 1
  {
    var a := FromBigEndian(v);
    IncCarry2(v);
    ValueOfCarry(a[..1], a[1], 2);
  }

  lemma NumericInc3(v: bv32)
    requires FromBigEndian(v)[3] == 0xFF && FromBigEndian(v)[2] == 0xFF && FromBigEndian(v)[1] == 0xFF
    requires v != 0xFFFF_FFFF
    ensures Numeric(v + 1) == Numeric(v) + 1
  {
    var a := FromBigEndian(v);
    IncCarry3(v);
    ValueOfCarry([], a[0], 3);
  }

  /** Go's `v += 1` on a `uint32`: wraps around to 0 after 2^32 - 1. */
  function Succ(v: bv32): bv32
  {
    v + 1
  }

  /** Go's `v -= 1` on a `uint32`: wraps around to 2^32 - 1 below 0. */
  function Pred(v: bv32): bv32
  {
    v - 1
  }

  /** `uint32` increment adds one to the number unless it wraps around. */
  lemma NumericInc(v: bv32)
    requires v != 0xFFFF_FFFF
    ensures Numeric(v + 1) == Numeric(v) + 1
  {
    var a := FromBigEndian(v);
    if a[3] != 0xFF {
      NumericInc0(v);
    } else if a[2] != 0xFF {
      NumericInc1(v);
    } else if a[1] != 0xFF {
      NumericInc2(v);
    } else {
      NumericInc3(v);
    }
  }

  /** `uint32` decrement takes one from the number unless it wraps around. */
  lemma NumericDec(v: bv32)
    requires v != 0
    ensures Numeric(Pred(v)) + 1 == Numeric(v)
  {
    var w := Pred(v);
    assert w + 1 == v;
    NumericInc(w);
  }

  /** Octet-wise `<=` gives `<=` on the numbers. */
  lemma {:induction false} ValueOfMonotone(s: seq<bv8>, t: seq<bv8>)
    requires |s| == |t| && forall i :: 0 <= i < |s| ==> s[i] <= t[i]
    ensures ValueOf(s) <= ValueOf(t)
    decreases |s|
  {
    if s != [] {
      var n := |s| - 1;
      ValueOfMonotone(s[..n], t[..n]);
      OctetLe(s[n], t[n]);
    }
  }

  /** The number of an address, written out in base 256. */
  lemma ValueOfFour(a: IP4Address)
    ensures ValueOf(a) == a[0] as int * 0x100_0000 + a[1] as int * 0x1_0000 + a[2] as int * 0x100 + a[3] as int
  {
    var a3, a2, a1 := a[..3], a[..2], a[..1];
    assert a3[..2] == a2 && a2[..1] == a1 && a1[..0] == [];
    assert ValueOf(a1) == a[0] as int;
    assert ValueOf(a2) == ValueOf(a1) * 256 + a[1] as int;
    assert ValueOf(a3) == ValueOf(a2) * 256 + a[2] as int;
    assert ValueOf(a) == ValueOf(a3) * 256 + a[3] as int;
  }

  /** Go's `<=` on `uint32` values: comparison of the numbers they stand
      for. */
  predicate WordLe(v: bv32, w: bv32)
  {
    Numeric(v) <= Numeric(w)
  }
}
